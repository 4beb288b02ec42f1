/** Bytes, and the line arithmetic shared by the stream decoder and the session log. */
module Bytes {
  newtype byte = x: int | 0 <= x < 256

  type Bytes = seq<byte>

  const LF: byte := 10
  const CR: byte := 13

  function Concat(parts: seq<Bytes>): Bytes {
    if parts == [] then [] else parts[0] + Concat(parts[1..])
  }

  lemma {:induction false} ConcatAppend(a: seq<Bytes>, b: seq<Bytes>)
    ensures Concat(a + b) == Concat(a) + Concat(b)
  {
    if a == [] {
      assert a + b == b;
    } else {
      assert (a + b)[1..] == a[1..] + b;
      ConcatAppend(a[1..], b);
    }
  }

  lemma ConcatOne(a: Bytes)
    ensures Concat([a]) == a
  {
    assert Concat([a]) == a + Concat([]);
  }

  // ---- searching ----

  /** Where the byte is first found, or the length. */
  function Find(s: Bytes, b: byte): (i: nat)
    ensures i <= |s|
    ensures i < |s| ==> s[i] == b
    ensures b !in s[..i]
  {
    if s == [] || s[0] == b then 0
    else
      assert s[..1 + Find(s[1..], b)] == [s[0]] + s[1..][..Find(s[1..], b)];
      1 + Find(s[1..], b)
  }

  lemma {:induction false} FindsFirst(front: Bytes, b: byte, rest: Bytes)
    requires b !in front
    ensures Find(front + [b] + rest, b) == |front|
  {
    if front != [] {
      assert (front + [b] + rest)[1..] == front[1..] + [b] + rest;
      FindsFirst(front[1..], b, rest);
    }
  }

  // ---- lines ----

  /** What follows the last LF. */
  function Rest(s: Bytes): Bytes {
    if s == [] || s[|s| - 1] == LF then [] else Rest(s[..|s| - 1]) + [s[|s| - 1]]
  }

  /** The lines that end in an LF, without it. `LinesAreExact` says that they and the rest are the whole of `s`. */
  function Lines(s: Bytes): seq<Bytes> {
    if s == [] then []
    else if s[|s| - 1] == LF then Lines(s[..|s| - 1]) + [Rest(s[..|s| - 1])]
    else Lines(s[..|s| - 1])
  }

  function Terminated(lines: seq<Bytes>): Bytes {
    if lines == [] then [] else Terminated(lines[..|lines| - 1]) + lines[|lines| - 1] + [LF]
  }

  lemma {:induction false} LinesAreExact(s: Bytes)
    ensures Terminated(Lines(s)) + Rest(s) == s
    ensures LF !in Rest(s) && forall line <- Lines(s) :: LF !in line
    decreases |s|
  {
    if s != [] {
      var front := s[..|s| - 1];
      LinesAreExact(front);
      assert s == front + [s[|s| - 1]];
      if s[|s| - 1] == LF {
        assert Lines(s)[..|Lines(s)| - 1] == Lines(front);
      }
    }
  }

  lemma {:induction false} LinesOfTerminated(lines: seq<Bytes>, rest: Bytes)
    requires LF !in rest && forall line <- lines :: LF !in line
    ensures Lines(Terminated(lines) + rest) == lines && Rest(Terminated(lines) + rest) == rest
    decreases |lines|, |rest|
  {
    var s := Terminated(lines) + rest;
    if rest != [] {
      var front := rest[..|rest| - 1];
      assert s[..|s| - 1] == Terminated(lines) + front;
      assert rest == front + [rest[|rest| - 1]];
      LinesOfTerminated(lines, front);
    } else if lines != [] {
      var front, last := lines[..|lines| - 1], lines[|lines| - 1];
      assert s[..|s| - 1] == Terminated(front) + last && s[|s| - 1] == LF;
      LinesOfTerminated(front, last);
      assert lines == front + [last];
    }
  }
}
