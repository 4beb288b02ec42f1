/** Well-formed UTF-8 (section 4 of RFC 3629), as `std::str::from_utf8` accepts it. */
module Utf8 {
  import opened Bytes
  import opened Text
  import opened Sequences

  predicate IsAscii(b: byte) {
    b < 0x80
  }

  predicate Tail(s: Bytes, i: nat, low: byte, high: byte) {
    i < |s| && low <= s[i] <= high
  }

  /** The length of the well-formed character at the start of the bytes, or 0 where there is none. */
  function Head(s: Bytes): (n: nat)
    ensures n <= |s| && n <= 4
  {
    if s == [] then 0
    else
      var b := s[0];
      if b < 0x80 then 1
      else if 0xc2 <= b <= 0xdf && Tail(s, 1, 0x80, 0xbf) then 2
      else if b == 0xe0 && Tail(s, 1, 0xa0, 0xbf) && Tail(s, 2, 0x80, 0xbf) then 3
      else if (0xe1 <= b <= 0xec || 0xee <= b <= 0xef) && Tail(s, 1, 0x80, 0xbf) && Tail(s, 2, 0x80, 0xbf) then 3
      else if b == 0xed && Tail(s, 1, 0x80, 0x9f) && Tail(s, 2, 0x80, 0xbf) then 3
      else if b == 0xf0 && Tail(s, 1, 0x90, 0xbf) && Tail(s, 2, 0x80, 0xbf) && Tail(s, 3, 0x80, 0xbf) then 4
      else if 0xf1 <= b <= 0xf3 && Tail(s, 1, 0x80, 0xbf) && Tail(s, 2, 0x80, 0xbf) && Tail(s, 3, 0x80, 0xbf) then 4
      else if b == 0xf4 && Tail(s, 1, 0x80, 0x8f) && Tail(s, 2, 0x80, 0xbf) && Tail(s, 3, 0x80, 0xbf) then 4
      else 0
  }

  predicate Valid(s: Bytes)
    decreases |s|
  {
    s == [] || (Head(s) > 0 && Valid(s[Head(s)..]))
  }

  // A character that is complete stays the first character when more bytes follow.
  lemma HeadStays(a: Bytes, b: Bytes)
    requires Head(a) > 0
    ensures Head(a + b) == Head(a)
  {
  }

  // No character reaches across an ASCII byte.
  lemma HeadStopsAtAscii(a: Bytes, c: byte, b: Bytes)
    requires a != [] && IsAscii(c) && Head(a + [c] + b) > 0
    ensures Head(a) == Head(a + [c] + b)
  {
    var s := a + [c] + b;
    assert s[|a|] == c;
    assert forall i | 0 <= i < |a| :: s[i] == a[i];
  }

  lemma {:induction false} ValidConcat(a: Bytes, b: Bytes)
    requires Valid(a) && Valid(b)
    ensures Valid(a + b)
    decreases |a|
  {
    if a == [] {
      assert a + b == b;
    } else {
      HeadStays(a, b);
      assert (a + b)[Head(a)..] == a[Head(a)..] + b;
      ValidConcat(a[Head(a)..], b);
    }
  }

  /** Text splits at an ASCII byte exactly when both sides are text. */
  lemma {:induction false} ValidAroundAscii(a: Bytes, c: byte, b: Bytes)
    requires IsAscii(c)
    ensures Valid(a + [c] + b) <==> Valid(a) && Valid(b)
    decreases |a|
  {
    var s := a + [c] + b;
    if a == [] {
      assert s[1..] == b && Head(s) == 1;
    } else {
      if Head(a) > 0 {
        HeadStays(a, [c] + b);
        assert a + ([c] + b) == s;
      }
      if Head(s) > 0 {
        HeadStopsAtAscii(a, c, b);
        assert s[Head(s)..] == a[Head(a)..] + [c] + b;
        ValidAroundAscii(a[Head(a)..], c, b);
      }
    }
  }

  lemma ValidBeforeAscii(a: Bytes, c: byte)
    requires IsAscii(c)
    ensures Valid(a + [c]) <==> Valid(a)
  {
    ValidAroundAscii(a, c, []);
    assert a + [c] + [] == a + [c];
  }

  // ---- encoding ----

  // A byte after the first, holding the last six bits.
  function Six(n: nat): (b: byte)
    ensures 0x80 <= b <= 0xbf
  {
    (0x80 + n % 64) as byte
  }

  function ThreeBytes(n: nat): (r: Bytes)
    requires 0x800 <= n < 0xd800 || 0xe000 <= n < 0x10000
    ensures |r| == 3 && Head(r) == 3
  {
    [(0xe0 + n / 4096) as byte, Six(n / 64), Six(n)]
  }

  function FourBytes(n: nat): (r: Bytes)
    requires 0x10000 <= n < 0x110000
    ensures |r| == 4 && Head(r) == 4
  {
    [(0xf0 + n / 262144) as byte, Six(n / 4096), Six(n / 64), Six(n)]
  }

  function EncodeChar(c: char): (r: Bytes)
    ensures |r| == CharBytes(c) && Head(r) == |r|
  {
    var n := c as int;
    if n < 0x80 then [n as byte]
    else if n < 0x800 then [(0xc0 + n / 64) as byte, Six(n)]
    else if n < 0x10000 then ThreeBytes(n)
    else FourBytes(n)
  }

  function Encode(s: string): Bytes {
    if s == "" then [] else EncodeChar(s[0]) + Encode(s[1..])
  }

  // The code point that a well-formed character stands for.
  function Scalar(s: Bytes): int
    requires Head(s) > 0
  {
    var n := Head(s);
    if n == 1 then s[0] as int
    else if n == 2 then (s[0] as int - 0xc0) * 64 + Part(s[1])
    else if n == 3 then (s[0] as int - 0xe0) * 4096 + Part(s[1]) * 64 + Part(s[2])
    else (s[0] as int - 0xf0) * 262144 + Part(s[1]) * 4096 + Part(s[2]) * 64 + Part(s[3])
  }

  function Part(b: byte): int {
    b as int - 0x80
  }

  lemma EncodedScalar(c: char)
    ensures Scalar(EncodeChar(c)) == c as int
  {
    var n := c as int;
    Digits(n);
    Digits(n / 64);
    Digits(n / 4096);
    if n >= 0x10000 {
      assert n == n / 262144 * 262144 + n / 4096 % 64 * 4096 + n / 64 % 64 * 64 + n % 64;
    } else if n >= 0x800 {
      assert n == n / 4096 * 4096 + n / 64 % 64 * 64 + n % 64;
    }
  }

  lemma Digits(n: nat)
    ensures n == n / 64 * 64 + n % 64 && n / 64 / 64 == n / 4096 && n / 4096 / 64 == n / 262144
  {
  }

  /** Encoded text is well formed, and as long as the text counts itself. */
  lemma {:induction false} EncodedIsValid(s: string)
    ensures Valid(Encode(s)) && |Encode(s)| == ByteLength(s)
  {
    if s != "" {
      EncodedIsValid(s[1..]);
      assert EncodeChar(s[0]) + [] == EncodeChar(s[0]) && EncodeChar(s[0])[|EncodeChar(s[0])|..] == [];
      assert Valid([]);
      ValidConcat(EncodeChar(s[0]), Encode(s[1..]));
    }
  }

  /** No two texts are encoded alike. */
  lemma {:induction false} EncodeIsInjective(a: string, b: string)
    requires Encode(a) == Encode(b)
    ensures a == b
  {
    if a != "" && b != "" {
      var x, y := EncodeChar(a[0]), EncodeChar(b[0]);
      HeadStays(x, Encode(a[1..]));
      HeadStays(y, Encode(b[1..]));
      assert x == Encode(a)[..|x|] && y == Encode(b)[..|y|];
      EncodedScalar(a[0]);
      EncodedScalar(b[0]);
      assert Encode(a)[|x|..] == Encode(a[1..]) && Encode(b)[|y|..] == Encode(b[1..]);
      EncodeIsInjective(a[1..], b[1..]);
      assert a == [a[0]] + a[1..] && b == [b[0]] + b[1..];
    }
  }

  // Only an LF is encoded with an LF.
  lemma {:induction false} EncodedLf(s: string)
    ensures LF in Encode(s) <==> '\n' in s
  {
    if s != "" {
      EncodedLf(s[1..]);
      assert s == [s[0]] + s[1..];
      assert LF in EncodeChar(s[0]) <==> s[0] == '\n';
    }
  }

  // ---- decoding ----

  lemma ScalarIsScalar(s: Bytes)
    requires Head(s) > 0
    ensures 0 <= Scalar(s) < 0xd800 || 0xe000 <= Scalar(s) < 0x110000
  {
  }

  function First(s: Bytes): char
    requires Head(s) > 0
  {
    ScalarIsScalar(s);
    Scalar(s) as char
  }

  function Decode(s: Bytes): string
    requires Valid(s)
    decreases |s|
  {
    if s == [] then "" else [First(s)] + Decode(s[Head(s)..])
  }

  lemma ThreeAreEncoded(s: Bytes)
    requires Head(s) == 3
    ensures 0x800 <= Scalar(s) < 0xd800 || 0xe000 <= Scalar(s) < 0x10000
    ensures ThreeBytes(Scalar(s)) == [s[0], s[1], s[2]]
  {
    Split(0, s[0] as int - 0xe0, Part(s[1]), Part(s[2]));
  }

  lemma FourAreEncoded(s: Bytes)
    requires Head(s) == 4
    ensures 0x10000 <= Scalar(s) < 0x110000 && FourBytes(Scalar(s)) == [s[0], s[1], s[2], s[3]]
  {
    Split(s[0] as int - 0xf0, Part(s[1]), Part(s[2]), Part(s[3]));
  }

  lemma FirstIsEncoded(s: Bytes)
    requires Head(s) > 0
    ensures EncodeChar(First(s)) == s[..Head(s)]
  {
    var n := Head(s);
    if n == 2 {
      Split(0, 0, s[0] as int - 0xc0, Part(s[1]));
    } else if n == 3 {
      ThreeAreEncoded(s);
    } else if n == 4 {
      FourAreEncoded(s);
    }
  }

  lemma By64(q: nat, r: nat)
    requires r < 64
    ensures (q * 64 + r) / 64 == q && (q * 64 + r) % 64 == r
  {
  }

  lemma Split(a: nat, b: nat, c: nat, d: nat)
    requires b < 64 && c < 64 && d < 64
    ensures var x := a * 262144 + b * 4096 + c * 64 + d;
            && x % 64 == d && x / 64 % 64 == c && x / 4096 % 64 == b && x / 262144 == a
            && x / 64 == a * 4096 + b * 64 + c && x / 4096 == a * 64 + b
  {
    var x := a * 262144 + b * 4096 + c * 64 + d;
    By64(a * 4096 + b * 64 + c, d);
    By64(a * 64 + b, c);
    By64(a, b);
    Digits(x);
  }

  lemma EncodeCons(c: char, t: string)
    ensures Encode([c] + t) == EncodeChar(c) + Encode(t)
  {
    assert ([c] + t)[1..] == t;
  }

  lemma Recodes(s: Bytes, t: string)
    requires Head(s) > 0 && Encode(t) == s[Head(s)..]
    ensures Encode([First(s)] + t) == s
  {
    EncodeCons(First(s), t);
    FirstIsEncoded(s);
    Halves(s, Head(s));
  }

  /** Well-formed bytes are the encoding of the text they decode to. */
  lemma {:induction false} DecodedEncodes(s: Bytes)
    requires Valid(s)
    ensures Encode(Decode(s)) == s
    decreases |s|
  {
    if s != [] {
      DecodedEncodes(s[Head(s)..]);
      Recodes(s, Decode(s[Head(s)..]));
    }
  }
}
