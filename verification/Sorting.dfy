/** A stable sort, the orders it is used with, and why its result does not depend on the order of its input. */
module Sorting {

  ghost predicate Order<T(!new)>(le: (T, T) -> bool) {
    && (forall x, y :: le(x, y) || le(y, x))
    && (forall x, y, z :: le(x, y) && le(y, z) ==> le(x, z))
  }

  predicate Sorted<T>(s: seq<T>, le: (T, T) -> bool) {
    forall i, j | 0 <= i < j < |s| :: le(s[i], s[j])
  }

  ghost predicate Strict<T>(s: seq<T>, le: (T, T) -> bool) {
    forall x, y | x in s && y in s && le(x, y) && le(y, x) :: x == y
  }

  function Insert<T>(x: T, s: seq<T>, le: (T, T) -> bool): (r: seq<T>)
    ensures multiset(r) == multiset{x} + multiset(s)
  {
    if s == [] then [x]
    else if le(x, s[0]) then [x] + s
    else
      assert s == [s[0]] + s[1..];
      [s[0]] + Insert(x, s[1..], le)
  }

  /** Elements that compare equal keep their order. */
  function Sort<T>(s: seq<T>, le: (T, T) -> bool): (r: seq<T>)
    ensures multiset(r) == multiset(s)
  {
    if s == [] then []
    else
      assert s == [s[0]] + s[1..];
      Insert(s[0], Sort(s[1..], le), le)
  }

  lemma SameElements<T>(a: seq<T>, b: seq<T>)
    requires multiset(a) == multiset(b)
    ensures |a| == |b| && forall x :: x in a <==> x in b
  {
    forall x ensures x in a <==> x in b {
      assert x in a <==> x in multiset(a);
      assert x in b <==> x in multiset(b);
    }
    assert |multiset(a)| == |a| && |multiset(b)| == |b|;
  }

  lemma {:induction false} InsertSorts<T(!new)>(x: T, s: seq<T>, le: (T, T) -> bool)
    requires Order(le) && Sorted(s, le)
    ensures Sorted(Insert(x, s, le), le)
    decreases |s|
  {
    var r := Insert(x, s, le);
    if s != [] && !le(x, s[0]) {
      InsertSorts(x, s[1..], le);
      var rest := Insert(x, s[1..], le);
      forall j | 0 <= j < |rest| ensures le(s[0], rest[j]) {
        assert rest[j] in multiset(rest);
        if rest[j] != x {
          assert rest[j] in s[1..];
        }
      }
    }
  }

  lemma {:induction false} SortSorts<T(!new)>(s: seq<T>, le: (T, T) -> bool)
    requires Order(le)
    ensures Sorted(Sort(s, le), le)
    decreases |s|
  {
    if s != [] {
      SortSorts(s[1..], le);
      InsertSorts(s[0], Sort(s[1..], le), le);
    }
  }

  /** Two sorted arrangements of the same elements are equal when no two of the elements tie. */
  lemma {:induction false} SortedIsUnique<T>(a: seq<T>, b: seq<T>, le: (T, T) -> bool)
    requires Sorted(a, le) && Sorted(b, le) && multiset(a) == multiset(b) && Strict(a, le)
    ensures a == b
    decreases |a|
  {
    SameElements(a, b);
    if a != [] {
      SameFirst(a, b, le);
      var x, c, d := a[0], a[1..], b[1..];
      assert a == [x] + c && b == [x] + d;
      assert multiset(a) == multiset{x} + multiset(c) && multiset(b) == multiset{x} + multiset(d);
      assert multiset(c) == multiset(a) - multiset{x} && multiset(d) == multiset(b) - multiset{x};
      TailStaysStrict(a, le);
      SortedIsUnique(c, d, le);
    }
  }

  lemma SameFirst<T>(a: seq<T>, b: seq<T>, le: (T, T) -> bool)
    requires Sorted(a, le) && Sorted(b, le) && multiset(a) == multiset(b) && Strict(a, le) && a != [] && b != []
    ensures a[0] == b[0]
  {
    SameElements(a, b);
    assert b[0] in b && a[0] in a;
    assert b[0] in a && a[0] in b;
    FirstIsLeast(a, b[0], le);
    FirstIsLeast(b, a[0], le);
  }

  lemma TailStaysStrict<T>(s: seq<T>, le: (T, T) -> bool)
    requires s != [] && Sorted(s, le) && Strict(s, le)
    ensures Sorted(s[1..], le) && Strict(s[1..], le)
  {
    assert forall x :: x in s[1..] ==> x in s;
  }

  lemma FirstIsLeast<T>(s: seq<T>, x: T, le: (T, T) -> bool)
    requires Sorted(s, le) && x in s
    ensures x == s[0] || le(s[0], x)
  {
  }

  /** Sorting two arrangements of the same elements gives the same sequence. */
  lemma SortForgetsOrder<T(!new)>(a: seq<T>, b: seq<T>, le: (T, T) -> bool)
    requires Order(le) && multiset(a) == multiset(b) && Strict(a, le)
    ensures Sort(a, le) == Sort(b, le)
  {
    SortSorts(a, le);
    SortSorts(b, le);
    SameElements(a, Sort(a, le));
    SortedIsUnique(Sort(a, le), Sort(b, le), le);
  }

  lemma {:induction false} SortedStays<T>(s: seq<T>, le: (T, T) -> bool)
    requires Sorted(s, le)
    ensures Sort(s, le) == s
    decreases |s|
  {
    if s != [] {
      SortedStays(s[1..], le);
    }
  }

  // ---- rearranging ----

  lemma Pick<T>(s: seq<T>, x: T, rest: multiset<T>) returns (left: seq<T>, right: seq<T>)
    requires multiset(s) == multiset{x} + rest
    ensures s == left + [x] + right && multiset(left + right) == rest
  {
    assert x in multiset(s);
    var k :| 0 <= k < |s| && s[k] == x;
    left, right := s[..k], s[k + 1..];
    assert s == left + [x] + right;
    assert multiset(s) == multiset(left) + multiset{x} + multiset(right);
    assert multiset(left + right) == multiset(left) + multiset(right) == multiset(s) - multiset{x};
    assert rest == multiset(s) - multiset{x};
  }

  function Apply<T, U>(f: T -> U, s: seq<T>): (r: seq<U>)
    ensures |r| == |s| && forall i | 0 <= i < |s| :: r[i] == f(s[i])
  {
    seq(|s|, i requires 0 <= i < |s| => f(s[i]))
  }

  lemma ApplyConcat<T, U>(f: T -> U, a: seq<T>, b: seq<T>)
    ensures Apply(f, a + b) == Apply(f, a) + Apply(f, b)
  {
  }

  lemma {:induction false} ApplyPermutes<T, U>(f: T -> U, a: seq<T>, b: seq<T>)
    requires multiset(a) == multiset(b)
    ensures multiset(Apply(f, a)) == multiset(Apply(f, b))
    decreases |a|
  {
    SameElements(a, b);
    if a != [] {
      var x, rest := a[0], a[1..];
      assert a == [x] + rest && multiset(a) == multiset{x} + multiset(rest);
      var left, right := Pick(b, x, multiset(rest));
      ApplyPermutes(f, rest, left + right);
      assert Apply(f, [x]) == [f(x)];
      ApplyConcat(f, [x], rest);
      ApplyConcat(f, left, right);
      ApplyConcat(f, left + [x], right);
      ApplyConcat(f, left, [x]);
    }
  }

  // ---- lexicographic order ----

  /** Byte strings and identifiers compare element by element, a prefix before what it starts. */
  predicate LexLe<T(==)>(a: seq<T>, b: seq<T>, rank: T -> int) {
    a == [] || (b != [] && (rank(a[0]) < rank(b[0]) || (a[0] == b[0] && LexLe(a[1..], b[1..], rank))))
  }

  ghost predicate Injective<T(!new)>(rank: T -> int) {
    forall x, y :: rank(x) == rank(y) ==> x == y
  }

  lemma {:induction false} LexTotal<T(!new)>(a: seq<T>, b: seq<T>, rank: T -> int)
    requires Injective(rank)
    ensures LexLe(a, b, rank) || LexLe(b, a, rank)
    decreases |a|
  {
    if a != [] && b != [] && a[0] == b[0] {
      LexTotal(a[1..], b[1..], rank);
    }
  }

  lemma {:induction false} LexTransitive<T(!new)>(a: seq<T>, b: seq<T>, c: seq<T>, rank: T -> int)
    requires LexLe(a, b, rank) && LexLe(b, c, rank)
    ensures LexLe(a, c, rank)
    decreases |a|
  {
    if a != [] && b != [] && c != [] && a[0] == b[0] && b[0] == c[0] {
      LexTransitive(a[1..], b[1..], c[1..], rank);
    }
  }

  lemma {:induction false} LexAntisymmetric<T(!new)>(a: seq<T>, b: seq<T>, rank: T -> int)
    requires LexLe(a, b, rank) && LexLe(b, a, rank)
    ensures a == b
    decreases |a|
  {
    if a != [] && b != [] {
      LexAntisymmetric(a[1..], b[1..], rank);
      assert a == [a[0]] + a[1..] && b == [b[0]] + b[1..];
    }
  }

  /** Before in the dictionary, or the same: where they first differ the first is less, or it ends there. */
  predicate Alphabetical<T(==)>(a: seq<T>, b: seq<T>, rank: T -> int) {
    exists k :: 0 <= k <= |a| && k <= |b| && a[..k] == b[..k] && (k == |a| || (k < |b| && rank(a[k]) < rank(b[k])))
  }

  lemma {:induction false} LexIsAlphabetical<T>(a: seq<T>, b: seq<T>, rank: T -> int)
    ensures LexLe(a, b, rank) <==> Alphabetical(a, b, rank)
    decreases |a|
  {
    if a == [] {
      assert a[..0] == b[..0];
    } else if b != [] {
      if a[0] == b[0] {
        LexIsAlphabetical(a[1..], b[1..], rank);
        AlphabeticalRest(a, b, rank);
      }
      if rank(a[0]) < rank(b[0]) {
        assert a[..0] == b[..0];
      }
    }
  }

  lemma AlphabeticalRest<T>(a: seq<T>, b: seq<T>, rank: T -> int)
    requires a != [] && b != [] && a[0] == b[0]
    ensures Alphabetical(a, b, rank) <==> Alphabetical(a[1..], b[1..], rank)
  {
    var c, d := a[1..], b[1..];
    if Alphabetical(c, d, rank) {
      var k :| 0 <= k <= |c| && k <= |d| && c[..k] == d[..k] && (k == |c| || (k < |d| && rank(c[k]) < rank(d[k])));
      assert a[..k + 1] == [a[0]] + c[..k] && b[..k + 1] == [b[0]] + d[..k];
    }
    if Alphabetical(a, b, rank) {
      var k :| 0 <= k <= |a| && k <= |b| && a[..k] == b[..k] && (k == |a| || (k < |b| && rank(a[k]) < rank(b[k])));
      if k > 0 {
        assert c[..k - 1] == a[..k][1..] && d[..k - 1] == b[..k][1..];
      } else {
        assert c[..0] == d[..0];
      }
    }
  }
}
