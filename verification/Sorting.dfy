/**
 The order Rust compares strings and pairs of them in, and the sorted arrangement `sort` produces.
 `SortedUnique` says the arrangement depends on nothing but the elements, so the model's own sort
 stands for the library's.
 */
module Sorting {
  import opened Bytes

  type Pair = (bytes, bytes)

  /** Lexicographic order of byte strings. */
  predicate Leq(a: bytes, b: bytes) {
    a == [] || (b != [] && (a[0] < b[0] || (a[0] == b[0] && Leq(a[1..], b[1..]))))
  }

  /** Names first, then values. */
  predicate PairLeq(p: Pair, q: Pair) {
    if p.0 == q.0 then Leq(p.1, q.1) else Leq(p.0, q.0)
  }

  lemma {:induction false} LeqTotal(a: bytes, b: bytes)
    ensures Leq(a, b) || Leq(b, a)
    ensures Leq(a, b) && Leq(b, a) ==> a == b
    ensures Leq(a, a)
  {
    if a != [] {
      LeqTotal(a[1..], if b == [] then [] else b[1..]);
      assert a == [a[0]] + a[1..];
      assert b != [] ==> b == [b[0]] + b[1..];
    }
  }

  lemma {:induction false} LeqTransitive(a: bytes, b: bytes, c: bytes)
    requires Leq(a, b) && Leq(b, c)
    ensures Leq(a, c)
  {
    if a != [] && a[0] == b[0] && b[0] == c[0] {
      LeqTransitive(a[1..], b[1..], c[1..]);
    }
  }

  lemma PairTotal(p: Pair, q: Pair)
    ensures PairLeq(p, q) || PairLeq(q, p)
    ensures PairLeq(p, q) && PairLeq(q, p) ==> p == q
    ensures PairLeq(p, p)
  {
    LeqTotal(p.0, q.0);
    LeqTotal(p.1, q.1);
  }

  lemma PairTransitive(p: Pair, q: Pair, r: Pair)
    requires PairLeq(p, q) && PairLeq(q, r)
    ensures PairLeq(p, r)
  {
    LeqTotal(p.0, q.0);
    if p.0 == q.0 && q.0 == r.0 {
      LeqTransitive(p.1, q.1, r.1);
    } else if p.0 != q.0 && q.0 != r.0 {
      LeqTransitive(p.0, q.0, r.0);
    }
  }

  ghost predicate Sorted(s: seq<Pair>) {
    forall i, j | 0 <= i < j < |s| :: PairLeq(s[i], s[j])
  }

  function Insert(p: Pair, s: seq<Pair>): seq<Pair> {
    if s == [] then [p] else if PairLeq(p, s[0]) then [p] + s else [s[0]] + Insert(p, s[1..])
  }

  function Sort(s: seq<Pair>): seq<Pair> {
    if s == [] then [] else Insert(s[0], Sort(s[1..]))
  }

  lemma {:induction false} InsertKeeps(p: Pair, s: seq<Pair>)
    ensures multiset(Insert(p, s)) == multiset(s) + multiset{p}
  {
    if s != [] && !PairLeq(p, s[0]) {
      InsertKeeps(p, s[1..]);
      assert s == [s[0]] + s[1..];
    }
  }

  lemma {:induction false} InsertSorted(p: Pair, s: seq<Pair>)
    requires Sorted(s)
    ensures Sorted(Insert(p, s))
  {
    if s != [] {
      PairTotal(p, s[0]);
      if PairLeq(p, s[0]) {
        forall i | 0 < i < |s|
          ensures PairLeq(p, s[i])
        {
          PairTransitive(p, s[0], s[i]);
        }
      } else {
        var rest := Insert(p, s[1..]);
        InsertSorted(p, s[1..]);
        InsertKeeps(p, s[1..]);
        forall i | 0 <= i < |rest|
          ensures PairLeq(s[0], rest[i])
        {
          assert rest[i] in multiset(rest);
          assert rest[i] == p || rest[i] in s[1..];
        }
      }
    }
  }

  /** The sorted arrangement of the same elements. */
  lemma {:induction false} SortSorts(s: seq<Pair>)
    ensures Sorted(Sort(s)) && multiset(Sort(s)) == multiset(s)
  {
    if s != [] {
      SortSorts(s[1..]);
      InsertSorted(s[0], Sort(s[1..]));
      InsertKeeps(s[0], Sort(s[1..]));
      assert s == [s[0]] + s[1..];
    }
  }

  /** There is only one. */
  lemma {:induction false} SortedUnique(a: seq<Pair>, b: seq<Pair>)
    requires Sorted(a) && Sorted(b) && multiset(a) == multiset(b)
    ensures a == b
  {
    assert |multiset(a)| == |a| && |multiset(b)| == |b|;
    if a != [] {
      var x, y := a[0], b[0];
      FirstIsLeast(a, y);
      FirstIsLeast(b, x);
      PairTotal(x, y);
      FirstRemoved(a);
      FirstRemoved(b);
      SortedUnique(a[1..], b[1..]);
      assert a == [x] + a[1..] && b == [y] + b[1..];
    }
  }

  lemma FirstIsLeast(a: seq<Pair>, p: Pair)
    requires Sorted(a) && p in multiset(a)
    ensures PairLeq(a[0], p)
  {
    PairTotal(a[0], a[0]);
    assert p in a;
  }

  lemma FirstRemoved(a: seq<Pair>)
    requires a != []
    ensures multiset(a[1..]) == multiset(a) - multiset{a[0]}
  {
    assert a == [a[0]] + a[1..];
  }

  /** Sorting forgets the order and nothing else. */
  lemma SortCanonical(a: seq<Pair>, b: seq<Pair>)
    ensures Sort(a) == Sort(b) <==> multiset(a) == multiset(b)
  {
    SortSorts(a);
    SortSorts(b);
    if multiset(a) == multiset(b) {
      SortedUnique(Sort(a), Sort(b));
    }
  }

  function Map(s: seq<Pair>, f: Pair -> Pair): (r: seq<Pair>)
    ensures |r| == |s| && forall i | 0 <= i < |s| :: r[i] == f(s[i])
  {
    seq(|s|, i requires 0 <= i < |s| => f(s[i]))
  }

  /** A function applied throughout keeps two lists permutations of each other. */
  lemma {:induction false} MapPermutes(a: seq<Pair>, b: seq<Pair>, f: Pair -> Pair)
    requires multiset(a) == multiset(b)
    ensures multiset(Map(a, f)) == multiset(Map(b, f))
    decreases |a|
  {
    assert |multiset(a)| == |a| && |multiset(b)| == |b|;
    if a == [] {
      assert Map(a, f) == Map(b, f);
    } else {
      var i := Occurrence(a[0], b);
      WithoutOne(a, 0);
      WithoutOne(b, i);
      assert multiset(Without(a, 0)) == multiset(a) - multiset{a[0]};
      assert multiset(Without(b, i)) == multiset(b) - multiset{a[0]};
      MapPermutes(Without(a, 0), Without(b, i), f);
      MapWithout(a, 0, f);
      MapWithout(b, i, f);
    }
  }

  lemma Occurrence(p: Pair, b: seq<Pair>) returns (i: nat)
    requires p in multiset(b)
    ensures i < |b| && b[i] == p
  {
    i :| 0 <= i < |b| && b[i] == p;
  }

  function Without(b: seq<Pair>, i: nat): (r: seq<Pair>)
    requires i < |b|
    ensures |r| == |b| - 1
  {
    b[..i] + b[i + 1..]
  }

  lemma WithoutOne(b: seq<Pair>, i: nat)
    requires i < |b|
    ensures multiset(b) == multiset(Without(b, i)) + multiset{b[i]}
  {
    assert b == b[..i] + [b[i]] + b[i + 1..];
  }

  lemma MapWithout(b: seq<Pair>, i: nat, f: Pair -> Pair)
    requires i < |b|
    ensures multiset(Map(b, f)) == multiset(Map(Without(b, i), f)) + multiset{f(b[i])}
  {
    WithoutOne(Map(b, f), i);
    assert Without(Map(b, f), i) == Map(Without(b, i), f);
  }

  /** Lists without repeats and with the same elements are permutations of each other. */
  lemma {:induction false} SameSetPermutes(a: seq<Pair>, b: seq<Pair>)
    requires forall i, j | 0 <= i < j < |a| :: a[i] != a[j]
    requires forall i, j | 0 <= i < j < |b| :: b[i] != b[j]
    requires forall p :: p in a <==> p in b
    ensures multiset(a) == multiset(b)
  {
    forall p
      ensures multiset(a)[p] == multiset(b)[p]
    {
      AtMostOnce(a, p);
      AtMostOnce(b, p);
    }
  }

  lemma {:induction false} AtMostOnce(a: seq<Pair>, p: Pair)
    requires forall i, j | 0 <= i < j < |a| :: a[i] != a[j]
    ensures multiset(a)[p] == if p in a then 1 else 0
  {
    if a != [] {
      AtMostOnce(a[1..], p);
      assert a == [a[0]] + a[1..];
    }
  }
}
