/** Sorting by a total preorder: what qsort and Python's sorted promise, an insertion sort
    that shows it can be had, and uniqueness where the order is antisymmetric. */
module Sorting {

  ghost predicate Total<T(!new)>(leq: (T, T) -> bool)
  {
    && (forall a, b :: leq(a, b) || leq(b, a))
    && (forall a, b, c :: leq(a, b) && leq(b, c) ==> leq(a, c))
  }

  ghost predicate Antisymmetric<T(!new)>(leq: (T, T) -> bool)
  {
    forall a, b :: leq(a, b) && leq(b, a) ==> a == b
  }

  ghost predicate SortedBy<T>(leq: (T, T) -> bool, s: seq<T>)
  {
    forall i, j :: 0 <= i < j < |s| ==> leq(s[i], s[j])
  }

  ghost predicate Permutes<T>(a: seq<T>, b: seq<T>)
  {
    multiset(a) == multiset(b)
  }

  function Insert<T>(leq: (T, T) -> bool, x: T, s: seq<T>): seq<T>
  {
    if s == [] || leq(x, s[0]) then [x] + s else [s[0]] + Insert(leq, x, s[1..])
  }

  function Sort<T>(leq: (T, T) -> bool, s: seq<T>): seq<T>
  {
    if s == [] then [] else Insert(leq, s[0], Sort(leq, s[1..]))
  }

  lemma {:induction false} InsertFacts<T(!new)>(leq: (T, T) -> bool, x: T, s: seq<T>)
    requires Total(leq) && SortedBy(leq, s)
    ensures SortedBy(leq, Insert(leq, x, s))
  {
    if s == [] || leq(x, s[0]) {
      assert forall i :: 0 <= i < |s| ==> leq(x, s[i]);
    } else {
      var r := Insert(leq, x, s[1..]);
      InsertFacts(leq, x, s[1..]);
      forall i | 0 <= i < |r| ensures leq(s[0], r[i]) { InsertMember(leq, x, s[1..], i); }
    }
  }

  lemma {:induction false} InsertMember<T>(leq: (T, T) -> bool, x: T, s: seq<T>, i: nat)
    requires i < |Insert(leq, x, s)|
    ensures Insert(leq, x, s)[i] == x || Insert(leq, x, s)[i] in s
  {
    if s != [] && !leq(x, s[0]) && i > 0 { InsertMember(leq, x, s[1..], i - 1); }
  }

  lemma {:induction false} InsertPermutes<T>(leq: (T, T) -> bool, x: T, s: seq<T>)
    ensures multiset(Insert(leq, x, s)) == multiset{x} + multiset(s)
  {
    if s != [] && !leq(x, s[0]) {
      InsertPermutes(leq, x, s[1..]);
      HeadTail(s);
    }
  }

  lemma HeadTail<T>(s: seq<T>)
    requires s != []
    ensures multiset(s) == multiset{s[0]} + multiset(s[1..])
  {
    assert s == [s[0]] + s[1..];
  }

  lemma TailsPermute<T>(a: seq<T>, b: seq<T>)
    requires Permutes(a, b) && a != [] && b != [] && a[0] == b[0]
    ensures Permutes(a[1..], b[1..])
  {
    HeadTail(a);
    HeadTail(b);
    assert multiset(a[1..]) == multiset(a) - multiset{a[0]};
    assert multiset(b[1..]) == multiset(b) - multiset{b[0]};
  }

  lemma {:induction false} SortFacts<T(!new)>(leq: (T, T) -> bool, s: seq<T>)
    requires Total(leq)
    ensures SortedBy(leq, Sort(leq, s)) && Permutes(Sort(leq, s), s)
  {
    if s != [] {
      SortFacts(leq, s[1..]);
      InsertFacts(leq, s[0], Sort(leq, s[1..]));
      InsertPermutes(leq, s[0], Sort(leq, s[1..]));
      HeadTail(s);
    }
  }

  lemma PermutesLength<T>(a: seq<T>, b: seq<T>)
    requires Permutes(a, b)
    ensures |a| == |b|
  {
    assert |multiset(a)| == |a| && |multiset(b)| == |b|;
  }

  lemma PermutesMember<T>(a: seq<T>, b: seq<T>, x: T)
    requires Permutes(a, b)
    ensures x in a <==> x in b
  {
    assert x in a <==> x in multiset(a);
    assert x in b <==> x in multiset(b);
  }

  /** There is only one way to sort under an antisymmetric order. */
  lemma {:induction false} SortedUnique<T(!new)>(leq: (T, T) -> bool, a: seq<T>, b: seq<T>)
    requires Antisymmetric(leq) && SortedBy(leq, a) && SortedBy(leq, b) && Permutes(a, b)
    ensures a == b
  {
    PermutesLength(a, b);
    if a != [] {
      HeadsAgree(leq, a, b);
      TailsPermute(a, b);
      SortedUnique(leq, a[1..], b[1..]);
    }
  }

  lemma HeadsAgree<T(!new)>(leq: (T, T) -> bool, a: seq<T>, b: seq<T>)
    requires Antisymmetric(leq) && SortedBy(leq, a) && SortedBy(leq, b) && Permutes(a, b)
    requires a != [] && b != []
    ensures a[0] == b[0]
  {
    PermutesMember(a, b, a[0]);
    PermutesMember(a, b, b[0]);
    var i :| 0 <= i < |b| && b[i] == a[0];
    var j :| 0 <= j < |a| && a[j] == b[0];
    assert i > 0 ==> leq(b[0], b[i]);
    assert j > 0 ==> leq(a[0], a[j]);
  }

  /** Sorting forgets the order it was given. */
  lemma SortCanonical<T(!new)>(leq: (T, T) -> bool, a: seq<T>, b: seq<T>)
    requires Total(leq) && Antisymmetric(leq) && Permutes(a, b)
    ensures Sort(leq, a) == Sort(leq, b)
  {
    SortFacts(leq, a);
    SortFacts(leq, b);
    SortedUnique(leq, Sort(leq, a), Sort(leq, b));
  }

  // ----- element-wise images of a permutation

  function FlatMap<T, U>(f: T -> seq<U>, s: seq<T>): seq<U>
  {
    if s == [] then [] else f(s[0]) + FlatMap(f, s[1..])
  }

  lemma {:induction false} FlatMapConcat<T, U>(f: T -> seq<U>, a: seq<T>, b: seq<T>)
    ensures FlatMap(f, a + b) == FlatMap(f, a) + FlatMap(f, b)
  {
    if a == [] {
      assert a + b == b;
    } else {
      assert (a + b)[1..] == a[1..] + b;
      FlatMapConcat(f, a[1..], b);
    }
  }

  lemma FlatMapOne<T, U>(f: T -> seq<U>, x: T)
    ensures FlatMap(f, [x]) == f(x)
  {
    assert FlatMap(f, [x]) == f(x) + [];
  }

  lemma FlatMapMiddle<T, U>(f: T -> seq<U>, a: seq<T>, x: T, b: seq<T>)
    ensures FlatMap(f, a + [x] + b) == FlatMap(f, a) + f(x) + FlatMap(f, b)
  {
    FlatMapConcat(f, a + [x], b);
    FlatMapConcat(f, a, [x]);
    FlatMapOne(f, x);
  }

  /** An element without image may be inserted anywhere. */
  lemma FlatMapDrop<T, U>(f: T -> seq<U>, l: seq<T>, x: T, r: seq<T>)
    requires f(x) == []
    ensures FlatMap(f, l + [x] + r) == FlatMap(f, l + r)
  {
    FlatMapMiddle(f, l, x, r);
    FlatMapConcat(f, l, r);
    var a, b := FlatMap(f, l), FlatMap(f, r);
    assert a + [] + b == a + b;
  }

  lemma AroundOne<T>(s: seq<T>, j: nat)
    requires j < |s|
    ensures s[..j] + [s[j]] + s[j + 1..] == s
  {
  }

  lemma RemoveOne<T>(a: seq<T>, b: seq<T>, j: nat)
    requires Permutes(a, b) && a != [] && j < |b| && b[j] == a[0]
    ensures Permutes(a[1..], b[..j] + b[j + 1..])
  {
    var l, r := b[..j], b[j + 1..];
    AroundOne(b, j);
    MiddleFirst(l, [b[j]], r);
    HeadTail([b[j]] + (l + r));
    TailsPermute(a, [b[j]] + (l + r));
  }

  lemma MiddleFirst<T>(p: seq<T>, q: seq<T>, r: seq<T>)
    ensures multiset(p + q + r) == multiset(q) + multiset(p + r)
  {
    assert multiset(p + q + r) == multiset(p + q) + multiset(r);
    assert multiset(p + q) == multiset(p) + multiset(q);
    assert multiset(p + r) == multiset(p) + multiset(r);
  }

  lemma {:induction false} FlatMapPermutes<T, U>(f: T -> seq<U>, a: seq<T>, b: seq<T>)
    requires Permutes(a, b)
    ensures Permutes(FlatMap(f, a), FlatMap(f, b))
  {
    PermutesLength(a, b);
    if a != [] {
      PermutesMember(a, b, a[0]);
      var j :| 0 <= j < |b| && b[j] == a[0];
      var rest := b[..j] + b[j + 1..];
      RemoveOne(a, b, j);
      FlatMapPermutes(f, a[1..], rest);
      FlatMapPick(f, b, j);
      assert multiset(f(a[0]) + FlatMap(f, a[1..])) == multiset(f(a[0])) + multiset(FlatMap(f, a[1..]));
    }
  }

  lemma FlatMapPick<T, U>(f: T -> seq<U>, b: seq<T>, j: nat)
    requires j < |b|
    ensures multiset(FlatMap(f, b)) == multiset(f(b[j])) + multiset(FlatMap(f, b[..j] + b[j + 1..]))
  {
    AroundOne(b, j);
    FlatMapAround(f, b[..j], b[j], b[j + 1..]);
  }

  lemma FlatMapAround<T, U>(f: T -> seq<U>, l: seq<T>, x: T, r: seq<T>)
    ensures multiset(FlatMap(f, l + [x] + r)) == multiset(f(x)) + multiset(FlatMap(f, l + r))
  {
    FlatMapConcat(f, l, r);
    FlatMapMiddle(f, l, x, r);
    MiddleFirst(FlatMap(f, l), f(x), FlatMap(f, r));
  }

  function Filter<T>(keep: T -> bool, s: seq<T>): (r: seq<T>)
    ensures forall i :: 0 <= i < |r| ==> keep(r[i])
  {
    if s == [] then [] else (if keep(s[0]) then [s[0]] else []) + Filter(keep, s[1..])
  }

  lemma FrontPermutes<T>(x: T, s: seq<T>, k: seq<T>, d: seq<T>)
    requires Permutes(s, k + d)
    ensures Permutes([x] + s, [x] + k + ([] + d))
  {
    assert [x] + k + ([] + d) == [x] + (k + d);
    assert multiset([x] + s) == multiset([x]) + multiset(s);
    assert multiset([x] + (k + d)) == multiset([x]) + multiset(k + d);
  }

  lemma MiddlePermutes<T>(x: T, s: seq<T>, k: seq<T>, d: seq<T>)
    requires Permutes(s, k + d)
    ensures Permutes([x] + s, [] + k + ([x] + d))
  {
    assert [] + k + ([x] + d) == k + [x] + d;
    MiddleFirst(k, [x], d);
    assert multiset([x] + s) == multiset([x]) + multiset(s);
  }

  lemma {:induction false} FilterPartition<T(!new)>(keep: T -> bool, drop: T -> bool, s: seq<T>)
    requires forall x :: keep(x) <==> !drop(x)
    ensures Permutes(s, Filter(keep, s) + Filter(drop, s))
  {
    if s != [] {
      FilterPartition(keep, drop, s[1..]);
      var x, k, d := s[0], Filter(keep, s[1..]), Filter(drop, s[1..]);
      assert s == [x] + s[1..];
      if keep(x) { FrontPermutes(x, s[1..], k, d); } else { MiddlePermutes(x, s[1..], k, d); }
    }
  }

  // ----- numbers

  const LEQ: (int, int) -> bool := (x: int, y: int) => x <= y

  lemma NumbersOrdered()
    ensures Total(LEQ) && Antisymmetric(LEQ)
  {
  }
}
