/** The library sort every algorithm below starts from: a stable sort by a total preorder. */
module Sorting {

  ghost predicate TotalPreorder<T(!new)>(le: (T, T) -> bool) {
    && (forall a, b :: le(a, b) || le(b, a))
    && (forall a, b, c :: le(a, b) && le(b, c) ==> le(a, c))
  }

  ghost predicate SortedBy<T>(s: seq<T>, le: (T, T) -> bool) {
    forall i, j | 0 <= i < j < |s| :: le(s[i], s[j])
  }

  function Insert<T>(x: T, s: seq<T>, le: (T, T) -> bool): (r: seq<T>)
    ensures |r| == |s| + 1
  {
    if s == [] || le(x, s[0]) then [x] + s else [s[0]] + Insert(x, s[1..], le)
  }

  // An element is inserted before its equals, so equal elements keep their input order.
  function Sort<T>(s: seq<T>, le: (T, T) -> bool): (r: seq<T>)
    ensures |r| == |s|
  {
    if s == [] then [] else Insert(s[0], Sort(s[1..], le), le)
  }

  lemma {:induction false} InsertPermutes<T>(x: T, s: seq<T>, le: (T, T) -> bool)
    ensures multiset(Insert(x, s, le)) == multiset(s) + multiset{x}
  {
    if s == [] || le(x, s[0]) {
    } else {
      InsertPermutes(x, s[1..], le);
      assert s == [s[0]] + s[1..];
    }
  }

  lemma {:induction false} SortPermutes<T>(s: seq<T>, le: (T, T) -> bool)
    ensures multiset(Sort(s, le)) == multiset(s)
    ensures forall x :: x in Sort(s, le) <==> x in s
  {
    if s != [] {
      SortPermutes(s[1..], le);
      InsertPermutes(s[0], Sort(s[1..], le), le);
      assert s == [s[0]] + s[1..];
    }
    forall x ensures x in Sort(s, le) <==> x in s {
      assert x in Sort(s, le) <==> x in multiset(Sort(s, le));
      assert x in s <==> x in multiset(s);
    }
  }

  lemma {:induction false} InsertSorts<T(!new)>(x: T, s: seq<T>, le: (T, T) -> bool)
    requires TotalPreorder(le) && SortedBy(s, le)
    ensures SortedBy(Insert(x, s, le), le)
  {
    if s == [] || le(x, s[0]) {
    } else {
      var rest := Insert(x, s[1..], le);
      InsertSorts(x, s[1..], le);
      InsertPermutes(x, s[1..], le);
      forall j | 0 <= j < |rest| ensures le(s[0], rest[j]) {
        assert rest[j] in multiset(rest);
        assert rest[j] == x || rest[j] in s[1..];
      }
    }
  }

  lemma {:induction false} SortSorts<T(!new)>(s: seq<T>, le: (T, T) -> bool)
    requires TotalPreorder(le)
    ensures SortedBy(Sort(s, le), le)
  {
    if s != [] {
      SortSorts(s[1..], le);
      InsertSorts(s[0], Sort(s[1..], le), le);
    }
  }

  // Neither comes before the other.
  function Ties<T>(le: (T, T) -> bool, y: T): T -> bool { z => le(z, y) && le(y, z) }

  lemma FilterCons<T(!new)>(x: T, s: seq<T>, p: T -> bool)
    ensures Filter([x] + s, p) == if p(x) then [x] + Filter(s, p) else Filter(s, p)
  {
    assert ([x] + s)[1..] == s;
  }

  lemma {:induction false} InsertStable<T(!new)>(x: T, s: seq<T>, le: (T, T) -> bool, y: T)
    requires TotalPreorder(le)
    ensures Filter(Insert(x, s, le), Ties(le, y)) == Filter([x] + s, Ties(le, y))
  {
    if s == [] || le(x, s[0]) {
    } else {
      var p, rest := Ties(le, y), s[1..];
      InsertStable(x, rest, le, y);
      assert s == [s[0]] + rest;
      assert !(p(x) && p(s[0]));
      FilterCons(s[0], Insert(x, rest, le), p);
      FilterCons(x, rest, p);
      FilterCons(s[0], rest, p);
      FilterCons(x, s, p);
    }
  }

  /** The sort is stable: elements that tie keep their input order. */
  lemma {:induction false} SortStable<T(!new)>(s: seq<T>, le: (T, T) -> bool, y: T)
    requires TotalPreorder(le)
    ensures Filter(Sort(s, le), Ties(le, y)) == Filter(s, Ties(le, y))
  {
    if s != [] {
      SortStable(s[1..], le, y);
      InsertStable(s[0], Sort(s[1..], le), le, y);
      FilterCons(s[0], Sort(s[1..], le), Ties(le, y));
      assert s == [s[0]] + s[1..];
      FilterCons(s[0], s[1..], Ties(le, y));
    }
  }

  predicate AtMost(a: int, b: int) { a <= b }

  // sorted(xs) over instants.
  function Ascending(xs: seq<int>): (r: seq<int>) { Sort(xs, AtMost) }

  lemma AscendingFacts(xs: seq<int>)
    ensures forall i, j | 0 <= i < j < |Ascending(xs)| :: Ascending(xs)[i] <= Ascending(xs)[j]
    ensures forall x :: x in Ascending(xs) <==> x in xs
  {
    SortSorts(xs, AtMost);
    SortPermutes(xs, AtMost);
    assert SortedBy(Ascending(xs), AtMost);
    forall i, j | 0 <= i < j < |Ascending(xs)| ensures Ascending(xs)[i] <= Ascending(xs)[j] {
      assert AtMost(Ascending(xs)[i], Ascending(xs)[j]);
    }
  }

  // A strictly ascending sequence of instants, as SELECT DISTINCT ... ORDER BY returns.
  predicate StrictlyAscending(xs: seq<int>) {
    forall i, j | 0 <= i < j < |xs| :: xs[i] < xs[j]
  }

  function InsertDistinct(x: int, s: seq<int>): (r: seq<int>)
    requires StrictlyAscending(s)
    ensures StrictlyAscending(r)
    ensures forall y :: y in r <==> y == x || y in s
  {
    if s == [] || x < s[0] then [x] + s
    else if x == s[0] then s
    else
      var rest := InsertDistinct(x, s[1..]);
      assert forall y :: y in s <==> y == s[0] || y in s[1..];
      assert forall j | 0 <= j < |rest| :: rest[j] in rest;
      [s[0]] + rest
  }

  // The elements of a sequence for which p holds, in order.
  function Filter<T(!new)>(s: seq<T>, p: T -> bool): (r: seq<T>)
    ensures |r| <= |s|
    ensures forall x :: x in r <==> x in s && p(x)
  {
    if s == [] then []
    else if p(s[0]) then
      var r := Filter(s[1..], p);
      assert forall x :: x in s <==> x == s[0] || x in s[1..];
      [s[0]] + r
    else
      assert forall x :: x in s <==> x == s[0] || x in s[1..];
      Filter(s[1..], p)
  }

  lemma {:induction false} FilterConcat<T(!new)>(a: seq<T>, b: seq<T>, p: T -> bool)
    ensures Filter(a + b, p) == Filter(a, p) + Filter(b, p)
  {
    if a == [] {
      assert a + b == b;
    } else {
      assert (a + b)[1..] == a[1..] + b;
      FilterConcat(a[1..], b, p);
    }
  }

  // The instants of [lo, hi).
  function Between(instants: seq<int>, lo: int, hi: int): (r: seq<int>)
    ensures forall x :: x in r <==> x in instants && lo <= x < hi
  {
    Filter(instants, x => lo <= x < hi)
  }

  lemma {:induction false} FilterStrict(s: seq<int>, p: int -> bool)
    requires StrictlyAscending(s)
    ensures StrictlyAscending(Filter(s, p))
  {
    if s != [] {
      var r := Filter(s[1..], p);
      FilterStrict(s[1..], p);
      forall j | 0 <= j < |r| ensures s[0] < r[j] {
        assert r[j] in r;
        assert r[j] in s[1..];
      }
    }
  }

  lemma {:induction false} FilterSame<T(!new)>(s: seq<T>, p: T -> bool, q: T -> bool)
    requires forall x | x in s :: p(x) == q(x)
    ensures Filter(s, p) == Filter(s, q)
  {
    if s != [] { FilterSame(s[1..], p, q); }
  }

  // Positions of s, in order, at which exactly the elements p holds of stand.
  ghost predicate Locates<T(!new)>(at: seq<nat>, s: seq<T>, p: T -> bool) {
    && (forall i, j | 0 <= i < j < |at| :: at[i] < at[j])
    && (forall i: nat :: i in at <==> i < |s| && p(s[i]))
  }

  // t is what stands at those positions.
  ghost predicate StandsAt<T>(t: seq<T>, at: seq<nat>, s: seq<T>) {
    |t| == |at| && forall j | 0 <= j < |at| :: at[j] < |s| && t[j] == s[at[j]]
  }

  lemma LocatesNext<T(!new)>(at: seq<nat>, init: seq<T>, last: T, p: T -> bool)
    requires Locates(at, init, p)
    ensures Locates(if p(last) then at + [|init|] else at, init + [last], p)
  {
    var s, n := init + [last], |init|;
    assert forall j | 0 <= j < |at| :: at[j] in at;
    forall i: nat ensures i in (if p(last) then at + [n] else at) <==> i < |s| && p(s[i]) {
      if i < n { assert s[i] == init[i]; }
    }
  }

  lemma StandsNext<T>(t: seq<T>, at: seq<nat>, init: seq<T>, last: T)
    requires StandsAt(t, at, init)
    ensures StandsAt(t, at, init + [last]) && StandsAt(t + [last], at + [|init|], init + [last])
  {
  }

  lemma {:induction false} FilterPositions<T(!new)>(s: seq<T>, p: T -> bool) returns (at: seq<nat>)
    ensures Locates(at, s, p) && StandsAt(Filter(s, p), at, s)
  {
    if s == [] {
      at := [];
    } else {
      var n := |s| - 1;
      var before := FilterPositions(s[..n], p);
      assert s == s[..n] + [s[n]];
      LocatesNext(before, s[..n], s[n], p);
      FilterLast(s[..n], s[n], p);
      StandsNext(Filter(s[..n], p), before, s[..n], s[n]);
      at := if p(s[n]) then before + [n] else before;
    }
  }

  lemma FilterLast<T(!new)>(init: seq<T>, last: T, p: T -> bool)
    ensures Filter(init + [last], p) == if p(last) then Filter(init, p) + [last] else Filter(init, p)
  {
    FilterConcat(init, [last], p);
    FilterCons(last, [], p);
    assert [last] + [] == [last];
  }
}
