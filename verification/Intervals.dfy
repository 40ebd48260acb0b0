/** Half-open intervals: merging them, and counting the instants they hold. */
module Intervals {
  import opened Sorting

  datatype Interval = Interval(a: int, b: int)

  predicate Contains(iv: Interval, t: int) { iv.a <= t < iv.b }

  ghost predicate Covers(ivs: seq<Interval>, t: int) {
    exists i :: 0 <= i < |ivs| && Contains(ivs[i], t)
  }

  // Sorted and strictly apart.
  ghost predicate Separated(ivs: seq<Interval>) {
    forall i, j | 0 <= i < j < |ivs| :: ivs[i].a <= ivs[j].a && ivs[i].b < ivs[j].a
  }

  predicate Before(x: Interval, y: Interval) {
    x.a < y.a || (x.a == y.a && x.b <= y.b)
  }

  function Max(x: int, y: int): int { if x < y then y else x }

  function Min(x: int, y: int): int { if x < y then x else y }

  // The loop body of merge: extend the last interval, or open a new one.
  function Absorb(out: seq<Interval>, iv: Interval): seq<Interval> {
    if out != [] && iv.a <= out[|out| - 1].b then
      out[|out| - 1 := Interval(out[|out| - 1].a, Max(out[|out| - 1].b, iv.b))]
    else out + [iv]
  }

  function MergeUpTo(s: seq<Interval>, k: nat): seq<Interval>
    requires k <= |s|
  {
    if k == 0 then [] else Absorb(MergeUpTo(s, k - 1), s[k - 1])
  }

  function Merged(ivs: seq<Interval>): seq<Interval> {
    var s := Sort(ivs, Before);
    MergeUpTo(s, |s|)
  }

  method Merge(ivs: seq<Interval>) returns (out: seq<Interval>)
    ensures out == Merged(ivs)
  {
    var s := Sort(ivs, Before);
    out := [];
    for k := 0 to |s|
      invariant out == MergeUpTo(s, k)
    {
      var iv := s[k];
      if out != [] && iv.a <= out[|out| - 1].b {
        out := out[|out| - 1 := Interval(out[|out| - 1].a, Max(out[|out| - 1].b, iv.b))];
      } else {
        out := out + [iv];
      }
    }
  }

  ghost predicate StartsAscend(s: seq<Interval>) {
    forall i, j | 0 <= i < j < |s| :: s[i].a <= s[j].a
  }

  lemma CoversConcat(x: seq<Interval>, y: seq<Interval>, t: int)
    ensures Covers(x + y, t) <==> Covers(x, t) || Covers(y, t)
  {
    if i :| 0 <= i < |x| && Contains(x[i], t) { assert Contains((x + y)[i], t); }
    if i :| 0 <= i < |y| && Contains(y[i], t) { assert Contains((x + y)[|x| + i], t); }
    if i :| 0 <= i < |x + y| && Contains((x + y)[i], t) {
      assert i < |x| ==> Contains(x[i], t);
      assert i >= |x| ==> Contains(y[i - |x|], t);
    }
  }

  lemma CoversLast(out: seq<Interval>, iv: Interval, t: int)
    ensures Covers(out + [iv], t) <==> Covers(out, t) || Contains(iv, t)
  {
    CoversConcat(out, [iv], t);
    if Contains(iv, t) { assert Contains([iv][0], t); }
  }

  lemma AbsorbCovers(out: seq<Interval>, iv: Interval, t: int)
    requires out != [] ==> out[|out| - 1].a <= iv.a
    ensures Covers(Absorb(out, iv), t) <==> Covers(out, t) || Contains(iv, t)
  {
    if out != [] && iv.a <= out[|out| - 1].b {
      var init, last := out[..|out| - 1], out[|out| - 1];
      var wide := Interval(last.a, Max(last.b, iv.b));
      assert out == init + [last] && Absorb(out, iv) == init + [wide];
      CoversLast(init, last, t);
      CoversLast(init, wide, t);
    } else {
      CoversLast(out, iv, t);
    }
  }

  lemma AbsorbSeparates(out: seq<Interval>, iv: Interval)
    requires Separated(out) && (out != [] ==> out[|out| - 1].a <= iv.a)
    ensures Separated(Absorb(out, iv)) && Absorb(out, iv) != []
    ensures var r := Absorb(out, iv); r[|r| - 1].a <= iv.a
  {
  }

  lemma {:induction false} MergeUpToSeparated(s: seq<Interval>, k: nat)
    requires k <= |s| && StartsAscend(s)
    ensures var out := MergeUpTo(s, k);
            && Separated(out) && (out == [] <==> k == 0)
            && (k > 0 ==> out[|out| - 1].a <= s[k - 1].a)
  {
    if k > 0 {
      MergeUpToSeparated(s, k - 1);
      assert k > 1 ==> s[k - 2].a <= s[k - 1].a;
      AbsorbSeparates(MergeUpTo(s, k - 1), s[k - 1]);
    }
  }

  lemma {:induction false} MergeUpToCovers(s: seq<Interval>, k: nat, t: int)
    requires k <= |s| && StartsAscend(s)
    ensures Covers(MergeUpTo(s, k), t) <==> Covers(s[..k], t)
  {
    if k > 0 {
      MergeUpToCovers(s, k - 1, t);
      MergeUpToSeparated(s, k - 1);
      assert k > 1 ==> s[k - 2].a <= s[k - 1].a;
      AbsorbCovers(MergeUpTo(s, k - 1), s[k - 1], t);
      CoversLast(s[..k - 1], s[k - 1], t);
      assert s[..k] == s[..k - 1] + [s[k - 1]];
    }
  }

  lemma CoversIsMembership(x: seq<Interval>, y: seq<Interval>, t: int)
    requires forall iv :: iv in x <==> iv in y
    ensures Covers(x, t) <==> Covers(y, t)
  {
    if i :| 0 <= i < |x| && Contains(x[i], t) { assert x[i] in y; }
    if i :| 0 <= i < |y| && Contains(y[i], t) { assert y[i] in x; }
  }

  /** merge yields intervals that are sorted and strictly apart, with the union of the input, whatever
      the input: inverted intervals hold nothing before and nothing after. */
  lemma MergeKeepsTheUnion(ivs: seq<Interval>)
    ensures Separated(Merged(ivs))
    ensures forall t :: Covers(Merged(ivs), t) <==> Covers(ivs, t)
  {
    var s := Sort(ivs, Before);
    SortSorts(ivs, Before);
    SortPermutes(ivs, Before);
    forall i, j | 0 <= i < j < |s| ensures s[i].a <= s[j].a { assert Before(s[i], s[j]); }
    MergeUpToSeparated(s, |s|);
    assert s[..|s|] == s;
    forall t ensures Covers(Merged(ivs), t) <==> Covers(ivs, t) {
      MergeUpToCovers(s, |s|, t);
      CoversIsMembership(s, ivs, t);
    }
  }

  // ----- counting

  // bisect_right over starts in order: how many are at or before t.
  function BisectRight(ivs: seq<Interval>, t: int): (r: nat)
    ensures r <= |ivs|
  {
    if ivs == [] then 0
    else if ivs[|ivs| - 1].a <= t then |ivs|
    else BisectRight(ivs[..|ivs| - 1], t)
  }

  predicate Hit(ivs: seq<Interval>, t: int) {
    var i := BisectRight(ivs, t) - 1;
    i >= 0 && Contains(ivs[i], t)
  }

  function CountHits(ivs: seq<Interval>, ts: seq<int>): nat {
    if ts == [] then 0 else CountHits(ivs, ts[..|ts| - 1]) + if Hit(ivs, ts[|ts| - 1]) then 1 else 0
  }

  method InAny(ivs: seq<Interval>, ts: seq<int>) returns (n: nat)
    ensures n == CountHits(ivs, ts)
  {
    if ivs == [] {
      NoHits(ts);
      return 0;
    }
    n := 0;
    for k := 0 to |ts|
      invariant n == CountHits(ivs, ts[..k])
    {
      assert ts[..k + 1][..k] == ts[..k];
      var i := BisectRight(ivs, ts[k]) - 1;
      if i >= 0 && Contains(ivs[i], ts[k]) {
        n := n + 1;
      }
    }
    assert ts[..|ts|] == ts;
  }

  lemma {:induction false} NoHits(ts: seq<int>)
    ensures CountHits([], ts) == 0
  {
    if ts != [] { NoHits(ts[..|ts| - 1]); }
  }

  // The instants that lie in some interval, counted one by one.
  ghost function CountCovered(ivs: seq<Interval>, ts: seq<int>): nat {
    if ts == [] then 0 else CountCovered(ivs, ts[..|ts| - 1]) + if Covers(ivs, ts[|ts| - 1]) then 1 else 0
  }

  lemma {:induction false} BisectSplits(ivs: seq<Interval>, t: int)
    requires StartsAscend(ivs)
    ensures forall i | 0 <= i < BisectRight(ivs, t) :: ivs[i].a <= t
    ensures forall i | BisectRight(ivs, t) <= i < |ivs| :: ivs[i].a > t
  {
    if ivs != [] && ivs[|ivs| - 1].a > t {
      var init := ivs[..|ivs| - 1];
      BisectSplits(init, t);
      assert forall i | 0 <= i < |init| :: init[i] == ivs[i];
    }
  }

  /** On separated intervals the one that binary search lands on is the only one that can hold t. */
  lemma HitIffCovered(ivs: seq<Interval>, t: int)
    requires Separated(ivs)
    ensures Hit(ivs, t) <==> Covers(ivs, t)
  {
    BisectSplits(ivs, t);
    var r := BisectRight(ivs, t);
    if i :| 0 <= i < |ivs| && Contains(ivs[i], t) {
      assert i < r;
      assert i < r - 1 ==> ivs[i].b < ivs[r - 1].a;
    }
  }

  /** in_any over merge is the naive count: every instant lying in at least one of the original
      intervals, once. */
  lemma {:induction false} InAnyOfMergeIsNaive(ivs: seq<Interval>, ts: seq<int>)
    ensures CountHits(Merged(ivs), ts) == CountCovered(ivs, ts)
  {
    if ts != [] {
      InAnyOfMergeIsNaive(ivs, ts[..|ts| - 1]);
      MergeKeepsTheUnion(ivs);
      HitIffCovered(Merged(ivs), ts[|ts| - 1]);
    }
  }

  // The instants whose search lands on interval r: from its start to the next one's.
  predicate LandsOn(ivs: seq<Interval>, r: nat, t: int)
    requires r < |ivs|
  {
    ivs[r].a <= t && (r + 1 < |ivs| ==> t < ivs[r + 1].a)
  }

  // No instant that lands on interval r is held by the earlier interval i and not by r itself.
  predicate Shadowed(ivs: seq<Interval>, i: nat, r: nat)
    requires i < r < |ivs|
  {
    var reach := if r + 1 < |ivs| then Min(ivs[i].b, ivs[r + 1].a) else ivs[i].b;
    reach <= Max(ivs[r].a, ivs[r].b)
  }

  ghost predicate NoneReachesPast(ivs: seq<Interval>) {
    forall i, r | 0 <= i < r < |ivs| :: Shadowed(ivs, i, r)
  }

  lemma HitLandsOn(ivs: seq<Interval>, r: nat, t: int)
    requires StartsAscend(ivs) && r < |ivs| && LandsOn(ivs, r, t)
    ensures Hit(ivs, t) <==> Contains(ivs[r], t)
  {
    BisectSplits(ivs, t);
  }

  // One instant: the search decides membership unless an earlier interval reaches past.
  lemma HitUnderShadow(ivs: seq<Interval>, t: int)
    requires StartsAscend(ivs) && NoneReachesPast(ivs)
    ensures Hit(ivs, t) <==> Covers(ivs, t)
  {
    BisectSplits(ivs, t);
    var n := BisectRight(ivs, t);
    if i :| 0 <= i < |ivs| && Contains(ivs[i], t) {
      assert i < n;
      if i < n - 1 { assert Shadowed(ivs, i, n - 1); }
    }
  }

  /** On intervals in order of their starts, binary search decides membership at every instant
      exactly when no interval reaches past the end of a later one before the next one starts.
      Being merged is enough and is not needed. */
  lemma HitIsCoveredIff(ivs: seq<Interval>)
    requires StartsAscend(ivs)
    ensures (forall t :: Hit(ivs, t) <==> Covers(ivs, t)) <==> NoneReachesPast(ivs)
  {
    if NoneReachesPast(ivs) {
      forall t ensures Hit(ivs, t) <==> Covers(ivs, t) { HitUnderShadow(ivs, t); }
    } else {
      var i, r :| 0 <= i < r < |ivs| && !Shadowed(ivs, i, r);
      var t := Max(ivs[r].a, ivs[r].b);
      assert ivs[i].a <= ivs[r].a;
      HitLandsOn(ivs, r, t);
      assert Contains(ivs[i], t);
    }
  }

  /** What merge returns meets the condition, and so does any single interval. */
  lemma CallersMeetTheCondition(ivs: seq<Interval>)
    ensures Separated(ivs) || |ivs| <= 1 ==> StartsAscend(ivs) && NoneReachesPast(ivs)
  {
    if Separated(ivs) {
      forall i, r | 0 <= i < r < |ivs| ensures Shadowed(ivs, i, r) {
        assert ivs[i].b < ivs[r].a;
      }
    }
  }

  // Nested intervals do not: the search lands on the second and misses the first.
  lemma UnmergedCanMiss()
    ensures var ivs := [Interval(0, 100), Interval(10, 20)];
            StartsAscend(ivs) && !NoneReachesPast(ivs) && Covers(ivs, 50) && !Hit(ivs, 50)
  {
    var ivs := [Interval(0, 100), Interval(10, 20)];
    assert Contains(ivs[0], 50);
    assert !Shadowed(ivs, 0, 1);
  }
}
