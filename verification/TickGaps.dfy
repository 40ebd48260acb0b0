/** What no prompt will ever characterise: a prompt at p covers [p - span, p); the gaps are what is
    left below a frontier that only moves with what is fully ingested and a whole span old. */
module TickGaps {
  import opened Options
  import opened Sorting
  import opened Intervals

  // ----- covered, frontier, tail_closed

  function LookBacks(prompts: seq<int>, span: int): (r: seq<Interval>)
    ensures |r| == |prompts|
    ensures forall i | 0 <= i < |r| :: r[i] == Interval(prompts[i] - span, prompts[i])
  {
    if prompts == [] then []
    else LookBacks(prompts[..|prompts| - 1], span) + [Interval(prompts[|prompts| - 1] - span, prompts[|prompts| - 1])]
  }

  function Covered(prompts: seq<int>, span: int): seq<Interval> {
    MergeUpTo(LookBacks(Ascending(prompts), span), |prompts|)
  }

  // Some prompt's look-back reaches t.
  ghost predicate Reached(prompts: seq<int>, span: int, t: int) {
    exists p :: p in prompts && p - span <= t < p
  }

  lemma CoveredIsReached(prompts: seq<int>, span: int)
    ensures Separated(Covered(prompts, span))
    ensures forall t :: Covers(Covered(prompts, span), t) <==> Reached(prompts, span, t)
  {
    var sorted := Ascending(prompts);
    var backs := LookBacks(sorted, span);
    AscendingFacts(prompts);
    MergeUpToSeparated(backs, |backs|);
    assert backs[..|backs|] == backs;
    forall t ensures Covers(Covered(prompts, span), t) <==> Reached(prompts, span, t) {
      MergeUpToCovers(backs, |backs|, t);
      if i :| 0 <= i < |backs| && Contains(backs[i], t) { assert sorted[i] in sorted; }
      if Reached(prompts, span, t) {
        var p :| p in prompts && p - span <= t < p;
        assert p in sorted;
        var i :| 0 <= i < |sorted| && sorted[i] == p;
        assert Contains(backs[i], t);
      }
    }
  }

  function Frontier(now: int, watermark: Option<int>, span: int): Option<int> {
    if watermark == None then None else Some(Min(watermark.value, now - span))
  }

  function TailClosed(now: int, watermark: Option<int>, span: int): bool {
    watermark.Some? && now - watermark.value >= span
  }

  // ----- gaps

  // The gap before the covered interval iv.
  function GapBefore(iv: Interval, t: int, front: int): seq<Interval> {
    if iv.a > t then [Interval(t, Min(iv.a, front))] else []
  }

  function GapWalk(cov: seq<Interval>, k: nat, t: int, front: int): seq<Interval>
    requires k <= |cov|
    decreases |cov| - k
  {
    var tail := if t < front then [Interval(t, front)] else [];
    if k == |cov| then tail
    else if cov[k].b <= t then GapWalk(cov, k + 1, t, front)
    else if cov[k].a >= front then tail
    else
      var gap, next := GapBefore(cov[k], t, front), Max(t, cov[k].b);
      if next >= front then gap else gap + GapWalk(cov, k + 1, next, front)
  }

  function Gaps(cursor: int, front: int, prompts: seq<int>, span: int): seq<Interval> {
    if front <= cursor then [] else GapWalk(Covered(prompts, span), 0, cursor, front)
  }

  method FindGaps(cursor: int, front: int, prompts: seq<int>, span: int) returns (out: seq<Interval>)
    ensures out == Gaps(cursor, front, prompts, span)
  {
    if front <= cursor {
      return [];
    }
    var cov := Covered(prompts, span);
    out := [];
    var t, k := cursor, 0;
    while k < |cov|
      invariant 0 <= k <= |cov| && t < front
      invariant out + GapWalk(cov, k, t, front) == GapWalk(cov, 0, cursor, front)
    {
      var iv := cov[k];
      if iv.b <= t {
        k := k + 1;
        continue;
      }
      if iv.a >= front {
        break;
      }
      if iv.a > t {
        out := out + [Interval(t, Min(iv.a, front))];
      }
      t := Max(t, iv.b);
      k := k + 1;
      if t >= front {
        break;
      }
    }
    if t < front {
      out := out + [Interval(t, front)];
    }
  }

  // Positive intervals, in order, disjoint, inside [lo, hi).
  ghost predicate InOrder(ws: seq<Interval>, lo: int, hi: int) {
    && (forall i | 0 <= i < |ws| :: lo <= ws[i].a < ws[i].b <= hi)
    && (forall i, j | 0 <= i < j < |ws| :: ws[i].b <= ws[j].a)
  }

  lemma InOrderConcat(x: seq<Interval>, y: seq<Interval>, lo: int, mid: int, hi: int)
    requires InOrder(x, lo, mid) && InOrder(y, mid, hi) && lo <= mid <= hi
    ensures InOrder(x + y, lo, hi)
    ensures forall t :: Covers(x + y, t) <==> Covers(x, t) || Covers(y, t)
  {
    forall t ensures Covers(x + y, t) <==> Covers(x, t) || Covers(y, t) { CoversConcat(x, y, t); }
  }

  ghost predicate CoversFrom(cov: seq<Interval>, k: nat, t: int) {
    exists i :: k <= i < |cov| && Contains(cov[i], t)
  }

  lemma CoversFromNext(cov: seq<Interval>, k: nat, x: int)
    requires k < |cov|
    ensures CoversFrom(cov, k, x) <==> Contains(cov[k], x) || CoversFrom(cov, k + 1, x)
  {
  }

  // Nothing from interval k on covers what lies before it.
  lemma UncoveredBefore(cov: seq<Interval>, k: nat, x: int)
    requires Separated(cov) && (k < |cov| ==> x < cov[k].a)
    ensures !CoversFrom(cov, k, x)
  {
  }

  lemma CoversOne(a: int, b: int)
    ensures forall x :: Covers([Interval(a, b)], x) <==> a <= x < b
  {
    forall x | a <= x < b ensures Covers([Interval(a, b)], x) { assert Contains([Interval(a, b)][0], x); }
  }

  ghost predicate Proper(ivs: seq<Interval>) {
    forall i | 0 <= i < |ivs| :: ivs[i].a < ivs[i].b
  }

  lemma {:induction false} GapWalkOrder(cov: seq<Interval>, k: nat, t: int, front: int)
    requires Proper(cov) && k <= |cov| && t < front
    ensures InOrder(GapWalk(cov, k, t, front), t, front)
    decreases |cov| - k
  {
    if k == |cov| || cov[k].a >= front {
    } else if cov[k].b <= t {
      GapWalkOrder(cov, k + 1, t, front);
    } else if cov[k].b < front {
      GapWalkOrder(cov, k + 1, cov[k].b, front);
      InOrderConcat(GapBefore(cov[k], t, front), GapWalk(cov, k + 1, cov[k].b, front), t, cov[k].b, front);
    }
  }

  // The gaps are exactly what is left of [t, front).
  lemma {:induction false} GapWalkCovers(cov: seq<Interval>, k: nat, t: int, front: int, x: int)
    requires Separated(cov) && Proper(cov) && k <= |cov| && t <= x < front
    ensures Covers(GapWalk(cov, k, t, front), x) <==> !CoversFrom(cov, k, x)
    decreases |cov| - k
  {
    if k == |cov| {
      CoversOne(t, front);
    } else {
      CoversFromNext(cov, k, x);
      if cov[k].b <= t {
        GapWalkCovers(cov, k + 1, t, front, x);
      } else if cov[k].a >= front {
        CoversOne(t, front);
        UncoveredBefore(cov, k, x);
      } else {
        GapBeforeCovers(cov, k, t, front, x);
        if cov[k].b < front {
          CoversConcat(GapBefore(cov[k], t, front), GapWalk(cov, k + 1, cov[k].b, front), x);
          if cov[k].b <= x {
            GapWalkCovers(cov, k + 1, cov[k].b, front, x);
          } else {
            GapWalkOrder(cov, k + 1, cov[k].b, front);
          }
        }
      }
    }
  }

  // Up to the end of interval k, what is not covered is the gap before it.
  lemma GapBeforeCovers(cov: seq<Interval>, k: nat, t: int, front: int, x: int)
    requires Separated(cov) && k < |cov| && t <= x < front && t < cov[k].b
    ensures Covers(GapBefore(cov[k], t, front), x) <==> x < cov[k].a
    ensures x < cov[k].a ==> !CoversFrom(cov, k, x)
  {
    CoversOne(t, Min(cov[k].a, front));
    if x < cov[k].a { UncoveredBefore(cov, k, x); }
  }

  // Every gap but one that runs to the frontier is closed by a covered interval.
  lemma {:induction false} GapWalkCloses(cov: seq<Interval>, k: nat, t: int, front: int, i: nat)
    requires Proper(cov) && k <= |cov| && t < front && i < |GapWalk(cov, k, t, front)|
    ensures var g := GapWalk(cov, k, t, front)[i]; g.b < front ==> CoversFrom(cov, k, g.b)
    decreases |cov| - k
  {
    if k == |cov| || cov[k].a >= front {
    } else if cov[k].b <= t {
      GapWalkCloses(cov, k + 1, t, front, i);
    } else {
      var gap := GapBefore(cov[k], t, front);
      if i < |gap| {
        assert Contains(cov[k], cov[k].a);
      } else {
        GapWalkCloses(cov, k + 1, cov[k].b, front, i - |gap|);
      }
    }
  }

  lemma {:induction false} MergeStaysProper(s: seq<Interval>, k: nat)
    requires k <= |s| && Proper(s)
    ensures Proper(MergeUpTo(s, k))
  {
    if k > 0 { MergeStaysProper(s, k - 1); }
  }

  /** gaps: ordered, disjoint, exactly the instants of [cursor, front) that no look-back reaches, each
      one closed by a look-back unless it runs to the frontier. */
  lemma GapsAreUnreached(cursor: int, front: int, prompts: seq<int>, span: int)
    requires span > 0
    ensures var gs := Gaps(cursor, front, prompts, span);
            && (cursor < front ==> InOrder(gs, cursor, front))
            && (forall x | cursor <= x < front :: Covers(gs, x) <==> !Reached(prompts, span, x))
            && (forall i | 0 <= i < |gs| && gs[i].b < front :: Reached(prompts, span, gs[i].b))
  {
    if cursor < front {
      var cov := Covered(prompts, span);
      CoveredIsReached(prompts, span);
      MergeStaysProper(LookBacks(Ascending(prompts), span), |prompts|);
      GapWalkOrder(cov, 0, cursor, front);
      forall x | cursor <= x < front ensures Covers(GapWalk(cov, 0, cursor, front), x) <==> !Covers(cov, x) {
        GapWalkCovers(cov, 0, cursor, front, x);
      }
      var gs := GapWalk(cov, 0, cursor, front);
      forall i | 0 <= i < |gs| && gs[i].b < front ensures Covers(cov, gs[i].b) {
        GapWalkCloses(cov, 0, cursor, front, i);
      }
    }
  }
}
