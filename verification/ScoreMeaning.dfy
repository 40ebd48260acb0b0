/** What one window adds to a tally, from the plan, the transitions and the clock alone. */
module ScoreMeaning {
  import opened Arithmetic
  import opened Scoring

  // Where a sizer detects: where it says, or, when it says nothing of it, at the start of its slice.
  ghost predicate DetectsAt(p: Plan, d: int) {
    p.detail == Reported(At(d)) || (p.detail == Unreported && d == p.sliceStart)
  }

  // A transition of the window that looks back `span` minutes from `end`.
  predicate IsIn(t: Transition, end: int, span: int, contiguous: bool) {
    end - 60 * span <= t.instant < end && (contiguous ==> t.gapMin <= 15)
  }

  function TheirPositions(trans: seq<Transition>, end: int, span: int, contiguous: bool): set<nat> {
    set j: nat | j < |trans| && IsIn(trans[j], end, span, contiguous)
  }

  // Some transition of the window is within five minutes of the detection.
  ghost predicate IsHit(p: Plan, trans: seq<Transition>, end: int, span: int, contiguous: bool) {
    exists d: int, j: nat ::
      DetectsAt(p, d) && j < |trans| && IsIn(trans[j], end, span, contiguous) && IsClose(d, trans[j].instant)
  }

  predicate IsClose(d: int, t: int) { t - 300 <= d <= t + 300 }

  lemma {:induction false} WithinIsCounted(trans: seq<Transition>, end: int, span: int, contiguous: bool)
    ensures |Within(trans, end, span, contiguous)| == |TheirPositions(trans, end, span, contiguous)|
  {
    if trans == [] {
      assert TheirPositions(trans, end, span, contiguous) == {};
    } else {
      var n := |trans| - 1;
      var init, last := trans[..n], trans[n];
      WithinIsCounted(init, end, span, contiguous);
      PositionsNext(trans, end, span, contiguous);
      WithinSnoc(init, last, end, span, contiguous);
      assert init + [last] == trans;
    }
  }

  lemma PositionsNext(trans: seq<Transition>, end: int, span: int, contiguous: bool)
    requires trans != []
    ensures |TheirPositions(trans, end, span, contiguous)|
            == |TheirPositions(trans[..|trans| - 1], end, span, contiguous)|
             + if IsIn(trans[|trans| - 1], end, span, contiguous) then 1 else 0
  {
    var n := |trans| - 1;
    var before := TheirPositions(trans[..n], end, span, contiguous);
    SetNext(before, TheirPositions(trans, end, span, contiguous), n, IsIn(trans[n], end, span, contiguous));
  }

  lemma HitIsNear(p: Plan, trans: seq<Transition>, end: int, span: int, contiguous: bool)
    ensures NearIn(end, p, trans, span, contiguous) > 0 <==> IsHit(p, trans, end, span, contiguous)
  {
    var here := Within(trans, end, span, contiguous);
    WithinIsTheWindow(trans, end, span, contiguous);
    if NearIn(end, p, trans, span, contiguous) > 0 {
      var d := Detection(p).instant;
      NearIsWithinTolerance(here, d);
      var t :| t in here && Distance(d, t) <= TOLERANCE_S;
      var j: nat :| j < |trans| && trans[j] == t;
      assert DetectsAt(p, d) && IsIn(trans[j], end, span, contiguous) && IsClose(d, trans[j].instant);
    }
    if d: int, j: nat :| DetectsAt(p, d) && j < |trans| && IsIn(trans[j], end, span, contiguous)
                         && IsClose(d, trans[j].instant) {
      assert Detection(p) == At(d);
      assert trans[j] in here && Distance(d, trans[j]) <= TOLERANCE_S;
      NearIsWithinTolerance(here, d);
    }
  }

  // The distances this window adds: none without a detection or without a transition, else the least.
  ghost predicate AddsDistance(more: seq<nat>, p: Plan, trans: seq<Transition>, end: int, span: int) {
    var theirs := TheirPositions(trans, end, span, false);
    if p.detail == Reported(Nowhere) || theirs == {} then more == []
    else
      |more| == 1 && exists d: int ::
        && DetectsAt(p, d)
        && (exists j: nat :: j in theirs && Apart(d, trans[j].instant) == more[0])
        && forall j: nat | j in theirs :: more[0] <= Apart(d, trans[j].instant)
  }

  function Apart(d: int, t: int): nat { if d < t then t - d else d - t }

  lemma DistanceIsLeast(p: Plan, trans: seq<Transition>, end: int, span: int)
    ensures AddsDistance(DistanceIn(end, p, trans, span), p, trans, end, span)
  {
    var here, theirs := Within(trans, end, span, false), TheirPositions(trans, end, span, false);
    WithinIsCounted(trans, end, span, false);
    WithinIsTheWindow(trans, end, span, false);
    if theirs != {} && p.detail != Reported(Nowhere) {
      var d := Detection(p).instant;
      assert DetectsAt(p, d) && |here| > 0;
      ClosestIsTheLeast(here, d);
      var t :| t in here && Distance(d, t) == Closest(here, d);
      var j: nat :| j < |trans| && trans[j] == t;
      assert j in theirs && Apart(d, trans[j].instant) == Closest(here, d);
      forall k: nat | k in theirs ensures Closest(here, d) <= Apart(d, trans[k].instant) {
        assert trans[k] in here && Distance(d, trans[k]) == Apart(d, trans[k].instant);
      }
    }
  }

  // The difference between two tallies.
  ghost predicate Adds(r: Tally, r': Tally, p: Plan, trans: seq<Transition>, end: int, span: int) {
    var hit, hitC := IsHit(p, trans, end, span, false), IsHit(p, trans, end, span, true);
    var fires := p.detail != Reported(Nowhere);
    && r'.windows == r.windows + 1 && r'.fires == r.fires + (if fires then 1 else 0)
    && r'.hit == r.hit + (if hit then 1 else 0) && r'.fp == r.fp + (if fires && !hit then 1 else 0)
    && r'.miss == r.miss + |TheirPositions(trans, end, span, false)| - (if hit then 1 else 0)
    && r'.hitC == r.hitC + (if hitC then 1 else 0) && r'.fpC == r.fpC + (if fires && !hitC then 1 else 0)
    && r'.missC == r.missC + |TheirPositions(trans, end, span, true)| - (if hitC then 1 else 0)
    && r'.windowsDisc == r.windowsDisc + (if TheirPositions(trans, end, span, false) == {} then 0 else 1)
    && |r.dists| <= |r'.dists| && r'.dists[..|r.dists|] == r.dists
    && AddsDistance(r'.dists[|r.dists|..], p, trans, end, span) && r'.firesDisc == |r'.dists|
    && r'.sliceSeconds == r.sliceSeconds + [p.sliceEnd - p.sliceStart]
  }

  /** A window more: a fire unless the sizer reports that it detected nothing; a hit when a transition of
      the window is within five minutes of where it detects, and that transition alone is not missed;
      the same for the contiguous ones; and the distance to the closest. */
  lemma WindowAdds(r: Tally, r': Tally, anchors: seq<int>, plans: seq<Plan>, trans: seq<Transition>, span: int,
                   end: int, p: Plan)
    requires |anchors| == |plans| && Accounts(r, anchors, plans, trans, span)
    requires Accounts(r', anchors + [end], plans + [p], trans, span)
    ensures Adds(r, r', p, trans, end, span)
  {
    SpecSnoc(anchors, plans, trans, span, end, p);
    HitIsNear(p, trans, end, span, false);
    HitIsNear(p, trans, end, span, true);
    WithinIsCounted(trans, end, span, false);
    WithinIsCounted(trans, end, span, true);
    DistanceIsLeast(p, trans, end, span);
    SlicesAdd(r, r', anchors, plans, trans, span, end, p);
    var ds, more := Distances(anchors, plans, trans, span), DistanceIn(end, p, trans, span);
    assert (ds + more)[..|ds|] == ds && (ds + more)[|ds|..] == more;
  }

  lemma SlicesAdd(r: Tally, r': Tally, anchors: seq<int>, plans: seq<Plan>, trans: seq<Transition>, span: int, end: int,
                  p: Plan)
    requires |anchors| == |plans| && Accounts(r, anchors, plans, trans, span)
    requires Accounts(r', anchors + [end], plans + [p], trans, span)
    ensures r'.sliceSeconds == r.sliceSeconds + [p.sliceEnd - p.sliceStart]
  {
    var all, longer := plans + [p], r.sliceSeconds + [p.sliceEnd - p.sliceStart];
    forall i | 0 <= i < |r'.sliceSeconds| ensures r'.sliceSeconds[i] == longer[i] {
      assert r'.sliceSeconds[i] == all[i].sliceEnd - all[i].sliceStart;
    }
  }

  /** No window, nothing counted. */
  lemma NoWindowsNoCounts(r: Tally, trans: seq<Transition>, span: int)
    requires Accounts(r, [], [], trans, span)
    ensures r == Tally(0, 0, 0, 0, 0, [], [], 0, 0, 0, 0, 0)
  {
  }

  // ----- a sizer that reports no detection of its own

  ghost function Hit(anchors: seq<int>, plans: seq<Plan>, trans: seq<Transition>, span: int, n: nat): set<nat> {
    set i: nat | i < n && i < |anchors| && i < |plans| && IsHit(plans[i], trans, anchors[i], span, false)
  }

  lemma {:induction false} HitsAreCounted(anchors: seq<int>, plans: seq<Plan>, trans: seq<Transition>, span: int)
    requires |anchors| == |plans|
    ensures Hits(anchors, plans, trans, span, false) == |Hit(anchors, plans, trans, span, |anchors|)|
  {
    if anchors == [] {
      assert Hit(anchors, plans, trans, span, 0) == {};
    } else {
      var n := |anchors| - 1;
      HitsAreCounted(anchors[..n], plans[..n], trans, span);
      HitIsNear(plans[n], trans, anchors[n], span, false);
      HitSet(anchors, plans, trans, span, n);
    }
  }

  lemma HitSet(anchors: seq<int>, plans: seq<Plan>, trans: seq<Transition>, span: int, n: nat)
    requires n + 1 == |anchors| == |plans|
    ensures |Hit(anchors, plans, trans, span, n + 1)|
            == |Hit(anchors[..n], plans[..n], trans, span, n)|
             + if IsHit(plans[n], trans, anchors[n], span, false) then 1 else 0
  {
    var before, after := Hit(anchors[..n], plans[..n], trans, span, n), Hit(anchors, plans, trans, span, n + 1);
    forall x: nat ensures x in after <==> x in before || (x == n && IsHit(plans[n], trans, anchors[n], span, false)) {
      if x < n { assert anchors[..n][x] == anchors[x] && plans[..n][x] == plans[x]; }
    }
    SetNext(before, after, n, IsHit(plans[n], trans, anchors[n], span, false));
  }

  lemma {:induction false} AllFire(plans: seq<Plan>)
    requires forall i | 0 <= i < |plans| :: plans[i].detail == Unreported
    ensures Fires(plans) == |plans|
  {
    if plans != [] { AllFire(plans[..|plans| - 1]); }
  }

  /** A sizer with nothing to report of a detection fires in every window, and hits in those with a
      transition within five minutes of the start of its slice. */
  lemma UnreportedDetectsAtItsStart(r: Tally, anchors: seq<int>, plans: seq<Plan>, trans: seq<Transition>, span: int)
    requires |anchors| == |plans| && Accounts(r, anchors, plans, trans, span)
    requires forall i | 0 <= i < |plans| :: plans[i].detail == Unreported
    ensures r.fires == r.windows == |anchors|
    ensures r.hit == |Hit(anchors, plans, trans, span, |anchors|)|
    ensures forall i: nat | i < |anchors| ::
              i in Hit(anchors, plans, trans, span, |anchors|) <==>
              exists j: nat :: j < |trans| && IsIn(trans[j], anchors[i], span, false)
                               && IsClose(plans[i].sliceStart, trans[j].instant)
  {
    AllFire(plans);
    HitsAreCounted(anchors, plans, trans, span);
    forall i: nat | i < |anchors|
      ensures i in Hit(anchors, plans, trans, span, |anchors|) <==>
              exists j: nat :: j < |trans| && IsIn(trans[j], anchors[i], span, false)
                               && IsClose(plans[i].sliceStart, trans[j].instant)
    {
      HitAtStart(plans[i], trans, anchors[i], span);
    }
  }

  lemma HitAtStart(p: Plan, trans: seq<Transition>, end: int, span: int)
    requires p.detail == Unreported
    ensures IsHit(p, trans, end, span, false) <==>
            exists j: nat :: j < |trans| && IsIn(trans[j], end, span, false) && IsClose(p.sliceStart, trans[j].instant)
  {
    assert DetectsAt(p, p.sliceStart);
    if IsHit(p, trans, end, span, false) {
      var d: int, j: nat :| DetectsAt(p, d) && j < |trans| && IsIn(trans[j], end, span, false)
                            && IsClose(d, trans[j].instant);
      assert d == p.sliceStart;
    }
  }
}
