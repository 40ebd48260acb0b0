/** score: hits, false positives and misses of one sizer over one session's windows. */
module Scoring {

  const TOLERANCE_S: int := 300
  const CONTIGUOUS_GAP_MIN: int := 15

  // A change of state, and how far apart the two bins it lies between are.
  datatype Transition = Transition(instant: int, gapMin: int)

  // What a sizer answers for one window: its slice, and the detection it reports. A sizer that
  // reports none of its own is taken to detect at the start of its slice.
  datatype Detected = Nowhere | At(instant: int)
  datatype Detail = Unreported | Reported(detected: Detected)
  datatype Plan = Plan(sliceStart: int, sliceEnd: int, detail: Detail)

  datatype Tally = Tally(
    hit: nat, fp: nat, miss: nat, fires: nat, windows: nat, dists: seq<nat>, sliceSeconds: seq<int>,
    hitC: nat, fpC: nat, missC: nat, firesDisc: nat, windowsDisc: nat)

  function Detection(p: Plan): Detected {
    if p.detail.Unreported? then At(p.sliceStart) else p.detail.detected
  }

  function Distance(det: int, t: Transition): nat {
    if det < t.instant then t.instant - det else det - t.instant
  }

  predicate InWindow(t: Transition, end: int, span: int, contiguous: bool) {
    end - span * 60 <= t.instant < end && (contiguous ==> t.gapMin <= CONTIGUOUS_GAP_MIN)
  }

  // The transitions a window is answerable for: all of its own, or its contiguous ones only.
  function Within(trans: seq<Transition>, end: int, span: int, contiguous: bool): (r: seq<Transition>)
    ensures |r| <= |trans|
  {
    if trans == [] then []
    else
      var init, last := trans[..|trans| - 1], trans[|trans| - 1];
      Within(init, end, span, contiguous) + if InWindow(last, end, span, contiguous) then [last] else []
  }

  // How many of them the detection is within tolerance of.
  function Near(here: seq<Transition>, det: int): (n: nat)
    ensures n <= |here|
  {
    if here == [] then 0
    else
      var init, last := here[..|here| - 1], here[|here| - 1];
      Near(init, det) + if Distance(det, last) <= TOLERANCE_S then 1 else 0
  }

  lemma {:induction false} WithinIsTheWindow(trans: seq<Transition>, end: int, span: int, contiguous: bool)
    ensures forall t :: t in Within(trans, end, span, contiguous) <==> t in trans && InWindow(t, end, span, contiguous)
  {
    if trans != [] {
      var init, last := trans[..|trans| - 1], trans[|trans| - 1];
      WithinIsTheWindow(init, end, span, contiguous);
      assert trans == init + [last];
    }
  }

  lemma {:induction false} NearIsWithinTolerance(here: seq<Transition>, det: int)
    ensures Near(here, det) > 0 <==> exists t :: t in here && Distance(det, t) <= TOLERANCE_S
  {
    if here != [] {
      var init, last := here[..|here| - 1], here[|here| - 1];
      NearIsWithinTolerance(init, det);
      assert here == init + [last];
      if t :| t in here && Distance(det, t) <= TOLERANCE_S {
        assert t in init || t == last;
      }
    }
  }

  // The specification: over any number of windows, what is counted and out of what.

  // (window, transition) pairs.
  function Pairs(anchors: seq<int>, trans: seq<Transition>, span: int, contiguous: bool): nat {
    if anchors == [] then 0
    else
      var n := |anchors| - 1;
      Pairs(anchors[..n], trans, span, contiguous) + |Within(trans, anchors[n], span, contiguous)|
  }

  // Windows in which the sizer detects anything.
  function Fires(plans: seq<Plan>): nat {
    if plans == [] then 0
    else
      var n := |plans| - 1;
      Fires(plans[..n]) + if Detection(plans[n]).At? then 1 else 0
  }

  // How many of its transitions a window's detection is near.
  function NearIn(end: int, plan: Plan, trans: seq<Transition>, span: int, contiguous: bool): (n: nat)
    ensures n <= |Within(trans, end, span, contiguous)|
    ensures n > 0 ==> Detection(plan).At?
  {
    match Detection(plan)
    case Nowhere => 0
    case At(det) => Near(Within(trans, end, span, contiguous), det)
  }

  // Windows whose detection is near a transition of theirs.
  function Hits(anchors: seq<int>, plans: seq<Plan>, trans: seq<Transition>, span: int, contiguous: bool): nat
    requires |anchors| == |plans|
  {
    if anchors == [] then 0
    else
      var n := |anchors| - 1;
      Hits(anchors[..n], plans[..n], trans, span, contiguous)
      + if NearIn(anchors[n], plans[n], trans, span, contiguous) > 0 then 1 else 0
  }

  // (window, transition) pairs in which the window's detection is not near the transition.
  function Undetected(anchors: seq<int>, plans: seq<Plan>, trans: seq<Transition>, span: int, contiguous: bool): nat
    requires |anchors| == |plans|
  {
    if anchors == [] then 0
    else
      var n := |anchors| - 1;
      Undetected(anchors[..n], plans[..n], trans, span, contiguous)
      + |Within(trans, anchors[n], span, contiguous)| - NearIn(anchors[n], plans[n], trans, span, contiguous)
  }

  function CountDiscriminating(anchors: seq<int>, trans: seq<Transition>, span: int): nat {
    if anchors == [] then 0
    else
      var n := |anchors| - 1;
      CountDiscriminating(anchors[..n], trans, span) + if Within(trans, anchors[n], span, false) != [] then 1 else 0
  }

  function Closest(here: seq<Transition>, det: int): nat
    requires here != []
  {
    var d := Distance(det, here[|here| - 1]);
    if |here| == 1 then d
    else
      var rest := Closest(here[..|here| - 1], det);
      if d < rest then d else rest
  }

  // The distance of each detection that has a transition in its window to the closest one.
  function Distances(anchors: seq<int>, plans: seq<Plan>, trans: seq<Transition>, span: int): seq<nat>
    requires |anchors| == |plans|
  {
    if anchors == [] then []
    else
      var n := |anchors| - 1;
      Distances(anchors[..n], plans[..n], trans, span) + DistanceIn(anchors[n], plans[n], trans, span)
  }

  function DistanceIn(end: int, plan: Plan, trans: seq<Transition>, span: int): seq<nat> {
    var here := Within(trans, end, span, false);
    if here == [] then [] else match Detection(plan) case Nowhere => [] case At(det) => [Closest(here, det)]
  }

  function CountWithin(dists: seq<nat>): nat {
    if dists == [] then 0
    else
      var n := |dists| - 1;
      CountWithin(dists[..n]) + if dists[n] <= TOLERANCE_S then 1 else 0
  }

  // The tally after the windows `anchors`.
  ghost predicate SliceLengths(seconds: seq<int>, plans: seq<Plan>) {
    |seconds| == |plans| && forall i | 0 <= i < |plans| :: seconds[i] == plans[i].sliceEnd - plans[i].sliceStart
  }

  ghost predicate Accounts(r: Tally, anchors: seq<int>, plans: seq<Plan>, trans: seq<Transition>, span: int)
    requires |anchors| == |plans|
  {
    && r.windows == |anchors| == |r.sliceSeconds|
    && SliceLengths(r.sliceSeconds, plans)
    && r.fires == Fires(plans)
    && r.windowsDisc == CountDiscriminating(anchors, trans, span)
    && r.hit == Hits(anchors, plans, trans, span, false)
    && r.hitC == Hits(anchors, plans, trans, span, true)
    && r.hit + r.fp == r.fires
    && r.hitC + r.fpC == r.fires
    && r.hit + r.miss == Pairs(anchors, trans, span, false)
    && r.hitC + r.missC == Pairs(anchors, trans, span, true)
    && r.dists == Distances(anchors, plans, trans, span)
    && |r.dists| == r.firesDisc <= r.fires
    && r.firesDisc <= r.windowsDisc <= r.windows
    && r.hit == CountWithin(r.dists)
  }

  // min(abs(det - t.instant) for t in here), when there is one.
  method Nearest(here: seq<Transition>, det: int) returns (found: bool, d: nat)
    ensures found <==> here != []
    ensures found ==> d == Closest(here, det)
    ensures found && d <= TOLERANCE_S <==> Near(here, det) > 0
  {
    found, d := false, 0;
    for i := 0 to |here|
      invariant found <==> i > 0
      invariant found ==> d == Closest(here[..i], det)
    {
      assert here[..i + 1][..i] == here[..i];
      var now := Distance(det, here[i]);
      if !found || now < d {
        found, d := true, now;
      }
    }
    assert here[..|here|] == here;
    if here != [] { ClosestIsNear(here, det); }
  }

  lemma {:induction false} ClosestIsNear(here: seq<Transition>, det: int)
    requires here != []
    ensures Closest(here, det) <= TOLERANCE_S <==> Near(here, det) > 0
  {
    if |here| > 1 { ClosestIsNear(here[..|here| - 1], det); } else { assert here[..0] == []; }
  }

  lemma {:induction false} ClosestIsTheLeast(here: seq<Transition>, det: int)
    requires here != []
    ensures exists t :: t in here && Distance(det, t) == Closest(here, det)
    ensures forall t | t in here :: Closest(here, det) <= Distance(det, t)
  {
    var init, last := here[..|here| - 1], here[|here| - 1];
    assert here == init + [last] && last in here;
    if |here| > 1 {
      ClosestIsTheLeast(init, det);
      var t :| t in init && Distance(det, t) == Closest(init, det);
      assert t in here;
    }
  }

  lemma DistsSnoc(dists: seq<nat>, d: nat)
    ensures CountWithin(dists + [d]) == CountWithin(dists) + if d <= TOLERANCE_S then 1 else 0
  {
    assert (dists + [d])[..|dists|] == dists;
  }

  // What one window adds to the tally.
  ghost predicate Counted(r: Tally, r': Tally, end: int, p: Plan, trans: seq<Transition>, span: int) {
    && (r'.windows == r.windows + 1 && r'.sliceSeconds == r.sliceSeconds + [p.sliceEnd - p.sliceStart])
    && r'.windowsDisc == r.windowsDisc + (if Within(trans, end, span, false) != [] then 1 else 0)
    && r'.fires == r.fires + (if Detection(p).At? then 1 else 0)
    && r'.hit == r.hit + (if NearIn(end, p, trans, span, false) > 0 then 1 else 0)
    && r'.hitC == r.hitC + (if NearIn(end, p, trans, span, true) > 0 then 1 else 0)
    && (r'.hit + r'.fp - (r.hit + r.fp) == r'.hitC + r'.fpC - (r.hitC + r.fpC) == r'.fires - r.fires)
    && (r'.hit + r'.miss == r.hit + r.miss + |Within(trans, end, span, false)|)
    && (r'.hitC + r'.missC == r.hitC + r.missC + |Within(trans, end, span, true)|)
    && r'.dists == r.dists + DistanceIn(end, p, trans, span)
    && (r'.firesDisc - r.firesDisc == |r'.dists| - |r.dists|)
    && r'.firesDisc == r.firesDisc + (if Detection(p).At? && Within(trans, end, span, false) != [] then 1 else 0)
    && (CountWithin(r'.dists) - CountWithin(r.dists) == r'.hit - r.hit)
  }

  // A detection against all the transitions of its window.
  method Credit(r: Tally, here: seq<Transition>, det: int) returns (r': Tally)
    ensures r' == var q := if here == [] then r
                           else r.(firesDisc := r.firesDisc + 1, dists := r.dists + [Closest(here, det)]);
                  if Near(here, det) > 0 then q.(hit := r.hit + 1, miss := r.miss + |here| - 1)
                  else q.(fp := r.fp + 1, miss := r.miss + |here|)
  {
    r' := r;
    if here != [] {
      r' := r'.(firesDisc := r.firesDisc + 1);
    }
    var found, d := Nearest(here, det);
    if found {
      r' := r'.(dists := r.dists + [d]);
    }
    if found && d <= TOLERANCE_S {
      r' := r'.(hit := r.hit + 1, miss := r.miss + |here| - 1);
    } else {
      r' := r'.(fp := r.fp + 1, miss := r.miss + |here|);
    }
  }

  // The same scoring with ground truth restricted to the contiguous transitions.
  method CreditContiguous(r: Tally, cont: seq<Transition>, det: int) returns (r': Tally)
    ensures r' == if Near(cont, det) > 0 then r.(hitC := r.hitC + 1, missC := r.missC + |cont| - 1)
                  else r.(fpC := r.fpC + 1, missC := r.missC + |cont|)
  {
    var found, d := Nearest(cont, det);
    if found && d <= TOLERANCE_S {
      r' := r.(hitC := r.hitC + 1, missC := r.missC + |cont| - 1);
    } else {
      r' := r.(fpC := r.fpC + 1, missC := r.missC + |cont|);
    }
  }

  // What a detection adds, given its window's transitions.
  ghost predicate Fired(r: Tally, r': Tally, here: seq<Transition>, cont: seq<Transition>, det: int) {
    && r'.windows == r.windows && r'.sliceSeconds == r.sliceSeconds && r'.windowsDisc == r.windowsDisc
    && r'.fires == r.fires + 1 && r'.hit + r'.fp == r.hit + r.fp + 1 && r'.hitC + r'.fpC == r.hitC + r.fpC + 1
    && r'.hit == r.hit + (if Near(here, det) > 0 then 1 else 0) && r'.hit + r'.miss == r.hit + r.miss + |here|
    && r'.hitC == r.hitC + (if Near(cont, det) > 0 then 1 else 0) && r'.hitC + r'.missC == r.hitC + r.missC + |cont|
    && r'.dists == r.dists + (if here == [] then [] else [Closest(here, det)])
    && r'.firesDisc == r.firesDisc + (if here == [] then 0 else 1)
    && CountWithin(r'.dists) - CountWithin(r.dists) == r'.hit - r.hit
  }

  method Fire(r: Tally, here: seq<Transition>, cont: seq<Transition>, det: int) returns (r': Tally)
    ensures Fired(r, r', here, cont, det)
  {
    r' := Credit(r.(fires := r.fires + 1), here, det);
    if here != [] {
      DistsSnoc(r.dists, Closest(here, det));
      ClosestIsNear(here, det);
    }
    r' := CreditContiguous(r', cont, det);
  }

  // The loop body: one window.
  method Window(r: Tally, end: int, p: Plan, trans: seq<Transition>, span: int) returns (r': Tally)
    ensures Counted(r, r', end, p, trans, span)
  {
    var here := Within(trans, end, span, false);
    var cont := Within(trans, end, span, true);
    r' := r.(windows := r.windows + 1, sliceSeconds := r.sliceSeconds + [p.sliceEnd - p.sliceStart]);
    if here != [] { r' := r'.(windowsDisc := r.windowsDisc + 1); }
    match Detection(p) {
      case Nowhere =>
        r' := r'.(miss := r.miss + |here|, missC := r.missC + |cont|);
      case At(det) =>
        r' := Fire(r', here, cont, det);
    }
  }

  // What the specifications say of these windows and one more.
  ghost predicate OneMore(anchors: seq<int>, plans: seq<Plan>, anchors': seq<int>, plans': seq<Plan>,
                          trans: seq<Transition>, span: int, end: int, p: Plan)
    requires |anchors| == |plans| && |anchors'| == |plans'|
  {
    && |anchors'| == |anchors| + 1
    && (forall c :: Pairs(anchors', trans, span, c) == Pairs(anchors, trans, span, c) + |Within(trans, end, span, c)|)
    && (forall c :: Hits(anchors', plans', trans, span, c)
                 == Hits(anchors, plans, trans, span, c) + if NearIn(end, p, trans, span, c) > 0 then 1 else 0)
    && Distances(anchors', plans', trans, span)
       == Distances(anchors, plans, trans, span) + DistanceIn(end, p, trans, span)
    && Fires(plans') == Fires(plans) + (if Detection(p).At? then 1 else 0)
    && CountDiscriminating(anchors', trans, span)
       == CountDiscriminating(anchors, trans, span) + if Within(trans, end, span, false) != [] then 1 else 0
  }

  lemma SpecSnoc(anchors: seq<int>, plans: seq<Plan>, trans: seq<Transition>, span: int, end: int, p: Plan)
    requires |anchors| == |plans|
    ensures OneMore(anchors, plans, anchors + [end], plans + [p], trans, span, end, p)
  {
    assert (anchors + [end])[..|anchors|] == anchors && (plans + [p])[..|plans|] == plans;
  }

  lemma AccountsNext(r: Tally, r': Tally, anchors: seq<int>, plans: seq<Plan>, trans: seq<Transition>, span: int,
                     end: int, p: Plan)
    requires |anchors| == |plans|
    requires Accounts(r, anchors, plans, trans, span) && Counted(r, r', end, p, trans, span)
    ensures Accounts(r', anchors + [end], plans + [p], trans, span)
  {
    SpecSnoc(anchors, plans, trans, span, end, p);
    SlicesNext(r.sliceSeconds, plans, p);
    AccountsMore(r, r', anchors, plans, anchors + [end], plans + [p], trans, span, end, p);
  }

  lemma AccountsMore(r: Tally, r': Tally, anchors: seq<int>, plans: seq<Plan>, anchors': seq<int>, plans': seq<Plan>,
                     trans: seq<Transition>, span: int, end: int, p: Plan)
    requires |anchors| == |plans| && |anchors'| == |plans'|
    requires OneMore(anchors, plans, anchors', plans', trans, span, end, p)
    requires Accounts(r, anchors, plans, trans, span) && Counted(r, r', end, p, trans, span)
    requires SliceLengths(r'.sliceSeconds, plans')
    ensures Accounts(r', anchors', plans', trans, span)
  {
  }

  lemma SlicesNext(seconds: seq<int>, plans: seq<Plan>, p: Plan)
    requires SliceLengths(seconds, plans)
    ensures SliceLengths(seconds + [p.sliceEnd - p.sliceStart], plans + [p])
  {}

  lemma PrefixSnoc<T>(s: seq<T>, i: nat)
    requires i < |s|
    ensures s[..i + 1] == s[..i] + [s[i]]
  {}

  lemma AccountsNone(r: Tally, trans: seq<Transition>, span: int)
    requires r == Tally(0, 0, 0, 0, 0, [], [], 0, 0, 0, 0, 0)
    ensures Accounts(r, [], [], trans, span)
  {}

  method ScoreNext(r: Tally, ghost anchors: seq<int>, ghost plans: seq<Plan>, trans: seq<Transition>, span: int,
                   end: int, p: Plan)
    returns (r': Tally)
    requires |anchors| == |plans|
    requires Accounts(r, anchors, plans, trans, span)
    ensures Accounts(r', anchors + [end], plans + [p], trans, span)
  {
    r' := Window(r, end, p, trans, span);
    AccountsNext(r, r', anchors, plans, trans, span, end, p);
  }

  /** score, with the sizer's answers given in the order it was asked. */
  method Score(anchors: seq<int>, plans: seq<Plan>, trans: seq<Transition>, span: int) returns (r: Tally)
    requires |anchors| == |plans|
    ensures Accounts(r, anchors, plans, trans, span)
  {
    r := Tally(0, 0, 0, 0, 0, [], [], 0, 0, 0, 0, 0);
    AccountsNone(r, trans, span);
    assert anchors[..0] == [] && plans[..0] == [];
    for i := 0 to |anchors|
      invariant Accounts(r, anchors[..i], plans[..i], trans, span)
    {
      PrefixSnoc(anchors, i);
      PrefixSnoc(plans, i);
      r := ScoreNext(r, anchors[..i], plans[..i], trans, span, anchors[i], plans[i]);
    }
    assert anchors[..|anchors|] == anchors && plans[..|plans|] == plans;
  }

  // The contiguous transitions of a window are some of its transitions, and so are the far ones.
  lemma {:induction false} ContiguousWithin(trans: seq<Transition>, end: int, span: int, det: int)
    ensures var here, cont := Within(trans, end, span, false), Within(trans, end, span, true);
            && Near(cont, det) <= Near(here, det)
            && |cont| - Near(cont, det) <= |here| - Near(here, det)
  {
    if trans != [] {
      var init, last := trans[..|trans| - 1], trans[|trans| - 1];
      ContiguousWithin(init, end, span, det);
      assert init + [last] == trans;
      WithinSnoc(init, last, end, span, false);
      WithinSnoc(init, last, end, span, true);
      if InWindow(last, end, span, false) { NearSnoc(Within(init, end, span, false), last, det); }
      if InWindow(last, end, span, true) { NearSnoc(Within(init, end, span, true), last, det); }
    }
  }

  lemma NearSnoc(here: seq<Transition>, t: Transition, det: int)
    ensures Near(here + [t], det) == Near(here, det) + if Distance(det, t) <= TOLERANCE_S then 1 else 0
  {
    assert (here + [t])[..|here|] == here;
  }

  lemma WithinSnoc(trans: seq<Transition>, t: Transition, end: int, span: int, c: bool)
    ensures Within(trans + [t], end, span, c)
            == if InWindow(t, end, span, c) then Within(trans, end, span, c) + [t] else Within(trans, end, span, c)
  {
    assert (trans + [t])[..|trans|] == trans;
  }

  /** Restricting ground truth to contiguous transitions can only lose hits and lose misses. */
  lemma ContiguousIsARestriction(r: Tally, anchors: seq<int>, plans: seq<Plan>, trans: seq<Transition>, span: int)
    requires |anchors| == |plans| && Accounts(r, anchors, plans, trans, span)
    ensures r.hitC <= r.hit && r.missC <= r.miss && r.fp <= r.fpC
  {
    RestrictedCounts(anchors, plans, trans, span);
  }

  lemma {:induction false} RestrictedCounts(anchors: seq<int>, plans: seq<Plan>, trans: seq<Transition>, span: int)
    requires |anchors| == |plans|
    ensures Hits(anchors, plans, trans, span, true) <= Hits(anchors, plans, trans, span, false)
    ensures Pairs(anchors, trans, span, true) - Hits(anchors, plans, trans, span, true)
            <= Pairs(anchors, trans, span, false) - Hits(anchors, plans, trans, span, false)
  {
    if anchors != [] {
      var n := |anchors| - 1;
      RestrictedCounts(anchors[..n], plans[..n], trans, span);
      match Detection(plans[n]) {
        case Nowhere => ContiguousWithin(trans, anchors[n], span, 0);
        case At(det) => ContiguousWithin(trans, anchors[n], span, det);
      }
    }
  }

  // No window's detection is near two of its transitions.
  ghost predicate NeverNearTwo(anchors: seq<int>, plans: seq<Plan>, trans: seq<Transition>, span: int)
    requires |anchors| == |plans|
  {
    forall i | 0 <= i < |anchors| :: NearIn(anchors[i], plans[i], trans, span, false) <= 1
  }

  /** A window credits its detection with one transition, so `miss` counts the pairs that went
      undetected exactly when no detection is near two transitions of its window; otherwise it
      counts detected ones as well. */
  lemma MissIsUndetectedIff(r: Tally, anchors: seq<int>, plans: seq<Plan>, trans: seq<Transition>, span: int)
    requires |anchors| == |plans| && Accounts(r, anchors, plans, trans, span)
    ensures r.miss >= Undetected(anchors, plans, trans, span, false)
    ensures r.miss == Undetected(anchors, plans, trans, span, false) <==> NeverNearTwo(anchors, plans, trans, span)
  {
    UndetectedCounts(anchors, plans, trans, span);
  }

  lemma NeverNearTwoInit(anchors: seq<int>, plans: seq<Plan>, trans: seq<Transition>, span: int)
    requires |anchors| == |plans| > 0
    ensures var n := |anchors| - 1;
            NeverNearTwo(anchors, plans, trans, span) <==>
              NeverNearTwo(anchors[..n], plans[..n], trans, span)
                  && NearIn(anchors[n], plans[n], trans, span, false) <= 1
  {
  }

  lemma {:induction false} UndetectedCounts(anchors: seq<int>, plans: seq<Plan>, trans: seq<Transition>, span: int)
    requires |anchors| == |plans|
    ensures var miss := Pairs(anchors, trans, span, false) - Hits(anchors, plans, trans, span, false);
            && miss >= Undetected(anchors, plans, trans, span, false)
            && (miss == Undetected(anchors, plans, trans, span, false) <==> NeverNearTwo(anchors, plans, trans, span))
  {
    if anchors != [] {
      var n := |anchors| - 1;
      UndetectedCounts(anchors[..n], plans[..n], trans, span);
      NeverNearTwoInit(anchors, plans, trans, span);
    }
  }

  // ----- the same condition, read off the transitions alone

  // No two transitions close enough together for one detection to be near both.
  ghost predicate FarApart(here: seq<Transition>) {
    forall i, j | 0 <= i < j < |here| :: Distance(here[i].instant, here[j]) > 2 * TOLERANCE_S
  }

  lemma FarFromLast(here: seq<Transition>, det: int, i: nat)
    requires FarApart(here) && i < |here| - 1 && Distance(det, here[|here| - 1]) <= TOLERANCE_S
    ensures Distance(det, here[i]) > TOLERANCE_S
  {
    assert Distance(here[i].instant, here[|here| - 1]) > 2 * TOLERANCE_S;
  }

  lemma FarApartInit(here: seq<Transition>)
    requires FarApart(here) && here != []
    ensures FarApart(here[..|here| - 1])
  {
  }

  lemma {:induction false} FarApartNearOne(here: seq<Transition>, det: int)
    requires FarApart(here)
    ensures Near(here, det) <= 1
  {
    if here != [] {
      var n := |here| - 1;
      FarApartInit(here);
      FarApartNearOne(here[..n], det);
      NearIsWithinTolerance(here[..n], det);
      if Distance(det, here[n]) <= TOLERANCE_S {
        forall t | t in here[..n] ensures Distance(det, t) > TOLERANCE_S {
          var i :| 0 <= i < n && here[i] == t;
          FarFromLast(here, det, i);
        }
      }
    }
  }

  lemma {:induction false} TwoNear(here: seq<Transition>, det: int, i: nat, j: nat)
    requires i < j < |here| && Distance(det, here[i]) <= TOLERANCE_S && Distance(det, here[j]) <= TOLERANCE_S
    ensures Near(here, det) >= 2
  {
    var n := |here| - 1;
    var init := here[..n];
    if j < n {
      TwoNear(init, det, i, j);
    } else {
      NearIsWithinTolerance(init, det);
      assert init[i] in init;
    }
  }

  // A tally the windows add up to, whatever the sizer answered.
  lemma WindowTally(r: Tally, end: int, p: Plan, trans: seq<Transition>, span: int) returns (r': Tally)
    ensures Counted(r, r', end, p, trans, span)
  {
    var here, cont := Within(trans, end, span, false), Within(trans, end, span, true);
    var f := if Detection(p).At? then 1 else 0;
    var h := if NearIn(end, p, trans, span, false) > 0 then 1 else 0;
    var c := if NearIn(end, p, trans, span, true) > 0 then 1 else 0;
    var ds := DistanceIn(end, p, trans, span);
    r' := Tally(r.hit + h, r.fp + f - h, r.miss + |here| - h, r.fires + f, r.windows + 1, r.dists + ds,
                r.sliceSeconds + [p.sliceEnd - p.sliceStart], r.hitC + c, r.fpC + f - c, r.missC + |cont| - c,
                r.firesDisc + |ds|, r.windowsDisc + if here != [] then 1 else 0);
    if here != [] && f == 1 {
      DistsSnoc(r.dists, ds[0]);
      ClosestIsNear(here, Detection(p).instant);
    } else {
      assert r.dists + ds == r.dists;
    }
  }

  lemma TallyNext(before: Tally, anchors: seq<int>, plans: seq<Plan>, trans: seq<Transition>, span: int, end: int,
                  p: Plan)
    returns (r: Tally)
    requires |anchors| == |plans| && Accounts(before, anchors, plans, trans, span)
    ensures Accounts(r, anchors + [end], plans + [p], trans, span)
  {
    r := WindowTally(before, end, p, trans, span);
    AccountsNext(before, r, anchors, plans, trans, span, end, p);
  }

  lemma SomeTally(anchors: seq<int>, plans: seq<Plan>, trans: seq<Transition>, span: int) returns (r: Tally)
    requires |anchors| == |plans|
    ensures Accounts(r, anchors, plans, trans, span)
  {
    r := Tally(0, 0, 0, 0, 0, [], [], 0, 0, 0, 0, 0);
    AccountsNone(r, trans, span);
    assert anchors[..0] == [] && plans[..0] == [];
    for i := 0 to |anchors|
      invariant Accounts(r, anchors[..i], plans[..i], trans, span)
    {
      PrefixSnoc(anchors, i);
      PrefixSnoc(plans, i);
      r := TallyNext(r, anchors[..i], plans[..i], trans, span, anchors[i], plans[i]);
    }
    assert anchors[..|anchors|] == anchors && plans[..|plans|] == plans;
  }

  // The same answer for every window.
  function Repeated(p: Plan, n: nat): (ps: seq<Plan>)
    ensures |ps| == n && forall i | 0 <= i < n :: ps[i] == p
  {
    if n == 0 then [] else Repeated(p, n - 1) + [p]
  }

  // A detection between two close transitions of a window makes miss count one of them.
  lemma CloseTransitionsOvercount(anchors: seq<int>, trans: seq<Transition>, span: int, i: nat)
    returns (plans: seq<Plan>, r: Tally)
    requires i < |anchors| && !FarApart(Within(trans, anchors[i], span, false))
    ensures |plans| == |anchors| && Accounts(r, anchors, plans, trans, span)
    ensures r.miss > Undetected(anchors, plans, trans, span, false)
  {
    var here := Within(trans, anchors[i], span, false);
    var j, k :| 0 <= j < k < |here| && Distance(here[j].instant, here[k]) <= 2 * TOLERANCE_S;
    var x, y := here[j].instant, here[k].instant;
    var det := (if x < y then x else y) + TOLERANCE_S;
    plans := Repeated(Plan(0, 0, Reported(At(det))), |anchors|);
    TwoNear(here, det, j, k);
    assert NearIn(anchors[i], plans[i], trans, span, false) >= 2;
    r := SomeTally(anchors, plans, trans, span);
    MissIsUndetectedIff(r, anchors, plans, trans, span);
  }

  /** Whatever the sizer answers, `miss` counts the undetected pairs and no others, exactly when no
      window holds two transitions at most twice the tolerance apart. */
  lemma MissIsUndetectedWhateverFiresIff(anchors: seq<int>, trans: seq<Transition>, span: int)
    ensures (forall plans, r | |plans| == |anchors| && Accounts(r, anchors, plans, trans, span) ::
               r.miss == Undetected(anchors, plans, trans, span, false))
       <==> forall i | 0 <= i < |anchors| :: FarApart(Within(trans, anchors[i], span, false))
  {
    if forall i | 0 <= i < |anchors| :: FarApart(Within(trans, anchors[i], span, false)) {
      forall plans, r | |plans| == |anchors| && Accounts(r, anchors, plans, trans, span)
        ensures r.miss == Undetected(anchors, plans, trans, span, false)
      {
        FarApartNeverNearTwo(anchors, plans, trans, span);
        MissIsUndetectedIff(r, anchors, plans, trans, span);
      }
    } else {
      var i :| 0 <= i < |anchors| && !FarApart(Within(trans, anchors[i], span, false));
      var plans, r := CloseTransitionsOvercount(anchors, trans, span, i);
    }
  }

  lemma FarApartNeverNearTwo(anchors: seq<int>, plans: seq<Plan>, trans: seq<Transition>, span: int)
    requires |plans| == |anchors|
    requires forall i | 0 <= i < |anchors| :: FarApart(Within(trans, anchors[i], span, false))
    ensures NeverNearTwo(anchors, plans, trans, span)
  {
    forall i | 0 <= i < |anchors| ensures NearIn(anchors[i], plans[i], trans, span, false) <= 1 {
      if Detection(plans[i]).At? {
        FarApartNearOne(Within(trans, anchors[i], span, false), Detection(plans[i]).instant);
      }
    }
  }

  /** One window, two transitions five minutes apart and a detection between them: both are detected,
      and one of them is a miss. */
  lemma MissCanOvercount()
    ensures var anchors, trans := [3600], [Transition(1000, 0), Transition(1300, 0)];
            var plans := [Plan(0, 3600, Reported(At(1150)))];
            && Undetected(anchors, plans, trans, 60, false) == 0
            && forall r | Accounts(r, anchors, plans, trans, 60) :: r.miss == 1
  {
    var x, y := Transition(1000, 0), Transition(1300, 0);
    var p := Plan(0, 3600, Reported(At(1150)));
    var one: seq<Transition> := [x];
    WithinSnoc([], x, 3600, 60, false);
    WithinSnoc(one, y, 3600, 60, false);
    assert [] + [x] == one && one + [y] == [x, y];
    NearSnoc([], x, 1150);
    NearSnoc(one, y, 1150);
    assert Within([x, y], 3600, 60, false) == [x, y] && Near([x, y], 1150) == 2;
    assert [3600][..0] == [] && [p][..0] == [];
  }
}
