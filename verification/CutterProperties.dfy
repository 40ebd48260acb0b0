/** What the cutters promise: one tiling theorem for all four arms, then what is special to each. */
module CutterProperties {
  import opened Options
  import opened Arithmetic
  import opened Sorting
  import opened Blocks
  import opened Cutters
  import Store
  import Allocation

  // ----- every arm

  // The labels a walk may leave on its blocks.
  ghost predicate Labelled(bs: seq<Block>, rem: seq<int>) {
    forall i | 0 <= i < |bs| ::
      && (bs[i].endReason == Detected <==> bs[i].end in rem)
      && (EndsSpan(bs[i].endReason) <==> i == |bs| - 1)
      && bs[i].endReason != Idle && bs[i].endReason != SessionStart
  }

  lemma {:induction false} CutTiles(arm: Arm, rem: seq<int>, t: int, hi: int, reason: Reason)
    requires Sound(arm) && Pending(rem, hi)
    ensures var bs := Cut(arm, rem, t, hi, reason);
            Tiles(bs, t, hi) && Chained(bs) && Labelled(bs, rem) && (bs != [] ==> bs[0].startReason == reason)
    decreases hi - t
  {
    if t < hi {
      StepSound(arm, rem, t, hi);
      var b := Step(arm, rem, t, hi);
      CutTiles(arm, rem, b.end, hi, b.reason);
      TilesCons(Block(t, b.end, reason, b.reason), Cut(arm, rem, b.end, hi, b.reason), rem, hi);
    }
  }

  // One block in front of a tiling.
  lemma TilesCons(b: Block, rest: seq<Block>, rem: seq<int>, hi: int)
    requires b.start < b.end <= hi && Tiles(rest, b.end, hi) && Chained(rest) && Labelled(rest, rem)
    requires rest != [] ==> rest[0].startReason == b.endReason
    requires (b.endReason == Detected <==> b.end in rem) && (EndsSpan(b.endReason) <==> b.end == hi)
    requires b.endReason != Idle && b.endReason != SessionStart
    ensures Tiles([b] + rest, b.start, hi) && Chained([b] + rest) && Labelled([b] + rest, rem)
  {
    var bs := [b] + rest;
    assert forall i | 1 <= i < |bs| :: bs[i] == rest[i - 1];
  }

  lemma {:induction false} CutHitsEveryCut(arm: Arm, rem: seq<int>, t: int, hi: int, reason: Reason, c: int)
    requires Sound(arm) && Pending(rem, hi) && c in rem && c > t
    ensures exists i :: 0 <= i < |Cut(arm, rem, t, hi, reason)| && Cut(arm, rem, t, hi, reason)[i].end == c
    decreases hi - t
  {
    assert c < hi;
    StepSound(arm, rem, t, hi);
    var b := Step(arm, rem, t, hi);
    var bs := Cut(arm, rem, t, hi, reason);
    if b.end == c {
      assert bs[0].end == c;
    } else {
      CutHitsEveryCut(arm, rem, b.end, hi, b.reason, c);
      var rest := Cut(arm, rem, b.end, hi, b.reason);
      var i :| 0 <= i < |rest| && rest[i].end == c;
      assert bs[i + 1].end == c;
    }
  }

  /** All four cutters tile [lo, hi): contiguous positive blocks, a boundary at every cut strictly
      inside, labelled detected exactly there, start reasons chained to end reasons, and a
      session end on the last block and nowhere else. */
  lemma EveryArmTiles(arm: Arm, cuts: seq<int>, lo: int, hi: int)
    requires Sound(arm)
    ensures var bs := Bound(arm, cuts, lo, hi);
            && Tiles(bs, lo, hi) && Chained(bs)
            && (bs != [] ==> bs[0].startReason == SessionStart)
            && (forall i | 0 <= i < |bs| :: EndsSpan(bs[i].endReason) <==> i == |bs| - 1)
            && (forall i | 0 <= i < |bs| :: bs[i].endReason == Detected <==> bs[i].end in cuts && bs[i].end < hi)
            && (forall c | c in cuts && lo < c < hi :: exists i :: 0 <= i < |bs| && bs[i].end == c)
  {
    RemainingFacts(cuts, lo, hi);
    var rem, bs := Remaining(cuts, lo, hi), Bound(arm, cuts, lo, hi);
    CutTiles(arm, rem, lo, hi, SessionStart);
    TilesAreOrdered(bs, lo, hi);
    forall c | c in cuts && lo < c < hi ensures exists i :: 0 <= i < |bs| && bs[i].end == c {
      CutHitsEveryCut(arm, rem, lo, hi, SessionStart, c);
    }
  }

  // ----- arm A: the count is exact, and nothing does better

  function CeilDiv(gap: int, cap: int): int
    requires cap > 0
  {
    (gap + cap - 1) / cap
  }

  // Sum of ceil(gap / cap) over the gaps between consecutive points of {t} + {later cuts} + {hi}.
  function GapCount(rem: seq<int>, t: int, hi: int, cap: int): int
    requires cap > 0 && Pending(rem, hi)
    decreases hi - t
  {
    NextCutIsLeast(rem, t);
    match NextCut(rem, t)
    case None => CeilDiv(hi - t, cap)
    case Some(c) =>
      assert c < hi by { assert forall d | d in rem :: d < hi; }
      CeilDiv(c - t, cap) + GapCount(rem, c, hi, cap)
  }

  lemma CeilDivStep(gap: int, cap: int)
    requires cap > 0
    ensures 0 <= gap <= cap ==> CeilDiv(gap, cap) == if gap == 0 then 0 else 1
    ensures CeilDiv(gap + cap, cap) == 1 + CeilDiv(gap, cap)
  {
    if 0 < gap <= cap { QuotientIs(gap + cap - 1, cap, 1, gap - 1); }
    if gap == 0 { QuotientIs(cap - 1, cap, 0, cap - 1); }
    var a := gap + cap - 1;
    assert (a / cap + 1) * cap == a / cap * cap + cap;
    QuotientIs(a + cap, cap, a / cap + 1, a % cap);
  }

  lemma CeilDivMonotone(a: int, b: int, cap: int)
    requires cap > 0 && a <= b
    ensures CeilDiv(a, cap) <= CeilDiv(b, cap)
  {
    var p, q := CeilDiv(a, cap), CeilDiv(b, cap);
    assert p * cap <= a + cap - 1 && b + cap - 1 < q * cap + cap;
    if p > q { MulGap(q, p, cap); }
  }

  lemma {:induction false} GapCountStep(rem: seq<int>, t: int, e: int, hi: int, cap: int)
    requires cap > 0 && Pending(rem, hi) && t < e <= hi
    requires forall c | c in rem && c > t :: e <= c
    ensures e - t <= cap ==> GapCount(rem, t, hi, cap) <= 1 + GapCount(rem, e, hi, cap)
    ensures e - t == cap || (e - t < cap && (e == hi || e in rem)) ==>
              GapCount(rem, t, hi, cap) == 1 + GapCount(rem, e, hi, cap)
  {
    NextCutIsLeast(rem, t);
    NextCutIsLeast(rem, e);
    var c := match NextCut(rem, t) case None => hi case Some(c) => c;
    assert forall d | d in rem :: d < hi;
    CeilDivStep(c - t, cap);
    CeilDivStep(c - e, cap);
    CeilDivStep(0, cap);
    if e - t <= cap { CeilDivMonotone(c - t, c - e + cap, cap); }
    if e in rem { assert c == e; }
  }

  lemma {:induction false} TimeCount(rem: seq<int>, t: int, hi: int, cap: int, reason: Reason)
    requires cap > 0 && Pending(rem, hi) && t <= hi
    ensures |Cut(Time(cap), rem, t, hi, reason)| == GapCount(rem, t, hi, cap)
    ensures forall b | b in Cut(Time(cap), rem, t, hi, reason) :: b.end - b.start <= cap
    decreases hi - t
  {
    if t < hi {
      StepSound(Time(cap), rem, t, hi);
      var b := Step(Time(cap), rem, t, hi);
      GapCountStep(rem, t, b.end, hi, cap);
      TimeCount(rem, b.end, hi, cap, b.reason);
    } else {
      NextCutIsLeast(rem, t);
      assert forall c | c in rem :: c < hi;
      CeilDivStep(0, cap);
    }
  }

  // Any way of tiling [t, hi) with blocks no longer than cap and a boundary at every cut.
  ghost predicate Admissible(bs: seq<Block>, rem: seq<int>, t: int, hi: int, cap: int) {
    && Tiles(bs, t, hi)
    && (forall i | 0 <= i < |bs| :: bs[i].end - bs[i].start <= cap)
    && (forall c | c in rem && t < c < hi :: exists i :: 0 <= i < |bs| && bs[i].end == c)
  }

  lemma {:induction false} AdmissibleNeedsGapCount(bs: seq<Block>, rem: seq<int>, t: int, hi: int, cap: int)
    requires cap > 0 && Pending(rem, hi) && t <= hi && Admissible(bs, rem, t, hi, cap)
    ensures |bs| >= GapCount(rem, t, hi, cap)
    decreases |bs|
  {
    if t == hi {
      NextCutIsLeast(rem, t);
      assert forall c | c in rem :: c < hi;
      CeilDivStep(0, cap);
    } else {
      TilesAreOrdered(bs, t, hi);
      var e, rest := bs[0].end, bs[1..];
      assert forall c | c in rem :: c < hi;
      forall c | c in rem && c > t ensures e <= c {
        var i :| 0 <= i < |bs| && bs[i].end == c;
      }
      GapCountStep(rem, t, e, hi, cap);
      AdmissibleRest(bs, rem, t, hi, cap);
      AdmissibleNeedsGapCount(rest, rem, e, hi, cap);
    }
  }

  lemma AdmissibleRest(bs: seq<Block>, rem: seq<int>, t: int, hi: int, cap: int)
    requires t < hi && Admissible(bs, rem, t, hi, cap) && Ordered(bs)
    ensures bs != [] && Admissible(bs[1..], rem, bs[0].end, hi, cap)
  {
    var e, rest := bs[0].end, bs[1..];
    assert forall i | 1 <= i < |bs| :: bs[i] == rest[i - 1];
    if |bs| > 1 { assert rest[|rest| - 1] == bs[|bs| - 1]; }
    forall c | c in rem && e < c < hi ensures exists i :: 0 <= i < |rest| && rest[i].end == c {
      var i :| 0 <= i < |bs| && bs[i].end == c;
      assert rest[i - 1].end == c;
    }
  }

  /** form_blocks uses exactly the sum of ceil(gap / cap) blocks, none longer than the cap, and no
      tiling with blocks inside the cap and a boundary at every cut uses fewer. */
  lemma FormBlocksIsMinimal(cuts: seq<int>, lo: int, hi: int, cap: int)
    requires cap > 0 && lo <= hi
    ensures var rem, bs := Remaining(cuts, lo, hi), Bound(Time(cap), cuts, lo, hi);
            && Pending(rem, hi) && |bs| == GapCount(rem, lo, hi, cap)
            && Admissible(bs, rem, lo, hi, cap)
            && forall other | Admissible(other, rem, lo, hi, cap) :: |bs| <= |other|
  {
    RemainingFacts(cuts, lo, hi);
    var rem := Remaining(cuts, lo, hi);
    TimeCount(rem, lo, hi, cap, SessionStart);
    EveryArmTiles(Time(cap), cuts, lo, hi);
    forall other | Admissible(other, rem, lo, hi, cap)
      ensures |Bound(Time(cap), cuts, lo, hi)| <= |other|
    {
      AdmissibleNeedsGapCount(other, rem, lo, hi, cap);
    }
  }

  // ----- arm B: deferral is exact

  function At(t: int, cap: int, k: int): int { t + k * cap }

  // No multiple of the cap before x could attribute.
  ghost predicate NothingBefore(can: (int, int) -> bool, t: int, cap: int, x: int)
    requires cap > 0
  {
    forall k | 1 <= k <= x - t && At(t, cap, k) < x :: !can(t, At(t, cap, k))
  }

  ghost predicate IsDeferredMultiple(t: int, cap: int, e: int)
    requires cap > 0
  {
    exists k | 2 <= k <= e - t :: e == At(t, cap, k)
  }

  // What each end reason of arm B asserts about the block it ends.
  ghost predicate GateClaim(b: Block, hi: int, cap: int, can: (int, int) -> bool)
    requires cap > 0
  {
    && NothingBefore(can, b.start, cap, b.end)
    && match b.endReason
       case Detected => true
       case Budget => b.end == b.start + cap && b.end < hi && can(b.start, b.end)
       case BoundDeferred => IsDeferredMultiple(b.start, cap, b.end) && b.end < hi && can(b.start, b.end)
       case SessionEnd => b.end == hi && b.start + cap >= hi
       case SessionEndDeferred => b.end == hi && b.start + cap < hi
       case _ => false
  }

  lemma AtBounds(t: int, cap: int, k: int)
    requires cap > 0 && k >= 1
    ensures k <= At(t, cap, k) - t
    ensures At(t, cap, k + 1) == At(t, cap, k) + cap
  {
    assert 0 * k == 0 && cap * k == k * cap;
    MulGap(0, cap, k);
  }

  lemma AtStrict(t: int, cap: int, j: int, k: int)
    requires cap > 0 && 1 <= j < k
    ensures At(t, cap, j) + cap <= At(t, cap, k)
  {
    MulGap(j, k, cap);
  }

  lemma {:induction false} GateMeetsClaim(cap: int, can: (int, int) -> bool, rem: seq<int>, t: int, k: int, hi: int,
                                          reason: Reason)
    requires cap > 0 && t < hi && Pending(rem, hi) && k >= 1
    requires NothingBefore(can, t, cap, At(t, cap, k))
    requires k > 1 ==> t + cap < hi
    requires forall c | c in rem && c > t :: At(t, cap, k) - cap < c
    ensures var g := Gate(cap, can, NextCut(rem, t), t, At(t, cap, k), hi, k > 1);
            g.end > t && GateClaim(Block(t, g.end, reason, g.reason), hi, cap, can)
    decreases hi - At(t, cap, k)
  {
    NextCutIsLeast(rem, t);
    AtBounds(t, cap, k);
    var next, candidate := NextCut(rem, t), At(t, cap, k);
    if next.Some? && next.value <= candidate {
      assert next.value in rem;
    } else if candidate >= hi {
      forall j | 1 <= j <= hi - t && At(t, cap, j) < hi ensures !can(t, At(t, cap, j)) {
        if j >= k { if j > k { AtStrict(t, cap, k, j); } }
        AtBounds(t, cap, j);
      }
    } else if can(t, candidate) {
    } else {
      forall j | 1 <= j <= At(t, cap, k + 1) - t && At(t, cap, j) < At(t, cap, k + 1)
        ensures !can(t, At(t, cap, j))
      {
        if j > k + 1 { AtStrict(t, cap, k + 1, j); }
        if j < k { AtStrict(t, cap, j, k); }
        AtBounds(t, cap, j);
      }
      GateMeetsClaim(cap, can, rem, t, k + 1, hi, reason);
    }
  }

  // Within one arm-B block the claim, the absence of skipped cuts and the detected label leave
  // only one possible boundary.
  lemma {:induction false} ClaimDetermines(cap: int, can: (int, int) -> bool, rem: seq<int>, a: Block, b: Block,
                                           hi: int)
    requires cap > 0 && Pending(rem, hi) && a.start == b.start < a.end && b.start < b.end && a.end <= hi && b.end <= hi
    requires GateClaim(a, hi, cap, can) && GateClaim(b, hi, cap, can)
    requires (a.endReason == Detected <==> a.end in rem) && (b.endReason == Detected <==> b.end in rem)
    requires forall c | c in rem && c > a.start :: a.end <= c && b.end <= c
    ensures a.end == b.end && a.endReason == b.endReason
  {
    assert forall c | c in rem :: c < hi;
    ClaimNotEarlier(cap, can, rem, a, b, hi);
    ClaimNotEarlier(cap, can, rem, b, a, hi);
    AtBounds(a.start, cap, 1);
    if a.endReason == BoundDeferred || b.endReason == BoundDeferred {
      var k :| 2 <= k <= a.end - a.start && a.end == At(a.start, cap, k);
      AtStrict(a.start, cap, 1, k);
    }
  }

  lemma ClaimNotEarlier(cap: int, can: (int, int) -> bool, rem: seq<int>, a: Block, b: Block, hi: int)
    requires cap > 0 && Pending(rem, hi) && a.start == b.start < a.end && b.start < b.end && a.end <= hi && b.end <= hi
    requires GateClaim(a, hi, cap, can) && GateClaim(b, hi, cap, can)
    requires a.endReason == Detected ==> a.end in rem
    requires forall c | c in rem && c > a.start :: b.end <= c
    ensures a.end >= b.end
  {
    AtBounds(a.start, cap, 1);
    assert At(a.start, cap, 1) == a.start + cap;
  }

  // The deferral rule, stated over a whole block list.
  ghost predicate GatedSpec(bs: seq<Block>, rem: seq<int>, lo: int, hi: int, cap: int, can: (int, int) -> bool,
                            reason: Reason)
    requires cap > 0
  {
    && Tiles(bs, lo, hi) && Chained(bs) && (bs != [] ==> bs[0].startReason == reason)
    && (forall i | 0 <= i < |bs| :: GateClaim(bs[i], hi, cap, can))
    && (forall i | 0 <= i < |bs| :: bs[i].endReason == Detected <==> bs[i].end in rem)
    && (forall i, c | 0 <= i < |bs| && c in rem && c > bs[i].start :: bs[i].end <= c)
  }

  lemma GatedSpecTail(bs: seq<Block>, rem: seq<int>, lo: int, hi: int, cap: int, can: (int, int) -> bool,
                      reason: Reason)
    requires cap > 0 && GatedSpec(bs, rem, lo, hi, cap, can, reason) && bs != []
    ensures GatedSpec(bs[1..], rem, bs[0].end, hi, cap, can, bs[0].endReason)
  {
    TilesAreOrdered(bs, lo, hi);
    var rest := bs[1..];
    assert forall i | 0 <= i < |rest| :: rest[i] == bs[i + 1];
    if rest != [] { assert rest[|rest| - 1] == bs[|bs| - 1]; }
  }

  lemma GatedHead(rem: seq<int>, t: int, hi: int, cap: int, can: (int, int) -> bool, reason: Reason)
    requires cap > 0 && Pending(rem, hi) && t < hi
    ensures var b := Step(Gated(cap, can), rem, t, hi);
            b.end > t && GateClaim(Block(t, b.end, reason, b.reason), hi, cap, can)
  {
    AtBounds(t, cap, 1);
    forall j | 1 <= j <= cap ensures At(t, cap, j) >= At(t, cap, 1) {
      if j > 1 { AtStrict(t, cap, 1, j); }
    }
    GateMeetsClaim(cap, can, rem, t, 1, hi, reason);
  }

  lemma {:induction false} GatedMeetsSpec(rem: seq<int>, t: int, hi: int, cap: int, can: (int, int) -> bool,
                                          reason: Reason)
    requires cap > 0 && Pending(rem, hi)
    ensures GatedSpec(Cut(Gated(cap, can), rem, t, hi, reason), rem, t, hi, cap, can, reason)
    decreases hi - t
  {
    var arm := Gated(cap, can);
    var bs := Cut(arm, rem, t, hi, reason);
    CutTiles(arm, rem, t, hi, reason);
    if t < hi {
      StepSound(arm, rem, t, hi);
      GatedHead(rem, t, hi, cap, can, reason);
      var b := Step(arm, rem, t, hi);
      GatedMeetsSpec(rem, b.end, hi, cap, can, b.reason);
      var rest := Cut(arm, rem, b.end, hi, b.reason);
      assert forall i | 1 <= i < |bs| :: bs[i] == rest[i - 1];
      forall i, c | 0 <= i < |bs| && c in rem && c > bs[i].start ensures bs[i].end <= c {
        if i > 0 { assert bs[i] == rest[i - 1]; }
      }
      forall i | 0 <= i < |bs| ensures GateClaim(bs[i], hi, cap, can) {
        if i > 0 { assert bs[i] == rest[i - 1]; }
      }
    }
  }

  lemma FirstBlockDetermined(bs: seq<Block>, cut: seq<Block>, rem: seq<int>, t: int, hi: int, cap: int,
                             can: (int, int) -> bool, reason: Reason)
    requires cap > 0 && Pending(rem, hi) && t < hi
    requires GatedSpec(bs, rem, t, hi, cap, can, reason) && GatedSpec(cut, rem, t, hi, cap, can, reason)
    ensures bs != [] && cut != [] && bs[0] == cut[0]
  {
    TilesAreOrdered(bs, t, hi);
    TilesAreOrdered(cut, t, hi);
    ClaimDetermines(cap, can, rem, bs[0], cut[0], hi);
  }

  lemma {:induction false} GatedSpecIsUnique(bs: seq<Block>, rem: seq<int>, t: int, hi: int, cap: int,
                                             can: (int, int) -> bool, reason: Reason)
    requires cap > 0 && Pending(rem, hi) && GatedSpec(bs, rem, t, hi, cap, can, reason)
    ensures bs == Cut(Gated(cap, can), rem, t, hi, reason)
    decreases |bs|
  {
    if t < hi {
      var cut := Cut(Gated(cap, can), rem, t, hi, reason);
      assert bs != [] && cut != [] && bs[0] == cut[0] by {
        GatedMeetsSpec(rem, t, hi, cap, can, reason);
        FirstBlockDetermined(bs, cut, rem, t, hi, cap, can, reason);
      }
      var b := Step(Gated(cap, can), rem, t, hi);
      assert cut == [bs[0]] + Cut(Gated(cap, can), rem, b.end, hi, b.reason);
      assert bs[1..] == Cut(Gated(cap, can), rem, b.end, hi, b.reason) by {
        GatedSpecTail(bs, rem, t, hi, cap, can, reason);
        GatedSpecIsUnique(bs[1..], rem, bs[0].end, hi, cap, can, bs[0].endReason);
      }
      assert bs == [bs[0]] + bs[1..];
    }
  }

  /** Evidence-gated deferral is exact. A block list is the one arm B returns if and only if it is a
      reason-chained tiling, labelled detected exactly at the cuts and skipping none, in which
      `budget` has length cap, `bound_deferred` the least multiple k >= 2 of the cap that can
      attribute, and `session_end_deferred` means that no multiple before the end could. */
  lemma GatedDeferralIsExact(bs: seq<Block>, cuts: seq<int>, lo: int, hi: int, cap: int, can: (int, int) -> bool)
    requires cap > 0
    ensures bs == Bound(Gated(cap, can), cuts, lo, hi)
       <==> GatedSpec(bs, Remaining(cuts, lo, hi), lo, hi, cap, can, SessionStart)
  {
    RemainingFacts(cuts, lo, hi);
    var rem := Remaining(cuts, lo, hi);
    GatedMeetsSpec(rem, lo, hi, cap, can, SessionStart);
    if GatedSpec(bs, rem, lo, hi, cap, can, SessionStart) {
      GatedSpecIsUnique(bs, rem, lo, hi, cap, can, SessionStart);
    }
  }

  /** An oracle that always says yes makes arm B arm A, reasons included. */
  lemma {:induction false} AlwaysAttributableIsTime(rem: seq<int>, t: int, hi: int, cap: int, can: (int, int) -> bool,
                                                    reason: Reason)
    requires cap > 0 && Pending(rem, hi) && forall a, b :: can(a, b)
    ensures Cut(Gated(cap, can), rem, t, hi, reason) == Cut(Time(cap), rem, t, hi, reason)
    decreases hi - t
  {
    if t < hi {
      StepSound(Time(cap), rem, t, hi);
      var b := Step(Time(cap), rem, t, hi);
      assert Step(Gated(cap, can), rem, t, hi) == b;
      AlwaysAttributableIsTime(rem, b.end, hi, cap, can, b.reason);
    }
  }

  lemma {:induction false} NeverGate(cap: int, can: (int, int) -> bool, next: Option<int>, t: int, candidate: int,
                                     hi: int, deferred: bool)
    requires cap > 0 && (forall a, b :: !can(a, b)) && (next.Some? ==> next.value < hi)
    ensures Gate(cap, can, next, t, candidate, hi, deferred).end == if next.Some? then next.value else hi
    decreases hi - candidate
  {
    if !(next.Some? && next.value <= candidate) && candidate < hi {
      NeverGate(cap, can, next, t, candidate + cap, hi, true);
    }
  }

  // The same spans, whatever the reasons.
  predicate SameSpans(a: seq<Block>, b: seq<Block>) {
    |a| == |b| && forall i | 0 <= i < |a| :: a[i].start == b[i].start && a[i].end == b[i].end
  }

  /** An oracle that always says no leaves arm B with the spans of arm D. */
  lemma {:induction false} NeverAttributableIsUnbounded(rem: seq<int>, t: int, hi: int, cap: int,
                                                        can: (int, int) -> bool,
                                                        r1: Reason, r2: Reason)
    requires cap > 0 && Pending(rem, hi) && forall a, b :: !can(a, b)
    ensures SameSpans(Cut(Gated(cap, can), rem, t, hi, r1), Cut(NoBound, rem, t, hi, r2))
    decreases hi - t
  {
    if t < hi {
      StepSound(NoBound, rem, t, hi);
      StepSound(Gated(cap, can), rem, t, hi);
      NextCutIsLeast(rem, t);
      NeverGate(cap, can, NextCut(rem, t), t, t + cap, hi, false);
      var b, d := Step(Gated(cap, can), rem, t, hi), Step(NoBound, rem, t, hi);
      NeverAttributableIsUnbounded(rem, b.end, hi, cap, can, b.reason, d.reason);
    }
  }

  /** With the store's own attribution question as the oracle, a block that ended at the bound
      always clears the pooled floor; so a thin block of arm B bypassed the gate. */
  lemma GatedBoundsAreNotThin(ev: seq<Store.Event>, cuts: seq<int>, lo: int, hi: int, cap: int, b: Block)
    requires cap > 0
    requires b in Bound(Gated(cap, StoreGate(ev)), cuts, lo, hi)
    ensures b.endReason == Budget || b.endReason == BoundDeferred ==>
              Store.Evidence(ev, b.start, b.end) >= Store.MIN_EVIDENCE
    ensures Store.Evidence(ev, b.start, b.end) < Store.MIN_EVIDENCE ==>
              b.endReason == Detected || EndsSpan(b.endReason)
  {
    RemainingFacts(cuts, lo, hi);
    GatedMeetsSpec(Remaining(cuts, lo, hi), lo, hi, cap, StoreGate(ev), SessionStart);
    if b.endReason == Budget || b.endReason == BoundDeferred {
      Store.AttributableIsNotThin(ev, b.start, b.end);
    }
  }

  // ----- arm C: every turn counted once

  // Turns in a block's (start, end].
  function CountIn(instants: seq<int>, start: int, end: int): nat {
    |Filter(instants, x => start < x <= end)|
  }

  function TotalIn(instants: seq<int>, bs: seq<Block>): nat {
    if bs == [] then 0 else CountIn(instants, bs[0].start, bs[0].end) + TotalIn(instants, bs[1..])
  }

  lemma {:induction false} CountSplits(instants: seq<int>, a: int, b: int, c: int)
    requires a <= b <= c
    ensures CountIn(instants, a, c) == CountIn(instants, a, b) + CountIn(instants, b, c)
  {
    if instants != [] { CountSplits(instants[1..], a, b, c); }
  }

  lemma {:induction false} NoneUpTo(instants: seq<int>, t: int, e: int)
    requires forall i | 0 <= i < |instants| :: instants[i] > e
    ensures CountIn(instants, t, e) == 0
  {
    if instants != [] { NoneUpTo(instants[1..], t, e); }
  }

  // In ascending order, the first k later turns are exactly those up to the k-th.
  lemma {:induction false} CountUpTo(instants: seq<int>, t: int, hi: int, e: int)
    requires StrictlyAscending(instants) && t <= e < hi
    ensures CountIn(instants, t, e) <= |TurnsIn(instants, t, hi)|
    ensures forall i | 0 <= i < |TurnsIn(instants, t, hi)| ::
              TurnsIn(instants, t, hi)[i] <= e <==> i < CountIn(instants, t, e)
  {
    if instants != [] {
      CountUpTo(instants[1..], t, hi, e);
      var after, rest := TurnsIn(instants, t, hi), TurnsIn(instants[1..], t, hi);
      if instants[0] > e { NoneUpTo(instants[1..], t, e); }
      assert t < instants[0] < hi ==> forall i | 1 <= i < |after| :: after[i] == rest[i - 1];
    }
  }

  // What each end reason of arm C asserts about the block it ends; it has no other.
  predicate TurnClaim(b: Block, hi: int, instants: seq<int>, n: int) {
    match b.endReason
    case Budget => CountIn(instants, b.start, b.end) == n && b.end in instants && b.end < hi
    case Detected => CountIn(instants, b.start, b.end) <= n
    case SessionEnd => CountIn(instants, b.start, b.end - 1) < n && b.end == hi
    case _ => false
  }

  lemma TurnStepClaim(instants: seq<int>, n: int, rem: seq<int>, t: int, hi: int, reason: Reason)
    requires n >= 1 && StrictlyAscending(instants) && Pending(rem, hi) && t < hi
    ensures var b := Step(Turns(instants, n), rem, t, hi);
            TurnClaim(Block(t, b.end, reason, b.reason), hi, instants, n)
  {
    var b, after := Step(Turns(instants, n), rem, t, hi), TurnsIn(instants, t, hi);
    StepSound(Turns(instants, n), rem, t, hi);
    FilterStrict(instants, x => t < x < hi);
    if b.reason == SessionEnd {
      CountUpTo(instants, t, hi, hi - 1);
    } else {
      CountUpTo(instants, t, hi, b.end);
      assert n <= |after| ==> after[n - 1] in after && b.end <= after[n - 1];
      assert n < |after| ==> after[n - 1] < after[n];
    }
  }

  lemma {:induction false} TurnClaims(instants: seq<int>, n: int, rem: seq<int>, t: int, hi: int, reason: Reason)
    requires n >= 1 && StrictlyAscending(instants) && Pending(rem, hi)
    ensures var bs := Cut(Turns(instants, n), rem, t, hi, reason);
            && (forall i | 0 <= i < |bs| :: TurnClaim(bs[i], hi, instants, n))
            && (t <= hi ==> TotalIn(instants, bs) == CountIn(instants, t, hi))
    decreases hi - t
  {
    if t < hi {
      StepSound(Turns(instants, n), rem, t, hi);
      TurnStepClaim(instants, n, rem, t, hi, reason);
      var b := Step(Turns(instants, n), rem, t, hi);
      TurnClaims(instants, n, rem, b.end, hi, b.reason);
      CountSplits(instants, t, b.end, hi);
    } else if t == hi {
      NoneIn(instants, t);
    }
  }

  lemma {:induction false} NoneIn(instants: seq<int>, t: int)
    ensures CountIn(instants, t, t) == 0
  {
    if instants != [] { NoneIn(instants[1..], t); }
  }

  /** bound_turns counts every turn strictly after lo in exactly one block's (start, end]: a budget
      block holds exactly n turns and ends on one, a detected block at most n, and the block that
      runs out of span fewer than n before the end. */
  lemma TurnsAreCountedOnce(instants: seq<int>, cuts: seq<int>, lo: int, hi: int, n: int)
    requires n >= 1 && StrictlyAscending(instants) && lo <= hi
    ensures var bs := Bound(Turns(instants, n), cuts, lo, hi);
            && (forall i | 0 <= i < |bs| :: TurnClaim(bs[i], hi, instants, n))
            && TotalIn(instants, bs) == CountIn(instants, lo, hi)
            && (forall x | x in instants && lo < x < hi :: exists i :: 0 <= i < |bs| && Closes(bs[i], x))
            && (forall x, i, j | 0 <= i < |bs| && 0 <= j < |bs| && Closes(bs[i], x) && Closes(bs[j], x) :: i == j)
  {
    RemainingFacts(cuts, lo, hi);
    var bs := Bound(Turns(instants, n), cuts, lo, hi);
    TurnClaims(instants, n, Remaining(cuts, lo, hi), lo, hi, SessionStart);
    EveryArmTiles(Turns(instants, n), cuts, lo, hi);
    TilesAreOrdered(bs, lo, hi);
    forall x | x in instants && lo < x < hi ensures exists i :: 0 <= i < |bs| && Closes(bs[i], x) {
      TilesPlaceOnce(bs, lo, hi, x);
    }
  }

  // ----- arms A and D: what their end reasons assert

  // Arm A: a cut within the cap, exactly the cap, or what is left of the span within it.
  predicate TimeClaim(b: Block, hi: int, cap: int) {
    match b.endReason
    case Detected => b.end - b.start <= cap
    case Budget => b.end - b.start == cap && b.end < hi
    case SessionEnd => b.end - b.start <= cap && b.end == hi
    case _ => false
  }

  // Arm D: a cut, or the end of the span.
  predicate NoBoundClaim(b: Block, hi: int) {
    b.endReason == Detected || (b.endReason == SessionEnd && b.end == hi)
  }

  ghost predicate AllTime(bs: seq<Block>, hi: int, cap: int) { forall i | 0 <= i < |bs| :: TimeClaim(bs[i], hi, cap) }

  ghost predicate AllNoBound(bs: seq<Block>, hi: int) { forall i | 0 <= i < |bs| :: NoBoundClaim(bs[i], hi) }

  lemma AllTimeCons(b: Block, rest: seq<Block>, hi: int, cap: int)
    requires TimeClaim(b, hi, cap) && AllTime(rest, hi, cap)
    ensures AllTime([b] + rest, hi, cap)
  {
  }

  lemma AllNoBoundCons(b: Block, rest: seq<Block>, hi: int)
    requires NoBoundClaim(b, hi) && AllNoBound(rest, hi)
    ensures AllNoBound([b] + rest, hi)
  {
  }

  lemma {:induction false} TimeClaims(rem: seq<int>, t: int, hi: int, cap: int, reason: Reason)
    requires cap > 0 && Pending(rem, hi)
    ensures AllTime(Cut(Time(cap), rem, t, hi, reason), hi, cap)
    decreases hi - t
  {
    if t < hi {
      StepSound(Time(cap), rem, t, hi);
      var b := Step(Time(cap), rem, t, hi);
      TimeClaims(rem, b.end, hi, cap, b.reason);
      AllTimeCons(Block(t, b.end, reason, b.reason), Cut(Time(cap), rem, b.end, hi, b.reason), hi, cap);
    }
  }

  lemma {:induction false} NoBoundClaims(rem: seq<int>, t: int, hi: int, reason: Reason)
    requires Pending(rem, hi)
    ensures AllNoBound(Cut(NoBound, rem, t, hi, reason), hi)
    decreases hi - t
  {
    if t < hi {
      StepSound(NoBound, rem, t, hi);
      var b := Step(NoBound, rem, t, hi);
      NoBoundClaims(rem, b.end, hi, b.reason);
      AllNoBoundCons(Block(t, b.end, reason, b.reason), Cut(NoBound, rem, b.end, hi, b.reason), hi);
    }
  }

  /** Every block of arm A and of arm D ends for one of the arm's own reasons, and that reason says how
      long the block is. */
  lemma PlainArmsMeetTheirClaims(cuts: seq<int>, lo: int, hi: int, cap: int)
    requires cap > 0
    ensures AllTime(Bound(Time(cap), cuts, lo, hi), hi, cap) && AllNoBound(Bound(NoBound, cuts, lo, hi), hi)
  {
    RemainingFacts(cuts, lo, hi);
    TimeClaims(Remaining(cuts, lo, hi), lo, hi, cap, SessionStart);
    NoBoundClaims(Remaining(cuts, lo, hi), lo, hi, SessionStart);
  }

  /** The oracle arm B asks of a store is the branching over its rollups: some allocation level of the
      span reads attributed. */
  lemma StoreGateReadsTheRollup(ev: seq<Store.Event>, s: int, e: int)
    ensures StoreGate(ev)(s, e) <==> exists level, items :: Allocation.ReadsAttributed(ev, level, items, s, e)
  {
    Allocation.CanAttributeIffReads(ev, s, e);
  }
}
