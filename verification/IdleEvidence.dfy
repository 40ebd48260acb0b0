/** The idle arms over a store: every event lies in one block, and the blocks hold all the evidence. */
module IdleEvidence {
  import opened Sorting
  import opened Blocks
  import opened Cutters
  import opened IdleArm
  import opened MergeProperties
  import Store

  lemma {:induction false} WalkEndsAligned(bins: seq<int>, j: nat, segStart: int, prev: int, k: nat)
    requires BinStarts(bins) && j <= |bins| && prev % Store.BIN_SECONDS == 0
    ensures forall i | 0 <= i < |Walk(bins, j, segStart, prev, k)| ::
              Walk(bins, j, segStart, prev, k)[i].end % Store.BIN_SECONDS == 0
    decreases |bins| - j
  {
    if j < |bins| {
      if EmptyBetween(prev, bins[j]) >= k {
        WalkEndsAligned(bins, j + 1, bins[j], bins[j], k);
      } else {
        WalkEndsAligned(bins, j + 1, segStart, bins[j], k);
      }
    }
  }

  // A segment ends with a bin, or with the span.
  lemma SegmentEnds(allBins: seq<int>, lo: int, hi: int, k: nat, i: nat)
    requires BinStarts(allBins) && i < |Segments(allBins, lo, hi, k)|
    ensures var e := Segments(allBins, lo, hi, k)[i].end; e == hi || e % Store.BIN_SECONDS == 0
  {
    var bins := Between(allBins, lo, hi);
    BetweenAreStarts(allBins, lo, hi);
    WalkEndsAligned(bins, 1, bins[0], bins[0], k);
  }

  lemma NextBoundary(b: int, e: int)
    requires b % Store.BIN_SECONDS == 0 && e % Store.BIN_SECONDS == 0 && b < e
    ensures b + Store.BIN_SECONDS <= e
  {
  }

  // A segment that holds the start of a bin holds the whole bin, up to the end of the span.
  lemma SegmentHoldsWholeBin(allBins: seq<int>, lo: int, hi: int, k: nat, i: nat, b: int, x: int)
    requires BinStarts(allBins) && i < |Segments(allBins, lo, hi, k)| && Contains(Segments(allBins, lo, hi, k)[i], b)
    requires b % Store.BIN_SECONDS == 0 && b <= x < b + Store.BIN_SECONDS && x < hi
    ensures Contains(Segments(allBins, lo, hi, k)[i], x)
  {
    var e := Segments(allBins, lo, hi, k)[i].end;
    SegmentEnds(allBins, lo, hi, k, i);
    if e != hi { NextBoundary(b, e); }
  }

  lemma SegmentsHoldWholeBins(allBins: seq<int>, lo: int, hi: int, k: nat, b: int, x: int)
    requires BinStarts(allBins) && InSome(Segments(allBins, lo, hi, k), 0, b)
    requires b % Store.BIN_SECONDS == 0 && b <= x < b + Store.BIN_SECONDS && x < hi
    ensures InSome(Segments(allBins, lo, hi, k), 0, x)
  {
    var segs := Segments(allBins, lo, hi, k);
    var i :| 0 <= i < |segs| && Contains(segs[i], b);
    SegmentHoldsWholeBin(allBins, lo, hi, k, i, b, x);
  }

  lemma ActiveBinsAreStarts(ev: seq<Store.Event>)
    ensures BinStarts(Store.ActiveBins(ev))
  {
    var bins := Store.ActiveBins(ev);
    assert forall i | 0 <= i < |bins| :: bins[i] in bins;
  }

  lemma ActiveBinHeld(bins: seq<int>, lo: int, hi: int, b: int)
    requires BinStarts(bins) && b in Between(bins, lo, hi)
    ensures InSome(Segments(bins, lo, hi, IDLE_BINS), 0, b)
  {
    SegmentsSplitAtSilence(bins, lo, hi, IDLE_BINS);
    var inside := Between(bins, lo, hi);
    var m :| 0 <= m < |inside| && inside[m] == b;
  }

  lemma BinOfFacts(ts: int, lo: int)
    ensures var b := Store.BinOf(ts); b % Store.BIN_SECONDS == 0 && b <= ts < b + Store.BIN_SECONDS
    ensures lo % Store.BIN_SECONDS == 0 && lo <= ts ==> lo <= Store.BinOf(ts)
  {
  }

  lemma EventIsInASegment(ev: seq<Store.Event>, lo: int, hi: int, i: nat)
    requires lo % Store.BIN_SECONDS == 0 && i < |ev| && lo <= ev[i].ts < hi
    ensures InSome(Segments(Store.ActiveBins(ev), lo, hi, IDLE_BINS), 0, ev[i].ts)
  {
    var b := Store.BinOf(ev[i].ts);
    ActiveBinsAreStarts(ev);
    BinOfFacts(ev[i].ts, lo);
    ActiveBinHeld(Store.ActiveBins(ev), lo, hi, b);
    SegmentsHoldWholeBins(Store.ActiveBins(ev), lo, hi, IDLE_BINS, b, ev[i].ts);
  }

  // ----- evidence of ordered blocks

  // No event lies between these blocks, before the first or after the last.
  ghost predicate HoldsEvents(ev: seq<Store.Event>, bs: seq<Block>, lo: int, hi: int) {
    forall i | 0 <= i < |ev| && lo <= ev[i].ts < hi :: Covered(bs, ev[i].ts)
  }

  /** Ordered blocks that hold every event of the span hold all of its evidence. */
  lemma {:induction false} OrderedHoldAllEvidence(ev: seq<Store.Event>, bs: seq<Block>, lo: int, hi: int)
    requires Ordered(bs) && HoldsEvents(ev, bs, lo, hi) && lo <= hi
    requires forall i | 0 <= i < |bs| :: lo <= bs[i].start && bs[i].end <= hi
    ensures TotalEvidence(ev, bs) == Store.Evidence(ev, lo, hi)
    decreases |bs|
  {
    if bs == [] {
      Store.NoEvidence(ev, lo, hi);
    } else {
      var first, rest := bs[0], bs[1..];
      assert forall i | 0 <= i < |rest| :: rest[i] == bs[i + 1];
      Store.EvidenceSplits(ev, lo, first.start, hi);
      Store.EvidenceSplits(ev, first.start, first.end, hi);
      NothingBeforeFirst(ev, bs, lo, hi);
      RestHoldsEvents(ev, bs, lo, hi);
      OrderedHoldAllEvidence(ev, rest, first.end, hi);
    }
  }

  lemma NotCoveredBefore(bs: seq<Block>, x: int)
    requires Ordered(bs) && bs != [] && x < bs[0].start
    ensures !Covered(bs, x)
  {
    assert forall j | 0 < j < |bs| :: bs[0].end <= bs[j].start;
  }

  lemma NothingBeforeFirst(ev: seq<Store.Event>, bs: seq<Block>, lo: int, hi: int)
    requires Ordered(bs) && HoldsEvents(ev, bs, lo, hi) && bs != [] && lo <= bs[0].start < hi
    ensures Store.Evidence(ev, lo, bs[0].start) == 0
  {
    forall i | 0 <= i < |ev| ensures !(lo <= ev[i].ts < bs[0].start) {
      if ev[i].ts < bs[0].start { NotCoveredBefore(bs, ev[i].ts); }
    }
    Store.NoEvidence(ev, lo, bs[0].start);
  }

  lemma RestHoldsEvents(ev: seq<Store.Event>, bs: seq<Block>, lo: int, hi: int)
    requires Ordered(bs) && HoldsEvents(ev, bs, lo, hi) && bs != [] && lo <= bs[0].start
    ensures HoldsEvents(ev, bs[1..], bs[0].end, hi)
  {
    forall i | 0 <= i < |ev| && bs[0].end <= ev[i].ts < hi ensures Covered(bs[1..], ev[i].ts) {
      var j :| 0 <= j < |bs| && Holds(bs[j], ev[i].ts);
      assert bs[1..][j - 1] == bs[j];
    }
  }

  /** Over a store's own active bins, from a bin start: every event of the span lies in exactly one
      idle block, whatever the arm, and the blocks together hold exactly the span's evidence. Dead air
      is all that is left out. */
  lemma IdleBlocksHoldEverything(arm: Arm, cuts: seq<int>, ev: seq<Store.Event>, lo: int, hi: int)
    requires Sound(arm) && lo % Store.BIN_SECONDS == 0 && lo <= hi
    ensures var bs := IdleFrom(arm, cuts, Segments(Store.ActiveBins(ev), lo, hi, IDLE_BINS), 0);
            && HoldsEvents(ev, bs, lo, hi)
            && (forall x, i, j | 0 <= i < |bs| && 0 <= j < |bs| && Holds(bs[i], x) && Holds(bs[j], x) :: i == j)
            && TotalEvidence(ev, bs) == Store.Evidence(ev, lo, hi)
  {
    var bins := Store.ActiveBins(ev);
    var segs := Segments(bins, lo, hi, IDLE_BINS);
    var bs := IdleFrom(arm, cuts, segs, 0);
    ActiveBinsAreStarts(ev);
    IdleTilesTheActivePart(arm, cuts, bins, lo, hi);
    forall i | 0 <= i < |ev| && lo <= ev[i].ts < hi ensures Covered(bs, ev[i].ts) {
      EventIsInASegment(ev, lo, hi, i);
    }
    IdleInside(arm, cuts, bins, lo, hi);
    OrderedHoldAllEvidence(ev, bs, lo, hi);
  }

  lemma IdleInside(arm: Arm, cuts: seq<int>, bins: seq<int>, lo: int, hi: int)
    requires Sound(arm) && BinStarts(bins)
    ensures var bs := IdleFrom(arm, cuts, Segments(bins, lo, hi, IDLE_BINS), 0);
            Ordered(bs) && forall i | 0 <= i < |bs| :: lo <= bs[i].start && bs[i].end <= hi
  {
    var segs := Segments(bins, lo, hi, IDLE_BINS);
    var bs := IdleFrom(arm, cuts, segs, 0);
    IdleTilesTheActivePart(arm, cuts, bins, lo, hi);
    SegmentsSplitAtSilence(bins, lo, hi, IDLE_BINS);
    forall i | 0 <= i < |bs| ensures lo <= bs[i].start && bs[i].end <= hi {
      assert Holds(bs[i], bs[i].start) && Holds(bs[i], bs[i].end - 1);
      assert Covered(bs, bs[i].start) && Covered(bs, bs[i].end - 1);
    }
  }
}
