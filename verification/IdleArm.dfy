/** The idle terminator: a span is split at runs of empty bins, and any arm runs inside each piece. */
module IdleArm {
  import opened Sorting
  import opened Blocks
  import opened Cutters
  import CutterProperties
  import Store

  const IDLE_BINS: nat := 3

  datatype Segment = Segment(start: int, end: int)

  predicate BinStarts(bins: seq<int>) {
    && StrictlyAscending(bins)
    && forall i | 0 <= i < |bins| :: bins[i] % Store.BIN_SECONDS == 0
  }

  // int((b - prev) // BIN_SECONDS) - 1
  function EmptyBetween(prev: int, b: int): int { (b - prev) / Store.BIN_SECONDS - 1 }

  // The segments from bin j on, when the open one started at segStart and its last bin is prev.
  function Walk(bins: seq<int>, j: nat, segStart: int, prev: int, k: nat): seq<Segment>
    requires j <= |bins|
    decreases |bins| - j
  {
    var open := Segment(segStart, prev + Store.BIN_SECONDS);
    if j == |bins| then [open]
    else if EmptyBetween(prev, bins[j]) >= k then [open] + Walk(bins, j + 1, bins[j], bins[j], k)
    else Walk(bins, j + 1, segStart, bins[j], k)
  }

  // [(s, min(e, hi)) for s, e in segs]
  function Clamped(segs: seq<Segment>, hi: int): (r: seq<Segment>)
    ensures |r| == |segs|
    ensures forall i | 0 <= i < |segs| :: r[i].start == segs[i].start && r[i].end <= hi && r[i].end <= segs[i].end
    ensures forall i | 0 <= i < |segs| && segs[i].end <= hi :: r[i] == segs[i]
    ensures forall i | 0 <= i < |segs| && segs[i].end > hi :: r[i].end == hi
  {
    if segs == [] then []
    else [Segment(segs[0].start, if segs[0].end < hi then segs[0].end else hi)] + Clamped(segs[1..], hi)
  }

  function Segments(allBins: seq<int>, lo: int, hi: int, k: nat): seq<Segment> {
    var bins := Between(allBins, lo, hi);
    if bins == [] then [] else Clamped(Walk(bins, 1, bins[0], bins[0], k), hi)
  }

  /** active_segments, over the session's non-empty bin starts. */
  method ActiveSegments(allBins: seq<int>, lo: int, hi: int, k: nat) returns (segs: seq<Segment>)
    ensures segs == Segments(allBins, lo, hi, k)
  {
    var bins := Between(allBins, lo, hi);
    if bins == [] {
      return [];
    }
    segs := [];
    var segStart, prev := bins[0], bins[0];
    for j := 1 to |bins|
      invariant segs + Walk(bins, j, segStart, prev, k) == Walk(bins, 1, bins[0], bins[0], k)
    {
      if EmptyBetween(prev, bins[j]) >= k {
        segs := segs + [Segment(segStart, prev + Store.BIN_SECONDS)];
        segStart := bins[j];
      }
      prev := bins[j];
    }
    segs := segs + [Segment(segStart, prev + Store.BIN_SECONDS)];
    segs := Clamped(segs, hi);
  }

  // ----- what the segments are

  predicate Contains(s: Segment, x: int) { s.start <= x < s.end }

  // k empty bins, in seconds.
  function Air(k: nat): nat { k * 300 }

  // Ordered, non-empty, and at least so much air apart.
  ghost predicate Apart(segs: seq<Segment>, air: nat) {
    && (forall i | 0 <= i < |segs| :: segs[i].start < segs[i].end)
    && (forall i, j | 0 <= i < j < |segs| :: segs[j].start - segs[i].end >= air)
  }

  // Two neighbouring active bins share a segment when there is no silence between them; otherwise
  // the first closes a segment and the second opens the next one.
  ghost predicate SplitsAt(segs: seq<Segment>, prev: int, b: int, silent: bool) {
    if !silent then exists i :: 0 <= i < |segs| && Contains(segs[i], prev) && Contains(segs[i], b)
    else exists i :: PartedAt(segs, i, prev, b)
  }

  // Segment i ends with the bin prev and the next one starts with b.
  ghost predicate PartedAt(segs: seq<Segment>, i: int, prev: int, b: int) {
    0 <= i < |segs| - 1 && segs[i].end == prev + Store.BIN_SECONDS && segs[i + 1].start == b
  }

  lemma EmptyBins(prev: int, b: int, k: nat)
    requires prev % Store.BIN_SECONDS == 0 && b % Store.BIN_SECONDS == 0
    ensures EmptyBetween(prev, b) >= k <==> b - (prev + Store.BIN_SECONDS) >= Air(k)
  {
  }

  lemma SplitsAtShift(open: Segment, rest: seq<Segment>, prev: int, b: int, silent: bool)
    requires SplitsAt(rest, prev, b, silent)
    ensures SplitsAt([open] + rest, prev, b, silent)
  {
    var segs := [open] + rest;
    if !silent {
      var i :| 0 <= i < |rest| && Contains(rest[i], prev) && Contains(rest[i], b);
      assert Contains(segs[i + 1], prev) && Contains(segs[i + 1], b);
    } else {
      var i :| PartedAt(rest, i, prev, b);
      assert PartedAt(segs, i + 1, prev, b);
    }
  }

  lemma {:induction false} WalkApart(bins: seq<int>, j: nat, segStart: int, prev: int, k: nat)
    requires BinStarts(bins) && 1 <= j <= |bins| && prev == bins[j - 1] && segStart <= prev
    ensures var segs := Walk(bins, j, segStart, prev, k);
            && segs != [] && Apart(segs, Air(k)) && segs[0].start == segStart && segs[0].end > prev
            && segs[|segs| - 1].end == bins[|bins| - 1] + Store.BIN_SECONDS
    decreases |bins| - j
  {
    if j < |bins| {
      EmptyBins(prev, bins[j], k);
      if EmptyBetween(prev, bins[j]) >= k {
        WalkApart(bins, j + 1, bins[j], bins[j], k);
      } else {
        WalkApart(bins, j + 1, segStart, bins[j], k);
      }
    }
  }

  lemma {:induction false} WalkSplits(bins: seq<int>, j: nat, segStart: int, prev: int, k: nat, m: nat)
    requires BinStarts(bins) && 1 <= j <= m < |bins| && prev == bins[j - 1] && segStart <= prev
    ensures SplitsAt(Walk(bins, j, segStart, prev, k), bins[m - 1], bins[m], EmptyBetween(bins[m - 1], bins[m]) >= k)
    decreases |bins| - j
  {
    var segs, b := Walk(bins, j, segStart, prev, k), bins[j];
    if EmptyBetween(prev, b) >= k {
      var rest := Walk(bins, j + 1, b, b, k);
      WalkApart(bins, j + 1, b, b, k);
      if m == j {
        assert PartedAt(segs, 0, prev, b);
      } else {
        WalkSplits(bins, j + 1, b, b, k, m);
        SplitsAtShift(segs[0], rest, bins[m - 1], bins[m], EmptyBetween(bins[m - 1], bins[m]) >= k);
      }
    } else if m == j {
      WalkApart(bins, j + 1, segStart, b, k);
      assert Contains(segs[0], prev) && Contains(segs[0], b);
    } else {
      WalkSplits(bins, j + 1, segStart, b, k, m);
    }
  }

  // Neighbouring bins lie in one segment, or in two, as fewer than k bins or at least k are empty
  // between them.
  ghost predicate SplitsAtSilence(segs: seq<Segment>, bins: seq<int>, k: nat) {
    forall i, j | 0 <= i < |bins| && j == i + 1 && j < |bins| ::
      SplitsAt(segs, bins[i], bins[j], EmptyBetween(bins[i], bins[j]) >= k)
  }

  /** active_segments splits exactly at silence: ordered segments at least k empty bins apart, with
      no run of k empty bins inside any of them, holding every active bin of the span. */
  lemma SegmentsSplitAtSilence(allBins: seq<int>, lo: int, hi: int, k: nat)
    requires BinStarts(allBins)
    ensures var bins, segs := Between(allBins, lo, hi), Segments(allBins, lo, hi, k);
            && (segs == [] <==> bins == [])
            && Apart(segs, Air(k))
            && (forall i | 0 <= i < |segs| :: lo <= segs[i].start && segs[i].end <= hi)
            && SplitsAtSilence(segs, bins, k)
            && (forall i | 0 <= i < |bins| :: InSome(segs, 0, bins[i]))
  {
    WalkIsInside(allBins, lo, hi, k);
    EveryBinSplits(allBins, lo, hi, k);
    forall i | 0 <= i < |Between(allBins, lo, hi)|
      ensures InSome(Segments(allBins, lo, hi, k), 0, Between(allBins, lo, hi)[i])
    {
      if i > 0 { BinSplits(allBins, lo, hi, k, i); }
    }
  }

  lemma EveryBinSplits(allBins: seq<int>, lo: int, hi: int, k: nat)
    requires BinStarts(allBins)
    ensures SplitsAtSilence(Segments(allBins, lo, hi, k), Between(allBins, lo, hi), k)
  {
    var bins := Between(allBins, lo, hi);
    forall i, j | 0 <= i < |bins| && j == i + 1 && j < |bins|
      ensures SplitsAt(Segments(allBins, lo, hi, k), bins[i], bins[j], EmptyBetween(bins[i], bins[j]) >= k)
    {
      BinSplits(allBins, lo, hi, k, j);
    }
  }

  // The walk before and after the ends are clamped.
  lemma WalkIsInside(allBins: seq<int>, lo: int, hi: int, k: nat)
    requires BinStarts(allBins)
    ensures var bins, segs := Between(allBins, lo, hi), Segments(allBins, lo, hi, k);
            && BinStarts(bins) && (segs == [] <==> bins == []) && Apart(segs, Air(k))
            && (forall i | 0 <= i < |segs| :: lo <= segs[i].start && segs[i].end <= hi)
            && (forall i | 0 <= i < |bins| :: bins[i] < hi)
            && (bins != [] ==> InSome(segs, 0, bins[0]) && var raw := Walk(bins, 1, bins[0], bins[0], k);
                               Apart(raw, Air(k)) && forall i | 0 <= i < |raw| :: raw[i].start < hi)
  {
    var bins, segs := Between(allBins, lo, hi), Segments(allBins, lo, hi, k);
    BetweenAreStarts(allBins, lo, hi);
    if bins != [] {
      WalkApart(bins, 1, bins[0], bins[0], k);
      WalkStarts(bins, 1, bins[0], bins[0], k);
      ClampKeeps(Walk(bins, 1, bins[0], bins[0], k), hi, Air(k));
      assert Contains(segs[0], bins[0]);
    }
  }

  lemma BinSplits(allBins: seq<int>, lo: int, hi: int, k: nat, m: nat)
    requires BinStarts(allBins) && 0 < m < |Between(allBins, lo, hi)|
    ensures var bins, segs := Between(allBins, lo, hi), Segments(allBins, lo, hi, k);
            SplitsAt(segs, bins[m - 1], bins[m], EmptyBetween(bins[m - 1], bins[m]) >= k) && InSome(segs, 0, bins[m])
  {
    var bins, segs := Between(allBins, lo, hi), Segments(allBins, lo, hi, k);
    var prev, b := bins[m - 1], bins[m];
    WalkIsInside(allBins, lo, hi, k);
    WalkSplits(bins, 1, bins[0], bins[0], k, m);
    ClampSplits(Walk(bins, 1, bins[0], bins[0], k), hi, prev, b, Air(k), EmptyBetween(prev, b) >= k);
    SplitsHolds(segs, prev, b, EmptyBetween(prev, b) >= k, Air(k));
  }

  lemma SplitsHolds(segs: seq<Segment>, prev: int, b: int, silent: bool, air: nat)
    requires Apart(segs, air) && SplitsAt(segs, prev, b, silent)
    ensures InSome(segs, 0, b)
  {
    if silent {
      var i :| PartedAt(segs, i, prev, b);
      assert Contains(segs[i + 1], b);
    }
  }

  // Clamping to the span keeps the segments, because each of them starts inside it.
  lemma ClampKeeps(raw: seq<Segment>, hi: int, air: nat)
    requires Apart(raw, air) && forall i | 0 <= i < |raw| :: raw[i].start < hi
    ensures Apart(Clamped(raw, hi), air)
    ensures forall i | 0 <= i < |raw| - 1 :: Clamped(raw, hi)[i] == raw[i]
  {
    forall i | 0 <= i < |raw| - 1 ensures raw[i].end <= hi {
      assert raw[i + 1].start - raw[i].end >= air;
    }
  }

  lemma ClampSplits(raw: seq<Segment>, hi: int, prev: int, b: int, air: nat, silent: bool)
    requires Apart(raw, air) && (forall i | 0 <= i < |raw| :: raw[i].start < hi)
    requires SplitsAt(raw, prev, b, silent) && prev < hi && b < hi
    ensures SplitsAt(Clamped(raw, hi), prev, b, silent)
  {
    ClampKeeps(raw, hi, air);
    var segs := Clamped(raw, hi);
    if !silent {
      var i :| 0 <= i < |raw| && Contains(raw[i], prev) && Contains(raw[i], b);
      assert Contains(segs[i], prev) && Contains(segs[i], b);
    } else {
      var i :| PartedAt(raw, i, prev, b);
      assert PartedAt(segs, i, prev, b);
    }
  }

  lemma BetweenAreStarts(allBins: seq<int>, lo: int, hi: int)
    requires BinStarts(allBins)
    ensures BinStarts(Between(allBins, lo, hi))
    ensures forall i | 0 <= i < |Between(allBins, lo, hi)| :: lo <= Between(allBins, lo, hi)[i] < hi
  {
    var bins := Between(allBins, lo, hi);
    FilterStrict(allBins, x => lo <= x < hi);
    assert forall i | 0 <= i < |bins| :: bins[i] in bins;
  }

  // Every segment starts at a bin, so its start is inside the span.
  lemma {:induction false} WalkStarts(bins: seq<int>, j: nat, segStart: int, prev: int, k: nat)
    requires 1 <= j <= |bins| && segStart in bins
    ensures forall i | 0 <= i < |Walk(bins, j, segStart, prev, k)| :: Walk(bins, j, segStart, prev, k)[i].start in bins
    decreases |bins| - j
  {
    if j < |bins| {
      if EmptyBetween(prev, bins[j]) >= k {
        WalkStarts(bins, j + 1, bins[j], bins[j], k);
      } else {
        WalkStarts(bins, j + 1, segStart, bins[j], k);
      }
    }
  }

  // ----- with_idle

  // The reasons at a seam: the block before a gap ends idle, the block after it starts idle.
  function Seam(bs: seq<Block>, gapBefore: bool, gapAfter: bool): (r: seq<Block>)
    ensures |r| == |bs|
  {
    if bs == [] then []
    else
      var a := if gapBefore then bs[0 := bs[0].(startReason := Idle)] else bs;
      if gapAfter then a[|a| - 1 := a[|a| - 1].(endReason := Idle)] else a
  }

  function IdleFrom(arm: Arm, cuts: seq<int>, segs: seq<Segment>, i: nat): seq<Block>
    requires Sound(arm) && i <= |segs|
    decreases |segs| - i
  {
    if i == |segs| then []
    else Seam(Bound(arm, cuts, segs[i].start, segs[i].end), i > 0, i < |segs| - 1) + IdleFrom(arm, cuts, segs, i + 1)
  }

  // The two in-place replacements of the loop below.
  lemma NextSegment(arm: Arm, cuts: seq<int>, segs: seq<Segment>, i: nat, out: seq<Block>)
    requires Sound(arm) && i < |segs|
    ensures var seam := Seam(Bound(arm, cuts, segs[i].start, segs[i].end), i > 0, i < |segs| - 1);
            out + IdleFrom(arm, cuts, segs, i) == (out + seam) + IdleFrom(arm, cuts, segs, i + 1)
  {
    var seam := Seam(Bound(arm, cuts, segs[i].start, segs[i].end), i > 0, i < |segs| - 1);
    var rest := IdleFrom(arm, cuts, segs, i + 1);
    assert out + (seam + rest) == (out + seam) + rest;
  }

  method RewriteSeam(bs: seq<Block>, gapBefore: bool, gapAfter: bool) returns (r: seq<Block>)
    requires bs != []
    ensures r == Seam(bs, gapBefore, gapAfter)
  {
    r := bs;
    if gapBefore {
      r := r[0 := r[0].(startReason := Idle)];
    }
    if gapAfter {
      r := r[|r| - 1 := r[|r| - 1].(endReason := Idle)];
    }
  }

  /** with_idle(fn): the arm applied to each active segment, dead air in no block. */
  method WithIdle(arm: Arm, cuts: seq<int>, allBins: seq<int>, lo: int, hi: int) returns (out: seq<Block>)
    requires Sound(arm)
    ensures out == IdleFrom(arm, cuts, Segments(allBins, lo, hi, IDLE_BINS), 0)
  {
    var segs := ActiveSegments(allBins, lo, hi, IDLE_BINS);
    ghost var all := IdleFrom(arm, cuts, segs, 0);
    out := [];
    for i := 0 to |segs|
      invariant out + IdleFrom(arm, cuts, segs, i) == all
    {
      var blocks := Bound(arm, cuts, segs[i].start, segs[i].end);
      NextSegment(arm, cuts, segs, i, out);
      if blocks != [] {
        blocks := RewriteSeam(blocks, i > 0, i < |segs| - 1);
      }
      out := out + blocks;
    }
  }

  // Blocks whose neighbours either abut or are parted by at least so much air, both sides of the
  // gap reading idle; the reason chain holds throughout.
  ghost predicate SeamsRead(bs: seq<Block>, air: nat) {
    && (forall i | 0 <= i < |bs| :: bs[i].start < bs[i].end)
    && (forall i, j | 0 <= i < j < |bs| && j == i + 1 ::
          && bs[j].startReason == bs[i].endReason
          && if bs[j].startReason == Idle then bs[j].start - bs[i].end >= air
             else bs[j].start == bs[i].end)
  }

  lemma SeamsReadConcat(a: seq<Block>, b: seq<Block>, air: nat)
    requires SeamsRead(a, air) && SeamsRead(b, air)
    requires a != [] && b != [] ==>
               && a[|a| - 1].endReason == Idle == b[0].startReason
               && b[0].start - a[|a| - 1].end >= air
    ensures SeamsRead(a + b, air)
  {
    var bs := a + b;
    forall i, j | 0 <= i < j < |bs| && j == i + 1
      ensures bs[j].startReason == bs[i].endReason
      ensures if bs[j].startReason == Idle then bs[j].start - bs[i].end >= air else bs[j].start == bs[i].end
    {
      if j < |a| {
        assert bs[i] == a[i] && bs[j] == a[j];
      } else if i >= |a| {
        assert bs[i] == b[i - |a|] && bs[j] == b[j - |a|];
      }
    }
  }

  lemma SegmentBlocks(arm: Arm, cuts: seq<int>, s: int, e: int, gapBefore: bool, gapAfter: bool, air: nat)
    requires Sound(arm) && s < e
    ensures var bs := Seam(Bound(arm, cuts, s, e), gapBefore, gapAfter);
            && bs != [] && SeamsRead(bs, air) && bs[0].start == s && bs[|bs| - 1].end == e
            && bs[0].startReason == (if gapBefore then Idle else SessionStart)
            && (if gapAfter then bs[|bs| - 1].endReason == Idle else EndsSpan(bs[|bs| - 1].endReason))
            && CutterProperties.SameSpans(bs, Bound(arm, cuts, s, e))
  {
    RemainingFacts(cuts, s, e);
    CutterProperties.CutTiles(arm, Remaining(cuts, s, e), s, e, SessionStart);
  }

  // A stretch of blocks from s to e, opened for one reason and ended as told.
  ghost predicate Stretch(bs: seq<Block>, air: nat, s: int, e: int, opening: Reason, gapAfter: bool) {
    && bs != [] && SeamsRead(bs, air) && bs[0].start == s && bs[|bs| - 1].end == e && bs[0].startReason == opening
    && (if gapAfter then bs[|bs| - 1].endReason == Idle else EndsSpan(bs[|bs| - 1].endReason))
  }

  lemma SegmentStretch(arm: Arm, cuts: seq<int>, s: int, e: int, gapBefore: bool, gapAfter: bool, air: nat)
    requires Sound(arm) && s < e
    ensures Stretch(Seam(Bound(arm, cuts, s, e), gapBefore, gapAfter), air, s, e,
                    if gapBefore then Idle else SessionStart, gapAfter)
  {
    SegmentBlocks(arm, cuts, s, e, gapBefore, gapAfter, air);
  }

  lemma StretchConcat(a: seq<Block>, b: seq<Block>, air: nat, s: int, end: int, start: int, e: int, opening: Reason)
    requires Stretch(a, air, s, end, opening, true) && Stretch(b, air, start, e, Idle, false) && start - end >= air
    ensures Stretch(a + b, air, s, e, opening, false)
  {
    SeamsReadConcat(a, b, air);
  }

  lemma {:induction false} IdleSeams(arm: Arm, cuts: seq<int>, segs: seq<Segment>, i: nat, air: nat)
    requires Sound(arm) && Apart(segs, air) && i < |segs|
    ensures Stretch(IdleFrom(arm, cuts, segs, i), air, segs[i].start, segs[|segs| - 1].end,
                    if i > 0 then Idle else SessionStart, false)
    decreases |segs| - i
  {
    var head := Seam(Bound(arm, cuts, segs[i].start, segs[i].end), i > 0, i < |segs| - 1);
    SegmentStretch(arm, cuts, segs[i].start, segs[i].end, i > 0, i < |segs| - 1, air);
    if i + 1 < |segs| {
      IdleSeams(arm, cuts, segs, i + 1, air);
      StretchConcat(head, IdleFrom(arm, cuts, segs, i + 1), air, segs[i].start, segs[i].end, segs[i + 1].start,
                    segs[|segs| - 1].end, if i > 0 then Idle else SessionStart);
    } else {
      assert head + [] == head;
    }
  }

  lemma {:induction false} SeamsReadOrdered(bs: seq<Block>, air: nat)
    requires SeamsRead(bs, air)
    ensures Ordered(bs)
  {
    if |bs| > 1 {
      var rest := bs[1..];
      assert forall i | 0 <= i < |rest| :: rest[i] == bs[i + 1];
      SeamsReadOrdered(rest, air);
      assert forall i | 1 <= i < |bs| :: bs[i] == rest[i - 1];
      assert bs[0].end <= bs[1].start;
      forall i, j | 0 <= i < j < |bs| ensures bs[i].end <= bs[j].start {
        if i > 0 {
          assert rest[i - 1].end <= rest[j - 1].start;
        } else if j > 1 {
          assert rest[0].end <= rest[j - 1].start;
        }
      }
    }
  }

  ghost predicate Covered(bs: seq<Block>, x: int) { exists i :: 0 <= i < |bs| && Holds(bs[i], x) }

  ghost predicate InSome(segs: seq<Segment>, from: nat, x: int) {
    exists i :: from <= i < |segs| && Contains(segs[i], x)
  }

  lemma SegmentCovered(arm: Arm, cuts: seq<int>, s: int, e: int, gapBefore: bool, gapAfter: bool, x: int)
    requires Sound(arm) && s < e
    ensures Covered(Seam(Bound(arm, cuts, s, e), gapBefore, gapAfter), x) <==> s <= x < e
  {
    SegmentBlocks(arm, cuts, s, e, gapBefore, gapAfter, 0);
    CutterProperties.EveryArmTiles(arm, cuts, s, e);
    SameSpansCover(Seam(Bound(arm, cuts, s, e), gapBefore, gapAfter), Bound(arm, cuts, s, e), s, e, x);
  }

  lemma SameSpansCover(bs: seq<Block>, tiles: seq<Block>, s: int, e: int, x: int)
    requires Tiles(tiles, s, e) && CutterProperties.SameSpans(bs, tiles)
    ensures Covered(bs, x) <==> s <= x < e
  {
    TilesAreOrdered(tiles, s, e);
    if s <= x < e {
      TilesPlaceOnce(tiles, s, e, x + 1);
      var i :| 0 <= i < |tiles| && Closes(tiles[i], x + 1);
      assert Holds(bs[i], x);
    }
    if i :| 0 <= i < |bs| && Holds(bs[i], x) {
      assert s <= tiles[i].start && tiles[i].end <= e;
    }
  }

  lemma CoveredConcat(a: seq<Block>, b: seq<Block>, x: int)
    ensures Covered(a + b, x) <==> Covered(a, x) || Covered(b, x)
  {
    var bs := a + b;
    if i :| 0 <= i < |a| && Holds(a[i], x) { assert Holds(bs[i], x); }
    if i :| 0 <= i < |b| && Holds(b[i], x) { assert Holds(bs[|a| + i], x); }
    if i :| 0 <= i < |bs| && Holds(bs[i], x) {
      assert i < |a| ==> Holds(a[i], x);
      assert i >= |a| ==> Holds(b[i - |a|], x);
    }
  }

  lemma {:induction false} IdleCovers(arm: Arm, cuts: seq<int>, segs: seq<Segment>, i: nat, air: nat, x: int)
    requires Sound(arm) && Apart(segs, air) && i <= |segs|
    ensures Covered(IdleFrom(arm, cuts, segs, i), x) <==> InSome(segs, i, x)
    decreases |segs| - i
  {
    if i < |segs| {
      var head := Seam(Bound(arm, cuts, segs[i].start, segs[i].end), i > 0, i < |segs| - 1);
      var rest := IdleFrom(arm, cuts, segs, i + 1);
      SegmentCovered(arm, cuts, segs[i].start, segs[i].end, i > 0, i < |segs| - 1, x);
      IdleCovers(arm, cuts, segs, i + 1, air, x);
      CoveredConcat(head, rest, x);
      assert InSome(segs, i, x) <==> Contains(segs[i], x) || InSome(segs, i + 1, x);
    }
  }

  /** Any arm under the idle terminator: ordered disjoint blocks whose union is exactly the active
      segments, so each active bin of the span lies in exactly one block. Neighbours abut, or are
      parted by at least three empty bins with both sides of the seam reading idle, and the reason
      chain runs from session_start to a session end. */
  lemma IdleTilesTheActivePart(arm: Arm, cuts: seq<int>, allBins: seq<int>, lo: int, hi: int)
    requires Sound(arm) && BinStarts(allBins)
    ensures var segs := Segments(allBins, lo, hi, IDLE_BINS);
            var bs := IdleFrom(arm, cuts, segs, 0);
            && Ordered(bs) && SeamsRead(bs, Air(IDLE_BINS))
            && (bs == [] <==> Between(allBins, lo, hi) == [])
            && (bs != [] ==> bs[0].startReason == SessionStart && EndsSpan(bs[|bs| - 1].endReason))
            && (forall x :: Covered(bs, x) <==> InSome(segs, 0, x))
            && (forall b | b in Between(allBins, lo, hi) :: Covered(bs, b))
            && (forall x, i, j | 0 <= i < |bs| && 0 <= j < |bs| && Holds(bs[i], x) && Holds(bs[j], x) :: i == j)
  {
    var segs := Segments(allBins, lo, hi, IDLE_BINS);
    SegmentsSplitAtSilence(allBins, lo, hi, IDLE_BINS);
    if segs != [] {
      IdleSeams(arm, cuts, segs, 0, Air(IDLE_BINS));
    }
    var bs := IdleFrom(arm, cuts, segs, 0);
    SeamsReadOrdered(bs, Air(IDLE_BINS));
    forall x ensures Covered(bs, x) <==> InSome(segs, 0, x) {
      IdleCovers(arm, cuts, segs, 0, Air(IDLE_BINS), x);
    }
  }
}
