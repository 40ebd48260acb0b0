/** Where the active segments lie, in seconds, and which blocks stand in each of them. */
module IdleBlocks {
  import opened Sorting
  import opened Blocks
  import opened Cutters
  import opened IdleArm

  // ----- the segments

  // Neighbouring bins part when at least k bins lie between them.
  ghost predicate PartsAtSilence(segs: seq<Segment>, bins: seq<int>, k: nat) {
    forall i, j | 0 <= i < |bins| && j == i + 1 && j < |bins| ::
      SplitsAt(segs, bins[i], bins[j], bins[j] - bins[i] >= 300 + 300 * k)
  }

  // A segment starts with a bin of the span, and ends with one or with the span.
  ghost predicate HasBinEdges(s: Segment, allBins: seq<int>, lo: int, hi: int) {
    && s.start in allBins && lo <= s.start < hi
    && exists b :: b in allBins && lo <= b < hi && s.end == if b + 300 < hi then b + 300 else hi
  }

  lemma {:induction false} WalkEdges(bins: seq<int>, j: nat, segStart: int, prev: int, k: nat)
    requires j <= |bins| && segStart in bins && prev in bins
    ensures forall s | s in Walk(bins, j, segStart, prev, k) :: s.start in bins && s.end - 300 in bins
    decreases |bins| - j
  {
    if j < |bins| {
      if EmptyBetween(prev, bins[j]) >= k {
        WalkEdges(bins, j + 1, bins[j], bins[j], k);
      } else {
        WalkEdges(bins, j + 1, segStart, bins[j], k);
      }
    }
  }

  lemma ClampedEdge(segs: seq<Segment>, hi: int, i: nat)
    requires i < |segs|
    ensures var r := Clamped(segs, hi)[i];
            r.start == segs[i].start && r.end == if segs[i].end < hi then segs[i].end else hi
  {
  }

  /** The segments in seconds: their edges are edges of bins, or the end of the span, and two bins with
      none active between them share a segment exactly when fewer than k bins' time lies between. */
  lemma SegmentsInSeconds(allBins: seq<int>, lo: int, hi: int, k: nat)
    requires BinStarts(allBins)
    ensures var segs := Segments(allBins, lo, hi, k);
            && (forall i | 0 <= i < |segs| :: HasBinEdges(segs[i], allBins, lo, hi))
            && PartsAtSilence(segs, Between(allBins, lo, hi), k)
  {
    BetweenAreStarts(allBins, lo, hi);
    SegmentsSplitAtSilence(allBins, lo, hi, k);
    SilenceInSeconds(Segments(allBins, lo, hi, k), Between(allBins, lo, hi), k);
    forall i | 0 <= i < |Segments(allBins, lo, hi, k)|
      ensures HasBinEdges(Segments(allBins, lo, hi, k)[i], allBins, lo, hi)
    {
      SegmentEdges(allBins, lo, hi, k, i);
    }
  }

  lemma SilenceInSeconds(segs: seq<Segment>, bins: seq<int>, k: nat)
    requires BinStarts(bins) && SplitsAtSilence(segs, bins, k)
    ensures PartsAtSilence(segs, bins, k)
  {
    forall i, j | 0 <= i < |bins| && j == i + 1 && j < |bins|
      ensures SplitsAt(segs, bins[i], bins[j], bins[j] - bins[i] >= 300 + 300 * k)
    {
      EmptyBins(bins[i], bins[j], k);
    }
  }

  lemma SegmentEdges(allBins: seq<int>, lo: int, hi: int, k: nat, i: nat)
    requires BinStarts(allBins) && i < |Segments(allBins, lo, hi, k)|
    ensures HasBinEdges(Segments(allBins, lo, hi, k)[i], allBins, lo, hi)
  {
    var bins := Between(allBins, lo, hi);
    var raw := Walk(bins, 1, bins[0], bins[0], k);
    WalkEdges(bins, 1, bins[0], bins[0], k);
    ClampedEdge(raw, hi, i);
    assert raw[i] in raw;
    assert raw[i].end - 300 in bins && raw[i].start in bins;
  }

  // ----- the blocks of a segment

  // The arm's own block, but for the reasons on its idle sides.
  predicate IsSeamed(b: Block, own: Block, gapBefore: bool, gapAfter: bool) {
    && b.start == own.start && b.end == own.end
    && b.startReason == (if gapBefore then Idle else own.startReason)
    && b.endReason == (if gapAfter then Idle else own.endReason)
  }

  ghost predicate StandsFrom(bs: seq<Block>, a: nat, own: seq<Block>, gapBefore: bool, gapAfter: bool) {
    && a + |own| <= |bs|
    && forall m | 0 <= m < |own| :: IsSeamed(bs[a + m], own[m], gapBefore && m == 0, gapAfter && m == |own| - 1)
  }

  ghost predicate Stands(bs: seq<Block>, own: seq<Block>, gapBefore: bool, gapAfter: bool) {
    exists a: nat :: StandsFrom(bs, a, own, gapBefore, gapAfter)
  }

  lemma SeamStands(own: seq<Block>, rest: seq<Block>, gapBefore: bool, gapAfter: bool)
    ensures Stands(Seam(own, gapBefore, gapAfter) + rest, own, gapBefore, gapAfter)
  {
    assert StandsFrom(Seam(own, gapBefore, gapAfter) + rest, 0, own, gapBefore, gapAfter);
  }

  lemma StandsLater(head: seq<Block>, rest: seq<Block>, own: seq<Block>, gapBefore: bool, gapAfter: bool)
    requires Stands(rest, own, gapBefore, gapAfter)
    ensures Stands(head + rest, own, gapBefore, gapAfter)
  {
    var a: nat :| StandsFrom(rest, a, own, gapBefore, gapAfter);
    var bs := head + rest;
    forall m | 0 <= m < |own|
      ensures IsSeamed(bs[|head| + a + m], own[m], gapBefore && m == 0, gapAfter && m == |own| - 1)
    {
      assert bs[|head| + a + m] == rest[a + m];
    }
    assert StandsFrom(bs, |head| + a, own, gapBefore, gapAfter);
  }

  lemma {:induction false} SegmentStands(arm: Arm, cuts: seq<int>, segs: seq<Segment>, i: nat, j: nat)
    requires Sound(arm) && i <= j < |segs|
    ensures Stands(IdleFrom(arm, cuts, segs, i), Bound(arm, cuts, segs[j].start, segs[j].end), 0 < j, j < |segs| - 1)
    decreases j - i
  {
    var own := Bound(arm, cuts, segs[i].start, segs[i].end);
    var rest := IdleFrom(arm, cuts, segs, i + 1);
    if i == j {
      SeamStands(own, rest, 0 < i, i < |segs| - 1);
    } else {
      SegmentStands(arm, cuts, segs, i + 1, j);
      StandsLater(Seam(own, i > 0, i < |segs| - 1), rest, Bound(arm, cuts, segs[j].start, segs[j].end),
                  0 < j, j < |segs| - 1);
    }
  }

  /** In every active segment stand the blocks the arm itself cuts there, from the cuts inside it: the
      same spans, and the same reasons but idle on both sides of each gap; nothing else is emitted. */
  lemma IdleIsTheArmInEachSegment(arm: Arm, cuts: seq<int>, allBins: seq<int>, lo: int, hi: int)
    requires Sound(arm) && BinStarts(allBins)
    ensures var segs := Segments(allBins, lo, hi, 3);
            var bs := IdleFrom(arm, cuts, segs, 0);
            && (forall j | 0 <= j < |segs| ::
                  Stands(bs, Bound(arm, cuts, segs[j].start, segs[j].end), 0 < j, j < |segs| - 1))
            && forall x | Covered(bs, x) :: InSome(segs, 0, x)
  {
    var segs := Segments(allBins, lo, hi, 3);
    IdleTilesTheActivePart(arm, cuts, allBins, lo, hi);
    forall j | 0 <= j < |segs|
      ensures Stands(IdleFrom(arm, cuts, segs, 0), Bound(arm, cuts, segs[j].start, segs[j].end), 0 < j, j < |segs| - 1)
    {
      SegmentStands(arm, cuts, segs, 0, j);
    }
  }
}
