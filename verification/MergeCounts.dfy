/** The counters of merge_thin as sizes of sets: of blocks, of adjacent pairs, of merge events, and of the
    events that changed what is read of the span absorbed or of the block it was absorbed into. */
module MergeCounts {
  import opened Arithmetic
  import opened Blocks
  import opened MergeThin

  // A thin block whose next block is thin too.
  predicate IsPair(thin: seq<bool>, i: nat) { i + 1 < |thin| && thin[i] && thin[i + 1] }

  predicate ThinFor(bs: seq<Block>, thin: seq<bool>, r: Reason, i: nat) {
    i < |thin| && i < |bs| && thin[i] && bs[i].endReason == r
  }

  function ThinSet(thin: seq<bool>, n: nat): set<nat>
    requires n <= |thin|
  {
    set i: nat | i < n && thin[i]
  }

  function PairSet(thin: seq<bool>, n: nat): set<nat> {
    set i: nat | i < n && IsPair(thin, i)
  }

  function ReasonSet(bs: seq<Block>, thin: seq<bool>, n: nat, r: Reason): set<nat> {
    set i: nat | i < n && ThinFor(bs, thin, r, i)
  }

  lemma {:induction false} ThinIsCounted(thin: seq<bool>, n: nat)
    requires n <= |thin|
    ensures ThinUpTo(thin, n) == |ThinSet(thin, n)|
  {
    if n > 0 {
      ThinIsCounted(thin, n - 1);
      SetNext(ThinSet(thin, n - 1), ThinSet(thin, n), n - 1, thin[n - 1]);
    } else {
      assert ThinSet(thin, 0) == {};
    }
  }

  lemma {:induction false} PairsAreCounted(thin: seq<bool>, n: nat)
    requires n < |thin|
    ensures ChainedUpTo(thin, n + 1) == |PairSet(thin, n)|
  {
    if n > 0 {
      PairsAreCounted(thin, n - 1);
      SetNext(PairSet(thin, n - 1), PairSet(thin, n), n - 1, IsPair(thin, n - 1));
    } else {
      assert PairSet(thin, 0) == {};
    }
  }

  lemma {:induction false} ReasonsAreCounted(bs: seq<Block>, thin: seq<bool>, n: nat, r: Reason)
    requires n <= |thin| == |bs|
    ensures ReasonsUpTo(bs, thin, n)[r] == |ReasonSet(bs, thin, n, r)|
  {
    if n > 0 {
      ReasonsAreCounted(bs, thin, n - 1, r);
      SetNext(ReasonSet(bs, thin, n - 1, r), ReasonSet(bs, thin, n, r), n - 1, ThinFor(bs, thin, r, n - 1));
    } else {
      assert ReasonSet(bs, thin, 0, r) == {};
    }
  }

  // ----- merge events

  ghost predicate InBlocks(s: seq<nat>, n: nat) {
    && (forall q | 0 <= q < |s| :: s[q] < n)
    && (forall a, b | 0 <= a < b < |s| :: s[a] < s[b])
  }

  // The first of the blocks that go into solid block m: the one after the solid block before it.
  function FirstGathered(s: seq<nat>, m: nat): nat
    requires m < |s|
  {
    if m == 0 then 0 else s[m - 1] + 1
  }

  lemma GatheredBefore(s: seq<nat>, m: nat, n: nat)
    requires InBlocks(s, n) && m < |s|
    ensures FirstGathered(s, m) <= s[m] < n
  {
    if m > 0 { assert s[m - 1] < s[m]; }
  }

  // Thin blocks went into solid block m, and what was read of them is not what is read after.
  predicate AbsorbedDiffers<D(==)>(bs: seq<Block>, s: seq<nat>, reading: (int, int) -> D, m: nat) {
    && m < |s| && FirstGathered(s, m) < s[m] < |bs|
    && var start, solid := bs[FirstGathered(s, m)].start, bs[s[m]];
       reading(start, solid.start) != reading(start, solid.end)
  }

  // They did, and what was read of the solid block is not what is read after.
  predicate NeighbourDiffers<D(==)>(bs: seq<Block>, s: seq<nat>, reading: (int, int) -> D, m: nat) {
    && m < |s| && FirstGathered(s, m) < s[m] < |bs|
    && var start, solid := bs[FirstGathered(s, m)].start, bs[s[m]];
       reading(solid.start, solid.end) != reading(start, solid.end)
  }

  ghost function AbsorbedChanged<D>(bs: seq<Block>, s: seq<nat>, reading: (int, int) -> D, p: nat): set<nat> {
    set m: nat | m < p && AbsorbedDiffers(bs, s, reading, m)
  }

  ghost function NeighbourChanged<D>(bs: seq<Block>, s: seq<nat>, reading: (int, int) -> D, p: nat): set<nat> {
    set m: nat | m < p && NeighbourDiffers(bs, s, reading, m)
  }

  lemma OneForward<D>(bs: seq<Block>, s: seq<nat>, reading: (int, int) -> D, m: nat)
    requires m < |s| && InBlocks(s, |bs|)
    ensures From(s, m) <= s[m]
    ensures ForwardChanged(bs, s, reading, m).0 == if AbsorbedDiffers(bs, s, reading, m) then 1 else 0
    ensures ForwardChanged(bs, s, reading, m).1 == if NeighbourDiffers(bs, s, reading, m) then 1 else 0
  {
    GatheredBefore(s, m, |bs|);
  }

  lemma {:induction false} ForwardIsCounted<D>(bs: seq<Block>, s: seq<nat>, reading: (int, int) -> D, p: nat)
    requires p <= |s| && InBlocks(s, |bs|)
    ensures ForwardChangedUpTo(bs, s, reading, p)
            == (|AbsorbedChanged(bs, s, reading, p)|, |NeighbourChanged(bs, s, reading, p)|)
  {
    if p > 0 {
      ForwardIsCounted(bs, s, reading, p - 1);
      OneForward(bs, s, reading, p - 1);
      SetNext(AbsorbedChanged(bs, s, reading, p - 1), AbsorbedChanged(bs, s, reading, p), p - 1,
              AbsorbedDiffers(bs, s, reading, p - 1));
      SetNext(NeighbourChanged(bs, s, reading, p - 1), NeighbourChanged(bs, s, reading, p), p - 1,
              NeighbourDiffers(bs, s, reading, p - 1));
    } else {
      assert AbsorbedChanged(bs, s, reading, 0) == {} && NeighbourChanged(bs, s, reading, 0) == {};
    }
  }

  // What the trailing run's one event changed, of itself and of the block it went back into.
  ghost predicate TailCounted<D>(st: Stats, bs: seq<Block>, s: seq<nat>, reading: (int, int) -> D)
    requires s != [] && FirstGathered(s, |s| - 1) <= s[|s| - 1] < |bs|
  {
    var last, n := s[|s| - 1], |bs|;
    var start, end := bs[FirstGathered(s, |s| - 1)].start, bs[n - 1].end;
    if last == n - 1 then st.valueChangedBackward == st.vsNeighborBackward == 0
    else
      && st.valueChangedBackward == (if reading(bs[last + 1].start, end) != reading(start, end) then 1 else 0)
      && st.vsNeighborBackward == (if reading(start, bs[last].end) != reading(start, end) then 1 else 0)
  }

  /** Every counter of merge_thin, when some block clears the floor, as what it counts: thin blocks and
      thin blocks followed by one, end reasons of the thin, and, of the events, those after which the
      absorbed span, and those after which the surviving block, is read differently than before. */
  lemma CountersAreCounts<D>(st: Stats, bs: seq<Block>, thin: seq<bool>, s: seq<nat>, reading: (int, int) -> D,
                             r: Reason)
    requires |thin| == |bs| && AreSolids(s, thin) && Accounts(st, bs, thin, s, reading) && s != []
    ensures st.merged + st.mergedBackward == |ThinSet(thin, |bs|)| && st.mergedBackward == |bs| - 1 - s[|s| - 1]
    ensures st.chained == |PairSet(thin, |bs|)| && st.mergeEvents == |ThinSet(thin, |bs|)| - |PairSet(thin, |bs|)|
    ensures st.thinByEndReason[r] == st.absorbedByEndReason[r] == |ReasonSet(bs, thin, |bs|, r)|
    ensures st.valueChangedForward == |AbsorbedChanged(bs, s, reading, |s|)|
    ensures st.vsNeighborForward == |NeighbourChanged(bs, s, reading, |s|)|
    ensures FirstGathered(s, |s| - 1) <= s[|s| - 1] < |bs| && TailCounted(st, bs, s, reading)
    ensures st.mergeEventsBackward == (if s[|s| - 1] < |bs| - 1 then 1 else 0)
    ensures st.mergeEventsForward == st.mergeEvents - st.mergeEventsBackward
    ensures st.valueChanged == st.valueChangedForward + st.valueChangedBackward
    ensures st.vsNeighbor == st.vsNeighborForward + st.vsNeighborBackward
  {
    ThinIsCounted(thin, |bs|);
    PairsAreCounted(thin, |bs| - 1);
    assert PairSet(thin, |bs|) == PairSet(thin, |bs| - 1);
    ReasonsAreCounted(bs, thin, |bs|, r);
    ForwardIsCounted(bs, s, reading, |s|);
    GatheredBefore(s, |s| - 1, |bs|);
  }

  /** With no solid block nothing is absorbed: the thin are counted, and no event. */
  lemma AllThinCounts<D>(st: Stats, bs: seq<Block>, thin: seq<bool>, reading: (int, int) -> D, r: Reason)
    requires |thin| == |bs| && AreSolids([], thin) && Accounts(st, bs, thin, [], reading)
    ensures st.merged == st.mergedBackward == st.mergeEvents == st.valueChanged == st.vsNeighbor == 0
    ensures st.absorbedByEndReason == multiset{} && st.thinByEndReason[r] == |ReasonSet(bs, thin, |bs|, r)|
    ensures forall i | 0 <= i < |thin| :: thin[i]
  {
    ReasonsAreCounted(bs, thin, |bs|, r);
  }

  // ----- the blocks

  /** Output block m: it starts, and opens, as the first block after the solid one before its own; it ends,
      and closes, as its own solid block, or, the last one, as the last of all; and of the blocks it
      takes the place of, all but its own solid one are thin. */
  lemma OutputBlockIs(out: seq<Block>, bs: seq<Block>, thin: seq<bool>, s: seq<nat>, m: nat)
    requires |thin| == |bs| && AreSolids(s, thin) && Absorbed(out, bs, thin, s) && m < |s|
    ensures var a, b := FirstGathered(s, m), if m == |s| - 1 then |bs| - 1 else s[m];
            && |out| == |s| && a <= s[m] <= b < |bs|
            && out[m] == Block(bs[a].start, bs[b].end, bs[a].startReason, bs[b].endReason)
            && forall i | a <= i <= b :: thin[i] <==> i != s[m]
  {
    var a, b := FirstGathered(s, m), if m == |s| - 1 then |bs| - 1 else s[m];
    GatheredBefore(s, m, |bs|);
    assert out[m].start == bs[a].start;
    forall i | a <= i <= b ensures thin[i] <==> i != s[m] {
      if i != s[m] { NotSolid(s, m, i, |bs|); }
    }
  }

  lemma NotSolid(s: seq<nat>, m: nat, i: nat, n: nat)
    requires InBlocks(s, n) && m < |s| && i != s[m] && FirstGathered(s, m) <= i
    requires i <= if m == |s| - 1 then n - 1 else s[m]
    ensures i !in s
  {
    var p := if m == 0 then 0 else m - 1;
    assert forall q | 0 <= q < p :: s[q] < s[p];
    assert forall q | 0 <= q < m :: s[q] < FirstGathered(s, m);
    assert forall q | m < q < |s| :: s[m] < s[q];
  }
}
