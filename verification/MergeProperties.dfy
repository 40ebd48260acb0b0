/** What merge_thin keeps: the span, the chain, the floor, the evidence; and that it settles at once. */
module MergeProperties {
  import opened Blocks
  import opened MergeThin
  import opened Cutters
  import CutterProperties
  import Store

  lemma Positions(s: seq<nat>, thin: seq<bool>, m: nat)
    requires AreSolids(s, thin) && m < |s|
    ensures From(s, m) <= s[m] <= To(s, m, |thin|) < |thin|
    ensures m + 1 < |s| ==> To(s, m, |thin|) + 1 == From(s, m + 1)
    ensures forall q | m < q < |s| :: To(s, m, |thin|) < From(s, q)
  {
    if m > 0 { assert s[m - 1] < s[m]; }
    forall q | m < q < |s| ensures To(s, m, |thin|) < From(s, q) {
      assert m < q - 1 ==> s[m] < s[q - 1];
    }
  }

  // Output block m spans bs[From(m)] to bs[To(m)], and the next one begins with the very next block.
  lemma OutputSpan(out: seq<Block>, bs: seq<Block>, thin: seq<bool>, s: seq<nat>, m: nat)
    requires |thin| == |bs| && AreSolids(s, thin) && Absorbed(out, bs, thin, s) && Ordered(bs) && m < |s|
    ensures |out| == |s| && From(s, m) <= s[m] <= To(s, m, |bs|) < |bs|
    ensures out[m] == Extend(bs[From(s, m)], bs[To(s, m, |bs|)]) && out[m].start < out[m].end
  {
    Positions(s, thin, m);
    OrderedWithin(bs, From(s, m), To(s, m, |bs|));
  }

  lemma OutputNeighbours(out: seq<Block>, bs: seq<Block>, thin: seq<bool>, s: seq<nat>, i: nat, j: nat)
    requires |thin| == |bs| && AreSolids(s, thin) && Absorbed(out, bs, thin, s) && Ordered(bs) && i < j < |s|
    ensures |out| == |s| && out[i].end <= out[j].start
    ensures j == i + 1 && Chained(bs) ==> out[j].startReason == out[i].endReason
    ensures j == i + 1 && Contiguous(bs) ==> out[i].end == out[j].start
  {
    OutputSpan(out, bs, thin, s, i);
    OutputSpan(out, bs, thin, s, j);
    Positions(s, thin, i);
    var a, b := To(s, i, |bs|), From(s, j);
    assert bs[a].end <= bs[b].start;
  }

  lemma MergeKeepsOrder(out: seq<Block>, bs: seq<Block>, thin: seq<bool>, s: seq<nat>)
    requires |thin| == |bs| && AreSolids(s, thin) && Absorbed(out, bs, thin, s) && Ordered(bs) && s != []
    ensures Ordered(out) && (Chained(bs) ==> Chained(out)) && (Contiguous(bs) ==> Contiguous(out))
  {
    forall i | 0 <= i < |out| ensures out[i].start < out[i].end { OutputSpan(out, bs, thin, s, i); }
    forall i, j | 0 <= i < j < |out|
      ensures out[i].end <= out[j].start
      ensures j == i + 1 && Chained(bs) ==> out[j].startReason == out[i].endReason
      ensures j == i + 1 && Contiguous(bs) ==> out[i].end == out[j].start
    {
      OutputNeighbours(out, bs, thin, s, i, j);
    }
  }

  /** merge_thin keeps the order and the span of its blocks and the reason chain; on a tiling it
      returns a tiling of the same span. */
  lemma MergeKeepsTheTiling(out: seq<Block>, bs: seq<Block>, thin: seq<bool>, s: seq<nat>)
    requires |thin| == |bs| && AreSolids(s, thin) && Absorbed(out, bs, thin, s) && Ordered(bs)
    ensures Ordered(out) && (out == [] <==> bs == [])
    ensures bs != [] ==> && out[0].start == bs[0].start && out[0].startReason == bs[0].startReason
                         && out[|out| - 1].end == bs[|bs| - 1].end && out[|out| - 1].endReason == bs[|bs| - 1].endReason
    ensures Chained(bs) ==> Chained(out)
    ensures forall lo, hi :: Tiles(bs, lo, hi) ==> Tiles(out, lo, hi)
  {
    if s != [] {
      OutputSpan(out, bs, thin, s, 0);
      OutputSpan(out, bs, thin, s, |s| - 1);
      MergeKeepsOrder(out, bs, thin, s);
    }
  }

  lemma OrderedWithin(bs: seq<Block>, a: int, b: int)
    requires Ordered(bs) && 0 <= a <= b < |bs|
    ensures bs[a].start <= bs[b].start < bs[b].end && bs[a].end <= bs[b].end
  {
    if a < b { assert bs[a].end <= bs[b].start; }
  }

  /** Unless every block was thin, every output block clears the floor. */
  lemma MergeClearsTheFloor(out: seq<Block>, ev: seq<Store.Event>, bs: seq<Block>, minEvidence: int, s: seq<nat>)
    requires var thin := ThinFlags(ev, bs, minEvidence); AreSolids(s, thin) && Absorbed(out, bs, thin, s)
    requires Ordered(bs)
    ensures s != [] ==> forall m | 0 <= m < |out| :: !IsThin(ev, out[m], minEvidence)
    ensures s == [] ==> out == bs && forall m | 0 <= m < |bs| :: IsThin(ev, bs[m], minEvidence)
  {
    var thin, n := ThinFlags(ev, bs, minEvidence), |bs|;
    if s != [] {
      forall m | 0 <= m < |out| ensures !IsThin(ev, out[m], minEvidence) {
        Positions(s, thin, m);
        OrderedWithin(bs, From(s, m), s[m]);
        OrderedWithin(bs, s[m], To(s, m, n));
        var b := bs[s[m]];
        assert !thin[s[m]];
        Store.EvidenceMonotone(ev, out[m].start, b.start, b.end, out[m].end);
      }
    }
  }

  lemma {:induction false} AllSolid(s: seq<nat>, thin: seq<bool>, m: nat)
    requires AreSolids(s, thin) && m <= |thin| && forall k | 0 <= k < |thin| :: !thin[k]
    ensures m <= |s| && (m > 0 ==> s[m - 1] == m - 1) && (m == |thin| ==> |s| == m)
  {
    if m > 0 {
      AllSolid(s, thin, m - 1);
      NextSolid(s, thin, m - 1, m - 1, m - 1);
    }
    if m == |thin| { NextSolid(s, thin, m, m, m); }
  }

  lemma NothingThinIsIdentity(out: seq<Block>, bs: seq<Block>, thin: seq<bool>, s: seq<nat>)
    requires |thin| == |bs| && AreSolids(s, thin) && Absorbed(out, bs, thin, s)
    requires forall k | 0 <= k < |thin| :: !thin[k]
    ensures out == bs
  {
    AllSolid(s, thin, |bs|);
    forall m | 0 <= m < |s| ensures out[m] == bs[m] {
      AllSolid(s, thin, m);
      AllSolid(s, thin, m + 1);
    }
  }

  /** Merging a merged list changes nothing. */
  lemma MergeIsIdempotent(again: seq<Block>, out: seq<Block>, ev: seq<Store.Event>, bs: seq<Block>, minEvidence: int,
                          s: seq<nat>, t: seq<nat>)
    requires Ordered(bs)
    requires var thin := ThinFlags(ev, bs, minEvidence); AreSolids(s, thin) && Absorbed(out, bs, thin, s)
    requires var thin := ThinFlags(ev, out, minEvidence); AreSolids(t, thin) && Absorbed(again, out, thin, t)
    ensures again == out
  {
    MergeClearsTheFloor(out, ev, bs, minEvidence, s);
    var thin := ThinFlags(ev, out, minEvidence);
    if s != [] {
      NothingThinIsIdentity(again, out, thin, t);
    } else {
      NextSolid(t, thin, 0, 0, |thin|);
    }
  }

  // ----- conservation of evidence

  function TotalEvidence(ev: seq<Store.Event>, bs: seq<Block>): nat {
    if bs == [] then 0 else Store.Evidence(ev, bs[0].start, bs[0].end) + TotalEvidence(ev, bs[1..])
  }

  lemma {:induction false} TilingHoldsAllEvidence(ev: seq<Store.Event>, bs: seq<Block>, lo: int, hi: int)
    requires Tiles(bs, lo, hi) && bs != []
    ensures TotalEvidence(ev, bs) == Store.Evidence(ev, lo, hi)
    decreases |bs|
  {
    var rest := bs[1..];
    TilesAreOrdered(bs, lo, hi);
    Store.EvidenceSplits(ev, lo, bs[0].end, hi);
    if rest != [] {
      assert forall i | 0 <= i < |rest| :: rest[i] == bs[i + 1];
      TilingHoldsAllEvidence(ev, rest, bs[0].end, hi);
    } else {
      Store.EvidenceSplits(ev, hi, hi, hi);
    }
  }

  /** Cutting and merging move evidence between blocks and lose none: before and after, the blocks
      hold exactly what the span holds. */
  lemma MergeConservesEvidence(out: seq<Block>, ev: seq<Store.Event>, bs: seq<Block>, thin: seq<bool>, s: seq<nat>,
                               lo: int, hi: int)
    requires |thin| == |bs| && AreSolids(s, thin) && Absorbed(out, bs, thin, s) && Tiles(bs, lo, hi) && lo < hi
    ensures TotalEvidence(ev, out) == TotalEvidence(ev, bs) == Store.Evidence(ev, lo, hi)
  {
    TilesAreOrdered(bs, lo, hi);
    MergeKeepsTheTiling(out, bs, thin, s);
    TilingHoldsAllEvidence(ev, bs, lo, hi);
    TilingHoldsAllEvidence(ev, out, lo, hi);
  }

  // ----- the accounts

  /** If some block clears the floor, every thin block is absorbed exactly once: the output has one
      block per solid one, the absorbed end reasons are the thin ones, events are the maximal thin
      runs, and at most one goes backward. If none does, the output is the input and nothing is
      counted as absorbed. */
  lemma MergeAccounting<D>(out: seq<Block>, st: Stats, bs: seq<Block>, thin: seq<bool>, reading: (int, int) -> D)
    requires |thin| == |bs| && Absorbed(out, bs, thin, Solids(thin)) && Accounts(st, bs, thin, Solids(thin), reading)
    ensures var thinCount := ThinUpTo(thin, |bs|);
            if exists k :: 0 <= k < |thin| && !thin[k] then
              && |out| == |bs| - thinCount
              && st.merged + st.mergedBackward == thinCount == |st.absorbedByEndReason|
              && st.absorbedByEndReason == st.thinByEndReason
              && st.mergeEvents == thinCount - st.chained
              && st.mergeEventsBackward <= 1 && (st.mergeEventsBackward == 0 <==> st.mergedBackward == 0)
              && (st.mergeEventsBackward == 1 <==> thin[|bs| - 1])
            else out == bs && st.merged == st.mergedBackward == st.mergeEvents == |st.absorbedByEndReason| == 0
  {
    if k :| 0 <= k < |thin| && !thin[k] { LastSolid(thin, k); }
  }

  lemma LastSolid(thin: seq<bool>, k: nat)
    requires k < |thin| && !thin[k]
    ensures var s := Solids(thin); s != [] && (s[|s| - 1] == |thin| - 1 <==> !thin[|thin| - 1])
  {
    var s, n := Solids(thin), |thin|;
    assert k in s;
    if !thin[n - 1] {
      assert n - 1 in s;
      var q :| 0 <= q < |s| && s[q] == n - 1;
      assert q == |s| - 1;
    }
  }

  lemma {:induction false} CountedReasonIsThin(bs: seq<Block>, thin: seq<bool>, k: nat, r: Reason)
    requires k <= |thin| == |bs| && r in ReasonsUpTo(bs, thin, k)
    ensures exists i :: 0 <= i < k && thin[i] && bs[i].endReason == r
  {
    if thin[k - 1] && bs[k - 1].endReason == r {
    } else {
      CountedReasonIsThin(bs, thin, k - 1, r);
    }
  }

  lemma ThinGatedBlock(ev: seq<Store.Event>, cuts: seq<int>, lo: int, hi: int, cap: int, bs: seq<Block>, i: nat)
    requires cap > 0 && bs == Bound(Gated(cap, StoreGate(ev)), cuts, lo, hi) && i < |bs|
    requires IsThin(ev, bs[i], Store.MIN_EVIDENCE)
    ensures bs[i].endReason == Detected || EndsSpan(bs[i].endReason)
  {
    CutterProperties.GatedBoundsAreNotThin(ev, cuts, lo, hi, cap, bs[i]);
  }

  /** Over arm B's own blocks, with the store's attribution as the gate, nothing thin and so nothing
      absorbed ever ended at the bound: only a detected cut or the end of the span bypasses it. */
  lemma GatedMergesOnlyBypasses(ev: seq<Store.Event>, cuts: seq<int>, lo: int, hi: int, cap: int, bs: seq<Block>,
                                r: Reason)
    requires cap > 0 && bs == Bound(Gated(cap, StoreGate(ev)), cuts, lo, hi)
    requires r in ReasonsUpTo(bs, ThinFlags(ev, bs, Store.MIN_EVIDENCE), |bs|)
    ensures r == Detected || EndsSpan(r)
  {
    var thin := ThinFlags(ev, bs, Store.MIN_EVIDENCE);
    CountedReasonIsThin(bs, thin, |bs|, r);
    var i :| 0 <= i < |bs| && thin[i] && bs[i].endReason == r;
    ThinGatedBlock(ev, cuts, lo, hi, cap, bs, i);
  }

  // The reasons the counters of such a run hold.
  predicate BypassesOnly(st: Stats) {
    && (forall r | r in st.thinByEndReason :: r == Detected || EndsSpan(r))
    && (forall r | r in st.absorbedByEndReason :: r == Detected || EndsSpan(r))
  }

  lemma CountedBypasses<D>(ev: seq<Store.Event>, cuts: seq<int>, lo: int, hi: int, cap: int, bs: seq<Block>, st: Stats,
                           reading: (int, int) -> D)
    requires cap > 0 && bs == Bound(Gated(cap, StoreGate(ev)), cuts, lo, hi)
    requires var thin := ThinFlags(ev, bs, Store.MIN_EVIDENCE); Accounts(st, bs, thin, Solids(thin), reading)
    ensures BypassesOnly(st)
  {
    var thin := ThinFlags(ev, bs, Store.MIN_EVIDENCE);
    assert st.absorbedByEndReason <= st.thinByEndReason == ReasonsUpTo(bs, thin, |bs|);
    forall r | r in ReasonsUpTo(bs, thin, |bs|) ensures r == Detected || EndsSpan(r) {
      GatedMergesOnlyBypasses(ev, cuts, lo, hi, cap, bs, r);
    }
  }

  // Either every block clears the floor, or none did before and none is gone.
  ghost predicate Settled(ev: seq<Store.Event>, out: seq<Block>, bs: seq<Block>) {
    || (forall m | 0 <= m < |out| :: !IsThin(ev, out[m], Store.MIN_EVIDENCE))
    || (out == bs && forall m | 0 <= m < |bs| :: IsThin(ev, bs[m], Store.MIN_EVIDENCE))
  }

  lemma MergedArm(ev: seq<Store.Event>, arm: Arm, cuts: seq<int>, lo: int, hi: int, bs: seq<Block>, out: seq<Block>)
    requires Sound(arm) && lo < hi && bs == Bound(arm, cuts, lo, hi)
    requires var thin := ThinFlags(ev, bs, Store.MIN_EVIDENCE); Absorbed(out, bs, thin, Solids(thin))
    ensures Tiles(out, lo, hi) && Chained(out) && Settled(ev, out, bs)
    ensures TotalEvidence(ev, out) == Store.Evidence(ev, lo, hi)
  {
    var thin := ThinFlags(ev, bs, Store.MIN_EVIDENCE);
    CutterProperties.EveryArmTiles(arm, cuts, lo, hi);
    TilesAreOrdered(bs, lo, hi);
    MergeKeepsTheTiling(out, bs, thin, Solids(thin));
    MergeClearsTheFloor(out, ev, bs, Store.MIN_EVIDENCE, Solids(thin));
    MergeConservesEvidence(out, ev, bs, thin, Solids(thin), lo, hi);
  }

  /** Arm B, cut and then merged over one session: the result tiles the session with the reason chain
      intact and holds all of its evidence, every block clears the floor unless none did, and every
      end reason the merge counts, thin or absorbed, is one that bypassed the gate. */
  method MergeGatedBlocks<D(==)>(ev: seq<Store.Event>, cuts: seq<int>, lo: int, hi: int, capMinutes: int,
                                 reading: (int, int) -> D)
    returns (blocks: seq<Block>, out: seq<Block>, stats: Stats)
    requires capMinutes > 0 && lo < hi
    ensures blocks == Bound(Gated(capMinutes * 60, StoreGate(ev)), cuts, lo, hi)
    ensures Tiles(out, lo, hi) && Chained(out) && Settled(ev, out, blocks)
    ensures TotalEvidence(ev, out) == Store.Evidence(ev, lo, hi)
    ensures BypassesOnly(stats)
  {
    blocks := BoundEvidenceGated(StoreGate(ev), cuts, lo, hi, capMinutes);
    out, stats := MergeThinBlocks(ev, blocks, Store.MIN_EVIDENCE, reading);
    MergedArm(ev, Gated(capMinutes * 60, StoreGate(ev)), cuts, lo, hi, blocks, out);
    CountedBypasses(ev, cuts, lo, hi, capMinutes * 60, blocks, stats, reading);
  }
}
