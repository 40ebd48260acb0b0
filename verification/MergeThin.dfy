/** merge_thin: blocks under the evidence floor are absorbed into a neighbour, forward by default,
    backward only for a trailing run. */
module MergeThin {
  import opened Blocks
  import Store

  // The counters, in the source's order. `reading(start, end)`, where it occurs below, is what a
  // reader sees of a span: its published dimension values, compared and nothing else.
  datatype Stats = Stats(
    merged: nat, mergedBackward: nat, chained: nat,
    mergeEvents: nat, mergeEventsForward: nat, mergeEventsBackward: nat,
    valueChanged: nat, valueChangedForward: nat, valueChangedBackward: nat,
    vsNeighbor: nat, vsNeighborForward: nat, vsNeighborBackward: nat,
    thinByEndReason: multiset<Reason>, absorbedByEndReason: multiset<Reason>)

  predicate IsThin(ev: seq<Store.Event>, b: Block, minEvidence: int) {
    Store.Evidence(ev, b.start, b.end) < minEvidence
  }

  function ThinFlags(ev: seq<Store.Event>, bs: seq<Block>, minEvidence: int): (r: seq<bool>)
    ensures |r| == |bs|
    ensures forall i | 0 <= i < |bs| :: r[i] == IsThin(ev, bs[i], minEvidence)
  {
    if bs == [] then [] else [IsThin(ev, bs[0], minEvidence)] + ThinFlags(ev, bs[1..], minEvidence)
  }

  // Thin blocks among the first k, adjacent thin pairs among them, and their end reasons.
  function ThinUpTo(thin: seq<bool>, k: nat): nat
    requires k <= |thin|
  {
    if k == 0 then 0 else ThinUpTo(thin, k - 1) + if thin[k - 1] then 1 else 0
  }

  function ChainedUpTo(thin: seq<bool>, k: nat): nat
    requires k <= |thin|
  {
    if k <= 1 then 0 else ChainedUpTo(thin, k - 1) + if thin[k - 2] && thin[k - 1] then 1 else 0
  }

  function ReasonsUpTo(bs: seq<Block>, thin: seq<bool>, k: nat): multiset<Reason>
    requires k <= |thin| == |bs|
  {
    if k == 0 then multiset{}
    else ReasonsUpTo(bs, thin, k - 1) + if thin[k - 1] then multiset{bs[k - 1].endReason} else multiset{}
  }

  // The positions of the blocks that clear the floor on their own.
  function SolidsUpTo(thin: seq<bool>, k: nat): (s: seq<nat>)
    requires k <= |thin|
    ensures |s| == k - ThinUpTo(thin, k)
    ensures forall m | 0 <= m < |s| :: s[m] < k && !thin[s[m]]
    ensures forall m, n | 0 <= m < n < |s| :: s[m] < s[n]
    ensures forall i | 0 <= i < k && !thin[i] :: i in s
  {
    if k == 0 then [] else SolidsUpTo(thin, k - 1) + if thin[k - 1] then [] else [k - 1]
  }

  function Solids(thin: seq<bool>): seq<nat> { SolidsUpTo(thin, |thin|) }

  // s lists the solid positions.
  ghost predicate AreSolids(s: seq<nat>, thin: seq<bool>) {
    && (forall m | 0 <= m < |s| :: s[m] < |thin| && !thin[s[m]])
    && (forall m, q | 0 <= m < q < |s| :: s[m] < s[q])
    && (forall i | 0 <= i < |thin| && !thin[i] :: i in s)
  }

  // Output block m runs from just past the previous solid block to its own solid block, and the
  // last one to the end of the session.
  function From(s: seq<nat>, m: nat): nat
    requires m < |s|
  {
    if m == 0 then 0 else s[m - 1] + 1
  }

  function To(s: seq<nat>, m: nat, n: nat): int
    requires m < |s|
  {
    if m == |s| - 1 then n - 1 else s[m]
  }

  // A block taking in everything up to the end of a later one.
  function Extend(first: Block, last: Block): Block {
    Block(first.start, last.end, first.startReason, last.endReason)
  }

  function Join(bs: seq<Block>, a: int, b: int): Block
    requires 0 <= a < |bs| && 0 <= b < |bs|
  {
    Extend(bs[a], bs[b])
  }

  // The absorption rule in closed form: no loop, no order of events.
  ghost predicate Absorbed(out: seq<Block>, bs: seq<Block>, thin: seq<bool>, s: seq<nat>)
    requires |thin| == |bs| && AreSolids(s, thin)
  {
    if s == [] then out == bs
    else |out| == |s| && forall m {:trigger out[m]} | 0 <= m < |s| :: out[m] == Join(bs, From(s, m), To(s, m, |bs|))
  }

  // Does the merge of the thin run before solid block m change what was read of that run, or what
  // was read of the solid block?
  function ForwardChanged<D(==)>(bs: seq<Block>, s: seq<nat>, reading: (int, int) -> D, m: nat): (nat, nat)
    requires m < |s| && (forall q | 0 <= q < |s| :: s[q] < |bs|) && From(s, m) <= s[m]
  {
    if From(s, m) == s[m] then (0, 0)
    else
      var start, succ := bs[From(s, m)].start, bs[s[m]];
      var after := reading(start, succ.end);
      (if reading(start, succ.start) != after then 1 else 0,
       if reading(succ.start, succ.end) != after then 1 else 0)
  }

  function ForwardChangedUpTo<D(==)>(bs: seq<Block>, s: seq<nat>, reading: (int, int) -> D, p: nat): (nat, nat)
    requires p <= |s| && (forall q | 0 <= q < |s| :: s[q] < |bs|)
    requires forall a, b | 0 <= a < b < |s| :: s[a] < s[b]
  {
    if p == 0 then (0, 0)
    else
      var (a, b) := ForwardChangedUpTo(bs, s, reading, p - 1);
      var (x, y) := ForwardChanged(bs, s, reading, p - 1);
      (a + x, b + y)
  }

  function BackwardChanged<D(==)>(bs: seq<Block>, s: seq<nat>, reading: (int, int) -> D): (nat, nat)
    requires forall q | 0 <= q < |s| :: s[q] < |bs|
    requires forall a, b | 0 <= a < b < |s| :: s[a] < s[b]
  {
    if s == [] || s[|s| - 1] == |bs| - 1 then (0, 0)
    else
      var last, end := s[|s| - 1], bs[|bs| - 1].end;
      var start := bs[From(s, |s| - 1)].start;
      var after := reading(start, end);
      (if reading(bs[last + 1].start, end) != after then 1 else 0,
       if reading(start, bs[last].end) != after then 1 else 0)
  }

  // How the counters interlock.
  ghost predicate Accounts<D>(st: Stats, bs: seq<Block>, thin: seq<bool>, s: seq<nat>, reading: (int, int) -> D)
    requires |thin| == |bs| && AreSolids(s, thin)
  {
    var n := |bs|;
    && st.chained == ChainedUpTo(thin, n)
    && st.thinByEndReason == ReasonsUpTo(bs, thin, n)
    && st.mergeEvents == st.mergeEventsForward + st.mergeEventsBackward
    && st.valueChanged == st.valueChangedForward + st.valueChangedBackward
    && st.vsNeighbor == st.vsNeighborForward + st.vsNeighborBackward
    && (st.valueChangedForward, st.vsNeighborForward) == ForwardChangedUpTo(bs, s, reading, |s|)
    && (st.valueChangedBackward, st.vsNeighborBackward) == BackwardChanged(bs, s, reading)
    && if s == [] then
         st.merged == st.mergedBackward == st.mergeEvents == 0 && st.absorbedByEndReason == multiset{}
       else
         && st.merged == ThinUpTo(thin, s[|s| - 1])
         && st.mergedBackward == n - 1 - s[|s| - 1]
         && st.merged + st.mergedBackward == ThinUpTo(thin, n) == |st.absorbedByEndReason|
         && st.absorbedByEndReason == st.thinByEndReason
         && st.mergeEvents == ThinUpTo(thin, n) - ChainedUpTo(thin, n)
         && st.mergeEventsBackward == if s[|s| - 1] < n - 1 then 1 else 0
  }

  // The end reasons of blocks i..j.
  function ReasonsIn(bs: seq<Block>, i: nat, j: nat): multiset<Reason>
    requires i <= j <= |bs|
  {
    if i == j then multiset{} else ReasonsIn(bs, i, j - 1) + multiset{bs[j - 1].endReason}
  }

  // _count_absorbed(blocks[i:j])
  method CountAbsorbed(acc: multiset<Reason>, blocks: seq<Block>, i: nat, j: nat) returns (r: multiset<Reason>)
    requires i <= j <= |blocks|
    ensures r == acc + ReasonsIn(blocks, i, j)
  {
    r := acc;
    for k := i to j
      invariant r == acc + ReasonsIn(blocks, i, k)
    {
      r := r + multiset{blocks[k].endReason};
    }
  }

  lemma {:induction false} ReasonsSize(bs: seq<Block>, thin: seq<bool>, k: nat)
    requires k <= |thin| == |bs|
    ensures |ReasonsUpTo(bs, thin, k)| == ThinUpTo(thin, k)
  {
    if k > 0 { ReasonsSize(bs, thin, k - 1); }
  }

  // A run of thin blocks i..j that does not continue a chain from the left.
  lemma {:induction false} RunCounts(thin: seq<bool>, i: nat, j: nat)
    requires i < j <= |thin| && (i > 0 ==> !thin[i - 1])
    requires forall k | i <= k < j :: thin[k]
    ensures ThinUpTo(thin, j) == ThinUpTo(thin, i) + (j - i)
    ensures ChainedUpTo(thin, j) == ChainedUpTo(thin, i) + (j - i - 1)
    decreases j
  {
    if i + 1 < j { RunCounts(thin, i, j - 1); }
  }

  lemma {:induction false} RunReasons(bs: seq<Block>, thin: seq<bool>, i: nat, j: nat)
    requires i <= j <= |thin| == |bs|
    requires forall k | i <= k < j :: thin[k]
    ensures ReasonsUpTo(bs, thin, j) == ReasonsUpTo(bs, thin, i) + ReasonsIn(bs, i, j)
    decreases j
  {
    if i < j { RunReasons(bs, thin, i, j - 1); }
  }

  // The first block at or after i that clears the floor is the next solid one.
  lemma NextSolid(s: seq<nat>, thin: seq<bool>, p: nat, i: nat, j: nat)
    requires AreSolids(s, thin) && p <= |s| && i == (if p == 0 then 0 else s[p - 1] + 1)
    requires i <= j <= |thin| && forall k | i <= k < j :: thin[k]
    ensures j < |thin| && !thin[j] ==> p < |s| && s[p] == j
    ensures j == |thin| ==> p == |s|
  {
    assert forall m | 0 <= m < p :: s[m] < i;
    assert p < |s| ==> j <= s[p];
    if j < |thin| && !thin[j] {
      var q :| 0 <= q < |s| && s[q] == j;
      assert p <= q;
    }
  }

  // ----- the walk: what the loop has done when it stands at block i with p blocks emitted

  ghost predicate Placed(out: seq<Block>, bs: seq<Block>, s: seq<nat>, p: nat, i: nat) {
    && p <= |s| && i == (if p == 0 then 0 else s[p - 1] + 1) && |out| == p
    && (forall m | 0 <= m < |s| :: s[m] < |bs|) && (forall m, q | 0 <= m < q < |s| :: s[m] < s[q])
    && forall m {:trigger out[m]} | 0 <= m < p :: out[m] == Join(bs, From(s, m), s[m])
  }

  ghost predicate Counted(st: Stats, bs: seq<Block>, thin: seq<bool>, i: nat)
    requires i <= |thin| == |bs|
  {
    && st.merged == ThinUpTo(thin, i) && st.mergedBackward == 0
    && st.chained == ChainedUpTo(thin, |bs|)
    && st.mergeEventsForward == st.mergeEvents == ThinUpTo(thin, i) - ChainedUpTo(thin, i)
    && st.mergeEventsBackward == 0
    && st.thinByEndReason == ReasonsUpTo(bs, thin, |bs|)
    && st.absorbedByEndReason == ReasonsUpTo(bs, thin, i)
  }

  ghost predicate Compared<D>(st: Stats, bs: seq<Block>, s: seq<nat>, reading: (int, int) -> D, p: nat)
    requires p <= |s| && (forall m | 0 <= m < |s| :: s[m] < |bs|) && (forall m, q | 0 <= m < q < |s| :: s[m] < s[q])
  {
    && (st.valueChangedForward, st.vsNeighborForward) == ForwardChangedUpTo(bs, s, reading, p)
    && st.valueChanged == st.valueChangedForward && st.vsNeighbor == st.vsNeighborForward
    && st.valueChangedBackward == st.vsNeighborBackward == 0
  }

  ghost predicate Progress<D>(out: seq<Block>, st: Stats, bs: seq<Block>, thin: seq<bool>, s: seq<nat>,
                              reading: (int, int) -> D, p: nat, i: nat) {
    && i <= |bs| == |thin| && AreSolids(s, thin)
    && Placed(out, bs, s, p, i) && Counted(st, bs, thin, i) && Compared(st, bs, s, reading, p)
  }

  lemma PlaceNext(out: seq<Block>, bs: seq<Block>, s: seq<nat>, p: nat, i: nat, j: nat)
    requires Placed(out, bs, s, p, i) && p < |s| && s[p] == j && i <= j
    ensures Placed(out + [Join(bs, i, j)], bs, s, p + 1, j + 1)
  {
  }

  lemma KeepSolid<D>(out: seq<Block>, st: Stats, bs: seq<Block>, thin: seq<bool>, s: seq<nat>,
                     reading: (int, int) -> D, p: nat, i: nat)
    requires Progress(out, st, bs, thin, s, reading, p, i) && i < |bs| && !thin[i]
    ensures Progress(out + [bs[i]], st, bs, thin, s, reading, p + 1, i + 1)
  {
    NextSolid(s, thin, p, i, i);
    PlaceNext(out, bs, s, p, i, i);
    assert Join(bs, i, i) == bs[i];
    assert Counted(st, bs, thin, i + 1);
  }

  // The counters after thin blocks i..j went forward into block j.
  function AfterForward<D(==)>(st: Stats, bs: seq<Block>, i: nat, j: nat, reading: (int, int) -> D): Stats
    requires i < j < |bs|
  {
    var after := reading(bs[i].start, bs[j].end);
    var x := if reading(bs[i].start, bs[j].start) != after then 1 else 0;
    var y := if reading(bs[j].start, bs[j].end) != after then 1 else 0;
    st.(merged := st.merged + (j - i), mergeEvents := st.mergeEvents + 1,
        mergeEventsForward := st.mergeEventsForward + 1,
        valueChanged := st.valueChanged + x, valueChangedForward := st.valueChangedForward + x,
        vsNeighbor := st.vsNeighbor + y, vsNeighborForward := st.vsNeighborForward + y,
        absorbedByEndReason := st.absorbedByEndReason + ReasonsIn(bs, i, j))
  }

  lemma CountForward<D>(st: Stats, bs: seq<Block>, thin: seq<bool>, reading: (int, int) -> D, i: nat, j: nat)
    requires |thin| == |bs| && i < j < |bs| && !thin[j] && (forall k | i <= k < j :: thin[k])
    requires i > 0 ==> !thin[i - 1]
    requires Counted(st, bs, thin, i)
    ensures Counted(AfterForward(st, bs, i, j, reading), bs, thin, j + 1)
  {
    RunCounts(thin, i, j);
    RunReasons(bs, thin, i, j);
  }

  lemma AbsorbForward<D>(out: seq<Block>, st: Stats, bs: seq<Block>, thin: seq<bool>, s: seq<nat>,
                         reading: (int, int) -> D, p: nat, i: nat, j: nat)
    requires Progress(out, st, bs, thin, s, reading, p, i)
    requires i < j < |bs| && !thin[j] && (forall k | i <= k < j :: thin[k])
    ensures Progress(out + [Join(bs, i, j)], AfterForward(st, bs, i, j, reading), bs, thin, s, reading, p + 1, j + 1)
  {
    NextSolid(s, thin, p, i, j);
    PlaceNext(out, bs, s, p, i, j);
    CountForward(st, bs, thin, reading, i, j);
    assert From(s, p) == i;
    assert Compared(AfterForward(st, bs, i, j, reading), bs, s, reading, p + 1);
  }

  // The counters after the trailing thin run i.. went backward into the last block emitted.
  function AfterBackward<D(==)>(st: Stats, bs: seq<Block>, pred: Block, i: nat, reading: (int, int) -> D): Stats
    requires i < |bs|
  {
    var end := bs[|bs| - 1].end;
    var after := reading(pred.start, end);
    var x := if reading(bs[i].start, end) != after then 1 else 0;
    var y := if reading(pred.start, pred.end) != after then 1 else 0;
    st.(mergedBackward := st.mergedBackward + (|bs| - i), mergeEvents := st.mergeEvents + 1,
        mergeEventsBackward := st.mergeEventsBackward + 1,
        valueChanged := st.valueChanged + x, valueChangedBackward := st.valueChangedBackward + x,
        vsNeighbor := st.vsNeighbor + y, vsNeighborBackward := st.vsNeighborBackward + y,
        absorbedByEndReason := st.absorbedByEndReason + ReasonsIn(bs, i, |bs|))
  }

  lemma CountBackward<D>(st: Stats, bs: seq<Block>, thin: seq<bool>, pred: Block, i: nat, reading: (int, int) -> D)
    requires |thin| == |bs| && 0 < i < |bs| && (forall k | i <= k < |bs| :: thin[k]) && !thin[i - 1]
    requires Counted(st, bs, thin, i)
    ensures var r := AfterBackward(st, bs, pred, i, reading);
            && r.merged == ThinUpTo(thin, i - 1) && r.mergedBackward == |bs| - i
            && r.merged + r.mergedBackward == ThinUpTo(thin, |bs|) == |r.absorbedByEndReason|
            && r.absorbedByEndReason == r.thinByEndReason
            && r.mergeEvents == ThinUpTo(thin, |bs|) - ChainedUpTo(thin, |bs|)
  {
    RunCounts(thin, i, |bs|);
    RunReasons(bs, thin, i, |bs|);
    ReasonsSize(bs, thin, |bs|);
  }

  lemma PlaceBackward(out: seq<Block>, bs: seq<Block>, thin: seq<bool>, s: seq<nat>, p: nat, i: nat)
    requires |bs| == |thin| && AreSolids(s, thin) && Placed(out, bs, s, p, i) && p == |s| > 0
    ensures var pred := out[p - 1];
            Absorbed(out[..p - 1] + [Extend(pred, bs[|bs| - 1])], bs, thin, s)
  {
  }

  lemma AbsorbBackward<D>(out: seq<Block>, st: Stats, bs: seq<Block>, thin: seq<bool>, s: seq<nat>,
                          reading: (int, int) -> D, p: nat, i: nat, out': seq<Block>, st': Stats)
    requires Progress(out, st, bs, thin, s, reading, p, i) && p > 0
    requires i < |bs| && (forall k | i <= k < |bs| :: thin[k])
    requires out' == out[..p - 1] + [Extend(out[p - 1], bs[|bs| - 1])]
    requires st' == AfterBackward(st, bs, out[p - 1], i, reading)
    ensures Absorbed(out', bs, thin, s) && Accounts(st', bs, thin, s, reading)
  {
    NextSolid(s, thin, p, i, |bs|);
    PlaceBackward(out, bs, thin, s, p, i);
    CountBackward(st, bs, thin, out[p - 1], i, reading);
    assert s[p - 1] + 1 == i;
  }

  lemma Finish<D>(out: seq<Block>, st: Stats, bs: seq<Block>, thin: seq<bool>, s: seq<nat>, reading: (int, int) -> D,
                  p: nat)
    requires Progress(out, st, bs, thin, s, reading, p, |bs|)
    ensures Absorbed(out, bs, thin, s) && Accounts(st, bs, thin, s, reading)
  {
    NextSolid(s, thin, p, |bs|, |bs|);
    ReasonsSize(bs, thin, |bs|);
  }

  lemma NothingSolid<D>(out: seq<Block>, st: Stats, bs: seq<Block>, thin: seq<bool>, s: seq<nat>,
                        reading: (int, int) -> D)
    requires Progress(out, st, bs, thin, s, reading, 0, 0)
    requires forall k | 0 <= k < |bs| :: thin[k]
    ensures Absorbed(out + bs, bs, thin, s) && Accounts(st, bs, thin, s, reading)
  {
    NextSolid(s, thin, 0, 0, |bs|);
  }

  // The counters before the walk: chained pairs, and the end reason of every thin block.
  method CountThin(blocks: seq<Block>, thin: seq<bool>) returns (st: Stats)
    requires |thin| == |blocks|
    ensures st == Stats(0, 0, ChainedUpTo(thin, |thin|), 0, 0, 0, 0, 0, 0, 0, 0, 0,
                        ReasonsUpTo(blocks, thin, |thin|), multiset{})
  {
    var reasons := multiset{};
    for k := 0 to |blocks|
      invariant reasons == ReasonsUpTo(blocks, thin, k)
    {
      if thin[k] {
        reasons := reasons + multiset{blocks[k].endReason};
      }
    }
    st := Stats(0, 0, ChainedUpTo(thin, |thin|), 0, 0, 0, 0, 0, 0, 0, 0, 0, reasons, multiset{});
  }

  // The counters of one forward event.
  method CountForwardEvent<D(==)>(st: Stats, blocks: seq<Block>, i: nat, j: nat, reading: (int, int) -> D)
    returns (r: Stats)
    requires i < j < |blocks|
    ensures r == AfterForward(st, blocks, i, j, reading)
  {
    var successor := blocks[j];
    var absorbed := CountAbsorbed(st.absorbedByEndReason, blocks, i, j);
    r := st.(merged := st.merged + (j - i), absorbedByEndReason := absorbed,
             mergeEvents := st.mergeEvents + 1, mergeEventsForward := st.mergeEventsForward + 1);
    var before := reading(blocks[i].start, successor.start);
    var after := reading(blocks[i].start, successor.end);
    if before != after {
      r := r.(valueChanged := r.valueChanged + 1, valueChangedForward := r.valueChangedForward + 1);
    }
    var neighborBefore := reading(successor.start, successor.end);
    if neighborBefore != after {
      r := r.(vsNeighbor := r.vsNeighbor + 1, vsNeighborForward := r.vsNeighborForward + 1);
    }
  }

  // The counters of the one backward event.
  method CountBackwardEvent<D(==)>(st: Stats, blocks: seq<Block>, pred: Block, i: nat, reading: (int, int) -> D)
    returns (r: Stats)
    requires i < |blocks|
    ensures r == AfterBackward(st, blocks, pred, i, reading)
  {
    var n := |blocks|;
    var absorbed := CountAbsorbed(st.absorbedByEndReason, blocks, i, n);
    r := st.(mergedBackward := st.mergedBackward + (n - i), absorbedByEndReason := absorbed,
             mergeEvents := st.mergeEvents + 1, mergeEventsBackward := st.mergeEventsBackward + 1);
    var before := reading(blocks[i].start, blocks[n - 1].end);
    var after := reading(pred.start, blocks[n - 1].end);
    if before != after {
      r := r.(valueChanged := r.valueChanged + 1, valueChangedBackward := r.valueChangedBackward + 1);
    }
    var neighborBefore := reading(pred.start, pred.end);
    if neighborBefore != after {
      r := r.(vsNeighbor := r.vsNeighbor + 1, vsNeighborBackward := r.vsNeighborBackward + 1);
    }
  }

  // The inner scan: the end of the thin run that starts at i, or the last block.
  method RunEnd(thin: seq<bool>, i: nat) returns (j: nat)
    requires i < |thin| && thin[i]
    ensures i <= j < |thin| && (forall k | i <= k < j :: thin[k])
    ensures thin[j] ==> j == |thin| - 1
    ensures !thin[j] ==> i < j
  {
    j := i;
    while thin[j] && j < |thin| - 1
      invariant i <= j < |thin| && forall k | i <= k < j :: thin[k]
    {
      j := j + 1;
    }
  }

  // Blocks i.. are all thin: absorb them backward into the last block emitted.
  method AbsorbTail<D(==)>(blocks: seq<Block>, thin: seq<bool>, ghost s: seq<nat>, reading: (int, int) -> D,
                           out: seq<Block>, stats: Stats, i: nat, ghost p: nat)
    returns (out': seq<Block>, stats': Stats)
    requires Progress(out, stats, blocks, thin, s, reading, p, i) && i < |blocks| && out != []
    requires forall k | i <= k < |blocks| :: thin[k]
    ensures Absorbed(out', blocks, thin, s) && Accounts(stats', blocks, thin, s, reading)
  {
    var pred := out[|out| - 1];
    out' := out[..|out| - 1] + [Extend(pred, blocks[|blocks| - 1])];
    stats' := CountBackwardEvent(stats, blocks, pred, i, reading);
    AbsorbBackward(out, stats, blocks, thin, s, reading, p, i, out', stats');
  }

  // Or there is nothing to absorb them into: every block was thin, and stays.
  method LeaveTail<D(==)>(blocks: seq<Block>, thin: seq<bool>, ghost s: seq<nat>, reading: (int, int) -> D,
                          out: seq<Block>, stats: Stats, i: nat, ghost p: nat)
    returns (out': seq<Block>)
    requires Progress(out, stats, blocks, thin, s, reading, p, i) && i < |blocks| && out == []
    requires forall k | i <= k < |blocks| :: thin[k]
    ensures Absorbed(out', blocks, thin, s) && Accounts(stats, blocks, thin, s, reading)
  {
    NothingSolid(out, stats, blocks, thin, s, reading);
    assert blocks[i..] == blocks;
    out' := out + blocks[i..];
  }

  // Where the walk stands at block i: on its way, or done.
  ghost predicate Standing<D>(out: seq<Block>, st: Stats, bs: seq<Block>, thin: seq<bool>, s: seq<nat>,
                              reading: (int, int) -> D, p: nat, i: nat)
    requires |thin| == |bs| && AreSolids(s, thin)
  {
    if i < |bs| then Progress(out, st, bs, thin, s, reading, p, i)
    else i == |bs| && Absorbed(out, bs, thin, s) && Accounts(st, bs, thin, s, reading)
  }

  lemma Stands<D>(out: seq<Block>, st: Stats, bs: seq<Block>, thin: seq<bool>, s: seq<nat>, reading: (int, int) -> D,
                  p: nat, i: nat)
    requires Progress(out, st, bs, thin, s, reading, p, i)
    ensures Standing(out, st, bs, thin, s, reading, p, i)
  {
    if i == |bs| { Finish(out, st, bs, thin, s, reading, p); }
  }

  // Blocks i..j are thin and block j is not: absorb them forward into it.
  method AbsorbIntoNext<D(==)>(blocks: seq<Block>, thin: seq<bool>, ghost s: seq<nat>, reading: (int, int) -> D,
                               out: seq<Block>, stats: Stats, i: nat, j: nat, ghost p: nat)
    returns (out': seq<Block>, stats': Stats)
    requires Progress(out, stats, blocks, thin, s, reading, p, i)
    requires i < j < |blocks| && !thin[j] && forall k | i <= k < j :: thin[k]
    ensures Standing(out', stats', blocks, thin, s, reading, p + 1, j + 1)
  {
    AbsorbForward(out, stats, blocks, thin, s, reading, p, i, j);
    out' := out + [Join(blocks, i, j)];
    stats' := CountForwardEvent(stats, blocks, i, j, reading);
    Stands(out', stats', blocks, thin, s, reading, p + 1, j + 1);
  }

  // The loop body for a run of thin blocks that starts at i.
  method AbsorbRun<D(==)>(blocks: seq<Block>, thin: seq<bool>, ghost s: seq<nat>, reading: (int, int) -> D,
                          out: seq<Block>, stats: Stats, i: nat, ghost p: nat)
    returns (out': seq<Block>, stats': Stats, i': nat)
    requires Progress(out, stats, blocks, thin, s, reading, p, i) && i < |blocks| && thin[i]
    ensures i < i' <= |blocks| && Standing(out', stats', blocks, thin, s, reading, p + 1, i')
  {
    var j := RunEnd(thin, i);
    if !thin[j] {
      out', stats' := AbsorbIntoNext(blocks, thin, s, reading, out, stats, i, j, p);
      i' := j + 1;
    } else {
      i' := |blocks|;
      if out != [] {
        out', stats' := AbsorbTail(blocks, thin, s, reading, out, stats, i, p);
      } else {
        stats' := stats;
        out' := LeaveTail(blocks, thin, s, reading, out, stats, i, p);
      }
    }
  }

  lemma Begin<D>(st: Stats, bs: seq<Block>, thin: seq<bool>, s: seq<nat>, reading: (int, int) -> D)
    requires |thin| == |bs| && AreSolids(s, thin)
    requires st == Stats(0, 0, ChainedUpTo(thin, |thin|), 0, 0, 0, 0, 0, 0, 0, 0, 0,
                         ReasonsUpTo(bs, thin, |thin|), multiset{})
    ensures Standing([], st, bs, thin, s, reading, 0, 0)
  {
    assert Progress([], st, bs, thin, s, reading, 0, 0);
    Stands([], st, bs, thin, s, reading, 0, 0);
  }

  /** merge_thin's walk, proved against the closed form of the absorption rule and its accounts. */
  method AbsorbThin<D(==)>(blocks: seq<Block>, thin: seq<bool>, ghost s: seq<nat>, reading: (int, int) -> D)
    returns (out: seq<Block>, stats: Stats)
    requires |thin| == |blocks| && AreSolids(s, thin)
    ensures Absorbed(out, blocks, thin, s) && Accounts(stats, blocks, thin, s, reading)
  {
    stats := CountThin(blocks, thin);
    out := [];
    var i := 0;
    ghost var p := 0;
    Begin(stats, blocks, thin, s, reading);
    while i < |blocks|
      invariant i <= |blocks| && Standing(out, stats, blocks, thin, s, reading, p, i)
      decreases |blocks| - i
    {
      if !thin[i] {
        KeepSolid(out, stats, blocks, thin, s, reading, p, i);
        out := out + [blocks[i]];
        i, p := i + 1, p + 1;
        Stands(out, stats, blocks, thin, s, reading, p, i);
      } else {
        out, stats, i := AbsorbRun(blocks, thin, s, reading, out, stats, i, p);
        p := p + 1;
      }
    }
  }

  /** merge_thin over a store: a block is thin when its own pooled evidence is under the floor. */
  method MergeThinBlocks<D(==)>(ev: seq<Store.Event>, blocks: seq<Block>, minEvidence: int, reading: (int, int) -> D)
    returns (out: seq<Block>, stats: Stats)
    ensures var thin := ThinFlags(ev, blocks, minEvidence);
            Absorbed(out, blocks, thin, Solids(thin)) && Accounts(stats, blocks, thin, Solids(thin), reading)
  {
    var thin := ThinFlags(ev, blocks, minEvidence);
    out, stats := AbsorbThin(blocks, thin, Solids(thin), reading);
  }
}
