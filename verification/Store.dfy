/** The event store behind the cutters: reference events, and the questions asked of a span. */
module Store {
  import opened Sorting

  // The eight ALLOCATION levels; every other level is multi-valued inventory.
  datatype Level =
    | Repo | Workspace | Branch | Model | Artifact | Lang | Skill | Toolchain
    | Inventory(name: string)

  datatype Event = Event(ts: int, level: Level, ref: string, n: nat)

  const ALLOC_LEVELS: seq<Level> := [Repo, Workspace, Branch, Model, Artifact, Lang, Skill, Toolchain]
  const MIN_EVIDENCE: nat := 5
  const BIN_SECONDS: int := 300

  predicate In(e: Event, level: Level, start: int, end: int) {
    e.level == level && start <= e.ts < end
  }

  // Evidence of one level in [start, end).
  function LevelTotal(ev: seq<Event>, level: Level, start: int, end: int): nat {
    if ev == [] then 0
    else (if In(ev[0], level, start, end) then ev[0].n else 0) + LevelTotal(ev[1..], level, start, end)
  }

  function RefTotal(ev: seq<Event>, level: Level, ref: string, start: int, end: int): nat {
    if ev == [] then 0
    else (if In(ev[0], level, start, end) && ev[0].ref == ref then ev[0].n else 0)
         + RefTotal(ev[1..], level, ref, start, end)
  }

  function Pooled(ev: seq<Event>, levels: seq<Level>, start: int, end: int): nat {
    if levels == [] then 0
    else LevelTotal(ev, levels[0], start, end) + Pooled(ev, levels[1..], start, end)
  }

  // block_evidence: the raw sum over all eight allocation levels.
  function Evidence(ev: seq<Event>, start: int, end: int): nat {
    Pooled(ev, ALLOC_LEVELS, start, end)
  }

  lemma {:induction false} LevelTotalSplits(ev: seq<Event>, level: Level, a: int, b: int, c: int)
    requires a <= b <= c
    ensures LevelTotal(ev, level, a, c) == LevelTotal(ev, level, a, b) + LevelTotal(ev, level, b, c)
  {
    if ev != [] { LevelTotalSplits(ev[1..], level, a, b, c); }
  }

  lemma {:induction false} PooledSplits(ev: seq<Event>, levels: seq<Level>, a: int, b: int, c: int)
    requires a <= b <= c
    ensures Pooled(ev, levels, a, c) == Pooled(ev, levels, a, b) + Pooled(ev, levels, b, c)
  {
    if levels != [] {
      LevelTotalSplits(ev, levels[0], a, b, c);
      PooledSplits(ev, levels[1..], a, b, c);
    }
  }

  // Evidence of abutting spans adds up, so a wider span never has less.
  lemma EvidenceSplits(ev: seq<Event>, a: int, b: int, c: int)
    requires a <= b <= c
    ensures Evidence(ev, a, c) == Evidence(ev, a, b) + Evidence(ev, b, c)
  {
    PooledSplits(ev, ALLOC_LEVELS, a, b, c);
  }

  lemma EvidenceMonotone(ev: seq<Event>, a: int, b: int, c: int, d: int)
    requires a <= b <= c <= d
    ensures Evidence(ev, b, c) <= Evidence(ev, a, d)
  {
    EvidenceSplits(ev, a, b, d);
    EvidenceSplits(ev, b, c, d);
  }

  ghost predicate NoEvents(ev: seq<Event>, a: int, b: int) {
    forall i | 0 <= i < |ev| :: !(a <= ev[i].ts < b)
  }

  lemma {:induction false} NoLevelEvidence(ev: seq<Event>, level: Level, a: int, b: int)
    requires NoEvents(ev, a, b)
    ensures LevelTotal(ev, level, a, b) == 0
  {
    if ev != [] { NoLevelEvidence(ev[1..], level, a, b); }
  }

  // A span without events has no evidence.
  lemma NoEvidence(ev: seq<Event>, a: int, b: int)
    requires NoEvents(ev, a, b)
    ensures Evidence(ev, a, b) == 0
  {
    NoPooledEvidence(ev, ALLOC_LEVELS, a, b);
  }

  lemma {:induction false} NoPooledEvidence(ev: seq<Event>, levels: seq<Level>, a: int, b: int)
    requires NoEvents(ev, a, b)
    ensures Pooled(ev, levels, a, b) == 0
  {
    if levels != [] {
      NoLevelEvidence(ev, levels[0], a, b);
      NoPooledEvidence(ev, levels[1..], a, b);
    }
  }

  lemma {:induction false} PooledCoversLevel(ev: seq<Event>, levels: seq<Level>, k: nat, start: int, end: int)
    requires k < |levels|
    ensures LevelTotal(ev, levels[k], start, end) <= Pooled(ev, levels, start, end)
  {
    if k > 0 { PooledCoversLevel(ev, levels[1..], k - 1, start, end); }
  }

  lemma SingleTotals(e: Event, level: Level, ref: string, start: int, end: int)
    ensures LevelTotal([e], level, start, end) == if In(e, level, start, end) then e.n else 0
    ensures RefTotal([e], level, ref, start, end) == if In(e, level, start, end) && e.ref == ref then e.n else 0
  {
    assert [e][1..] == [];
  }

  lemma {:induction false} PooledOfOne(e: Event, levels: seq<Level>, start: int, end: int)
    requires forall i, j | 0 <= i < j < |levels| :: levels[i] != levels[j]
    ensures Pooled([e], levels, start, end) == if e.level in levels && start <= e.ts < end then e.n else 0
  {
    if levels != [] {
      assert levels == [levels[0]] + levels[1..];
      assert levels[0] !in levels[1..];
      PooledOfOne(e, levels[1..], start, end);
      SingleTotals(e, levels[0], e.ref, start, end);
    }
  }

  // ----- attribution of one level

  datatype AttributionReason = Attributed | Absent | Thin | Tie | NoMajority

  function SumItems(items: seq<(string, nat)>): nat {
    if items == [] then 0 else items[0].1 + SumItems(items[1..])
  }

  /** window.attribution over one level's ranked items, at the 0.50 share floor every allocation
      level carries. Evidence outranks shape: thin before tie before no_majority. */
  function Attribution(items: seq<(string, nat)>): AttributionReason {
    if items == [] then Absent
    else
      var total, top := SumItems(items), items[0].1;
      if total < MIN_EVIDENCE then Thin
      else if |items| > 1 && items[1].1 == top then Tie
      else if 2 * top < total then NoMajority
      else Attributed
  }

  ghost predicate Seen(ev: seq<Event>, level: Level, ref: string, start: int, end: int) {
    exists j :: 0 <= j < |ev| && In(ev[j], level, start, end) && ev[j].ref == ref
  }

  ghost predicate Listed(items: seq<(string, nat)>, ref: string) {
    exists i :: 0 <= i < |items| && items[i].0 == ref
  }

  // The rollup of one level in a window: each ref seen there once, with its total, descending.
  ghost predicate IsRollup(items: seq<(string, nat)>, ev: seq<Event>, level: Level, start: int, end: int) {
    && (forall i, j | 0 <= i < j < |items| :: items[i].0 != items[j].0 && items[i].1 >= items[j].1)
    && (forall i | 0 <= i < |items| :: items[i].1 == RefTotal(ev, level, items[i].0, start, end))
    && (forall ref {:trigger Listed(items, ref)} {:trigger Seen(ev, level, ref, start, end)} ::
          Listed(items, ref) <==> Seen(ev, level, ref, start, end))
  }

  lemma {:induction false} SeenIfCounted(ev: seq<Event>, level: Level, ref: string, start: int, end: int)
    requires RefTotal(ev, level, ref, start, end) > 0
    ensures Seen(ev, level, ref, start, end)
  {
    if !(In(ev[0], level, start, end) && ev[0].ref == ref) {
      SeenIfCounted(ev[1..], level, ref, start, end);
      var j :| 0 <= j < |ev[1..]| && In(ev[1..][j], level, start, end) && ev[1..][j].ref == ref;
      assert ev[j + 1] == ev[1..][j];
    }
  }

  // One value owns the level: enough evidence, and a ref that beats every other one outright and
  // holds at least half of the evidence.
  predicate Owned(ev: seq<Event>, level: Level, start: int, end: int) {
    && LevelTotal(ev, level, start, end) >= MIN_EVIDENCE
    && exists i | 0 <= i < |ev| :: In(ev[i], level, start, end) && Owner(ev, level, ev[i].ref, start, end)
  }

  predicate Owner(ev: seq<Event>, level: Level, ref: string, start: int, end: int) {
    && 2 * RefTotal(ev, level, ref, start, end) >= LevelTotal(ev, level, start, end)
    && forall j | 0 <= j < |ev| && In(ev[j], level, start, end) && ev[j].ref != ref ::
         RefTotal(ev, level, ev[j].ref, start, end) < RefTotal(ev, level, ref, start, end)
  }

  // can_attribute: some allocation level, read on its own, is attributed.
  predicate CanAttribute(ev: seq<Event>, start: int, end: int) {
    exists k | 0 <= k < |ALLOC_LEVELS| :: Owned(ev, ALLOC_LEVELS[k], start, end)
  }

  function SumRefs(ev: seq<Event>, level: Level, items: seq<(string, nat)>, start: int, end: int): nat {
    if items == [] then 0
    else RefTotal(ev, level, items[0].0, start, end) + SumRefs(ev, level, items[1..], start, end)
  }

  lemma {:induction false} SumRefsStep(ev: seq<Event>, level: Level, items: seq<(string, nat)>, start: int, end: int)
    requires ev != []
    requires forall i, j | 0 <= i < j < |items| :: items[i].0 != items[j].0
    ensures SumRefs(ev, level, items, start, end) == SumRefs(ev[1..], level, items, start, end)
              + if In(ev[0], level, start, end) && Listed(items, ev[0].ref)
                then ev[0].n else 0
  {
    if items != [] {
      var rest := items[1..];
      SumRefsStep(ev, level, rest, start, end);
      assert forall i | 1 <= i < |items| :: items[i] == rest[i - 1];
      if i :| 0 <= i < |rest| && rest[i].0 == ev[0].ref {
        assert items[i + 1].0 == ev[0].ref;
      }
    }
  }

  lemma {:induction false} SumRefsIsLevelTotal(ev: seq<Event>, level: Level, items: seq<(string, nat)>, start: int,
                                               end: int)
    requires forall i, j | 0 <= i < j < |items| :: items[i].0 != items[j].0
    requires forall j | 0 <= j < |ev| && In(ev[j], level, start, end) :: Listed(items, ev[j].ref)
    ensures SumRefs(ev, level, items, start, end) == LevelTotal(ev, level, start, end)
  {
    if ev == [] {
      SumRefsEmpty(level, items, start, end);
    } else {
      SumRefsIsLevelTotal(ev[1..], level, items, start, end);
      SumRefsStep(ev, level, items, start, end);
    }
  }

  lemma {:induction false} SumRefsEmpty(level: Level, items: seq<(string, nat)>, start: int, end: int)
    ensures SumRefs([], level, items, start, end) == 0
  {
    if items != [] { SumRefsEmpty(level, items[1..], start, end); }
  }

  lemma {:induction false} SumItemsIsSumRefs(ev: seq<Event>, level: Level, items: seq<(string, nat)>, start: int,
                                             end: int)
    requires forall i | 0 <= i < |items| :: items[i].1 == RefTotal(ev, level, items[i].0, start, end)
    ensures SumItems(items) == SumRefs(ev, level, items, start, end)
  {
    if items != [] { SumItemsIsSumRefs(ev, level, items[1..], start, end); }
  }

  ghost predicate Beats(items: seq<(string, nat)>, k: nat)
    requires k < |items|
  {
    forall m | 0 <= m < |items| && m != k :: items[m].1 < items[k].1
  }

  lemma OwnerIffBeats(items: seq<(string, nat)>, k: nat, ev: seq<Event>, level: Level, start: int, end: int)
    requires IsRollup(items, ev, level, start, end) && k < |items|
    ensures Owner(ev, level, items[k].0, start, end)
       <==> Beats(items, k) && 2 * items[k].1 >= LevelTotal(ev, level, start, end)
  {
    var ref := items[k].0;
    if Beats(items, k) {
      forall j | 0 <= j < |ev| && In(ev[j], level, start, end) && ev[j].ref != ref
        ensures RefTotal(ev, level, ev[j].ref, start, end) < RefTotal(ev, level, ref, start, end)
      {
        assert Seen(ev, level, ev[j].ref, start, end);
        assert Listed(items, ev[j].ref);
      }
    }
    if Owner(ev, level, ref, start, end) {
      forall m | 0 <= m < |items| && m != k ensures items[m].1 < items[k].1 {
        assert Listed(items, items[m].0);
        assert Seen(ev, level, items[m].0, start, end);
      }
    }
  }

  /** The branching of window.attribution over the ranked list decides exactly "one value owns the
      level", a statement about the events alone. */
  lemma AttributedIffOwned(items: seq<(string, nat)>, ev: seq<Event>, level: Level, start: int, end: int)
    requires IsRollup(items, ev, level, start, end)
    ensures Attribution(items) == Attributed <==> Owned(ev, level, start, end)
  {
    SumItemsIsSumRefs(ev, level, items, start, end);
    forall j | 0 <= j < |ev| && In(ev[j], level, start, end) ensures Listed(items, ev[j].ref) {
      assert Seen(ev, level, ev[j].ref, start, end);
    }
    SumRefsIsLevelTotal(ev, level, items, start, end);
    if Attribution(items) == Attributed { AttributedIsOwned(items, ev, level, start, end); }
    if Owned(ev, level, start, end) { OwnedIsFirst(items, ev, level, start, end); }
  }

  lemma AttributedIsOwned(items: seq<(string, nat)>, ev: seq<Event>, level: Level, start: int, end: int)
    requires IsRollup(items, ev, level, start, end) && SumItems(items) == LevelTotal(ev, level, start, end)
    requires Attribution(items) == Attributed
    ensures Owned(ev, level, start, end)
  {
    OwnerIffBeats(items, 0, ev, level, start, end);
    assert Beats(items, 0) by {
      assert forall m | 1 < m < |items| :: items[1].1 >= items[m].1;
    }
    assert Listed(items, items[0].0);
    assert Seen(ev, level, items[0].0, start, end);
  }

  lemma OwnedIsFirst(items: seq<(string, nat)>, ev: seq<Event>, level: Level, start: int, end: int)
    requires IsRollup(items, ev, level, start, end) && Owned(ev, level, start, end)
    ensures items != [] && Beats(items, 0) && 2 * items[0].1 >= LevelTotal(ev, level, start, end)
  {
    var i :| 0 <= i < |ev| && In(ev[i], level, start, end) && Owner(ev, level, ev[i].ref, start, end);
    assert Seen(ev, level, ev[i].ref, start, end);
    assert Listed(items, ev[i].ref);
    var k :| 0 <= k < |items| && items[k].0 == ev[i].ref;
    assert forall m | 0 < m < |items| :: items[0].1 >= items[m].1;
    OwnerIffBeats(items, k, ev, level, start, end);
  }

  /** One attributed level already puts the pooled sum over the floor. */
  lemma AttributableIsNotThin(ev: seq<Event>, start: int, end: int)
    requires CanAttribute(ev, start, end)
    ensures Evidence(ev, start, end) >= MIN_EVIDENCE
  {
    var k :| 0 <= k < |ALLOC_LEVELS| && Owned(ev, ALLOC_LEVELS[k], start, end);
    PooledCoversLevel(ev, ALLOC_LEVELS, k, start, end);
  }

  lemma {:induction false} PooledOnes(ev: seq<Event>, levels: seq<Level>, start: int, end: int)
    requires forall level | level in levels :: LevelTotal(ev, level, start, end) == 1
    ensures Pooled(ev, levels, start, end) == |levels|
  {
    if levels != [] { PooledOnes(ev, levels[1..], start, end); }
  }

  // One observation at each of the first k allocation levels.
  function OneEach(k: nat): seq<Event>
    requires k <= |ALLOC_LEVELS|
  {
    if k == 0 then [] else [Event(0, ALLOC_LEVELS[k - 1], "x", 1)] + OneEach(k - 1)
  }

  lemma {:induction false} OneEachTotals(k: nat, i: nat)
    requires k <= |ALLOC_LEVELS| && i < |ALLOC_LEVELS|
    ensures LevelTotal(OneEach(k), ALLOC_LEVELS[i], 0, 1) == if i < k then 1 else 0
  {
    if k > 0 { OneEachTotals(k - 1, i); }
  }

  /** The converse fails: one observation at each of the eight levels pools to eight, and no level
      can be attributed. */
  lemma PooledIsNotAttributable()
    ensures var ev := OneEach(|ALLOC_LEVELS|);
            Evidence(ev, 0, 1) == 8 >= MIN_EVIDENCE && !CanAttribute(ev, 0, 1)
  {
    var ev := OneEach(|ALLOC_LEVELS|);
    forall i | 0 <= i < |ALLOC_LEVELS| ensures LevelTotal(ev, ALLOC_LEVELS[i], 0, 1) == 1 {
      OneEachTotals(|ALLOC_LEVELS|, i);
    }
    PooledOnes(ev, ALLOC_LEVELS, 0, 1);
  }

  // ----- instants and bins

  // The distinct event instants of the whole session, ascending.
  function Instants(ev: seq<Event>): (r: seq<int>)
    ensures StrictlyAscending(r)
    ensures forall x :: x in r <==> exists i :: 0 <= i < |ev| && ev[i].ts == x
  {
    if ev == [] then []
    else
      var r := Instants(ev[1..]);
      assert forall i | 1 <= i < |ev| :: ev[i] == ev[1..][i - 1];
      InsertDistinct(ev[0].ts, r)
  }

  // store.turn_times(session, start, end): those of [start, end).
  function TurnTimes(ev: seq<Event>, start: int, end: int): (r: seq<int>)
    ensures forall x :: x in r <==> start <= x < end && exists i :: 0 <= i < |ev| && ev[i].ts == x
  {
    Between(Instants(ev), start, end)
  }

  lemma TurnTimesAscend(ev: seq<Event>, start: int, end: int)
    ensures StrictlyAscending(TurnTimes(ev, start, end))
  {
    FilterStrict(Instants(ev), x => start <= x < end);
  }

  function BinOf(ts: int): int { ts / BIN_SECONDS * BIN_SECONDS }

  // active_bins: the starts of the non-empty five-minute bins, ascending.
  function ActiveBins(ev: seq<Event>): (r: seq<int>)
    ensures StrictlyAscending(r)
    ensures forall x :: x in r <==> exists i :: 0 <= i < |ev| && BinOf(ev[i].ts) == x
    ensures forall x | x in r :: x % BIN_SECONDS == 0
  {
    if ev == [] then []
    else
      var r := ActiveBins(ev[1..]);
      assert forall i | 1 <= i < |ev| :: ev[i] == ev[1..][i - 1];
      InsertDistinct(BinOf(ev[0].ts), r)
  }
}
