/** can_attribute against the rollup it reads: the eight allocation levels by name, the ranked items of
    one level, and what each reason of the branching says about the events. */
module Allocation {
  import opened Store

  // The levels that are allocated: every level but the multi-valued inventory.
  predicate IsAllocation(level: Level) {
    || level == Repo || level == Workspace || level == Branch || level == Model
    || level == Artifact || level == Lang || level == Skill || level == Toolchain
  }

  lemma AllocLevelsAreAll(level: Level)
    ensures level in ALLOC_LEVELS <==> IsAllocation(level)
    ensures IsAllocation(level) <==> !level.Inventory?
  {
    assert ALLOC_LEVELS[0] == Repo && ALLOC_LEVELS[1] == Workspace && ALLOC_LEVELS[2] == Branch
        && ALLOC_LEVELS[3] == Model && ALLOC_LEVELS[4] == Artifact && ALLOC_LEVELS[5] == Lang
        && ALLOC_LEVELS[6] == Skill && ALLOC_LEVELS[7] == Toolchain;
  }

  // ----- a rollup exists

  // Each ref once, in descending order of its count.
  ghost predicate Ranked(items: seq<(string, nat)>) {
    forall i, j | 0 <= i < j < |items| :: items[i].0 != items[j].0 && items[i].1 >= items[j].1
  }

  lemma {:induction false} InsertRanked(items: seq<(string, nat)>, x: (string, nat)) returns (r: seq<(string, nat)>)
    requires Ranked(items) && forall y | y in items :: y.0 != x.0
    ensures Ranked(r) && forall y :: y in r <==> y == x || y in items
  {
    if items == [] || x.1 >= items[0].1 {
      r := [x] + items;
      RankedCons(x, items);
    } else {
      var rest := InsertRanked(items[1..], x);
      r := [items[0]] + rest;
      assert items == [items[0]] + items[1..];
      forall y | y in rest ensures y.0 != items[0].0 && y.1 <= items[0].1 {
        if y != x {
          var i :| 0 <= i < |items[1..]| && items[1..][i] == y;
          assert items[i + 1] == y;
        }
      }
      RankedBelow(items[0], rest);
    }
  }

  lemma RankedCons(x: (string, nat), items: seq<(string, nat)>)
    requires Ranked(items) && (forall y | y in items :: y.0 != x.0) && (items != [] ==> x.1 >= items[0].1)
    ensures Ranked([x] + items)
  {
    forall y | y in items ensures y.1 <= x.1 {
      var i :| 0 <= i < |items| && items[i] == y;
      assert i > 0 ==> items[0].1 >= items[i].1;
    }
    RankedBelow(x, items);
  }

  lemma RankedBelow(x: (string, nat), items: seq<(string, nat)>)
    requires Ranked(items) && forall y | y in items :: y.0 != x.0 && y.1 <= x.1
    ensures Ranked([x] + items)
  {
    var r := [x] + items;
    forall i, j | 0 <= i < j < |r| ensures r[i].0 != r[j].0 && r[i].1 >= r[j].1 {
      assert r[j] == items[j - 1];
      if i == 0 { assert items[j - 1] in items; }
    }
  }

  // The rollup of the events from k on, with the totals of all of them.
  lemma {:induction false} RollupFrom(ev: seq<Event>, level: Level, start: int, end: int, k: nat)
    returns (items: seq<(string, nat)>)
    requires k <= |ev|
    ensures Ranked(items)
    ensures forall y | y in items :: y.1 == RefTotal(ev, level, y.0, start, end)
    ensures forall y | y in items :: exists j :: k <= j < |ev| && In(ev[j], level, start, end) && ev[j].ref == y.0
    ensures forall j | k <= j < |ev| && In(ev[j], level, start, end) :: Listed(items, ev[j].ref)
    decreases |ev| - k
  {
    if k == |ev| {
      items := [];
    } else {
      var rest := RollupFrom(ev, level, start, end, k + 1);
      if In(ev[k], level, start, end) && !Listed(rest, ev[k].ref) {
        items := InsertRanked(rest, (ev[k].ref, RefTotal(ev, level, ev[k].ref, start, end)));
        ListedMore(rest, items);
        ListedIn(items, ev[k].ref, RefTotal(ev, level, ev[k].ref, start, end));
      } else {
        items := rest;
      }
    }
  }

  lemma ListedMore(a: seq<(string, nat)>, b: seq<(string, nat)>)
    requires forall y | y in a :: y in b
    ensures forall ref | Listed(a, ref) :: Listed(b, ref)
  {
    forall ref | Listed(a, ref) ensures Listed(b, ref) {
      var i :| 0 <= i < |a| && a[i].0 == ref;
      assert a[i] in b;
    }
  }

  lemma ListedIn(items: seq<(string, nat)>, ref: string, n: nat)
    requires (ref, n) in items
    ensures Listed(items, ref)
  {
  }

  lemma SomeRollup(ev: seq<Event>, level: Level, start: int, end: int) returns (items: seq<(string, nat)>)
    ensures IsRollup(items, ev, level, start, end)
  {
    items := RollupFrom(ev, level, start, end, 0);
    forall i | 0 <= i < |items| ensures items[i].1 == RefTotal(ev, level, items[i].0, start, end) {
      assert items[i] in items;
    }
    forall ref ensures Listed(items, ref) <==> Seen(ev, level, ref, start, end) {
      if Listed(items, ref) {
        var i :| 0 <= i < |items| && items[i].0 == ref;
        assert items[i] in items;
      }
    }
  }

  // ----- can_attribute

  // One of the eight levels reads attributed off its rollup of the span.
  ghost predicate ReadsAttributed(ev: seq<Event>, level: Level, items: seq<(string, nat)>, start: int, end: int) {
    IsAllocation(level) && IsRollup(items, ev, level, start, end) && Attribution(items) == Attributed
  }

  /** can_attribute is exactly: the branching over the rollup of some allocation level says attributed. */
  lemma CanAttributeIffReads(ev: seq<Event>, start: int, end: int)
    ensures CanAttribute(ev, start, end) <==> exists level, items :: ReadsAttributed(ev, level, items, start, end)
  {
    if CanAttribute(ev, start, end) {
      var k :| 0 <= k < |ALLOC_LEVELS| && Owned(ev, ALLOC_LEVELS[k], start, end);
      var items := SomeRollup(ev, ALLOC_LEVELS[k], start, end);
      AttributedIffOwned(items, ev, ALLOC_LEVELS[k], start, end);
      AllocLevelsAreAll(ALLOC_LEVELS[k]);
      assert ReadsAttributed(ev, ALLOC_LEVELS[k], items, start, end);
    }
    if level, items :| ReadsAttributed(ev, level, items, start, end) {
      AttributedIffOwned(items, ev, level, start, end);
      AllocLevelsAreAll(level);
      var k :| 0 <= k < |ALLOC_LEVELS| && ALLOC_LEVELS[k] == level;
    }
  }

  /** Whatever rollup a level has: if it is one of the eight and reads attributed the span can attribute,
      and a span that can has a level whose every rollup does. */
  lemma AnyAttributedLevelIsEnough(ev: seq<Event>, level: Level, items: seq<(string, nat)>, start: int, end: int)
    ensures ReadsAttributed(ev, level, items, start, end) ==> CanAttribute(ev, start, end)
    ensures CanAttribute(ev, start, end) ==>
              exists l :: IsAllocation(l)
                          && forall it | IsRollup(it, ev, l, start, end) :: Attribution(it) == Attributed
  {
    CanAttributeIffReads(ev, start, end);
    if CanAttribute(ev, start, end) {
      var l, its :| ReadsAttributed(ev, l, its, start, end);
      AttributedIffOwned(its, ev, l, start, end);
      forall it | IsRollup(it, ev, l, start, end) ensures Attribution(it) == Attributed {
        AttributedIffOwned(it, ev, l, start, end);
      }
    }
  }

  /** block_evidence counts an event once when its level is allocated and its instant in the span, and
      not at all otherwise. */
  lemma EvidenceOfOne(e: Event, start: int, end: int)
    ensures Evidence([e], start, end)
            == if IsAllocation(e.level) && start <= e.ts < end then e.n else 0
  {
    AllocLevelsAreAll(e.level);
    PooledOfOne(e, ALLOC_LEVELS, start, end);
  }

  // ----- the reasons

  // Two refs seen there share the highest count.
  ghost predicate SharedTop(ev: seq<Event>, level: Level, start: int, end: int) {
    exists i, j | 0 <= i < |ev| && 0 <= j < |ev| ::
      && ev[i].ref != ev[j].ref && TopRef(ev, level, ev[i].ref, start, end) && TopRef(ev, level, ev[j].ref, start, end)
  }

  // A ref seen there that no other one outnumbers.
  ghost predicate TopRef(ev: seq<Event>, level: Level, ref: string, start: int, end: int) {
    && Seen(ev, level, ref, start, end)
    && forall other | Seen(ev, level, other, start, end) ::
         RefTotal(ev, level, other, start, end) <= RefTotal(ev, level, ref, start, end)
  }

  lemma RollupTotal(items: seq<(string, nat)>, ev: seq<Event>, level: Level, start: int, end: int)
    requires IsRollup(items, ev, level, start, end)
    ensures SumItems(items) == LevelTotal(ev, level, start, end)
  {
    SumItemsIsSumRefs(ev, level, items, start, end);
    forall j | 0 <= j < |ev| && In(ev[j], level, start, end) ensures Listed(items, ev[j].ref) {
      assert Seen(ev, level, ev[j].ref, start, end);
    }
    SumRefsIsLevelTotal(ev, level, items, start, end);
  }

  // The listed refs of the highest count are the top refs.
  lemma TopRefIff(items: seq<(string, nat)>, k: nat, ev: seq<Event>, level: Level, start: int, end: int)
    requires IsRollup(items, ev, level, start, end) && k < |items|
    ensures TopRef(ev, level, items[k].0, start, end) <==> items[k].1 == items[0].1
  {
    assert Listed(items, items[k].0) && Listed(items, items[0].0);
    assert Seen(ev, level, items[k].0, start, end) && Seen(ev, level, items[0].0, start, end);
    assert k > 0 ==> items[0].1 >= items[k].1;
    forall other | Seen(ev, level, other, start, end) ensures RefTotal(ev, level, other, start, end) <= items[0].1 {
      assert Listed(items, other);
      var m :| 0 <= m < |items| && items[m].0 == other;
      assert m > 0 ==> items[0].1 >= items[m].1;
    }
  }

  lemma SharedIfEqual(items: seq<(string, nat)>, ev: seq<Event>, level: Level, start: int, end: int)
    requires IsRollup(items, ev, level, start, end) && |items| > 1 && items[1].1 == items[0].1
    ensures SharedTop(ev, level, start, end)
  {
    TopRefIff(items, 0, ev, level, start, end);
    TopRefIff(items, 1, ev, level, start, end);
    var x, y := items[0].0, items[1].0;
    var i :| 0 <= i < |ev| && In(ev[i], level, start, end) && ev[i].ref == x;
    var j :| 0 <= j < |ev| && In(ev[j], level, start, end) && ev[j].ref == y;
    assert ev[i].ref != ev[j].ref;
  }

  lemma EqualIfShared(items: seq<(string, nat)>, x: string, y: string, ev: seq<Event>, level: Level, start: int,
                      end: int)
    requires IsRollup(items, ev, level, start, end) && x != y
    requires TopRef(ev, level, x, start, end) && TopRef(ev, level, y, start, end)
    ensures |items| > 1 && items[1].1 == items[0].1
  {
    assert Listed(items, x) && Listed(items, y);
    var a :| 0 <= a < |items| && items[a].0 == x;
    var b :| 0 <= b < |items| && items[b].0 == y;
    TopRefIff(items, a, ev, level, start, end);
    TopRefIff(items, b, ev, level, start, end);
    SecondIsBetween(items, if a < b then b else a);
  }

  lemma SecondIsBetween(items: seq<(string, nat)>, m: nat)
    requires 0 < m < |items| && Ranked(items)
    ensures items[0].1 >= items[1].1 >= items[m].1
  {
    assert m > 1 ==> items[1].1 >= items[m].1;
  }

  lemma SharedTopIff(items: seq<(string, nat)>, ev: seq<Event>, level: Level, start: int, end: int)
    requires IsRollup(items, ev, level, start, end)
    ensures SharedTop(ev, level, start, end) <==> |items| > 1 && items[1].1 == items[0].1
  {
    if |items| > 1 && items[1].1 == items[0].1 { SharedIfEqual(items, ev, level, start, end); }
    if SharedTop(ev, level, start, end) {
      var i, j :| 0 <= i < |ev| && 0 <= j < |ev| && ev[i].ref != ev[j].ref
                  && TopRef(ev, level, ev[i].ref, start, end) && TopRef(ev, level, ev[j].ref, start, end);
      EqualIfShared(items, ev[i].ref, ev[j].ref, ev, level, start, end);
    }
  }

  /** What each reason says, about the events alone: nothing seen; seen, but fewer than five; enough,
      but two refs share the top; enough and one top, holding less than half. */
  lemma ReasonsAreExact(items: seq<(string, nat)>, ev: seq<Event>, level: Level, start: int, end: int)
    requires IsRollup(items, ev, level, start, end)
    ensures var r, total := Attribution(items), LevelTotal(ev, level, start, end);
            var seen := exists ref :: Seen(ev, level, ref, start, end);
            && (r == Absent <==> !seen)
            && (r == Thin <==> seen && total < 5)
            && (r == Tie <==> seen && total >= 5 && SharedTop(ev, level, start, end))
            && (r == NoMajority || r == Attributed <==> seen && total >= 5 && !SharedTop(ev, level, start, end))
            && (r == NoMajority ==> forall ref :: 2 * RefTotal(ev, level, ref, start, end) < total)
            && (r == Attributed ==> exists ref :: 2 * RefTotal(ev, level, ref, start, end) >= total)
  {
    RollupTotal(items, ev, level, start, end);
    SharedTopIff(items, ev, level, start, end);
    if items != [] { assert Listed(items, items[0].0); }
    if ref :| Seen(ev, level, ref, start, end) { assert Listed(items, ref); }
    if Attribution(items) == NoMajority {
      forall ref ensures RefTotal(ev, level, ref, start, end) <= items[0].1 {
        AtMostTop(items, ref, ev, level, start, end);
      }
    }
  }

  lemma AtMostTop(items: seq<(string, nat)>, ref: string, ev: seq<Event>, level: Level, start: int, end: int)
    requires IsRollup(items, ev, level, start, end) && items != []
    ensures RefTotal(ev, level, ref, start, end) <= items[0].1
  {
    if RefTotal(ev, level, ref, start, end) > 0 {
      SeenIfCounted(ev, level, ref, start, end);
      assert Listed(items, ref);
      var m :| 0 <= m < |items| && items[m].0 == ref;
      assert m > 0 ==> items[0].1 >= items[m].1;
    }
  }
}
