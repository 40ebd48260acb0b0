/** Does a block keep its published value when merge_thin folds the thin runs around it into it? */
module NeighbourValue {
  import opened Store
  import opened Blocks
  import opened MergeThin
  import MergeProperties

  // A level's value in a span: enough evidence, and a ref that owns it.
  ghost predicate Publishes(ev: seq<Event>, level: Level, ref: string, start: int, end: int) {
    LevelTotal(ev, level, start, end) >= MIN_EVIDENCE && Owner(ev, level, ref, start, end)
  }

  // The most that n thin blocks can hold.
  function Most(n: nat): nat { n * (MIN_EVIDENCE - 1) }

  // The block's value leads by more than n thin blocks can bring.
  ghost predicate Margin(ev: seq<Event>, level: Level, ref: string, start: int, end: int, n: nat) {
    && 2 * RefTotal(ev, level, ref, start, end) >= LevelTotal(ev, level, start, end) + Most(n)
    && forall other: string | other != ref ::
         RefTotal(ev, level, other, start, end) + Most(n) < RefTotal(ev, level, ref, start, end)
  }

  predicate SameTotals(a: seq<Event>, b: seq<Event>, level: Level, ref: string, start: int, end: int) {
    && LevelTotal(a, level, start, end) == LevelTotal(b, level, start, end)
    && RefTotal(a, level, ref, start, end) == RefTotal(b, level, ref, start, end)
  }

  // The same rollup of one span.
  ghost predicate SameRollup(a: seq<Event>, b: seq<Event>, start: int, end: int) {
    forall level: Level, ref: string :: SameTotals(a, b, level, ref, start, end)
  }

  // Whatever air lies between neighbouring blocks is dead.
  ghost predicate DeadAir(ev: seq<Event>, bs: seq<Block>) {
    forall i, j | 0 <= i < |bs| && j == i + 1 && j < |bs| :: Evidence(ev, bs[i].end, bs[j].start) == 0
  }

  // Another store in which block q reads the same and the same blocks are thin.
  ghost predicate Alike(ev: seq<Event>, ev0: seq<Event>, bs: seq<Block>, q: nat)
    requires q < |bs|
  {
    && SameRollup(ev, ev0, bs[q].start, bs[q].end) && DeadAir(ev, bs)
    && ThinFlags(ev, bs, MIN_EVIDENCE) == ThinFlags(ev0, bs, MIN_EVIDENCE)
  }

  // Blocks f..t, of which all but q are thin.
  ghost predicate ThinAround(ev: seq<Event>, bs: seq<Block>, f: nat, q: nat, t: nat) {
    && Ordered(bs) && DeadAir(ev, bs) && f <= q <= t < |bs|
    && forall i | f <= i <= t && i != q :: IsThin(ev, bs[i], MIN_EVIDENCE)
  }

  // ----- what the runs bring

  lemma {:induction false} RefTotalSplits(ev: seq<Event>, level: Level, ref: string, a: int, b: int, c: int)
    requires a <= b <= c
    ensures RefTotal(ev, level, ref, a, c) == RefTotal(ev, level, ref, a, b) + RefTotal(ev, level, ref, b, c)
  {
    if ev != [] { RefTotalSplits(ev[1..], level, ref, a, b, c); }
  }

  lemma {:induction false} RefWithinLevel(ev: seq<Event>, level: Level, ref: string, start: int, end: int)
    ensures RefTotal(ev, level, ref, start, end) <= LevelTotal(ev, level, start, end)
  {
    if ev != [] { RefWithinLevel(ev[1..], level, ref, start, end); }
  }

  // One block and the air beside it, at one allocation level.
  lemma AtMost(ev: seq<Event>, k: nat, start: int, end: int, most: nat)
    requires k < |ALLOC_LEVELS| && Evidence(ev, start, end) <= most
    ensures LevelTotal(ev, ALLOC_LEVELS[k], start, end) <= most
  {
    PooledCoversLevel(ev, ALLOC_LEVELS, k, start, end);
  }

  lemma {:induction false} RunBefore(ev: seq<Event>, bs: seq<Block>, i: nat, q: nat, t: nat, k: nat)
    requires k < |ALLOC_LEVELS| && i <= q && ThinAround(ev, bs, i, q, t)
    ensures bs[i].start <= bs[q].start
    ensures LevelTotal(ev, ALLOC_LEVELS[k], bs[i].start, bs[q].start) <= Most(q - i)
    decreases q - i
  {
    var level := ALLOC_LEVELS[k];
    if i < q {
      var air, next := bs[i].end, bs[i + 1].start;
      assert bs[i].start < air <= next;
      RunBefore(ev, bs, i + 1, q, t, k);
      LevelTotalSplits(ev, level, bs[i].start, air, bs[q].start);
      LevelTotalSplits(ev, level, air, next, bs[q].start);
      AtMost(ev, k, bs[i].start, air, MIN_EVIDENCE - 1);
      AtMost(ev, k, air, next, 0);
    } else {
      LevelTotalSplits(ev, level, bs[i].start, bs[i].start, bs[i].start);
    }
  }

  lemma {:induction false} RunAfter(ev: seq<Event>, bs: seq<Block>, f: nat, q: nat, j: nat, k: nat)
    requires k < |ALLOC_LEVELS| && ThinAround(ev, bs, f, q, j)
    ensures bs[q].end <= bs[j].end
    ensures LevelTotal(ev, ALLOC_LEVELS[k], bs[q].end, bs[j].end) <= Most(j - q)
    decreases j - q
  {
    var level := ALLOC_LEVELS[k];
    if q < j {
      var air, next := bs[j - 1].end, bs[j].start;
      assert air <= next < bs[j].end;
      RunAfter(ev, bs, f, q, j - 1, k);
      LevelTotalSplits(ev, level, bs[q].end, next, bs[j].end);
      LevelTotalSplits(ev, level, bs[q].end, air, next);
      AtMost(ev, k, next, bs[j].end, MIN_EVIDENCE - 1);
      AtMost(ev, k, air, next, 0);
    } else {
      LevelTotalSplits(ev, level, bs[q].end, bs[q].end, bs[q].end);
    }
  }

  // The merged span's totals against the block's own.
  lemma MergedTotals(ev: seq<Event>, bs: seq<Block>, f: nat, q: nat, t: nat, k: nat, ref: string)
    requires k < |ALLOC_LEVELS| && ThinAround(ev, bs, f, q, t)
    ensures var level, a, b, c, d := ALLOC_LEVELS[k], bs[f].start, bs[q].start, bs[q].end, bs[t].end;
            && LevelTotal(ev, level, b, c) <= LevelTotal(ev, level, a, d) <= LevelTotal(ev, level, b, c) + Most(t - f)
            && RefTotal(ev, level, ref, b, c) <= RefTotal(ev, level, ref, a, d)
            && RefTotal(ev, level, ref, a, d) <= RefTotal(ev, level, ref, b, c) + Most(t - f)
  {
    var level, a, b, c, d := ALLOC_LEVELS[k], bs[f].start, bs[q].start, bs[q].end, bs[t].end;
    RunBefore(ev, bs, f, q, t, k);
    RunAfter(ev, bs, f, q, t, k);
    LevelTotalSplits(ev, level, a, b, d);
    LevelTotalSplits(ev, level, b, c, d);
    RefTotalSplits(ev, level, ref, a, b, d);
    RefTotalSplits(ev, level, ref, b, c, d);
    RefWithinLevel(ev, level, ref, a, b);
    RefWithinLevel(ev, level, ref, c, d);
  }

  lemma MarginSurvives(ev: seq<Event>, bs: seq<Block>, f: nat, q: nat, t: nat, k: nat, ref: string)
    requires k < |ALLOC_LEVELS| && ThinAround(ev, bs, f, q, t)
    requires var level, b, c := ALLOC_LEVELS[k], bs[q].start, bs[q].end;
             LevelTotal(ev, level, b, c) >= MIN_EVIDENCE && Margin(ev, level, ref, b, c, t - f)
    ensures Publishes(ev, ALLOC_LEVELS[k], ref, bs[f].start, bs[t].end)
  {
    var level, a, d := ALLOC_LEVELS[k], bs[f].start, bs[t].end;
    MergedTotals(ev, bs, f, q, t, k, ref);
    forall j | 0 <= j < |ev| && In(ev[j], level, a, d) && ev[j].ref != ref
      ensures RefTotal(ev, level, ev[j].ref, a, d) < RefTotal(ev, level, ref, a, d)
    {
      MergedTotals(ev, bs, f, q, t, k, ev[j].ref);
    }
  }

  // ----- the store in which one other ref fills every thin block

  lemma {:induction false} TotalsConcat(x: seq<Event>, y: seq<Event>, level: Level, ref: string, start: int, end: int)
    ensures LevelTotal(x + y, level, start, end) == LevelTotal(x, level, start, end) + LevelTotal(y, level, start, end)
    ensures RefTotal(x + y, level, ref, start, end)
            == RefTotal(x, level, ref, start, end) + RefTotal(y, level, ref, start, end)
  {
    if x == [] {
      assert x + y == y;
    } else {
      assert (x + y)[1..] == x[1..] + y;
      TotalsConcat(x[1..], y, level, ref, start, end);
    }
  }

  lemma {:induction false} PooledConcat(x: seq<Event>, y: seq<Event>, levels: seq<Level>, start: int, end: int)
    ensures Pooled(x + y, levels, start, end) == Pooled(x, levels, start, end) + Pooled(y, levels, start, end)
  {
    if levels != [] {
      TotalsConcat(x, y, levels[0], "", start, end);
      PooledConcat(x, y, levels[1..], start, end);
    }
  }

  // The merged span [a, d) without what lies outside the block [b, c).
  predicate Kept(x: int, a: int, b: int, c: int, d: int) { x < a || b <= x < c || d <= x }

  function Keep(ev: seq<Event>, a: int, b: int, c: int, d: int): seq<Event> {
    if ev == [] then []
    else if Kept(ev[0].ts, a, b, c, d) then [ev[0]] + Keep(ev[1..], a, b, c, d)
    else Keep(ev[1..], a, b, c, d)
  }

  lemma {:induction false} KeepAll(ev: seq<Event>, a: int, b: int, c: int, d: int, level: Level, ref: string, s: int,
                                   e: int)
    requires forall x | s <= x < e :: Kept(x, a, b, c, d)
    ensures LevelTotal(Keep(ev, a, b, c, d), level, s, e) == LevelTotal(ev, level, s, e)
    ensures RefTotal(Keep(ev, a, b, c, d), level, ref, s, e) == RefTotal(ev, level, ref, s, e)
  {
    if ev != [] {
      KeepAll(ev[1..], a, b, c, d, level, ref, s, e);
      if Kept(ev[0].ts, a, b, c, d) {
        TotalsConcat([ev[0]], Keep(ev[1..], a, b, c, d), level, ref, s, e);
        SingleTotals(ev[0], level, ref, s, e);
      }
    }
  }

  lemma {:induction false} KeepAllPooled(ev: seq<Event>, a: int, b: int, c: int, d: int, levels: seq<Level>, s: int,
                                         e: int)
    requires forall x | s <= x < e :: Kept(x, a, b, c, d)
    ensures Pooled(Keep(ev, a, b, c, d), levels, s, e) == Pooled(ev, levels, s, e)
  {
    if levels != [] {
      KeepAll(ev, a, b, c, d, levels[0], "", s, e);
      KeepAllPooled(ev, a, b, c, d, levels[1..], s, e);
    }
  }

  lemma {:induction false} KeepTimes(ev: seq<Event>, a: int, b: int, c: int, d: int)
    ensures forall i | 0 <= i < |Keep(ev, a, b, c, d)| :: Kept(Keep(ev, a, b, c, d)[i].ts, a, b, c, d)
  {
    if ev != [] { KeepTimes(ev[1..], a, b, c, d); }
  }

  // Four observations of `other` in each of the blocks f..i but q.
  function Rivals(bs: seq<Block>, f: nat, q: nat, i: nat, level: Level, other: string): seq<Event>
    requires i <= |bs|
  {
    if i <= f then []
    else Rivals(bs, f, q, i - 1, level, other)
         + if i - 1 == q then [] else [Event(bs[i - 1].start, level, other, MIN_EVIDENCE - 1)]
  }

  lemma {:induction false} RivalTimes(bs: seq<Block>, f: nat, q: nat, i: nat, level: Level, other: string)
    requires i <= |bs|
    ensures forall r | r in Rivals(bs, f, q, i, level, other) ::
              r.level == level && r.ref == other && exists m :: f <= m < i && m != q && r.ts == bs[m].start
  {
    if i > f { RivalTimes(bs, f, q, i - 1, level, other); }
  }

  lemma {:induction false} RivalsInBlock(bs: seq<Block>, f: nat, q: nat, i: nat, k: nat, other: string, j: nat)
    requires i <= |bs| && j < |bs| && Ordered(bs) && k < |ALLOC_LEVELS|
    ensures Evidence(Rivals(bs, f, q, i, ALLOC_LEVELS[k], other), bs[j].start, bs[j].end)
            <= if j < i then MIN_EVIDENCE - 1 else 0
  {
    var level := ALLOC_LEVELS[k];
    if i > f {
      RivalsInBlock(bs, f, q, i - 1, k, other, j);
      if i - 1 != q {
        var rival := Event(bs[i - 1].start, level, other, MIN_EVIDENCE - 1);
        PooledConcat(Rivals(bs, f, q, i - 1, level, other), [rival], ALLOC_LEVELS, bs[j].start, bs[j].end);
        PooledOfOne(rival, ALLOC_LEVELS, bs[j].start, bs[j].end);
        if j != i - 1 { NoEvidence([rival], bs[j].start, bs[j].end); }
      } else {
        assert Rivals(bs, f, q, i, level, other) == Rivals(bs, f, q, i - 1, level, other);
      }
    } else {
      NoEvidence([], bs[j].start, bs[j].end);
    }
  }

  // Blocks f..i that are not q.
  function Others(f: nat, q: nat, i: nat): nat {
    if i <= f then 0 else Others(f, q, i - 1) + if i - 1 == q then 0 else 1
  }

  lemma {:induction false} OthersIs(f: nat, q: nat, i: nat)
    requires f <= i
    ensures Others(f, q, i) == i - f - if f <= q < i then 1 else 0
  {
    if i > f { OthersIs(f, q, i - 1); }
  }

  lemma {:induction false} RivalTotals(bs: seq<Block>, f: nat, q: nat, i: nat, level: Level, other: string, ref: string,
                                       a: int, d: int)
    requires i <= |bs| && other != ref && forall m | f <= m < i :: a <= bs[m].start < d
    ensures var rs := Rivals(bs, f, q, i, level, other);
            && LevelTotal(rs, level, a, d) == RefTotal(rs, level, other, a, d) == Most(Others(f, q, i))
            && RefTotal(rs, level, ref, a, d) == 0
            && (Others(f, q, i) > 0 ==> exists r :: r in rs && In(r, level, a, d) && r.ref == other)
  {
    if i > f {
      RivalTotals(bs, f, q, i - 1, level, other, ref, a, d);
      var before := Rivals(bs, f, q, i - 1, level, other);
      if i - 1 != q {
        var rival := Event(bs[i - 1].start, level, other, MIN_EVIDENCE - 1);
        TotalsConcat(before, [rival], level, other, a, d);
        TotalsConcat(before, [rival], level, ref, a, d);
        SingleTotals(rival, level, other, a, d);
        SingleTotals(rival, level, ref, a, d);
        assert rival in Rivals(bs, f, q, i, level, other);
      } else {
        assert Rivals(bs, f, q, i, level, other) == before;
      }
    }
  }

  // The store: what block q and the outside hold, and the rivals.
  function Contested(ev: seq<Event>, bs: seq<Block>, f: nat, q: nat, t: nat, level: Level, other: string): seq<Event>
    requires f <= q <= t < |bs|
  {
    Keep(ev, bs[f].start, bs[q].start, bs[q].end, bs[t].end) + Rivals(bs, f, q, t + 1, level, other)
  }

  lemma RivalsElsewhere(bs: seq<Block>, f: nat, q: nat, t: nat, level: Level, other: string, s: int, e: int)
    requires t < |bs| && forall m | f <= m <= t && m != q :: !(s <= bs[m].start < e)
    ensures NoEvents(Rivals(bs, f, q, t + 1, level, other), s, e)
  {
    var rs := Rivals(bs, f, q, t + 1, level, other);
    RivalTimes(bs, f, q, t + 1, level, other);
    forall i | 0 <= i < |rs| ensures !(s <= rs[i].ts < e) {
      assert rs[i] in rs;
    }
  }

  lemma {:induction false} NoRefEvidence(ev: seq<Event>, level: Level, ref: string, a: int, b: int)
    requires NoEvents(ev, a, b)
    ensures RefTotal(ev, level, ref, a, b) == 0
  {
    if ev != [] { NoRefEvidence(ev[1..], level, ref, a, b); }
  }

  // A span that keeps its events and takes no rival.
  lemma Undisturbed(ev: seq<Event>, bs: seq<Block>, f: nat, q: nat, t: nat, level: Level, other: string, s: int, e: int)
    requires f <= q <= t < |bs|
    requires forall x | s <= x < e :: Kept(x, bs[f].start, bs[q].start, bs[q].end, bs[t].end)
    requires forall m | f <= m <= t && m != q :: !(s <= bs[m].start < e)
    ensures SameRollup(Contested(ev, bs, f, q, t, level, other), ev, s, e)
    ensures Evidence(Contested(ev, bs, f, q, t, level, other), s, e) == Evidence(ev, s, e)
  {
    var a, b, c, d := bs[f].start, bs[q].start, bs[q].end, bs[t].end;
    var base, rs := Keep(ev, a, b, c, d), Rivals(bs, f, q, t + 1, level, other);
    RivalsElsewhere(bs, f, q, t, level, other, s, e);
    forall l: Level, r: string ensures SameTotals(base + rs, ev, l, r, s, e) {
      TotalsConcat(base, rs, l, r, s, e);
      KeepAll(ev, a, b, c, d, l, r, s, e);
      NoLevelEvidence(rs, l, s, e);
      NoRefEvidence(rs, l, r, s, e);
    }
    PooledConcat(base, rs, ALLOC_LEVELS, s, e);
    KeepAllPooled(ev, a, b, c, d, ALLOC_LEVELS, s, e);
    NoEvidence(rs, s, e);
  }

  // A span inside the merged one, outside block q, that takes no rival either.
  lemma Emptied(ev: seq<Event>, bs: seq<Block>, f: nat, q: nat, t: nat, level: Level, other: string, s: int, e: int)
    requires f <= q <= t < |bs|
    requires forall x | s <= x < e :: !Kept(x, bs[f].start, bs[q].start, bs[q].end, bs[t].end)
    ensures var ev1 := Contested(ev, bs, f, q, t, level, other);
            Evidence(ev1, s, e) == Evidence(Rivals(bs, f, q, t + 1, level, other), s, e)
  {
    var base := Keep(ev, bs[f].start, bs[q].start, bs[q].end, bs[t].end);
    KeepTimes(ev, bs[f].start, bs[q].start, bs[q].end, bs[t].end);
    PooledConcat(base, Rivals(bs, f, q, t + 1, level, other), ALLOC_LEVELS, s, e);
    NoEvidence(base, s, e);
  }

  lemma OrderedEnds(bs: seq<Block>, i: nat, j: nat)
    requires Ordered(bs) && i <= j < |bs|
    ensures bs[i].start <= bs[j].start && bs[i].end <= bs[j].end && bs[i].start < bs[j].end
    ensures i < j ==> bs[i].end <= bs[j].start && bs[i].start < bs[j].start
  {
  }

  // Which blocks are thin does not change.
  lemma SameThin(ev: seq<Event>, bs: seq<Block>, f: nat, q: nat, t: nat, k: nat, other: string, j: nat)
    requires k < |ALLOC_LEVELS| && ThinAround(ev, bs, f, q, t) && j < |bs|
    ensures var ev1 := Contested(ev, bs, f, q, t, ALLOC_LEVELS[k], other);
            IsThin(ev1, bs[j], MIN_EVIDENCE) == IsThin(ev, bs[j], MIN_EVIDENCE)
  {
    forall m | 0 <= m < |bs| ensures m < j ==> bs[m].start < bs[m].end <= bs[j].start
                             ensures m > j ==> bs[j].end <= bs[m].start < bs[m].end {
      OrderedEnds(bs, if m < j then m else j, if m < j then j else m);
    }
    if f <= j <= t && j != q {
      Emptied(ev, bs, f, q, t, ALLOC_LEVELS[k], other, bs[j].start, bs[j].end);
      RivalsInBlock(bs, f, q, t + 1, k, other, j);
    } else {
      Undisturbed(ev, bs, f, q, t, ALLOC_LEVELS[k], other, bs[j].start, bs[j].end);
    }
  }

  lemma SameDeadAir(ev: seq<Event>, bs: seq<Block>, f: nat, q: nat, t: nat, level: Level, other: string, i: nat)
    requires ThinAround(ev, bs, f, q, t) && i + 1 < |bs|
    ensures Evidence(Contested(ev, bs, f, q, t, level, other), bs[i].end, bs[i + 1].start) == 0
  {
    var s, e := bs[i].end, bs[i + 1].start;
    forall m | 0 <= m < |bs| ensures m <= i ==> bs[m].start < bs[m].end <= s
                             ensures m > i ==> e <= bs[m].start < bs[m].end {
      if m <= i { OrderedEnds(bs, m, i); } else { OrderedEnds(bs, i + 1, m); }
    }
    RivalsElsewhere(bs, f, q, t, level, other, s, e);
    if f <= i < t {
      Emptied(ev, bs, f, q, t, level, other, s, e);
      NoEvidence(Rivals(bs, f, q, t + 1, level, other), s, e);
    } else {
      Undisturbed(ev, bs, f, q, t, level, other, s, e);
      assert Evidence(ev, bs[i].end, bs[i + 1].start) == 0;
    }
  }

  lemma ContestedIsAlike(ev: seq<Event>, bs: seq<Block>, f: nat, q: nat, t: nat, k: nat, other: string)
    requires k < |ALLOC_LEVELS| && ThinAround(ev, bs, f, q, t)
    ensures Alike(Contested(ev, bs, f, q, t, ALLOC_LEVELS[k], other), ev, bs, q)
  {
    SameBlock(ev, bs, f, q, t, ALLOC_LEVELS[k], other);
    SameFlags(ev, bs, f, q, t, k, other);
    StillDead(ev, bs, f, q, t, ALLOC_LEVELS[k], other);
  }

  lemma SameBlock(ev: seq<Event>, bs: seq<Block>, f: nat, q: nat, t: nat, level: Level, other: string)
    requires ThinAround(ev, bs, f, q, t)
    ensures SameRollup(Contested(ev, bs, f, q, t, level, other), ev, bs[q].start, bs[q].end)
  {
    forall m | f <= m <= t && m != q ensures !(bs[q].start <= bs[m].start < bs[q].end) {
      if m < q { OrderedEnds(bs, m, q); } else { OrderedEnds(bs, q, m); }
    }
    Undisturbed(ev, bs, f, q, t, level, other, bs[q].start, bs[q].end);
  }

  lemma SameFlags(ev: seq<Event>, bs: seq<Block>, f: nat, q: nat, t: nat, k: nat, other: string)
    requires k < |ALLOC_LEVELS| && ThinAround(ev, bs, f, q, t)
    ensures ThinFlags(Contested(ev, bs, f, q, t, ALLOC_LEVELS[k], other), bs, MIN_EVIDENCE)
            == ThinFlags(ev, bs, MIN_EVIDENCE)
  {
    forall j | 0 <= j < |bs|
      ensures IsThin(Contested(ev, bs, f, q, t, ALLOC_LEVELS[k], other), bs[j], MIN_EVIDENCE)
              == IsThin(ev, bs[j], MIN_EVIDENCE)
    {
      SameThin(ev, bs, f, q, t, k, other, j);
    }
  }

  lemma StillDead(ev: seq<Event>, bs: seq<Block>, f: nat, q: nat, t: nat, level: Level, other: string)
    requires ThinAround(ev, bs, f, q, t)
    ensures DeadAir(Contested(ev, bs, f, q, t, level, other), bs)
  {
    forall i, j | 0 <= i < |bs| && j == i + 1 && j < |bs|
      ensures Evidence(Contested(ev, bs, f, q, t, level, other), bs[i].end, bs[j].start) == 0
    {
      SameDeadAir(ev, bs, f, q, t, level, other, i);
    }
  }

  // The merged totals of the contested store: the block's own, and four for every other block.
  lemma ContestedTotals(ev: seq<Event>, bs: seq<Block>, f: nat, q: nat, t: nat, level: Level, other: string,
                        ref: string)
    requires ThinAround(ev, bs, f, q, t) && other != ref
    ensures var ev1, a, d := Contested(ev, bs, f, q, t, level, other), bs[f].start, bs[t].end;
            var b, c := bs[q].start, bs[q].end;
            && LevelTotal(ev1, level, a, d) == LevelTotal(ev, level, b, c) + Most(t - f)
            && RefTotal(ev1, level, other, a, d) == RefTotal(ev, level, other, b, c) + Most(t - f)
            && RefTotal(ev1, level, ref, a, d) == RefTotal(ev, level, ref, b, c)
  {
    var a, b, c, d := bs[f].start, bs[q].start, bs[q].end, bs[t].end;
    var base, rs := Keep(ev, a, b, c, d), Rivals(bs, f, q, t + 1, level, other);
    StartsInside(bs, f, q, t);
    TotalsConcat(base, rs, level, other, a, d);
    TotalsConcat(base, rs, level, ref, a, d);
    OthersIs(f, q, t + 1);
    RivalTotals(bs, f, q, t + 1, level, other, ref, a, d);
    OwnTotals(ev, a, b, c, d, level, other);
    OwnTotals(ev, a, b, c, d, level, ref);
  }

  lemma StartsInside(bs: seq<Block>, f: nat, q: nat, t: nat)
    requires Ordered(bs) && f <= q <= t < |bs|
    ensures bs[f].start <= bs[q].start <= bs[q].end <= bs[t].end
    ensures forall m | f <= m < t + 1 :: bs[f].start <= bs[m].start < bs[t].end
  {
    OrderedEnds(bs, f, q);
    OrderedEnds(bs, q, t);
    forall m | f <= m < t + 1 ensures bs[f].start <= bs[m].start < bs[t].end {
      OrderedEnds(bs, f, m);
      OrderedEnds(bs, m, t);
    }
  }

  // And one of those observations is in the merged span.
  lemma ContestedHasRival(ev: seq<Event>, bs: seq<Block>, f: nat, q: nat, t: nat, level: Level, other: string)
    requires ThinAround(ev, bs, f, q, t) && f < t
    ensures var ev1 := Contested(ev, bs, f, q, t, level, other);
            exists j :: 0 <= j < |ev1| && In(ev1[j], level, bs[f].start, bs[t].end) && ev1[j].ref == other
  {
    var ev1, rs := Contested(ev, bs, f, q, t, level, other), Rivals(bs, f, q, t + 1, level, other);
    assert |other + "x"| != |other|;
    StartsInside(bs, f, q, t);
    OthersIs(f, q, t + 1);
    RivalTotals(bs, f, q, t + 1, level, other, other + "x", bs[f].start, bs[t].end);
    var r :| r in rs && In(r, level, bs[f].start, bs[t].end) && r.ref == other;
    assert r in ev1;
    var j :| 0 <= j < |ev1| && ev1[j] == r;
  }

  lemma OwnTotals(ev: seq<Event>, a: int, b: int, c: int, d: int, level: Level, ref: string)
    requires a <= b <= c <= d
    ensures LevelTotal(Keep(ev, a, b, c, d), level, a, d) == LevelTotal(ev, level, b, c)
    ensures RefTotal(Keep(ev, a, b, c, d), level, ref, a, d) == RefTotal(ev, level, ref, b, c)
  {
    var base := Keep(ev, a, b, c, d);
    KeepTimes(ev, a, b, c, d);
    LevelTotalSplits(base, level, a, b, d);
    LevelTotalSplits(base, level, b, c, d);
    RefTotalSplits(base, level, ref, a, b, d);
    RefTotalSplits(base, level, ref, b, c, d);
    NoLevelEvidence(base, level, a, b);
    NoLevelEvidence(base, level, c, d);
    NoRefEvidence(base, level, ref, a, b);
    NoRefEvidence(base, level, ref, c, d);
    KeepAll(ev, a, b, c, d, level, ref, b, c);
  }

  // Without the margin against `other`, filling the thin blocks with it is enough.
  lemma RivalWins(ev: seq<Event>, bs: seq<Block>, f: nat, q: nat, t: nat, level: Level, other: string, ref: string)
    requires ThinAround(ev, bs, f, q, t) && other != ref && f < t
    requires var b, c := bs[q].start, bs[q].end;
             || 2 * RefTotal(ev, level, ref, b, c) < LevelTotal(ev, level, b, c) + Most(t - f)
             || RefTotal(ev, level, other, b, c) + Most(t - f) >= RefTotal(ev, level, ref, b, c)
    ensures !Publishes(Contested(ev, bs, f, q, t, level, other), level, ref, bs[f].start, bs[t].end)
  {
    var ev1 := Contested(ev, bs, f, q, t, level, other);
    ContestedTotals(ev, bs, f, q, t, level, other, ref);
    ContestedHasRival(ev, bs, f, q, t, level, other);
    var j :| 0 <= j < |ev1| && In(ev1[j], level, bs[f].start, bs[t].end) && ev1[j].ref == other;
  }

  // A block with nothing around it has all the margin it needs.
  lemma PublishesAlone(ev: seq<Event>, level: Level, ref: string, start: int, end: int)
    requires Publishes(ev, level, ref, start, end)
    ensures Margin(ev, level, ref, start, end, 0)
  {
    forall other: string | other != ref
      ensures RefTotal(ev, level, other, start, end) < RefTotal(ev, level, ref, start, end)
    {
      if RefTotal(ev, level, other, start, end) > 0 { SeenIfCounted(ev, level, other, start, end); }
    }
  }

  lemma LostWithoutMargin(ev: seq<Event>, bs: seq<Block>, f: nat, q: nat, t: nat, k: nat, ref: string)
    returns (ev1: seq<Event>)
    requires k < |ALLOC_LEVELS| && ThinAround(ev, bs, f, q, t)
    requires var level, b, c := ALLOC_LEVELS[k], bs[q].start, bs[q].end;
             Publishes(ev, level, ref, b, c) && !Margin(ev, level, ref, b, c, t - f)
    ensures Alike(ev1, ev, bs, q) && !Publishes(ev1, ALLOC_LEVELS[k], ref, bs[f].start, bs[t].end)
  {
    var level, b, c := ALLOC_LEVELS[k], bs[q].start, bs[q].end;
    if f == t { PublishesAlone(ev, level, ref, b, c); }
    var other := ref + "x";
    assert |other| != |ref|;
    if 2 * RefTotal(ev, level, ref, b, c) >= LevelTotal(ev, level, b, c) + Most(t - f) {
      other :| other != ref && RefTotal(ev, level, other, b, c) + Most(t - f) >= RefTotal(ev, level, ref, b, c);
    }
    ev1 := Contested(ev, bs, f, q, t, level, other);
    ContestedIsAlike(ev, bs, f, q, t, k, other);
    RivalWins(ev, bs, f, q, t, level, other, ref);
  }

  lemma AlikeIsThinAround(ev: seq<Event>, ev0: seq<Event>, bs: seq<Block>, f: nat, q: nat, t: nat)
    requires ThinAround(ev0, bs, f, q, t) && Alike(ev, ev0, bs, q)
    ensures ThinAround(ev, bs, f, q, t)
  {
    forall i | f <= i <= t && i != q ensures IsThin(ev, bs[i], MIN_EVIDENCE) {
      assert ThinFlags(ev, bs, MIN_EVIDENCE)[i] == ThinFlags(ev0, bs, MIN_EVIDENCE)[i];
    }
  }

  lemma MarginIsShared(ev: seq<Event>, ev0: seq<Event>, level: Level, ref: string, start: int, end: int, n: nat)
    requires SameRollup(ev, ev0, start, end) && Margin(ev0, level, ref, start, end, n)
    ensures Margin(ev, level, ref, start, end, n)
    ensures LevelTotal(ev, level, start, end) == LevelTotal(ev0, level, start, end)
  {
    assert SameTotals(ev, ev0, level, ref, start, end);
    forall other: string | other != ref
      ensures RefTotal(ev, level, other, start, end) + Most(n) < RefTotal(ev, level, ref, start, end)
    {
      assert SameTotals(ev, ev0, level, other, start, end);
    }
  }

  // Whatever the thin blocks hold, [start, end) publishes ref.
  ghost predicate AlwaysPublishes(ev0: seq<Event>, bs: seq<Block>, q: nat, level: Level, ref: string, start: int,
                                  end: int)
    requires q < |bs|
  {
    forall ev | Alike(ev, ev0, bs, q) :: Publishes(ev, level, ref, start, end)
  }

  // The condition, for a block b merged from blocks f..t around block q.
  lemma MergedSpanKeepsValueIff(ev0: seq<Event>, bs: seq<Block>, f: nat, q: nat, t: nat, b: Block, k: nat, ref: string)
    requires k < |ALLOC_LEVELS| && ThinAround(ev0, bs, f, q, t) && b.start == bs[f].start && b.end == bs[t].end
    requires Publishes(ev0, ALLOC_LEVELS[k], ref, bs[q].start, bs[q].end)
    ensures AlwaysPublishes(ev0, bs, q, ALLOC_LEVELS[k], ref, b.start, b.end)
       <==> Margin(ev0, ALLOC_LEVELS[k], ref, bs[q].start, bs[q].end, t - f)
  {
    var level, s, e := ALLOC_LEVELS[k], bs[q].start, bs[q].end;
    if Margin(ev0, level, ref, s, e, t - f) {
      forall ev | Alike(ev, ev0, bs, q) ensures Publishes(ev, level, ref, bs[f].start, bs[t].end) {
        AlikeIsThinAround(ev, ev0, bs, f, q, t);
        MarginIsShared(ev, ev0, level, ref, s, e, t - f);
        MarginSurvives(ev, bs, f, q, t, k, ref);
      }
    } else {
      var ev1 := LostWithoutMargin(ev0, bs, f, q, t, k, ref);
    }
  }

  lemma NotASolid(s: seq<nat>, m: nat, n: nat, i: nat)
    requires m < |s| && (forall a, b | 0 <= a < b < |s| :: s[a] < s[b]) && From(s, m) <= i <= To(s, m, n) && i != s[m]
    ensures i !in s
  {
    assert forall p | 0 <= p < m :: s[p] <= s[m - 1];
    assert forall p | m < p < |s| :: s[m] < s[p];
  }

  // Around a solid block, merge_thin gathers thin blocks and no others.
  lemma GatheredAreThin(ev: seq<Event>, bs: seq<Block>, s: seq<nat>, m: nat)
    requires Ordered(bs) && DeadAir(ev, bs) && AreSolids(s, ThinFlags(ev, bs, MIN_EVIDENCE)) && m < |s|
    ensures From(s, m) <= s[m] <= To(s, m, |bs|) < |bs|
    ensures ThinAround(ev, bs, From(s, m), s[m], To(s, m, |bs|))
  {
    var thin := ThinFlags(ev, bs, MIN_EVIDENCE);
    MergeProperties.Positions(s, thin, m);
    forall i | From(s, m) <= i <= To(s, m, |bs|) && i != s[m] ensures thin[i] {
      NotASolid(s, m, |bs|, i);
    }
  }

  // What merge_thin makes of ordered blocks with dead air alone between them, s being the solid ones.
  ghost predicate Merges(out: seq<Block>, ev: seq<Event>, bs: seq<Block>, s: seq<nat>) {
    && Ordered(bs) && DeadAir(ev, bs)
    && var thin := ThinFlags(ev, bs, MIN_EVIDENCE); AreSolids(s, thin) && Absorbed(out, bs, thin, s)
  }

  /** What merge_thin does to a published value. Block s[m] clears the floor and publishes ref; the
      merge gathers n = To - From thin blocks around it, the run before it and, for the last one, the
      trailing run after it. Whatever those blocks hold, the output block publishes ref, exactly when
      ref leads every other ref by more than 4n and holds half of its level with 4n to spare. */
  lemma MergedValueSurvivesIff(out: seq<Block>, ev0: seq<Event>, bs: seq<Block>, s: seq<nat>, m: nat, k: nat,
                               ref: string)
    requires Merges(out, ev0, bs, s) && k < |ALLOC_LEVELS| && m < |s|
    requires Publishes(ev0, ALLOC_LEVELS[k], ref, bs[s[m]].start, bs[s[m]].end)
    ensures From(s, m) <= To(s, m, |bs|) && |out| == |s|
    ensures AlwaysPublishes(ev0, bs, s[m], ALLOC_LEVELS[k], ref, out[m].start, out[m].end)
       <==> Margin(ev0, ALLOC_LEVELS[k], ref, bs[s[m]].start, bs[s[m]].end, To(s, m, |bs|) - From(s, m))
  {
    MergesThinAround(out, ev0, bs, s, m);
    MergedSpanKeepsValueIff(ev0, bs, From(s, m), s[m], To(s, m, |bs|), out[m], k, ref);
  }

  lemma MergesThinAround(out: seq<Block>, ev0: seq<Event>, bs: seq<Block>, s: seq<nat>, m: nat)
    requires Merges(out, ev0, bs, s) && m < |s|
    ensures From(s, m) <= s[m] <= To(s, m, |bs|) < |bs| && |out| == |s|
    ensures ThinAround(ev0, bs, From(s, m), s[m], To(s, m, |bs|))
    ensures out[m].start == bs[From(s, m)].start && out[m].end == bs[To(s, m, |bs|)].end
  {
    GatheredAreThin(ev0, bs, s, m);
    OutputEnds(out, bs, ThinFlags(ev0, bs, MIN_EVIDENCE), s, m);
  }

  lemma OutputEnds(out: seq<Block>, bs: seq<Block>, thin: seq<bool>, s: seq<nat>, m: nat)
    requires |thin| == |bs| && AreSolids(s, thin) && Absorbed(out, bs, thin, s) && m < |s|
    requires From(s, m) <= s[m] <= To(s, m, |bs|) < |bs|
    ensures |out| == |s| && out[m].start == bs[From(s, m)].start && out[m].end == bs[To(s, m, |bs|)].end
  {
    assert out[m] == Join(bs, From(s, m), To(s, m, |bs|));
  }

  // Four blocks, the first three thin, and what they hold.
  function RunBlocks(a: int): seq<Block> {
    [Block(a, a + 10, SessionStart, Detected), Block(a + 10, a + 20, Detected, Detected),
     Block(a + 20, a + 30, Detected, Detected), Block(a + 30, a + 40, Detected, SessionEnd)]
  }

  function RunEvents(a: int): seq<Event> {
    [Event(a, Repo, "two", 4)]
    + ([Event(a + 10, Repo, "two", 4)] + ([Event(a + 20, Repo, "two", 4)] + [Event(a + 30, Repo, "one", 9)]))
  }

  lemma RunEvidence(a: int, start: int, end: int)
    ensures Evidence(RunEvents(a), start, end)
            <= (if start <= a < end then 4 else 0) + (if start <= a + 10 < end then 4 else 0)
             + (if start <= a + 20 < end then 4 else 0) + (if start <= a + 30 < end then 9 else 0)
  {
    var w, x := [Event(a, Repo, "two", 4)], [Event(a + 10, Repo, "two", 4)];
    var y, z := [Event(a + 20, Repo, "two", 4)], [Event(a + 30, Repo, "one", 9)];
    PooledConcat(w, x + (y + z), ALLOC_LEVELS, start, end);
    PooledConcat(x, y + z, ALLOC_LEVELS, start, end);
    PooledConcat(y, z, ALLOC_LEVELS, start, end);
    OneEvidence(w[0], start, end);
    OneEvidence(x[0], start, end);
    OneEvidence(y[0], start, end);
    OneEvidence(z[0], start, end);
  }

  lemma OneEvidence(e: Event, start: int, end: int)
    ensures Evidence([e], start, end) <= if start <= e.ts < end then e.n else 0
  {
    PooledOfOne(e, ALLOC_LEVELS, start, end);
    if !(start <= e.ts < end) { NoEvidence([e], start, end); }
  }

  lemma RunTotals(a: int, ref: string, start: int, end: int)
    ensures LevelTotal(RunEvents(a), Repo, start, end)
            == (if start <= a < end then 4 else 0) + (if start <= a + 10 < end then 4 else 0)
             + (if start <= a + 20 < end then 4 else 0) + (if start <= a + 30 < end then 9 else 0)
    ensures RefTotal(RunEvents(a), Repo, ref, start, end)
            == (if start <= a < end && ref == "two" then 4 else 0)
             + (if start <= a + 10 < end && ref == "two" then 4 else 0)
             + (if start <= a + 20 < end && ref == "two" then 4 else 0)
             + (if start <= a + 30 < end && ref == "one" then 9 else 0)
  {
    var w, x := [Event(a, Repo, "two", 4)], [Event(a + 10, Repo, "two", 4)];
    var y, z := [Event(a + 20, Repo, "two", 4)], [Event(a + 30, Repo, "one", 9)];
    TotalsConcat(w, x + (y + z), Repo, ref, start, end);
    TotalsConcat(x, y + z, Repo, ref, start, end);
    TotalsConcat(y, z, Repo, ref, start, end);
    SingleTotals(w[0], Repo, ref, start, end);
    SingleTotals(x[0], Repo, ref, start, end);
    SingleTotals(y[0], Repo, ref, start, end);
    SingleTotals(z[0], Repo, ref, start, end);
  }

  lemma RunPublishes(a: int)
    ensures Publishes(RunEvents(a), Repo, "one", a + 30, a + 40) && Margin(RunEvents(a), Repo, "one", a + 30, a + 40, 1)
    ensures !Publishes(RunEvents(a), Repo, "one", a, a + 40)
  {
    var ev, start, end := RunEvents(a), a + 30, a + 40;
    RunTotals(a, "one", start, end);
    RunTotals(a, "one", a, end);
    forall other: string | other != "one" ensures RefTotal(ev, Repo, other, start, end) == 0 {
      RunTotals(a, other, start, end);
    }
  }

  lemma RunIsThin(a: int)
    ensures ThinFlags(RunEvents(a), RunBlocks(a), MIN_EVIDENCE) == [true, true, true, false]
  {
    var ev, bs := RunEvents(a), RunBlocks(a);
    RunEvidence(a, a, a + 10);
    RunEvidence(a, a + 10, a + 20);
    RunEvidence(a, a + 20, a + 30);
    RunTotals(a, "one", a + 30, a + 40);
    PooledCoversLevel(ev, ALLOC_LEVELS, 0, a + 30, a + 40);
    assert IsThin(ev, bs[0], MIN_EVIDENCE) && IsThin(ev, bs[1], MIN_EVIDENCE) && IsThin(ev, bs[2], MIN_EVIDENCE);
    assert !IsThin(ev, bs[3], MIN_EVIDENCE);
  }

  /** Publishing does not give the margin, and a margin against one thin neighbour is no margin against
      a run of them: the last block publishes with room for one, and the block merge_thin makes of all
      four does not publish its value. */
  lemma PublishingIsNotEnough(a: int, out: seq<Block>, s: seq<nat>)
    requires var thin := ThinFlags(RunEvents(a), RunBlocks(a), MIN_EVIDENCE);
             AreSolids(s, thin) && Absorbed(out, RunBlocks(a), thin, s)
    ensures Publishes(RunEvents(a), Repo, "one", a + 30, a + 40) && Margin(RunEvents(a), Repo, "one", a + 30, a + 40, 1)
    ensures |out| == 1 && out[0].start == a && out[0].end == a + 40 && !Publishes(RunEvents(a), Repo, "one", a, a + 40)
  {
    RunPublishes(a);
    RunIsThin(a);
    OnlyLastSolid(s, ThinFlags(RunEvents(a), RunBlocks(a), MIN_EVIDENCE));
    OutputEnds(out, RunBlocks(a), ThinFlags(RunEvents(a), RunBlocks(a), MIN_EVIDENCE), s, 0);
  }

  lemma OnlyLastSolid(s: seq<nat>, thin: seq<bool>)
    requires AreSolids(s, thin) && thin == [true, true, true, false]
    ensures s == [3]
  {
    assert |s| > 1 ==> s[0] < s[1];
    assert !thin[3];
    assert forall m | 0 <= m < |s| :: !thin[s[m]];
    assert forall m | 0 <= m < |s| :: s[m] == 3;
  }
}
