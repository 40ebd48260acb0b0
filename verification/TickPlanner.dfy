/** The windows one tick plans in the gaps, and where the next tick resumes. */
module TickPlanner {
  import opened Options
  import opened Sorting
  import opened Intervals
  import opened TickGaps

  // Whole spans of [s, b), and where they stop.
  function Whole(s: int, b: int, span: int): seq<Interval>
    requires span > 0
    decreases b - s
  {
    if s + span <= b then [Interval(s, s + span)] + Whole(s + span, b, span) else []
  }

  function WholeEnd(s: int, b: int, span: int): int
    requires span > 0
    decreases b - s
  {
    if s + span <= b then WholeEnd(s + span, b, span) else s
  }

  // The windows of one gap. An open remainder is withheld.
  function GapWindows(gap: Interval, front: int, span: int, closed: bool): seq<Interval>
    requires span > 0
  {
    var s := WholeEnd(gap.a, gap.b, span);
    Whole(gap.a, gap.b, span) + if (gap.b < front || closed) && s < gap.b then [Interval(s, gap.b)] else []
  }

  function AllWindows(gaps: seq<Interval>, k: nat, front: int, span: int, closed: bool): seq<Interval>
    requires span > 0 && k <= |gaps|
  {
    if k == 0 then [] else AllWindows(gaps, k - 1, front, span, closed) + GapWindows(gaps[k - 1], front, span, closed)
  }

  function CursorAfter(gaps: seq<Interval>, k: nat, front: int, span: int, closed: bool): int
    requires span > 0 && k <= |gaps|
  {
    if k == 0 then front
    else if gaps[k - 1].b < front || closed then CursorAfter(gaps, k - 1, front, span, closed)
    else WholeEnd(gaps[k - 1].a, gaps[k - 1].b, span)
  }

  lemma {:induction false} ClosedCursor(gaps: seq<Interval>, k: nat, front: int, span: int)
    requires span > 0 && k <= |gaps|
    ensures CursorAfter(gaps, k, front, span, true) == front
  {
    if k > 0 { ClosedCursor(gaps, k - 1, front, span); }
  }

  datatype Planned = Planned(windows: seq<Interval>, cursor: int)

  // At most max_windows of them, the cursor stopping at the last one emitted.
  function Bounded(p: Planned, maxWindows: Option<int>): Planned {
    if maxWindows.Some? && 0 < maxWindows.value < |p.windows| then
      Planned(p.windows[..maxWindows.value], p.windows[maxWindows.value - 1].b)
    else p
  }

  function Plan(cursor: int, front: Option<int>, prompts: seq<int>, span: int, maxWindows: Option<int>,
                closed: bool): Planned
    requires span > 0
  {
    if front == None || front.value <= cursor then Planned([], cursor)
    else
      var gaps := Gaps(cursor, front.value, prompts, span);
      Bounded(Planned(AllWindows(gaps, |gaps|, front.value, span, closed),
                      CursorAfter(gaps, |gaps|, front.value, span, closed)), maxWindows)
  }

  // The inner loop: whole spans of one gap, then its remainder unless that is open.
  method CutGap(wins: seq<Interval>, gap: Interval, front: int, span: int, closed: bool)
    returns (wins': seq<Interval>, s: int)
    requires span > 0
    ensures wins' == wins + GapWindows(gap, front, span, closed) && s == WholeEnd(gap.a, gap.b, span)
  {
    s := gap.a;
    var cut := [];
    while s + span <= gap.b
      invariant cut + Whole(s, gap.b, span) == Whole(gap.a, gap.b, span)
      invariant WholeEnd(s, gap.b, span) == WholeEnd(gap.a, gap.b, span)
      decreases gap.b - s
    {
      cut := cut + [Interval(s, s + span)];
      s := s + span;
    }
    if (gap.b < front || closed) && s < gap.b {
      cut := cut + [Interval(s, gap.b)];
    }
    wins' := wins + cut;
  }

  // The loop over the gaps, before the batch bound.
  method CutGaps(gaps: seq<Interval>, front: int, span: int, closed: bool) returns (wins: seq<Interval>, newCursor: int)
    requires span > 0
    ensures wins == AllWindows(gaps, |gaps|, front, span, closed)
    ensures newCursor == CursorAfter(gaps, |gaps|, front, span, closed)
  {
    wins, newCursor := [], front;
    for k := 0 to |gaps|
      invariant wins == AllWindows(gaps, k, front, span, closed)
      invariant newCursor == CursorAfter(gaps, k, front, span, closed)
    {
      var s;
      wins, s := CutGap(wins, gaps[k], front, span, closed);
      if !(gaps[k].b < front || closed) {
        newCursor := s;
      }
    }
  }

  method MakePlan(cursor: int, front: Option<int>, prompts: seq<int>, span: int, maxWindows: Option<int>, closed: bool)
    returns (wins: seq<Interval>, newCursor: int)
    requires span > 0
    ensures Planned(wins, newCursor) == Plan(cursor, front, prompts, span, maxWindows, closed)
  {
    if front == None || front.value <= cursor {
      return [], cursor;
    }
    var gaps := FindGaps(cursor, front.value, prompts, span);
    wins, newCursor := CutGaps(gaps, front.value, span, closed);
    if maxWindows.Some? && 0 < maxWindows.value < |wins| {
      wins := wins[..maxWindows.value];
      newCursor := wins[|wins| - 1].b;
    }
  }

  lemma {:induction false} WholeFacts(s: int, b: int, span: int)
    requires span > 0 && s <= b
    ensures var e := WholeEnd(s, b, span);
            && s <= e <= b < e + span && InOrder(Whole(s, b, span), s, e)
            && (forall x | s <= x < e :: Covers(Whole(s, b, span), x))
            && (forall w | w in Whole(s, b, span) :: w.b - w.a == span)
    decreases b - s
  {
    if s + span <= b {
      WholeFacts(s + span, b, span);
      CoversOne(s, s + span);
      InOrderConcat([Interval(s, s + span)], Whole(s + span, b, span), s, s + span, WholeEnd(s, b, span));
    }
  }

  // Where the windows of a gap stop: at its end, unless an open remainder is withheld.
  function GapDone(gap: Interval, front: int, span: int, closed: bool): int
    requires span > 0
  {
    if gap.b < front || closed then gap.b else WholeEnd(gap.a, gap.b, span)
  }

  // No window is longer than a span, and one is shorter only where the unreached time ends.
  ghost predicate Lengths(ws: seq<Interval>, prompts: seq<int>, span: int, front: int, closed: bool) {
    forall i | 0 <= i < |ws| ::
      && ws[i].b - ws[i].a <= span
      && (ws[i].b - ws[i].a == span || Reached(prompts, span, ws[i].b) || (ws[i].b == front && closed))
  }

  lemma GapWindowsFacts(gap: Interval, front: int, prompts: seq<int>, span: int, closed: bool)
    requires span > 0 && gap.a < gap.b <= front && (gap.b < front ==> Reached(prompts, span, gap.b))
    ensures var ws, done := GapWindows(gap, front, span, closed), GapDone(gap, front, span, closed);
            && gap.a <= done <= gap.b && InOrder(ws, gap.a, done)
            && (forall x | gap.a <= x < done :: Covers(ws, x))
            && Lengths(ws, prompts, span, front, closed)
  {
    var s := WholeEnd(gap.a, gap.b, span);
    WholeFacts(gap.a, gap.b, span);
    CoversOne(s, gap.b);
    var whole := Whole(gap.a, gap.b, span);
    if (gap.b < front || closed) && s < gap.b {
      InOrderConcat(whole, [Interval(s, gap.b)], gap.a, s, gap.b);
    } else {
      assert GapWindows(gap, front, span, closed) == whole;
    }
    GapWindowLengths(gap, front, prompts, span, closed);
  }

  lemma GapWindowLengths(gap: Interval, front: int, prompts: seq<int>, span: int, closed: bool)
    requires span > 0 && gap.a < gap.b <= front && (gap.b < front ==> Reached(prompts, span, gap.b))
    ensures Lengths(GapWindows(gap, front, span, closed), prompts, span, front, closed)
  {
    var whole := Whole(gap.a, gap.b, span);
    WholeFacts(gap.a, gap.b, span);
    assert forall i | 0 <= i < |whole| :: whole[i] in whole;
  }

  // What the first k gaps contribute.
  ghost predicate WindowsOk(ws: seq<Interval>, gaps: seq<Interval>, k: nat, cursor: int, done: int, prompts: seq<int>,
                            span: int, front: int, closed: bool)
    requires k <= |gaps|
  {
    && cursor <= done <= front && InOrder(ws, cursor, done)
    && (forall x | cursor <= x < done :: Covers(ws, x) <==> Covers(gaps[..k], x))
    && Lengths(ws, prompts, span, front, closed)
  }

  lemma {:induction false} AllWindowsFacts(gaps: seq<Interval>, k: nat, cursor: int, front: int, prompts: seq<int>,
                                           span: int, closed: bool)
    requires span > 0 && cursor < front && InOrder(gaps, cursor, front) && k <= |gaps|
    requires forall i | 0 <= i < |gaps| && gaps[i].b < front :: Reached(prompts, span, gaps[i].b)
    ensures var done := if k == 0 then cursor else GapDone(gaps[k - 1], front, span, closed);
            WindowsOk(AllWindows(gaps, k, front, span, closed), gaps, k, cursor, done, prompts, span, front, closed)
    ensures CursorAfter(gaps, k, front, span, closed)
         == if k > 0 && gaps[k - 1].b == front then GapDone(gaps[k - 1], front, span, closed) else front
  {
    if k > 0 {
      var g := gaps[k - 1];
      assert k > 1 ==> gaps[k - 2].b <= g.a < front;
      AllWindowsFacts(gaps, k - 1, cursor, front, prompts, span, closed);
      GapWindowsFacts(g, front, prompts, span, closed);
      NextGap(AllWindows(gaps, k - 1, front, span, closed), GapWindows(g, front, span, closed), gaps, k, cursor,
              GapDone(g, front, span, closed), prompts, span, front, closed);
    }
  }

  lemma NextGap(ws: seq<Interval>, more: seq<Interval>, gaps: seq<Interval>, k: nat, cursor: int, done: int,
                prompts: seq<int>, span: int, front: int, closed: bool)
    requires 0 < k <= |gaps| && InOrder(gaps, cursor, front)
    requires WindowsOk(ws, gaps, k - 1, cursor, if k == 1 then cursor else gaps[k - 2].b, prompts, span, front, closed)
    requires gaps[k - 1].a <= done <= gaps[k - 1].b && InOrder(more, gaps[k - 1].a, done)
    requires (forall x | gaps[k - 1].a <= x < done :: Covers(more, x)) && Lengths(more, prompts, span, front, closed)
    ensures WindowsOk(ws + more, gaps, k, cursor, done, prompts, span, front, closed)
  {
    var prev, g := if k == 1 then cursor else gaps[k - 2].b, gaps[k - 1];
    InOrderConcat(ws, more, cursor, g.a, done);
    forall x | cursor <= x < done ensures Covers(ws + more, x) <==> Covers(gaps[..k], x) {
      assert gaps[..k] == gaps[..k - 1] + [g];
      CoversLast(gaps[..k - 1], g, x);
      if x >= prev {
        OutsideGaps(gaps, k - 1, cursor, front, prev, x);
        if x < g.a { NotIn(more, g.a, done, x); }
      } else {
        NotIn(more, g.a, done, x);
      }
      if x >= prev { NotIn(ws, cursor, prev, x); }
    }
  }

  lemma NotIn(ws: seq<Interval>, lo: int, hi: int, x: int)
    requires InOrder(ws, lo, hi) && !(lo <= x < hi)
    ensures !Covers(ws, x)
  {
  }

  lemma OutsideGaps(gaps: seq<Interval>, k: nat, cursor: int, front: int, prev: int, x: int)
    requires InOrder(gaps, cursor, front) && k < |gaps|
    requires prev == (if k == 0 then cursor else gaps[k - 1].b) && prev <= x
    ensures !Covers(gaps[..k], x)
  {
    assert forall i | 0 <= i < k - 1 :: gaps[i].b <= gaps[k - 1].a;
  }

  /** One plan. It advances the cursor without passing the frontier, and splits the time it settles in
      two with nothing left over: an instant of [cursor, new cursor) lies in a planned window exactly
      when no known prompt reaches it. The windows are ordered, disjoint and at most a span long. */
  ghost predicate PlanOk(p: Planned, cursor: int, front: int, prompts: seq<int>, span: int, closed: bool) {
    && cursor <= p.cursor <= front && InOrder(p.windows, cursor, p.cursor)
    && (forall x | cursor <= x < p.cursor :: Covers(p.windows, x) <==> !Reached(prompts, span, x))
    && Lengths(p.windows, prompts, span, front, closed)
  }

  lemma PlanPartitions(cursor: int, front: Option<int>, prompts: seq<int>, span: int, maxWindows: Option<int>,
                       closed: bool)
    requires span > 0
    ensures var p := Plan(cursor, front, prompts, span, maxWindows, closed);
            if front == None || front.value <= cursor then p == Planned([], cursor)
            else PlanOk(p, cursor, front.value, prompts, span, closed)
  {
    if front.Some? && cursor < front.value {
      var f := front.value;
      var gaps := Gaps(cursor, f, prompts, span);
      GapsAreUnreached(cursor, f, prompts, span);
      AllWindowsFacts(gaps, |gaps|, cursor, f, prompts, span, closed);
      var p := Planned(AllWindows(gaps, |gaps|, f, span, closed), CursorAfter(gaps, |gaps|, f, span, closed));
      assert gaps[..|gaps|] == gaps;
      UpToCursor(p, gaps, cursor, f, prompts, span, closed);
      BoundedOk(p, cursor, f, prompts, span, maxWindows, closed);
    }
  }

  lemma PastAll(gaps: seq<Interval>, cursor: int, front: int, x: int)
    requires InOrder(gaps, cursor, front) && (gaps != [] ==> gaps[|gaps| - 1].b <= x)
    ensures !Covers(gaps, x)
  {
    assert forall i | 0 <= i < |gaps| - 1 :: gaps[i].b <= gaps[|gaps| - 1].a;
  }

  lemma UpToCursor(p: Planned, gaps: seq<Interval>, cursor: int, front: int, prompts: seq<int>, span: int, closed: bool)
    requires span > 0 && cursor < front && InOrder(gaps, cursor, front)
    requires var done := if gaps == [] then cursor else GapDone(gaps[|gaps| - 1], front, span, closed);
             && WindowsOk(p.windows, gaps, |gaps|, cursor, done, prompts, span, front, closed)
             && p.cursor == if gaps != [] && gaps[|gaps| - 1].b == front then done else front
    requires gaps[..|gaps|] == gaps
    requires forall x | cursor <= x < front :: Covers(gaps, x) <==> !Reached(prompts, span, x)
    ensures PlanOk(p, cursor, front, prompts, span, closed)
  {
    var done := if gaps == [] then cursor else GapDone(gaps[|gaps| - 1], front, span, closed);
    forall x | cursor <= x < p.cursor ensures Covers(p.windows, x) <==> !Reached(prompts, span, x) {
      if x >= done {
        NotIn(p.windows, cursor, done, x);
        PastAll(gaps, cursor, front, x);
      }
    }
  }

  lemma TakeCovers(ws: seq<Interval>, lo: int, hi: int, m: nat, x: int)
    requires InOrder(ws, lo, hi) && 0 < m < |ws| && x < ws[m - 1].b
    ensures Covers(ws[..m], x) <==> Covers(ws, x)
  {
    if i :| 0 <= i < |ws| && Contains(ws[i], x) { assert Contains(ws[..m][i], x); }
    if i :| 0 <= i < m && Contains(ws[..m][i], x) { assert Contains(ws[i], x); }
  }

  lemma TakeInOrder(ws: seq<Interval>, lo: int, hi: int, m: nat)
    requires InOrder(ws, lo, hi) && 0 < m < |ws|
    ensures InOrder(ws[..m], lo, ws[m - 1].b) && lo <= ws[m - 1].b <= hi
  {
    forall i | 0 <= i < m ensures ws[i].b <= ws[m - 1].b {
      assert i < m - 1 ==> ws[i].b <= ws[m - 1].a;
    }
  }

  lemma BoundedOk(p: Planned, cursor: int, front: int, prompts: seq<int>, span: int, maxWindows: Option<int>,
                  closed: bool)
    requires PlanOk(p, cursor, front, prompts, span, closed)
    ensures PlanOk(Bounded(p, maxWindows), cursor, front, prompts, span, closed)
  {
    if maxWindows.Some? && 0 < maxWindows.value < |p.windows| {
      var m := maxWindows.value;
      TakeInOrder(p.windows, cursor, p.cursor, m);
      forall x | cursor <= x < p.windows[m - 1].b ensures Covers(p.windows[..m], x) <==> Covers(p.windows, x) {
        TakeCovers(p.windows, cursor, p.cursor, m, x);
      }
    }
  }
}
