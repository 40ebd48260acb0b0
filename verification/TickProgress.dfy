/** How far a tick gets, and which windows it settles: below what is fully ingested and a whole span old,
    whole spans unless the time ends there, and the rest of an open gap only once the transcript has
    stood still for a span. */
module TickProgress {
  import opened Options
  import opened Sorting
  import opened Intervals
  import opened TickGaps
  import opened TickPlanner
  import opened TickRuns

  // ----- one plan

  lemma {:induction false} WholeEndIs(s: int, b: int, span: int)
    requires span > 0 && s <= b
    ensures exists n: nat :: WholeEnd(s, b, span) == At(s, n, span) <= b < At(s, n + 1, span)
    decreases b - s
  {
    if s + span <= b {
      WholeEndIs(s + span, b, span);
      var n: nat :| WholeEnd(s + span, b, span) == At(s + span, n, span) <= b < At(s + span, n + 1, span);
      AtNext(s, n, span);
      AtNext(s, n + 1, span);
      assert WholeEnd(s, b, span) == At(s, n + 1, span);
    } else {
      assert At(s, 0, span) == s && At(s, 1, span) == s + span;
    }
  }

  // n spans after s.
  function At(s: int, n: nat, span: int): int {
    if n == 0 then s else At(s, n - 1, span) + span
  }

  lemma {:induction false} AtNext(s: int, n: nat, span: int)
    ensures At(s + span, n, span) == At(s, n + 1, span)
  {
    if n > 0 { AtNext(s, n - 1, span); }
  }

  // Nothing of [a, b) is reached, and a is where that begins.
  ghost predicate OpenFrom(prompts: seq<int>, span: int, cursor: int, a: int, b: int) {
    && cursor <= a <= b && (forall x | a <= x < b :: !Reached(prompts, span, x))
    && (a == cursor || Reached(prompts, span, a - 1))
  }

  // The cursor stands whole spans into the gap that is open at the frontier, less than one before it.
  ghost predicate StopsInOpenGap(prompts: seq<int>, span: int, cursor: int, front: int, c: int) {
    exists a: int, n: nat ::
      OpenFrom(prompts, span, cursor, a, front) && c == At(a, n, span) <= front < At(a, n + 1, span)
  }

  lemma OpenGapStart(gaps: seq<Interval>, cursor: int, front: int, prompts: seq<int>, span: int)
    requires cursor < front && InOrder(gaps, cursor, front)
    requires forall x | cursor <= x < front :: Covers(gaps, x) <==> !Reached(prompts, span, x)
    requires forall i | 0 <= i < |gaps| && gaps[i].b < front :: Reached(prompts, span, gaps[i].b)
    ensures OpenFrom(prompts, span, cursor,
                     if gaps != [] && gaps[|gaps| - 1].b == front then gaps[|gaps| - 1].a else front, front)
  {
    var m := |gaps| - 1;
    if gaps != [] && gaps[m].b == front {
      var a := gaps[m].a;
      forall x | a <= x < front ensures !Reached(prompts, span, x) {
        assert Contains(gaps[m], x);
      }
      if a > cursor { NotBefore(gaps, cursor, front, m, prompts, span); }
    } else {
      PastAll(gaps, cursor, front, front - 1);
    }
  }

  // The instant before a gap is reached: the gap before it ended earlier.
  lemma NotBefore(gaps: seq<Interval>, cursor: int, front: int, m: nat, prompts: seq<int>, span: int)
    requires cursor < front && InOrder(gaps, cursor, front) && m < |gaps| && gaps[m].a > cursor
    requires forall x | cursor <= x < front :: Covers(gaps, x) <==> !Reached(prompts, span, x)
    requires forall i | 0 <= i < |gaps| && gaps[i].b < front :: Reached(prompts, span, gaps[i].b)
    ensures Reached(prompts, span, gaps[m].a - 1)
  {
    var a := gaps[m].a;
    assert Contains(gaps[m], a) && !Reached(prompts, span, a);
    assert forall i | m < i < |gaps| :: gaps[m].b <= gaps[i].a;
    assert forall i | 0 <= i < m :: gaps[i].b <= a && gaps[i].b != a;
    assert forall i | 0 <= i < |gaps| :: !Contains(gaps[i], a - 1);
  }

  /** An unbounded plan goes to the frontier when the tail is closed; while it is open it withholds less
      than a span, and only of the gap that is open there. */
  lemma PlanProgress(cursor: int, front: int, prompts: seq<int>, span: int, closed: bool)
    requires span > 0 && cursor < front
    ensures var c := Plan(cursor, Some(front), prompts, span, None, closed).cursor;
            if closed then c == front else StopsInOpenGap(prompts, span, cursor, front, c)
  {
    var gaps := Gaps(cursor, front, prompts, span);
    GapsAreUnreached(cursor, front, prompts, span);
    if closed {
      ClosedCursor(gaps, |gaps|, front, span);
    } else {
      OpenCursor(gaps, cursor, front, prompts, span);
    }
  }

  lemma OpenCursor(gaps: seq<Interval>, cursor: int, front: int, prompts: seq<int>, span: int)
    requires span > 0 && cursor < front && InOrder(gaps, cursor, front)
    requires forall x | cursor <= x < front :: Covers(gaps, x) <==> !Reached(prompts, span, x)
    requires forall i | 0 <= i < |gaps| && gaps[i].b < front :: Reached(prompts, span, gaps[i].b)
    ensures StopsInOpenGap(prompts, span, cursor, front, CursorAfter(gaps, |gaps|, front, span, false))
  {
    var m := |gaps| - 1;
    OpenGapStart(gaps, cursor, front, prompts, span);
    AllWindowsFacts(gaps, |gaps|, cursor, front, prompts, span, false);
    if gaps != [] && gaps[m].b == front {
      WholeEndIs(gaps[m].a, front, span);
    } else {
      assert At(front, 0, span) == front && At(front, 1, span) == front + span;
    }
  }

  /** The batch bound: no more windows than it allows; a plan within it, or without one, is left alone; a
      larger one is cut to its first windows, and the cursor stops at the end of the last of them. */
  lemma PlanIsBounded(cursor: int, front: Option<int>, prompts: seq<int>, span: int, maxWindows: Option<int>,
                      closed: bool)
    requires span > 0
    ensures var p := Plan(cursor, front, prompts, span, maxWindows, closed);
            var all := Plan(cursor, front, prompts, span, None, closed);
            if maxWindows.Some? && maxWindows.value > 0 && |all.windows| > maxWindows.value then
              && |p.windows| == maxWindows.value && p.windows == all.windows[..maxWindows.value]
              && p.cursor == p.windows[|p.windows| - 1].b
            else p == all
  {
  }

  // ----- one tick

  // Settled by this tick: below the watermark and a span old, answerable, at most a span long, and
  // shorter only where a known look-back begins or where a standing transcript ends.
  ghost predicate SettledBy(w: Interval, inp: Input, span: int) {
    && inp.watermark.Some? && w.a < w.b && w.b <= inp.watermark.value && w.b <= inp.now - span
    && inp.verdict(w) != Behind && w.b - w.a <= span
    && (w.b - w.a == span || Reached(inp.prompts, span, w.b) || inp.now - inp.watermark.value >= span)
  }

  lemma {:induction false} FirstBehindIs(ws: seq<Interval>, verdict: Interval -> Verdict, k: nat)
    requires k <= |ws|
    ensures var r := FirstBehind(ws, verdict, k);
            && (forall i | k <= i < r :: verdict(ws[i]) != Behind) && (r < |ws| ==> verdict(ws[r]) == Behind)
    decreases |ws| - k
  {
    if k < |ws| && verdict(ws[k]) != Behind { FirstBehindIs(ws, verdict, k + 1); }
  }

  // What a tick settles is the ledger's, and then windows of its own.
  lemma TickSettles(led: Ledger, inp: Input, span: int)
    requires span > 0
    ensures var r := TickOnce(led, inp, span);
            && |led.settled| <= |r.settled| && r.settled[..|led.settled|] == led.settled
            && forall i | |led.settled| <= i < |r.settled| :: SettledBy(r.settled[i], inp, span)
  {
    if inp.watermark.Some? {
      var front := Frontier(inp.now, inp.watermark, span).value;
      var closed := TailClosed(inp.now, inp.watermark, span);
      var cursor := if led.cursor.Some? then led.cursor.value else front;
      var p := Plan(cursor, Some(front), inp.prompts, span, inp.maxWindows, closed);
      PlanPartitions(cursor, Some(front), inp.prompts, span, inp.maxWindows, closed);
      FirstBehindIs(p.windows, inp.verdict, 0);
      var stop := FirstBehind(p.windows, inp.verdict, 0);
      var r := TickOnce(led, inp, span);
      assert r.settled == led.settled + p.windows[..stop];
      forall i | |led.settled| <= i < |r.settled| ensures SettledBy(r.settled[i], inp, span) {
        assert r.settled[i] == p.windows[i - |led.settled|];
      }
    }
  }

  /** One tick with nothing to stop it. At or past the frontier it settles nothing. Below it, the cursor
      goes to the smaller of the watermark and now less a span once the transcript has stood still for a
      span, and otherwise stops at the start of the remainder of the gap that is open there. */
  lemma TickCursor(led: Ledger, inp: Input, span: int)
    requires span > 0 && led.cursor.Some? && inp.watermark.Some?
    requires inp.maxWindows == None && forall w :: inp.verdict(w) != Behind
    ensures var r, w := TickOnce(led, inp, span), inp.watermark.value;
            var front := if w < inp.now - span then w else inp.now - span;
            && r.cursor.Some?
            && if front <= led.cursor.value then r == led
               else if inp.now - w >= span then r.cursor.value == front
               else StopsInOpenGap(inp.prompts, span, led.cursor.value, front, r.cursor.value)
  {
    var front := Frontier(inp.now, inp.watermark, span).value;
    var closed := TailClosed(inp.now, inp.watermark, span);
    var p := Plan(led.cursor.value, Some(front), inp.prompts, span, None, closed);
    FirstBehindIs(p.windows, inp.verdict, 0);
    if front > led.cursor.value {
      PlanProgress(led.cursor.value, front, inp.prompts, span, closed);
    } else {
      assert led.settled + [] == led.settled && led.published + [] == led.published;
    }
  }

  /** Nothing ingested, nothing done; and a transcript seen for the first time starts at the frontier, with
      nothing before it ever settled. */
  lemma FirstTick(led: Ledger, inp: Input, span: int)
    requires span > 0
    ensures inp.watermark == None ==> TickOnce(led, inp, span) == led
    ensures inp.watermark.Some? && led.cursor == None ==>
              var w := inp.watermark.value;
              TickOnce(led, inp, span)
              == Ledger(Some(if w < inp.now - span then w else inp.now - span), led.settled, led.published)
  {
    if inp.watermark.Some? && led.cursor == None {
      assert led.settled + [] == led.settled && led.published + [] == led.published;
    }
  }

  /** A tick that meets a window it cannot answer yet stops there: the cursor is the start of the first
      such window, every window before it is settled, and without one the whole plan is. */
  lemma TickStopsBeforeBehind(led: Ledger, inp: Input, span: int) returns (j: nat)
    requires span > 0 && led.cursor.Some? && inp.watermark.Some?
    ensures var r, w := TickOnce(led, inp, span), inp.watermark.value;
            var front := if w < inp.now - span then w else inp.now - span;
            var p := Plan(led.cursor.value, Some(front), inp.prompts, span, inp.maxWindows, inp.now - w >= span);
            && j <= |p.windows| && (forall i | 0 <= i < j :: inp.verdict(p.windows[i]) != Behind)
            && r.settled == led.settled + p.windows[..j]
            && (j < |p.windows| ==> inp.verdict(p.windows[j]) == Behind && r.cursor == Some(p.windows[j].a))
            && (j == |p.windows| ==> r.cursor == Some(p.cursor))
  {
    var front := Frontier(inp.now, inp.watermark, span);
    var closed := TailClosed(inp.now, inp.watermark, span);
    var p := Plan(led.cursor.value, front, inp.prompts, span, inp.maxWindows, closed);
    j := FirstBehind(p.windows, inp.verdict, 0);
    FirstBehindIs(p.windows, inp.verdict, 0);
    PlanPartitions(led.cursor.value, front, inp.prompts, span, inp.maxWindows, closed);
  }

  /** A tick publishes exactly those of the windows it settles whose verdict is to publish. */
  lemma TickPublishes(led: Ledger, inp: Input, span: int, w: Interval)
    requires span > 0
    ensures var r := TickOnce(led, inp, span);
            && |led.settled| <= |r.settled| && |led.published| <= |r.published|
            && r.published[..|led.published|] == led.published
            && (w in r.published[|led.published|..] <==>
                w in r.settled[|led.settled|..] && inp.verdict(w) == Published)
  {
    var r := TickOnce(led, inp, span);
    var front := Frontier(inp.now, inp.watermark, span);
    if front.Some? {
      var cursor := if led.cursor.Some? then led.cursor.value else front.value;
      var p := Plan(cursor, front, inp.prompts, span, inp.maxWindows, TailClosed(inp.now, inp.watermark, span));
      var done := p.windows[..FirstBehind(p.windows, inp.verdict, 0)];
      assert r.settled[|led.settled|..] == done;
    }
  }

  // ----- whole runs

  /** Every window a run ever settled was settled by one of its ticks: below that tick's watermark and a
      span before it; and if it is shorter than a span, a known look-back begins at its end or the
      transcript had stood still for a whole span. */
  lemma {:induction false} EverySettledWindowHasItsTick(led: Ledger, inputs: seq<Input>, span: int, k: nat)
    returns (i: nat)
    requires span > 0 && led.settled == [] && k < |Run(led, inputs, span).settled|
    ensures i < |inputs| && SettledBy(Run(led, inputs, span).settled[k], inputs[i], span)
    decreases |inputs|
  {
    var n := |inputs| - 1;
    var init, inp := inputs[..n], inputs[n];
    var before := Run(led, init, span);
    TickSettles(before, inp, span);
    if k < |before.settled| {
      i := EverySettledWindowHasItsTick(led, init, span, k);
      assert Run(led, inputs, span).settled[k] == Run(led, inputs, span).settled[..|before.settled|][k];
    } else {
      i := n;
    }
  }
}
