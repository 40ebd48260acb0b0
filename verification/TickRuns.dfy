/** Whole runs of ticks. Each tick sees what has landed so far; the ledger keeps where the next one
    resumes and which windows are settled. */
module TickRuns {
  import opened Options
  import opened Sorting
  import opened Intervals
  import opened TickGaps
  import opened TickPlanner

  // What becomes of a planned window: published, dropped for want of evidence, dropped because its
  // evidence was pruned, or not answerable yet.
  datatype Verdict = Published | Empty | Expired | Behind

  // What one tick is given.
  datatype Input = Input(now: int, watermark: Option<int>, prompts: seq<int>, maxWindows: Option<int>,
                         verdict: Interval -> Verdict)

  datatype Ledger = Ledger(cursor: Option<int>, settled: seq<Interval>, published: seq<Interval>)

  function FirstBehind(ws: seq<Interval>, verdict: Interval -> Verdict, k: nat): (r: nat)
    requires k <= |ws|
    ensures k <= r <= |ws|
    decreases |ws| - k
  {
    if k == |ws| || verdict(ws[k]) == Behind then k else FirstBehind(ws, verdict, k + 1)
  }

  // One tick.
  function TickOnce(led: Ledger, inp: Input, span: int): Ledger
    requires span > 0
  {
    var front := Frontier(inp.now, inp.watermark, span);
    if front == None then led
    else
      var cursor := if led.cursor.Some? then led.cursor.value else front.value;
      var p := Plan(cursor, front, inp.prompts, span, inp.maxWindows, TailClosed(inp.now, inp.watermark, span));
      var stop := FirstBehind(p.windows, inp.verdict, 0);
      Ledger(Some(if stop < |p.windows| then Min(p.windows[stop].a, p.cursor) else p.cursor),
             led.settled + p.windows[..stop],
             led.published + Filter(p.windows[..stop], w => inp.verdict(w) == Published))
  }

  // The loop over the planned windows: publish what is worth it, stop at the first one that cannot
  // be answered yet.
  method PublishUntilBehind(planned: seq<Interval>, verdict: Interval -> Verdict)
    returns (published: seq<Interval>, stop: nat)
    ensures stop == FirstBehind(planned, verdict, 0) <= |planned|
    ensures published == Filter(planned[..stop], w => verdict(w) == Published)
  {
    published, stop := [], 0;
    while stop < |planned| && verdict(planned[stop]) != Behind
      invariant stop <= |planned| && FirstBehind(planned, verdict, 0) == FirstBehind(planned, verdict, stop)
      invariant published == Filter(planned[..stop], w => verdict(w) == Published)
    {
      var w := planned[stop];
      FilterConcat(planned[..stop], [w], (v: Interval) => verdict(v) == Published);
      assert planned[..stop + 1] == planned[..stop] + [w];
      if verdict(w) == Published {
        published := published + [w];
      }
      stop := stop + 1;
    }
  }

  method Tick(led: Ledger, inp: Input, span: int) returns (r: Ledger)
    requires span > 0
    ensures r == TickOnce(led, inp, span)
  {
    var front := Frontier(inp.now, inp.watermark, span);
    if front == None {
      return led;
    }
    var cursor := if led.cursor.Some? then led.cursor.value else front.value;
    var planned, newCursor := MakePlan(cursor, front, inp.prompts, span, inp.maxWindows,
                                       TailClosed(inp.now, inp.watermark, span));
    var published, stop := PublishUntilBehind(planned, inp.verdict);
    if stop < |planned| {
      newCursor := Min(planned[stop].a, newCursor);
    }
    r := Ledger(Some(newCursor), led.settled + planned[..stop], led.published + published);
  }

  // Time moves on: known prompts stay known, and a prompt not known before is later than the tick
  // that did not know it.
  ghost predicate Successor(prev: Input, next: Input) {
    && prev.now <= next.now
    && (forall p | p in prev.prompts :: p in next.prompts)
    && (forall p | p in next.prompts && p !in prev.prompts :: p > prev.now)
  }

  // What a run has established by the tick `last`, when it started at c0: the time settled so far is
  // split exactly between prompts and windows, and lies beyond the reach of any later prompt.
  ghost predicate Exact(led: Ledger, c0: int, last: Input, span: int) {
    match led.cursor
    case None => led.settled == [] && led.published == []
    case Some(c) =>
      && c0 <= c && InOrder(led.settled, c0, c)
      && (forall x | c0 <= x < c :: Covers(led.settled, x) <==> !Reached(last.prompts, span, x))
      && (c == c0 || c + span <= last.now)
      && (forall w | w in led.published :: w in led.settled) && InOrder(led.published, c0, c)
  }

  lemma LaterPromptsReachNoFurtherBack(prev: Input, next: Input, span: int, x: int)
    requires span > 0 && Successor(prev, next) && x + span < prev.now
    ensures Reached(next.prompts, span, x) <==> Reached(prev.prompts, span, x)
  {
  }

  lemma {:induction false} FilterInOrder(ws: seq<Interval>, lo: int, hi: int, p: Interval -> bool)
    requires InOrder(ws, lo, hi)
    ensures InOrder(Filter(ws, p), lo, hi)
  {
    if ws != [] {
      var rest := ws[1..];
      assert forall i | 0 <= i < |rest| :: rest[i] == ws[i + 1];
      FilterInOrder(rest, ws[0].b, hi, p);
      var r := Filter(rest, p);
      InOrderCons(ws[0], r, lo, hi);
      InOrderWiden(r, lo, ws[0].b, hi);
    }
  }

  lemma InOrderCons(w: Interval, r: seq<Interval>, lo: int, hi: int)
    requires InOrder(r, w.b, hi) && lo <= w.a < w.b <= hi
    ensures InOrder([w] + r, lo, hi)
  {
  }

  lemma InOrderWiden(r: seq<Interval>, lo: int, mid: int, hi: int)
    requires InOrder(r, mid, hi) && lo <= mid
    ensures InOrder(r, lo, hi)
  {
  }

  // The windows settled by one plan, up to the first that is not answerable.
  lemma SettledPrefix(p: Planned, cursor: int, front: int, prompts: seq<int>, span: int, closed: bool, stop: nat)
    requires PlanOk(p, cursor, front, prompts, span, closed) && stop <= |p.windows|
    ensures var c := if stop < |p.windows| then Min(p.windows[stop].a, p.cursor) else p.cursor;
            && cursor <= c <= p.cursor && InOrder(p.windows[..stop], cursor, c)
            && forall x | cursor <= x < c :: Covers(p.windows[..stop], x) <==> !Reached(prompts, span, x)
  {
    var ws := p.windows;
    var c := if stop < |ws| then Min(ws[stop].a, p.cursor) else p.cursor;
    forall x | cursor <= x < c ensures Covers(ws[..stop], x) <==> Covers(ws, x) {
      if i :| 0 <= i < |ws| && Contains(ws[i], x) {
        assert Contains(ws[..stop][i], x);
      }
      if i :| 0 <= i < stop && Contains(ws[..stop][i], x) { assert Contains(ws[i], x); }
    }
  }

  lemma ExactMovesOn(led: Ledger, c0: int, prev: Input, next: Input, span: int)
    requires span > 0 && Exact(led, c0, prev, span) && Successor(prev, next)
    ensures Exact(led, c0, next, span)
  {
    if led.cursor.Some? {
      forall x | c0 <= x < led.cursor.value ensures Reached(next.prompts, span, x) <==> Reached(prev.prompts, span, x) {
        LaterPromptsReachNoFurtherBack(prev, next, span, x);
      }
    }
  }

  // Appending what one plan settled.
  lemma Append(led: Ledger, c0: int, cursor: int, done: seq<Interval>, more: seq<Interval>, c: int, last: Input,
               span: int)
    requires InOrder(led.settled, c0, cursor) && InOrder(led.published, c0, cursor) && c0 <= cursor <= c
    requires (forall w | w in led.published :: w in led.settled) && (forall w | w in more :: w in done)
    requires InOrder(done, cursor, c) && InOrder(more, cursor, c) && c + span <= last.now
    requires forall x | c0 <= x < cursor :: Covers(led.settled, x) <==> !Reached(last.prompts, span, x)
    requires forall x | cursor <= x < c :: Covers(done, x) <==> !Reached(last.prompts, span, x)
    ensures Exact(Ledger(Some(c), led.settled + done, led.published + more), c0, last, span)
  {
    InOrderConcat(led.settled, done, c0, cursor, c);
    InOrderConcat(led.published, more, c0, cursor, c);
    forall x | c0 <= x < c ensures Covers(led.settled + done, x) <==> !Reached(last.prompts, span, x) {
      if x < cursor { NotIn(done, cursor, c, x); } else { NotIn(led.settled, c0, cursor, x); }
    }
  }

  lemma TickKeepsExact(led: Ledger, c0: int, inp: Input, span: int) returns (c1: int)
    requires span > 0 && Exact(led, c0, inp, span)
    ensures Exact(TickOnce(led, inp, span), c1, inp, span)
    ensures led.cursor.Some? ==> c1 == c0
  {
    c1 := c0;
    var front := Frontier(inp.now, inp.watermark, span);
    if front.Some? {
      var closed := TailClosed(inp.now, inp.watermark, span);
      var cursor := if led.cursor.Some? then led.cursor.value else front.value;
      if led.cursor == None { c1 := cursor; }
      var p := Plan(cursor, front, inp.prompts, span, inp.maxWindows, closed);
      PlanPartitions(cursor, front, inp.prompts, span, inp.maxWindows, closed);
      var stop := FirstBehind(p.windows, inp.verdict, 0);
      var done := p.windows[..stop];
      if cursor < front.value {
        SettledPrefix(p, cursor, front.value, inp.prompts, span, closed, stop);
        var c := TickOnce(led, inp, span).cursor.value;
        FilterInOrder(done, cursor, c, w => inp.verdict(w) == Published);
        Append(led, c1, cursor, done, Filter(done, w => inp.verdict(w) == Published), c, inp, span);
      } else {
        assert done == [] && led.settled + done == led.settled;
        assert led.published + Filter(done, w => inp.verdict(w) == Published) == led.published;
      }
    }
  }

  /** The cursor never rewinds, whatever the frontier does. */
  lemma CursorNeverRewinds(led: Ledger, inp: Input, span: int)
    requires span > 0 && led.cursor.Some?
    ensures var r := TickOnce(led, inp, span); r.cursor.Some? && led.cursor.value <= r.cursor.value
  {
    var front := Frontier(inp.now, inp.watermark, span);
    PlanPartitions(led.cursor.value, front, inp.prompts, span, inp.maxWindows,
                   TailClosed(inp.now, inp.watermark, span));
  }

  // ----- runs

  function Run(led: Ledger, inputs: seq<Input>, span: int): Ledger
    requires span > 0
  {
    if inputs == [] then led else TickOnce(Run(led, inputs[..|inputs| - 1], span), inputs[|inputs| - 1], span)
  }

  // A run as it unfolds in time.
  ghost predicate Unfolds(inputs: seq<Input>) {
    forall i, j | 0 <= i < j < |inputs| && j == i + 1 :: Successor(inputs[i], inputs[j])
  }

  /** Over any run of ticks, with prompts arriving, watermarks moving either way, and windows found
      empty, expired or not yet answerable: every instant the cursor has passed lies either in a
      known prompt's look-back or in exactly one settled window, never in both and never in
      neither. */
  lemma {:induction false} RunIsExact(led: Ledger, c: int, inputs: seq<Input>, span: int) returns (c0: int)
    requires span > 0 && inputs != [] && Unfolds(inputs)
    requires led == Ledger(None, [], []) || led == Ledger(Some(c), [], [])
    ensures Exact(Run(led, inputs, span), c0, inputs[|inputs| - 1], span)
    ensures led.cursor.Some? ==> c0 == c
    decreases |inputs|
  {
    var init, last := inputs[..|inputs| - 1], inputs[|inputs| - 1];
    var before, c' := Run(led, init, span), c;
    if init != [] {
      c' := RunIsExact(led, c, init, span);
      ExactMovesOn(before, c', init[|init| - 1], last, span);
      RunKeepsCursor(led, init, span);
    }
    c0 := TickKeepsExact(before, c', last, span);
  }

  lemma {:induction false} RunKeepsCursor(led: Ledger, inputs: seq<Input>, span: int)
    requires span > 0
    ensures led.cursor.Some? ==> Run(led, inputs, span).cursor.Some?
  {
    if inputs != [] { RunKeepsCursor(led, inputs[..|inputs| - 1], span); }
  }

  /** So no published window overlaps another, the look-back of any known prompt, or that of any
      prompt p still to come. */
  lemma NothingIsPublishedTwice(led: Ledger, c: int, inputs: seq<Input>, span: int, t: int, p: int)
    requires span > 0 && inputs != [] && Unfolds(inputs) && p > inputs[|inputs| - 1].now
    requires led == Ledger(None, [], []) || led == Ledger(Some(c), [], [])
    ensures var ws, last := Run(led, inputs, span).published, inputs[|inputs| - 1];
            && (forall i, j | 0 <= i < |ws| && 0 <= j < |ws| && Contains(ws[i], t) && Contains(ws[j], t) :: i == j)
            && (Covers(ws, t) ==> !Reached(last.prompts, span, t) && t < p - span)
  {
    var c0 := RunIsExact(led, c, inputs, span);
    var r := Run(led, inputs, span);
    if i :| 0 <= i < |r.published| && Contains(r.published[i], t) {
      assert r.published[i] in r.settled;
      var k :| 0 <= k < |r.settled| && r.settled[k] == r.published[i];
      assert Covers(r.settled, t);
    }
  }
}
