/** The coverage replay: one transcript's ticks, planner-driven, and what the measurement adds up to. */
module TickCoverage {
  import opened Options
  import opened Sorting
  import opened Intervals
  import opened TickGaps
  import opened TickPlanner
  import opened TickRuns

  // turns[bisect_right(turns, now) - 1], when there is one.
  function LastAtMost(turns: seq<int>, now: int): Option<int> {
    if turns == [] then None
    else if turns[|turns| - 1] <= now then Some(turns[|turns| - 1])
    else LastAtMost(turns[..|turns| - 1], now)
  }

  // A window with no unit of work in it is not published.
  function Evidence(units: seq<int>): Interval -> Verdict {
    w => if CountHits([w], units) > 0 then Published else Empty
  }

  // What the planner sees at one tick: the prompts that have landed, and the last turn ingested.
  function InputAt(turns: seq<int>, prompts: seq<int>, units: seq<int>, maxWindows: Option<int>, now: int): Input {
    Input(now, LastAtMost(turns, now), Filter(prompts, p => p <= now), maxWindows, Evidence(units))
  }

  ghost predicate Ticks(inputs: seq<Input>, turns: seq<int>, prompts: seq<int>, units: seq<int>,
                        maxWindows: Option<int>) {
    && Unfolds(inputs)
    && forall i | 0 <= i < |inputs| :: inputs[i] == InputAt(turns, prompts, units, maxWindows, inputs[i].now)
  }

  lemma NextTick(inputs: seq<Input>, turns: seq<int>, prompts: seq<int>, units: seq<int>, maxWindows: Option<int>,
                 now: int)
    requires Ticks(inputs, turns, prompts, units, maxWindows)
    requires inputs != [] ==> inputs[|inputs| - 1].now <= now
    ensures Ticks(inputs + [InputAt(turns, prompts, units, maxWindows, now)], turns, prompts, units, maxWindows)
  {
    var next := InputAt(turns, prompts, units, maxWindows, now);
    var all := inputs + [next];
    forall i, j | 0 <= i < j < |all| && j == i + 1 ensures Successor(all[i], all[j]) {
      if j == |inputs| {
        assert all[i] == InputAt(turns, prompts, units, maxWindows, all[i].now);
      }
    }
  }

  // Where the replay starts: one span before the first turn.
  function Start(turns: seq<int>, span: int): Ledger
    requires turns != []
  {
    Ledger(Some(turns[0] - span), [], [])
  }

  lemma RunSnoc(led: Ledger, inputs: seq<Input>, inp: Input, span: int)
    requires span > 0
    ensures Run(led, inputs + [inp], span) == TickOnce(Run(led, inputs, span), inp, span)
  {
    assert (inputs + [inp])[..|inputs|] == inputs;
  }

  // One tick of the replay: what it publishes after the last turn is late.
  method ReplayTick(led: Ledger, late: seq<Interval>, inp: Input, span: int, isLate: bool)
    returns (led': Ledger, late': seq<Interval>)
    requires span > 0
    ensures led' == TickOnce(led, inp, span) && |led.published| <= |led'.published|
    ensures late' == late + if isLate then led'.published[|led.published|..] else []
  {
    led' := Tick(led, inp, span);
    late' := late;
    PublishedGrows(led, inp, span);
    if isLate {
      late' := late + led'.published[|led.published|..];
    }
  }

  // The first n ticks are those up to the last turn.
  ghost predicate OnTime(inputs: seq<Input>, n: nat, last: int) {
    n <= |inputs| && forall i | 0 <= i < |inputs| :: inputs[i].now <= last <==> i < n
  }

  function Emitted(inputs: seq<Input>, turns: seq<int>, span: int): seq<Interval>
    requires span > 0 && turns != []
  {
    Run(Start(turns, span), inputs, span).published
  }

  // What is published after the first n ticks, those up to the last turn, is late.
  ghost predicate LateAfter(inputs: seq<Input>, n: nat, late: seq<Interval>, turns: seq<int>, span: int)
    requires span > 0 && turns != []
  {
    && OnTime(inputs, n, turns[|turns| - 1])
    && Emitted(inputs, turns, span) == Emitted(inputs[..n], turns, span) + late
  }

  lemma EmittedNext(inputs: seq<Input>, turns: seq<int>, span: int, inp: Input)
    requires span > 0 && turns != []
    ensures var before, after := Emitted(inputs, turns, span), Emitted(inputs + [inp], turns, span);
            && after == TickOnce(Run(Start(turns, span), inputs, span), inp, span).published
            && |before| <= |after| && after[..|before|] == before
  {
    RunSnoc(Start(turns, span), inputs, inp, span);
    PublishedGrows(Run(Start(turns, span), inputs, span), inp, span);
  }

  lemma OnTimeNext(inputs: seq<Input>, n: nat, last: int, inp: Input)
    requires OnTime(inputs, n, last) && forall i | 0 <= i < |inputs| :: inputs[i].now <= inp.now
    ensures inp.now > last ==> OnTime(inputs + [inp], n, last)
    ensures inp.now <= last ==> n == |inputs| && OnTime(inputs + [inp], n + 1, last)
  {
    if inputs != [] { assert inputs[|inputs| - 1].now <= inp.now; }
  }

  lemma LateNext(inputs: seq<Input>, n: nat, late: seq<Interval>, turns: seq<int>, span: int, inp: Input)
    returns (n': nat)
    requires span > 0 && turns != [] && LateAfter(inputs, n, late, turns, span)
    requires forall i | 0 <= i < |inputs| :: inputs[i].now <= inp.now
    ensures var before, after := Emitted(inputs, turns, span), Emitted(inputs + [inp], turns, span);
            && |before| <= |after|
            && LateAfter(inputs + [inp], n', late + if inp.now > turns[|turns| - 1] then after[|before|..] else [],
                         turns, span)
  {
    var before, after := Emitted(inputs, turns, span), Emitted(inputs + [inp], turns, span);
    EmittedNext(inputs, turns, span, inp);
    OnTimeNext(inputs, n, turns[|turns| - 1], inp);
    if inp.now > turns[|turns| - 1] {
      n' := n;
      assert (inputs + [inp])[..n] == inputs[..n];
      Regroup(before, Emitted(inputs[..n], turns, span), late, after);
    } else {
      n' := n + 1;
      assert inputs[..n] == inputs && (inputs + [inp])[..n'] == inputs + [inp];
      NothingAdded(before, late);
    }
  }

  lemma Regroup(all: seq<Interval>, early: seq<Interval>, late: seq<Interval>, more: seq<Interval>)
    requires all == early + late && |all| <= |more| && more[..|all|] == all
    ensures more == early + (late + more[|all|..])
  {
    assert more == more[..|all|] + more[|all|..];
  }

  lemma NothingAdded(a: seq<Interval>, b: seq<Interval>)
    requires a == a + b
    ensures b == []
  {
    assert |a + b| == |a| + |b|;
  }

  // Ticks every `tick` seconds from the first turn on, the next one at `now`.
  ghost predicate Clocked(inputs: seq<Input>, first: int, tick: int, now: int) {
    && (forall i, j | 0 <= i < j < |inputs| && j == i + 1 :: inputs[j].now == inputs[i].now + tick)
    && (forall i | 0 <= i < |inputs| :: first <= inputs[i].now < now)
    && if inputs == [] then now == first else inputs[0].now == first && inputs[|inputs| - 1].now + tick == now
  }

  lemma ClockedNext(inputs: seq<Input>, first: int, tick: int, inp: Input)
    requires tick > 0 && Clocked(inputs, first, tick, inp.now)
    ensures Clocked(inputs + [inp], first, tick, inp.now + tick)
  {
  }

  // What the replay knows before the tick at `now`.
  ghost predicate Replaying(inputs: seq<Input>, led: Ledger, late: seq<Interval>, n: nat, turns: seq<int>,
                            prompts: seq<int>, units: seq<int>, span: int, tick: int, maxWindows: Option<int>,
                            now: int)
    requires span > 0 && turns != []
  {
    && Ticks(inputs, turns, prompts, units, maxWindows) && led == Run(Start(turns, span), inputs, span)
    && Clocked(inputs, turns[0], tick, now) && LateAfter(inputs, n, late, turns, span)
  }

  // The loop body: one tick.
  method ReplayNext(ghost inputs: seq<Input>, led: Ledger, late: seq<Interval>, ghost n: nat, turns: seq<int>,
                    prompts: seq<int>, units: seq<int>, span: int, tick: int, maxWindows: Option<int>, now: int)
    returns (led': Ledger, late': seq<Interval>, ghost n': nat, ghost inputs': seq<Input>)
    requires span > 0 && tick > 0 && turns != []
    requires Replaying(inputs, led, late, n, turns, prompts, units, span, tick, maxWindows, now)
    ensures Replaying(inputs', led', late', n', turns, prompts, units, span, tick, maxWindows, now + tick)
    ensures inputs' != [] && inputs'[|inputs'| - 1].now == now
  {
    var inp := InputAt(turns, prompts, units, maxWindows, now);
    NextTick(inputs, turns, prompts, units, maxWindows, now);
    EmittedNext(inputs, turns, span, inp);
    RunSnoc(Start(turns, span), inputs, inp, span);
    ClockedNext(inputs, turns[0], tick, inp);
    n' := LateNext(inputs, n, late, turns, span, inp);
    inputs' := inputs + [inp];
    led', late' := ReplayTick(led, late, inp, span, now > turns[|turns| - 1]);
  }

  // The ticks go on until a tick would be more than two spans past the last turn.
  ghost predicate Runs(inputs: seq<Input>, turns: seq<int>, span: int, tick: int)
    requires turns != []
  {
    && inputs != [] && inputs[0].now == turns[0]
    && (forall i, j | 0 <= i < j < |inputs| && j == i + 1 :: inputs[j].now == inputs[i].now + tick)
    && inputs[|inputs| - 1].now <= turns[|turns| - 1] + 2 * span < inputs[|inputs| - 1].now + tick
  }

  /** What one tick of the replay sees: the last turn at or before it as the watermark, the prompts that have
      landed by then, and a window worth publishing exactly when some unit of work lies in it. */
  lemma TickSees(turns: seq<int>, prompts: seq<int>, units: seq<int>, maxWindows: Option<int>, now: int)
    requires Ascends(turns)
    ensures var inp := InputAt(turns, prompts, units, maxWindows, now);
            && inp.now == now && inp.maxWindows == maxWindows
            && (forall p :: p in inp.prompts <==> p in prompts && p <= now)
            && (forall w :: inp.verdict(w) == if exists u :: u in units && w.a <= u < w.b then Published else Empty)
            && (inp.watermark == None <==> forall x | x in turns :: x > now)
            && (inp.watermark.Some? ==> inp.watermark.value in turns && inp.watermark.value <= now
                                        && forall x | x in turns && x <= now :: x <= inp.watermark.value)
  {
    WatermarkIs(turns, now);
    forall w ensures Evidence(units)(w) == if exists u :: u in units && w.a <= u < w.b then Published else Empty {
      HitsSome(w, units);
    }
  }

  /** replay: the emitted windows are what the run of its ticks publishes, from one span before the first
      turn on, and the late ones are those published by its ticks after the last turn. */
  method Replay(turns: seq<int>, prompts: seq<int>, units: seq<int>, span: int, tick: int, maxWindows: Option<int>)
    returns (emitted: seq<Interval>, late: seq<Interval>, ghost n: nat, ghost inputs: seq<Input>)
    requires span > 0 && tick > 0
    ensures Ticks(inputs, turns, prompts, units, maxWindows)
    ensures turns == [] ==> emitted == late == []
    ensures turns != [] ==> emitted == Run(Ledger(Some(turns[0] - span), [], []), inputs, span).published
    ensures turns != [] ==> LateAfter(inputs, n, late, turns, span)
    ensures turns != [] && turns[0] <= turns[|turns| - 1] ==> Runs(inputs, turns, span, tick)
  {
    inputs, n := [], 0;
    if turns == [] {
      return [], [], 0, [];
    }
    var start, last := turns[0], turns[|turns| - 1];
    var led := Start(turns, span);
    late := [];
    var now := start;
    while now <= last + 2 * span
      invariant Replaying(inputs, led, late, n, turns, prompts, units, span, tick, maxWindows, now)
      invariant inputs != [] ==> inputs[|inputs| - 1].now <= last + 2 * span
      decreases last + 2 * span - now
    {
      led, late, n, inputs := ReplayNext(inputs, led, late, n, turns, prompts, units, span, tick, maxWindows, now);
      now := now + tick;
    }
    emitted := led.published;
  }

  lemma PublishedGrows(led: Ledger, inp: Input, span: int)
    requires span > 0
    ensures var r := TickOnce(led, inp, span);
            |led.published| <= |r.published| && r.published[..|led.published|] == led.published
  {
  }

  // ----- one verdict for the whole run

  lemma {:induction false} NeverBehind(ws: seq<Interval>, verdict: Interval -> Verdict, k: nat)
    requires k <= |ws| && forall w :: verdict(w) != Behind
    ensures FirstBehind(ws, verdict, k) == |ws|
    decreases |ws| - k
  {
    if k < |ws| { NeverBehind(ws, verdict, k + 1); }
  }

  // When the verdict never changes, what is published is what is settled and found worth it.
  lemma {:induction false} PublishedIsFiltered(led: Ledger, inputs: seq<Input>, span: int, verdict: Interval -> Verdict)
    requires span > 0 && led.settled == led.published == []
    requires (forall w :: verdict(w) != Behind) && forall i | 0 <= i < |inputs| :: inputs[i].verdict == verdict
    ensures var r := Run(led, inputs, span); r.published == Filter(r.settled, w => verdict(w) == Published)
    decreases |inputs|
  {
    if inputs != [] {
      var init, inp := inputs[..|inputs| - 1], inputs[|inputs| - 1];
      PublishedIsFiltered(led, init, span, verdict);
      var before := Run(led, init, span);
      var front := Frontier(inp.now, inp.watermark, span);
      if front.Some? {
        var cursor := if before.cursor.Some? then before.cursor.value else front.value;
        var p := Plan(cursor, front, inp.prompts, span, inp.maxWindows, TailClosed(inp.now, inp.watermark, span));
        var done := p.windows[..FirstBehind(p.windows, inp.verdict, 0)];
        FilterConcat(before.settled, done, (w: Interval) => verdict(w) == Published);
      }
    }
  }

  // ----- what the measurement counts

  lemma {:induction false} HitByOne(w: Interval, units: seq<int>, u: int)
    requires u in units && Contains(w, u)
    ensures CountHits([w], units) > 0
  {
    var init := units[..|units| - 1];
    assert [w][..0] == [];
    if units[|units| - 1] != u {
      assert u in init;
      HitByOne(w, init, u);
    } else {
      assert BisectRight([w], u) == 1;
    }
  }

  lemma {:induction false} HitsSome(w: Interval, units: seq<int>)
    ensures CountHits([w], units) > 0 <==> exists u :: u in units && w.a <= u < w.b
  {
    if CountHits([w], units) > 0 {
      var init, last := units[..|units| - 1], units[|units| - 1];
      assert [w][..0] == [];
      if Hit([w], last) {
        assert last in units && w.a <= last < w.b;
      } else {
        HitsSome(w, init);
        var u :| u in init && w.a <= u < w.b;
        assert u in units;
      }
    }
    if u :| u in units && w.a <= u < w.b { HitByOne(w, units, u); }
  }

  // Dropping windows without a unit in them loses no unit.
  lemma KeptForEvidence(settled: seq<Interval>, units: seq<int>, verdict: Interval -> Verdict, u: int)
    requires u in units && forall w :: verdict(w) == Published <==> CountHits([w], units) > 0
    ensures Covers(Filter(settled, w => verdict(w) == Published), u) <==> Covers(settled, u)
  {
    var kept := Filter(settled, w => verdict(w) == Published);
    if i :| 0 <= i < |settled| && Contains(settled[i], u) {
      HitByOne(settled[i], units, u);
      assert settled[i] in kept;
      var k :| 0 <= k < |kept| && kept[k] == settled[i];
    }
    if k :| 0 <= k < |kept| && Contains(kept[k], u) {
      assert kept[k] in settled;
      var i :| 0 <= i < |settled| && settled[i] == kept[k];
    }
  }

  lemma PassedIsCovered(r: Ledger, c0: int, last: Input, span: int, units: seq<int>, verdict: Interval -> Verdict,
                        u: int)
    requires Exact(r, c0, last, span) && r.cursor.Some? && u in units && c0 <= u < r.cursor.value
    requires r.published == Filter(r.settled, w => verdict(w) == Published)
    requires forall w :: verdict(w) == Published <==> CountHits([w], units) > 0
    ensures Covers(r.published, u) <==> !Reached(last.prompts, span, u)
  {
    KeptForEvidence(r.settled, units, verdict, u);
  }

  /** Nothing the cursor has passed is lost: every unit of work between one span before the first
      turn and the final cursor lies in a known prompt's look-back or in an emitted window. */
  lemma EveryPassedUnitIsCovered(turns: seq<int>, prompts: seq<int>, units: seq<int>, span: int,
                                 maxWindows: Option<int>, inputs: seq<Input>, u: int)
    requires span > 0 && turns != [] && inputs != [] && Ticks(inputs, turns, prompts, units, maxWindows)
    requires u in units && turns[0] - span <= u
    ensures var r := Run(Start(turns, span), inputs, span);
            r.cursor.Some? && (u < r.cursor.value ==>
              (Covers(r.published, u) <==> !Reached(inputs[|inputs| - 1].prompts, span, u)))
  {
    var led, verdict := Start(turns, span), Evidence(units);
    var c0 := RunIsExact(led, turns[0] - span, inputs, span);
    RunKeepsCursor(led, inputs, span);
    assert forall i | 0 <= i < |inputs| :: inputs[i].verdict == verdict;
    PublishedIsFiltered(led, inputs, span, verdict);
    var r := Run(led, inputs, span);
    if u < r.cursor.value {
      PassedIsCovered(r, c0, inputs[|inputs| - 1], span, units, verdict, u);
    }
  }

  // ----- how far the cursor gets

  predicate Ascends(turns: seq<int>) { forall i, j | 0 <= i < j < |turns| :: turns[i] <= turns[j] }

  /** The watermark at an instant is the last turn at or before it, and there is none exactly when every
      turn is later. */
  lemma {:induction false} WatermarkIs(turns: seq<int>, now: int)
    requires Ascends(turns)
    ensures match LastAtMost(turns, now)
            case None => forall x | x in turns :: x > now
            case Some(w) => w in turns && w <= now && forall x | x in turns && x <= now :: x <= w
  {
    if turns != [] {
      var init, last := turns[..|turns| - 1], turns[|turns| - 1];
      forall x ensures x in turns <==> x in init || x == last { InPrefixOrLast(turns, x); }
      LastIsGreatest(turns);
      WatermarkIs(init, now);
    }
  }

  lemma InPrefixOrLast(turns: seq<int>, x: int)
    requires turns != []
    ensures x in turns <==> x in turns[..|turns| - 1] || x == turns[|turns| - 1]
  {
    assert turns == turns[..|turns| - 1] + [turns[|turns| - 1]];
  }

  lemma LastIsGreatest(turns: seq<int>)
    requires turns != [] && Ascends(turns)
    ensures forall x | x in turns :: x <= turns[|turns| - 1]
  {
    forall x | x in turns ensures x <= turns[|turns| - 1] {
      var i :| 0 <= i < |turns| && turns[i] == x;
    }
  }

  lemma LastAtMostIs(turns: seq<int>, now: int)
    requires turns != [] && Ascends(turns)
    ensures LastAtMost(turns, now).Some? ==> LastAtMost(turns, now).value <= turns[|turns| - 1]
    ensures turns[|turns| - 1] <= now ==> LastAtMost(turns, now) == Some(turns[|turns| - 1])
  {
    WatermarkIs(turns, now);
    LastIsGreatest(turns);
  }

  // One tick of the replay: the cursor stays at or before the last turn, and gets there once the
  // last turn is a whole span old.
  lemma TickTowardsLast(led: Ledger, inp: Input, turns: seq<int>, prompts: seq<int>, units: seq<int>, span: int)
    requires span > 0 && turns != [] && Ascends(turns) && inp == InputAt(turns, prompts, units, None, inp.now)
    requires led.cursor.Some? && led.cursor.value <= turns[|turns| - 1]
    ensures var r := TickOnce(led, inp, span);
            && r.cursor.Some? && r.cursor.value <= turns[|turns| - 1]
            && (inp.now >= turns[|turns| - 1] + span ==> r.cursor.value == turns[|turns| - 1])
  {
    var front, closed := Frontier(inp.now, inp.watermark, span), TailClosed(inp.now, inp.watermark, span);
    var cursor := led.cursor.value;
    var p := Plan(cursor, front, inp.prompts, span, None, closed);
    LastAtMostIs(turns, inp.now);
    NeverBehind(p.windows, inp.verdict, 0);
    PlanPartitions(cursor, front, inp.prompts, span, None, closed);
    if inp.now >= turns[|turns| - 1] + span && front.value > cursor {
      var gaps := Gaps(cursor, front.value, inp.prompts, span);
      ClosedCursor(gaps, |gaps|, front.value, span);
    }
  }

  lemma {:induction false} CursorTowardsLast(turns: seq<int>, prompts: seq<int>, units: seq<int>, span: int,
                                             inputs: seq<Input>)
    requires span > 0 && turns != [] && Ascends(turns) && Ticks(inputs, turns, prompts, units, None)
    ensures var r := Run(Start(turns, span), inputs, span);
            && r.cursor.Some? && r.cursor.value <= turns[|turns| - 1]
            && (inputs != [] && inputs[|inputs| - 1].now >= turns[|turns| - 1] + span
                ==> r.cursor.value == turns[|turns| - 1])
    decreases |inputs|
  {
    if inputs != [] {
      var init, inp := inputs[..|inputs| - 1], inputs[|inputs| - 1];
      CursorTowardsLast(turns, prompts, units, span, init);
      TickTowardsLast(Run(Start(turns, span), init, span), inp, turns, prompts, units, span);
    }
  }

  // A prompt that reaches a unit before the last turn has landed by the last tick.
  lemma ReachIsKnown(prompts: seq<int>, now: int, last: int, span: int, u: int)
    requires u < last && last + span <= now
    ensures Reached(Filter(prompts, p => p <= now), span, u) <==> Reached(prompts, span, u)
  {
    if Reached(prompts, span, u) {
      var p :| p in prompts && p - span <= u < p;
      assert p in Filter(prompts, p => p <= now);
    }
  }

  /** The replay covers everything. With ticks no further apart than a span and no batch bound, it ends
      with the cursor at the last turn, so every unit of work before the last turn lies in some
      prompt's look-back or in an emitted window, and never in both. */
  lemma EveryUnitIsCovered(turns: seq<int>, prompts: seq<int>, units: seq<int>, span: int, tick: int,
                           inputs: seq<Input>, u: int)
    requires 0 < tick <= span && turns != [] && Ascends(turns)
    requires Ticks(inputs, turns, prompts, units, None) && Runs(inputs, turns, span, tick)
    ensures Run(Start(turns, span), inputs, span).cursor == Some(turns[|turns| - 1])
    ensures u in units && turns[0] - span <= u < turns[|turns| - 1] ==>
              (Covers(Run(Start(turns, span), inputs, span).published, u) <==> !Reached(prompts, span, u))
  {
    CursorTowardsLast(turns, prompts, units, span, inputs);
    if u in units && turns[0] - span <= u < turns[|turns| - 1] {
      EveryPassedUnitIsCovered(turns, prompts, units, span, None, inputs, u);
      ReachIsKnown(prompts, inputs[|inputs| - 1].now, turns[|turns| - 1], span, u);
    }
  }

  lemma {:induction false} CountsAdd(x: seq<Interval>, y: seq<Interval>, units: seq<int>)
    requires forall t :: !(Covers(x, t) && Covers(y, t))
    ensures CountCovered(x + y, units) == CountCovered(x, units) + CountCovered(y, units)
  {
    if units != [] {
      var t := units[|units| - 1];
      CountsAdd(x, y, units[..|units| - 1]);
      CoversConcat(x, y, t);
    }
  }

  lemma {:induction false} CountSeparated(ivs: seq<Interval>, ts: seq<int>)
    requires Separated(ivs)
    ensures CountHits(ivs, ts) == CountCovered(ivs, ts)
  {
    if ts != [] {
      CountSeparated(ivs, ts[..|ts| - 1]);
      HitIffCovered(ivs, ts[|ts| - 1]);
    }
  }

  /** The recovered coverage is honest: coverage by prompts and ticks together is coverage by prompts
      alone plus the units the emitted windows hold, no unit counted twice. */
  lemma RecoveredCoverageAdds(turns: seq<int>, prompts: seq<int>, units: seq<int>, span: int, maxWindows: Option<int>,
                              inputs: seq<Input>)
    requires span > 0 && turns != [] && inputs != [] && Ticks(inputs, turns, prompts, units, maxWindows)
    ensures var pw, emitted := Covered(prompts, span), Run(Start(turns, span), inputs, span).published;
            CountHits(Merged(pw + emitted), units) == CountHits(pw, units) + CountCovered(emitted, units)
  {
    var pw, emitted := Covered(prompts, span), Run(Start(turns, span), inputs, span).published;
    var last := inputs[|inputs| - 1];
    CoveredIsReached(prompts, span);
    forall t ensures !(Covers(pw, t) && Covers(emitted, t)) {
      if Reached(prompts, span, t) {
        var p :| p in prompts && p - span <= t < p;
        NothingIsPublishedTwice(Start(turns, span), turns[0] - span, inputs, span, t, Max(p, last.now + 1));
        assert p <= last.now ==> p in last.prompts;
      }
    }
    InAnyOfMergeIsNaive(pw + emitted, units);
    CountsAdd(pw, emitted, units);
    CountSeparated(pw, units);
  }
}
