/** The four bound arms. `Bound` is the one specification they share: from the block's start, take
    the arm's next boundary, emit, repeat. Each method below is one cutter's own loop. */
module Cutters {
  import opened Options
  import opened Sorting
  import opened Blocks
  import Store

  // What ends a block besides a detected cut. `can(s, e)` answers "could [s, e) be attributed?";
  // `instants` are the session's distinct turn instants.
  datatype Arm =
    | Time(cap: int)
    | Gated(cap: int, can: (int, int) -> bool)
    | Turns(instants: seq<int>, n: int)
    | NoBound

  // The gate the store answers: could [s, e) be attributed?
  function StoreGate(ev: seq<Store.Event>): (int, int) -> bool {
    (s, e) => Store.CanAttribute(ev, s, e)
  }

  predicate Sound(arm: Arm) {
    match arm
    case Time(cap) => cap > 0
    case Gated(cap, _) => cap > 0
    case Turns(instants, n) => n >= 1 && StrictlyAscending(instants)
    case NoBound => true
  }

  datatype Boundary = Boundary(end: int, reason: Reason)

  // [c for c in sorted(cuts) if lo < c < hi]
  function Remaining(cuts: seq<int>, lo: int, hi: int): seq<int> {
    Filter(Ascending(cuts), c => lo < c < hi)
  }

  // next((c for c in remaining if c > t), None)
  function NextCut(rem: seq<int>, t: int): Option<int> {
    if rem == [] then None
    else if rem[0] > t then Some(rem[0])
    else NextCut(rem[1..], t)
  }

  // The turns strictly after t and before hi: the naive rescan.
  function TurnsIn(instants: seq<int>, t: int, hi: int): seq<int> {
    Filter(instants, x => t < x < hi)
  }

  // The walk over candidate boundaries of the evidence gate.
  function Gate(cap: int, can: (int, int) -> bool, next: Option<int>, t: int, candidate: int, hi: int,
                deferred: bool): Boundary
    requires cap > 0
    decreases hi - candidate
  {
    if next.Some? && next.value <= candidate then Boundary(next.value, Detected)
    else if candidate >= hi then Boundary(hi, if deferred then SessionEndDeferred else SessionEnd)
    else if can(t, candidate) then Boundary(candidate, if deferred then BoundDeferred else Budget)
    else Gate(cap, can, next, t, candidate + cap, hi, true)
  }

  function Step(arm: Arm, rem: seq<int>, t: int, hi: int): Boundary
    requires Sound(arm)
  {
    var next := NextCut(rem, t);
    match arm
    case Time(cap) =>
      if next.Some? && next.value - t <= cap then Boundary(next.value, Detected)
      else if t + cap < hi then Boundary(t + cap, Budget)
      else Boundary(hi, SessionEnd)
    case Gated(cap, can) => Gate(cap, can, next, t, t + cap, hi, false)
    case Turns(instants, n) =>
      var after := TurnsIn(instants, t, hi);
      var capEnd := if n <= |after| then Some(after[n - 1]) else None;
      if next.Some? && (capEnd == None || next.value <= capEnd.value) then Boundary(next.value, Detected)
      else if capEnd.Some? then Boundary(capEnd.value, Budget)
      else Boundary(hi, SessionEnd)
    case NoBound =>
      if next.Some? then Boundary(next.value, Detected) else Boundary(hi, SessionEnd)
  }

  // The cuts still to consider all lie before the end of the span.
  predicate Below(rem: seq<int>, hi: int) {
    forall i | 0 <= i < |rem| :: rem[i] < hi
  }

  predicate Nondecreasing(rem: seq<int>) {
    forall i, j | 0 <= i < j < |rem| :: rem[i] <= rem[j]
  }

  lemma {:induction false} NextCutIsLeast(rem: seq<int>, t: int)
    requires Nondecreasing(rem)
    ensures match NextCut(rem, t)
            case None => forall c | c in rem :: c <= t
            case Some(c) => c in rem && c > t && forall d | d in rem && d > t :: c <= d
  {
    if rem != [] && rem[0] <= t {
      NextCutIsLeast(rem[1..], t);
      assert rem == [rem[0]] + rem[1..];
    }
  }

  lemma {:induction false} FilterKeepsOrder(s: seq<int>, p: int -> bool)
    requires Nondecreasing(s)
    ensures Nondecreasing(Filter(s, p))
  {
    if s != [] {
      var r := Filter(s[1..], p);
      FilterKeepsOrder(s[1..], p);
      forall j | 0 <= j < |r| ensures s[0] <= r[j] {
        assert r[j] in r;
        assert r[j] in s[1..];
      }
    }
  }

  lemma RemainingFacts(cuts: seq<int>, lo: int, hi: int)
    ensures var rem := Remaining(cuts, lo, hi);
            && Nondecreasing(rem) && Below(rem, hi)
            && forall c :: c in rem <==> c in cuts && lo < c < hi
  {
    AscendingFacts(cuts);
    FilterKeepsOrder(Ascending(cuts), c => lo < c < hi);
    var rem := Remaining(cuts, lo, hi);
    assert forall i | 0 <= i < |rem| :: rem[i] in rem;
  }

  // Well-formed remaining cuts for a walk that ends at hi.
  predicate Pending(rem: seq<int>, hi: int) { Nondecreasing(rem) && Below(rem, hi) }

  lemma {:induction false} GateStep(cap: int, can: (int, int) -> bool, rem: seq<int>, t: int, candidate: int, hi: int,
                                    deferred: bool)
    requires cap > 0 && t < hi && t < candidate && Pending(rem, hi)
    requires forall c | c in rem && c > t :: candidate - cap < c
    ensures var b := Gate(cap, can, NextCut(rem, t), t, candidate, hi, deferred);
            StepIsSound(b, rem, t, hi)
    decreases hi - candidate
  {
    NextCutIsLeast(rem, t);
    var next := NextCut(rem, t);
    if (next.Some? && next.value <= candidate) || candidate >= hi || can(t, candidate) {
      assert forall c | c in rem :: c < hi;
    } else {
      GateStep(cap, can, rem, t, candidate + cap, hi, true);
    }
  }

  // One boundary is sound: it makes progress, stays inside the span, never jumps a cut, is
  // labelled detected exactly at a cut, and closes the session exactly at the end of the span.
  predicate StepIsSound(b: Boundary, rem: seq<int>, t: int, hi: int) {
    && t < b.end <= hi
    && (b.reason == Detected <==> b.end in rem)
    && (EndsSpan(b.reason) <==> b.end == hi)
    && (b.reason == Detected || b.reason == Budget || b.reason == BoundDeferred || EndsSpan(b.reason))
    && (forall c | c in rem && c > t :: b.end <= c)
  }

  lemma {:induction false} StepSound(arm: Arm, rem: seq<int>, t: int, hi: int)
    requires Sound(arm) && t < hi && Pending(rem, hi)
    ensures StepIsSound(Step(arm, rem, t, hi), rem, t, hi)
  {
    NextCutIsLeast(rem, t);
    assert forall c | c in rem :: c < hi;
    match arm
    case Gated(cap, can) => GateStep(cap, can, rem, t, t + cap, hi, false);
    case Turns(instants, n) =>
      var after := TurnsIn(instants, t, hi);
      if n <= |after| { assert after[n - 1] in after; }
    case _ =>
  }

  // The walk from t to hi.
  function Cut(arm: Arm, rem: seq<int>, t: int, hi: int, reason: Reason): seq<Block>
    requires Sound(arm) && Pending(rem, hi)
    decreases hi - t
  {
    if t >= hi then []
    else
      StepSound(arm, rem, t, hi);
      var b := Step(arm, rem, t, hi);
      [Block(t, b.end, reason, b.reason)] + Cut(arm, rem, b.end, hi, b.reason)
  }

  function Bound(arm: Arm, cuts: seq<int>, lo: int, hi: int): seq<Block>
    requires Sound(arm)
  {
    RemainingFacts(cuts, lo, hi);
    Cut(arm, Remaining(cuts, lo, hi), lo, hi, SessionStart)
  }

  // Emitting one block: what is out and what the rest of the walk gives stay the whole.
  lemma Emit(arm: Arm, rem: seq<int>, t: int, hi: int, reason: Reason, out: seq<Block>, whole: seq<Block>)
    requires Sound(arm) && t < hi && Pending(rem, hi) && out + Cut(arm, rem, t, hi, reason) == whole
    ensures var b := Step(arm, rem, t, hi);
            t < b.end && (out + [Block(t, b.end, reason, b.reason)]) + Cut(arm, rem, b.end, hi, b.reason) == whole
  {
    StepSound(arm, rem, t, hi);
    var b := Step(arm, rem, t, hi);
    var now, rest := [Block(t, b.end, reason, b.reason)], Cut(arm, rem, b.end, hi, b.reason);
    assert (out + now) + rest == out + (now + rest);
  }

  // ----- the cutters' own loops

  /** form_blocks, arm A: a cut inside the cap, else the cap, else the end of the span. */
  method FormBlocks(cuts: seq<int>, lo: int, hi: int, capMinutes: int) returns (out: seq<Block>)
    requires capMinutes > 0
    ensures out == Bound(Time(capMinutes * 60), cuts, lo, hi)
  {
    var cap := capMinutes * 60;
    var remaining := Remaining(cuts, lo, hi);
    RemainingFacts(cuts, lo, hi);
    ghost var whole := Bound(Time(cap), cuts, lo, hi);
    out := [];
    var t, reason := lo, SessionStart;
    while t < hi
      invariant out + Cut(Time(cap), remaining, t, hi, reason) == whole
      decreases hi - t
    {
      Emit(Time(cap), remaining, t, hi, reason, out, whole);
      var nxt := NextCut(remaining, t);
      var end, endReason;
      if nxt.Some? && nxt.value - t <= cap {
        end, endReason := nxt.value, Detected;
      } else if t + cap < hi {
        end, endReason := t + cap, Budget;
      } else {
        end, endReason := hi, SessionEnd;
      }
      out := out + [Block(t, end, reason, endReason)];
      t, reason := end, endReason;
    }
  }

  /** bound_evidence_gated, arm B: the cap is a candidate, taken only once the block so far can
      attribute something; otherwise the next multiple of the cap is tried. */
  method BoundEvidenceGated(can: (int, int) -> bool, cuts: seq<int>, lo: int, hi: int, capMinutes: int)
    returns (out: seq<Block>)
    requires capMinutes > 0
    ensures out == Bound(Gated(capMinutes * 60, can), cuts, lo, hi)
  {
    var cap := capMinutes * 60;
    var remaining := Remaining(cuts, lo, hi);
    RemainingFacts(cuts, lo, hi);
    ghost var whole := Bound(Gated(cap, can), cuts, lo, hi);
    out := [];
    var t, reason := lo, SessionStart;
    while t < hi
      invariant out + Cut(Gated(cap, can), remaining, t, hi, reason) == whole
      decreases hi - t
    {
      Emit(Gated(cap, can), remaining, t, hi, reason, out, whole);
      var nxt := NextCut(remaining, t);
      var candidate, deferred := t + cap, false;
      var end, endReason;
      while true
        invariant Gate(cap, can, nxt, t, candidate, hi, deferred) == Step(Gated(cap, can), remaining, t, hi)
        decreases hi - candidate
      {
        if nxt.Some? && nxt.value <= candidate {
          end, endReason := nxt.value, Detected;
          break;
        }
        if candidate >= hi {
          end, endReason := hi, if deferred then SessionEndDeferred else SessionEnd;
          break;
        }
        if can(t, candidate) {
          end, endReason := candidate, if deferred then BoundDeferred else Budget;
          break;
        }
        deferred := true;
        candidate := candidate + cap;
      }
      out := out + [Block(t, end, reason, endReason)];
      t, reason := end, endReason;
    }
  }

  /** bound_none, arm D. */
  method BoundNone(cuts: seq<int>, lo: int, hi: int) returns (out: seq<Block>)
    ensures out == Bound(NoBound, cuts, lo, hi)
  {
    var remaining := Remaining(cuts, lo, hi);
    RemainingFacts(cuts, lo, hi);
    ghost var whole := Bound(NoBound, cuts, lo, hi);
    out := [];
    var t, reason := lo, SessionStart;
    while t < hi
      invariant out + Cut(NoBound, remaining, t, hi, reason) == whole
      decreases hi - t
    {
      Emit(NoBound, remaining, t, hi, reason, out, whole);
      var nxt := NextCut(remaining, t);
      var end, endReason;
      if nxt.Some? {
        end, endReason := nxt.value, Detected;
      } else {
        end, endReason := hi, SessionEnd;
      }
      out := out + [Block(t, end, reason, endReason)];
      t, reason := end, endReason;
    }
  }

  // ----- the two-pointer scan of arm C

  lemma {:induction false} NextCutSkips(rem: seq<int>, ci: nat, t: int)
    requires ci <= |rem| && forall i | 0 <= i < ci :: rem[i] <= t
    requires ci < |rem| ==> rem[ci] > t
    ensures NextCut(rem, t) == if ci < |rem| then Some(rem[ci]) else None
  {
    if ci > 0 { NextCutSkips(rem[1..], ci - 1, t); }
  }

  lemma {:induction false} TurnsInIsSuffix(turns: seq<int>, ti: nat, t: int, hi: int)
    requires ti <= |turns| && (forall i | 0 <= i < ti :: turns[i] <= t)
    requires forall i | ti <= i < |turns| :: t < turns[i] < hi
    ensures TurnsIn(turns, t, hi) == turns[ti..]
  {
    if ti > 0 {
      TurnsInIsSuffix(turns[1..], ti - 1, t, hi);
      assert turns[1..][ti - 1..] == turns[ti..];
    } else if turns != [] {
      TurnsInIsSuffix(turns[1..], 0, t, hi);
    }
  }

  lemma {:induction false} TurnsInNested(instants: seq<int>, lo: int, t: int, hi: int)
    requires lo <= t
    ensures TurnsIn(Between(instants, lo, hi), t, hi) == TurnsIn(instants, t, hi)
  {
    if instants != [] { TurnsInNested(instants[1..], lo, t, hi); }
  }

  // The pointer i has moved past exactly entries at or before t.
  predicate Passed(s: seq<int>, i: nat, t: int) {
    i <= |s| && forall k | 0 <= k < i :: s[k] <= t
  }

  lemma TurnsPastPointer(instants: seq<int>, ti: nat, lo: int, t: int, hi: int)
    requires StrictlyAscending(instants) && lo <= t
    requires var turns := Between(instants, lo, hi);
             Passed(turns, ti, t) && (ti < |turns| ==> turns[ti] > t)
    ensures TurnsIn(instants, t, hi) == Between(instants, lo, hi)[ti..]
  {
    var turns := Between(instants, lo, hi);
    FilterStrict(instants, x => lo <= x < hi);
    assert forall i | 0 <= i < |turns| :: turns[i] in turns;
    TurnsInIsSuffix(turns, ti, t, hi);
    TurnsInNested(instants, lo, t, hi);
  }

  // The boundary read off the two pointers.
  function TwoPointer(turns: seq<int>, ti: nat, n: int, rem: seq<int>, ci: nat, hi: int): Boundary
    requires n >= 1
  {
    var cap := if ti + n - 1 < |turns| then Some(turns[ti + n - 1]) else None;
    var nxt := if ci < |rem| then Some(rem[ci]) else None;
    if nxt.Some? && (cap == None || nxt.value <= cap.value) then Boundary(nxt.value, Detected)
    else if cap.Some? then Boundary(cap.value, Budget)
    else Boundary(hi, SessionEnd)
  }

  // It is the boundary the naive rescan of the step finds.
  lemma TwoPointerStep(instants: seq<int>, n: int, rem: seq<int>, ti: nat, ci: nat, lo: int, t: int, hi: int)
    requires n >= 1 && StrictlyAscending(instants) && Pending(rem, hi) && lo <= t < hi
    requires var turns := Between(instants, lo, hi);
             Passed(turns, ti, t) && (ti < |turns| ==> turns[ti] > t)
    requires Passed(rem, ci, t) && (ci < |rem| ==> rem[ci] > t)
    ensures Step(Turns(instants, n), rem, t, hi) == TwoPointer(Between(instants, lo, hi), ti, n, rem, ci, hi)
  {
    var turns := Between(instants, lo, hi);
    var after := TurnsIn(instants, t, hi);
    assert after == turns[ti..] by { TurnsPastPointer(instants, ti, lo, t, hi); }
    assert NextCut(rem, t) == if ci < |rem| then Some(rem[ci]) else None by { NextCutSkips(rem, ci, t); }
    assert n <= |after| <==> ti + n - 1 < |turns|;
    assert n <= |after| ==> after[n - 1] == turns[ti + n - 1];
  }

  // Both pointers advance past what is not after t.
  method SkipPast(s: seq<int>, i: nat, t: int) returns (j: nat)
    requires Passed(s, i, t)
    ensures i <= j && Passed(s, j, t) && (j < |s| ==> s[j] > t)
  {
    j := i;
    while j < |s| && s[j] <= t
      invariant i <= j && Passed(s, j, t)
    {
      j := j + 1;
    }
  }

  /** bound_turns, arm C. `ti` and `ci` only ever move forward; the specification it meets rescans
      all turns and all cuts at every block. Over Store.Instants, `turns` is what turn_times answers. */
  method BoundTurns(instants: seq<int>, cuts: seq<int>, lo: int, hi: int, n: int) returns (out: seq<Block>)
    requires n >= 1 && StrictlyAscending(instants)
    ensures out == Bound(Turns(instants, n), cuts, lo, hi)
  {
    var turns := Between(instants, lo, hi);
    var remaining := Remaining(cuts, lo, hi);
    RemainingFacts(cuts, lo, hi);
    ghost var whole := Bound(Turns(instants, n), cuts, lo, hi);
    out := [];
    var t, reason := lo, SessionStart;
    var ti, ci := 0, 0;
    while t < hi
      invariant lo <= t && Passed(turns, ti, t) && Passed(remaining, ci, t)
      invariant out + Cut(Turns(instants, n), remaining, t, hi, reason) == whole
      decreases hi - t
    {
      ti := SkipPast(turns, ti, t);
      var capIdx := ti + n - 1;
      var capEnd := if capIdx < |turns| then Some(turns[capIdx]) else None;
      ci := SkipPast(remaining, ci, t);
      var nxt := if ci < |remaining| then Some(remaining[ci]) else None;
      Emit(Turns(instants, n), remaining, t, hi, reason, out, whole);
      TwoPointerStep(instants, n, remaining, ti, ci, lo, t, hi);
      var end, endReason;
      if nxt.Some? && (capEnd == None || nxt.value <= capEnd.value) {
        end, endReason := nxt.value, Detected;
      } else if capEnd.Some? {
        end, endReason := capEnd.value, Budget;
      } else {
        end, endReason := hi, SessionEnd;
      }
      out := out + [Block(t, end, reason, endReason)];
      t, reason := end, endReason;
    }
  }
}
