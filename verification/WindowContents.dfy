/** What a window carries and says of its stretch, in terms of the transcript's own turns: which turns it
    may show, which it shows, what a missing one would have cost, and what its header counts. */
module WindowContents {
  import opened Sorting
  import opened Packing
  import opened Windows

  ghost predicate Increasing(at: seq<nat>) { forall i, j | 0 <= i < j < |at| :: at[i] < at[j] }

  // The turns of start..end that may be shown: all of them, or all but the tools'.
  ghost predicate MayShow(at: seq<nat>, turns: seq<Turn>, start: nat, end: nat, strip: bool)
    requires end <= |turns|
  {
    Increasing(at) && forall i: nat :: i in at <==> start <= i < end && (strip ==> turns[i].role != "tool")
  }

  lemma {:induction false} AllPositions(n: nat) returns (at: seq<nat>)
    ensures |at| == n && forall i | 0 <= i < n :: at[i] == i
  {
    at := [];
    for i := 0 to n
      invariant |at| == i && forall j | 0 <= j < i :: at[j] == j
    {
      at := at + [i];
    }
  }

  // Where the displayed turns of a stretch stand in it.
  lemma ShownPositions(full: seq<Turn>, strip: bool) returns (at: seq<nat>)
    ensures MayShow(at, full, 0, |full|, strip) && StandsAt(Shown(full, strip), at, full)
  {
    if strip {
      at := FilterPositions(full, IsShown);
    } else {
      at := AllPositions(|full|);
      forall i: nat ensures i in at <==> i < |full| {
        if i < |full| { assert at[i] == i; }
      }
    }
  }

  // Positions of positions.
  function Through(at: seq<nat>, sel: seq<nat>, offset: nat): (r: seq<nat>)
    requires forall j | 0 <= j < |sel| :: sel[j] < |at|
    ensures |r| == |sel| && forall j | 0 <= j < |sel| :: r[j] == offset + at[sel[j]]
  {
    if sel == [] then [] else Through(at, sel[..|sel| - 1], offset) + [offset + at[sel[|sel| - 1]]]
  }

  lemma Shift(at: seq<nat>, turns: seq<Turn>, start: nat, end: nat, strip: bool) returns (shown: seq<nat>)
    requires start <= end <= |turns| && MayShow(at, turns[start..end], 0, end - start, strip)
    ensures MayShow(shown, turns, start, end, strip) && |shown| == |at|
    ensures forall j | 0 <= j < |at| :: shown[j] == start + at[j]
  {
    var all := AllPositions(|at|);
    shown := Through(at, all, start);
    forall i: nat ensures i in shown <==> start <= i < end && (strip ==> turns[i].role != "tool") {
      ShiftOne(at, shown, start, i);
      if start <= i < end { assert turns[start..end][i - start] == turns[i]; }
    }
  }

  lemma ShiftOne(at: seq<nat>, shown: seq<nat>, start: nat, i: nat)
    requires |shown| == |at| && forall j | 0 <= j < |at| :: shown[j] == start + at[j]
    ensures i in shown <==> start <= i && i - start in at
  {
    if i in shown {
      var j :| 0 <= j < |shown| && shown[j] == i;
      assert at[j] == i - start;
    }
    if start <= i && i - start in at {
      var j :| 0 <= j < |at| && at[j] == i - start;
      assert shown[j] == i;
    }
  }

  lemma Distinct(at: seq<nat>, i: nat, j: nat)
    requires Increasing(at) && i < |at| && j < |at| && i != j
    ensures at[i] != at[j]
  {
    if i < j { assert at[i] < at[j]; } else { assert at[j] < at[i]; }
  }

  // The positions kept: those of `shown` that fit chose.
  ghost predicate Keeps(kept: seq<nat>, shown: seq<nat>, chosen: set<nat>) {
    && Increasing(kept)
    && (forall i | i in kept :: i in shown)
    && (forall j | 0 <= j < |shown| :: shown[j] in kept <==> j in chosen)
  }

  lemma ChosenKeeps(shown: seq<nat>, chosen: set<nat>) returns (kept: seq<nat>)
    requires Increasing(shown)
    ensures Keeps(kept, shown, chosen)
    ensures var sel := Positions(|shown|, chosen);
            |kept| == |sel| && forall j | 0 <= j < |sel| :: sel[j] < |shown| && kept[j] == shown[sel[j]]
  {
    var sel := Positions(|shown|, chosen);
    PositionsAscend(|shown|, chosen);
    assert forall j | 0 <= j < |sel| :: sel[j] in sel;
    kept := Through(shown, sel, 0);
    forall j | 0 <= j < |shown| ensures shown[j] in kept <==> j in chosen {
      KeptIfChosen(shown, sel, kept, chosen, j);
    }
  }

  lemma KeptIfChosen(shown: seq<nat>, sel: seq<nat>, kept: seq<nat>, chosen: set<nat>, j: nat)
    requires Increasing(shown) && sel == Positions(|shown|, chosen) && j < |shown| && |kept| == |sel|
    requires forall k | 0 <= k < |sel| :: sel[k] < |shown| && kept[k] == shown[sel[k]]
    ensures shown[j] in kept <==> j in chosen
  {
    PositionsAreKept(|shown|, chosen, j);
    if shown[j] in kept {
      var k :| 0 <= k < |kept| && kept[k] == shown[j];
      if sel[k] != j { Distinct(shown, sel[k], j); }
      assert sel[k] in sel;
    }
    if j in chosen {
      var k :| 0 <= k < |sel| && sel[k] == j;
      assert kept[k] == shown[j];
    }
  }

  // The window's kept turns, and the budget they were fitted into.
  function LastBudget(w: Window, cap: int, marker: string): int {
    cap - |Lines(w.tools, w.langs, w.files)| - if w.holed then |marker| + 1 else 0
  }

  lemma FittedTurns(stride: seq<Turn>, budget: int, marker: string)
    ensures var (kept, holed) := FitWithMarker(stride, budget, marker);
            && kept == Fit(stride, budget - if holed then |marker| + 1 else 0)
            && (holed <==> Cost(stride) > budget && stride != [])
  {
    FitIsCompleteIffItFits(stride, budget);
    SelectLength(stride, budget);
  }

  lemma PackedTurns(full: seq<Turn>, h: Header, start: nat, end: nat, cap: int, strip: bool, marker: string)
    ensures var w := Pack(full, h, start, end, cap, strip, marker);
            var stride := Shown(full, strip);
            && w.turns == Fit(stride, LastBudget(w, cap, marker)) && w.stride == |stride|
            && (w.holed <==> Cost(stride) > cap - |Lines(h.tools, h.langs, h.files)| && stride != [])
            && w.tools == h.tools && w.langs == h.langs && w.files == h.files && w.start == start && w.end == end
  {
    FittedTurns(Shown(full, strip), cap - Overhead(h), marker);
  }

  // ----- the main statement

  // The turns the window shows stand at the positions `kept`, a part of `shown`; nothing is missing
  // exactly when it is not marked; and a missing turn would have put the rendering over the cap.
  ghost predicate Carries(w: Window, turns: seq<Turn>, shown: seq<nat>, kept: seq<nat>, cap: int, marker: string) {
    && Increasing(kept) && (forall i | i in kept :: i in shown) && StandsAt(w.turns, kept, turns)
    && (!w.holed <==> kept == shown) && w.stride == |shown|
    && forall i | i in shown && i !in kept ::
         i < |turns| && |Render(w, marker)| + |turns[i].role| + 2 + |turns[i].text| + 1 > cap
  }

  // The stretch's own positions, before they are shifted to the transcript's.
  lemma PackCarries(full: seq<Turn>, h: Header, start: nat, end: nat, cap: int, strip: bool, marker: string)
    returns (shown: seq<nat>, kept: seq<nat>)
    ensures MayShow(shown, full, 0, |full|, strip)
    ensures Carries(Pack(full, h, start, end, cap, strip, marker), full, shown, kept, cap, marker)
  {
    var w, stride := Pack(full, h, start, end, cap, strip, marker), Shown(full, strip);
    PackedTurns(full, h, start, end, cap, strip, marker);
    PackKeepsItsCap(full, h, start, end, cap, strip, marker);
    shown := ShownPositions(full, strip);
    kept := FittedCarries(w, full, stride, shown, cap, marker);
  }

  lemma FittedCarries(w: Window, full: seq<Turn>, stride: seq<Turn>, shown: seq<nat>, cap: int, marker: string)
    returns (kept: seq<nat>)
    requires Increasing(shown) && StandsAt(stride, shown, full)
    requires w.turns == Fit(stride, LastBudget(w, cap, marker)) && w.stride == |stride|
    requires w.holed <==> |w.turns| < |stride|
    ensures Carries(w, full, shown, kept, cap, marker)
  {
    var chosen := Pinned(stride, LastBudget(w, cap, marker));
    kept := ChosenKeeps(shown, chosen);
    SelectPositions(stride, |stride|, chosen);
    KeptStands(stride, full, shown, kept, chosen, w.turns);
    AllKeptIff(shown, kept, chosen);
    forall i | i in shown && i !in kept
      ensures i < |full| && |Render(w, marker)| + |full[i].role| + 2 + |full[i].text| + 1 > cap
    {
      var j :| 0 <= j < |shown| && shown[j] == i;
      MissingTurnCosts(w, stride, j, cap, marker);
    }
  }

  lemma KeptStands(stride: seq<Turn>, full: seq<Turn>, shown: seq<nat>, kept: seq<nat>, chosen: set<nat>,
                   out: seq<Turn>)
    requires StandsAt(stride, shown, full) && out == Select(stride, |stride|, chosen)
    requires var sel := Positions(|shown|, chosen);
             |kept| == |sel| && forall j | 0 <= j < |sel| :: sel[j] < |shown| && kept[j] == shown[sel[j]]
    ensures StandsAt(out, kept, full)
  {
    SelectPositions(stride, |stride|, chosen);
  }

  // As many kept as shown is all of them.
  lemma {:induction false} PositionsOfAll(n: nat, chosen: set<nat>)
    ensures |Positions(n, chosen)| <= n
    ensures |Positions(n, chosen)| == n ==> forall j | 0 <= j < n :: Positions(n, chosen)[j] == j
  {
    if n > 0 { PositionsOfAll(n - 1, chosen); }
  }

  lemma AllKeptIff(shown: seq<nat>, kept: seq<nat>, chosen: set<nat>)
    requires var sel := Positions(|shown|, chosen);
             |kept| == |sel| && forall j | 0 <= j < |sel| :: sel[j] < |shown| && kept[j] == shown[sel[j]]
    ensures |kept| <= |shown| && (|kept| == |shown| <==> kept == shown)
  {
    PositionsOfAll(|shown|, chosen);
  }

  // A turn left out would not have fitted.
  lemma MissingTurnCosts(w: Window, stride: seq<Turn>, j: nat, cap: int, marker: string)
    requires w.turns == Fit(stride, LastBudget(w, cap, marker))
    requires j < |stride| && j !in Pinned(stride, LastBudget(w, cap, marker))
    ensures |Render(w, marker)| + |stride[j].role| + 2 + |stride[j].text| + 1 > cap
  {
    FitIsMaximal(stride, LastBudget(w, cap, marker));
    RenderedLength(w, marker);
  }

  /** A window against the transcript: its stretch shows every turn of start..end, or every one that is
      not a tool's when those are stripped; it carries some of them in order, all of them exactly when
      it is not marked; and none it leaves out would have fitted under the cap. */
  lemma WindowCarries(turns: seq<Turn>, metas: seq<Meta>, start: nat, end: nat, cap: int, strip: bool, marker: string)
    returns (shown: seq<nat>, kept: seq<nat>)
    requires start <= end <= |turns|
    ensures MayShow(shown, turns, start, end, strip)
    ensures Carries(MakeWindow(turns, metas, start, end, cap, strip, marker), turns, shown, kept, cap, marker)
  {
    var full := turns[start..end];
    var h := HeaderOf(full, Part(metas, start, end), strip);
    var shown0, kept0 := PackCarries(full, h, start, end, cap, strip, marker);
    shown := Shift(shown0, turns, start, end, strip);
    kept := Shifted(kept0, start);
    CarriesShifted(MakeWindow(turns, metas, start, end, cap, strip, marker), turns, start, end, shown0, kept0,
                   shown, kept, cap, marker);
  }

  lemma Shifted(at: seq<nat>, start: nat) returns (r: seq<nat>)
    ensures |r| == |at| && forall j | 0 <= j < |at| :: r[j] == start + at[j]
  {
    var all := AllPositions(|at|);
    r := Through(at, all, start);
  }

  lemma CarriesShifted(w: Window, turns: seq<Turn>, start: nat, end: nat, shown0: seq<nat>, kept0: seq<nat>,
                       shown: seq<nat>, kept: seq<nat>, cap: int, marker: string)
    requires start <= end <= |turns| && Carries(w, turns[start..end], shown0, kept0, cap, marker)
    requires |shown| == |shown0| && forall j | 0 <= j < |shown0| :: shown[j] == start + shown0[j]
    requires |kept| == |kept0| && forall j | 0 <= j < |kept0| :: kept[j] == start + kept0[j]
    ensures Carries(w, turns, shown, kept, cap, marker)
  {
    forall i: nat
      ensures i in shown <==> start <= i && i - start in shown0
      ensures i in kept <==> start <= i && i - start in kept0
    {
      ShiftOne(shown0, shown, start, i);
      ShiftOne(kept0, kept, start, i);
    }
    assert kept == shown <==> kept0 == shown0 by {
      if kept == shown { assert forall j | 0 <= j < |kept0| :: start + kept0[j] == start + shown0[j]; }
    }
    assert forall j | 0 <= j < |kept0| :: turns[start..end][kept0[j]] == turns[start + kept0[j]];
  }
}
