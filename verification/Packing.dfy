/** fit: keep the engineer's turns first, newest first, then the newest of everything else, and
    charge every one of them to the budget. */
module Packing {
  import opened Sorting

  datatype Turn = Turn(role: string, text: string)

  predicate IsUser(t: Turn) { t.role == "user" }

  // What a rendered turn costs: "role: text\n".
  function RenderedLen(t: Turn): nat { |t.role| + 2 + |t.text| + 1 }

  // One sweep from the newest of the first n turns down, taking what is eligible and still fits.
  function Sweep(stride: seq<Turn>, n: nat, eligible: set<nat>, room: int): set<nat>
    requires n <= |stride|
  {
    if n == 0 then {}
    else if n - 1 in eligible && RenderedLen(stride[n - 1]) <= room then
      Sweep(stride, n - 1, eligible, room - RenderedLen(stride[n - 1])) + {n - 1}
    else Sweep(stride, n - 1, eligible, room)
  }

  // The cost of the kept turns in lo..hi.
  function Spent(stride: seq<Turn>, lo: nat, hi: nat, kept: set<nat>): nat
    requires lo <= hi <= |stride|
  {
    if lo == hi then 0
    else Spent(stride, lo, hi - 1, kept) + if hi - 1 in kept then RenderedLen(stride[hi - 1]) else 0
  }

  function Below(n: nat): (r: set<nat>)
    ensures forall i :: i in r <==> 0 <= i < n
  {
    if n == 0 then {} else Below(n - 1) + {n - 1}
  }

  function Indices(stride: seq<Turn>): set<nat> { Below(|stride|) }

  function UserIndices(stride: seq<Turn>): set<nat> { set i: nat | i < |stride| && IsUser(stride[i]) }

  // The engineer's turns first, charged to the budget.
  function First(stride: seq<Turn>, budget: int): set<nat> {
    Sweep(stride, |stride|, UserIndices(stride), budget)
  }

  // What the first sweep leaves of the budget.
  function Room(stride: seq<Turn>, budget: int): int {
    budget - Spent(stride, 0, |stride|, First(stride, budget))
  }

  // Then whatever is not pinned yet.
  function Second(stride: seq<Turn>, budget: int): set<nat> {
    Sweep(stride, |stride|, Indices(stride) - First(stride, budget), Room(stride, budget))
  }

  function Pinned(stride: seq<Turn>, budget: int): set<nat> {
    First(stride, budget) + Second(stride, budget)
  }

  // [stride[i] for i in sorted(kept)]
  function Select(stride: seq<Turn>, n: nat, kept: set<nat>): (r: seq<Turn>)
    requires n <= |stride|
    ensures |r| <= n
  {
    if n == 0 then []
    else Select(stride, n - 1, kept) + if n - 1 in kept then [stride[n - 1]] else []
  }

  function Fit(stride: seq<Turn>, budget: int): seq<Turn> {
    Select(stride, |stride|, Pinned(stride, budget))
  }

  method FitTurns(stride: seq<Turn>, budget: int) returns (out: seq<Turn>)
    ensures out == Fit(stride, budget)
  {
    var n := |stride|;
    ghost var users := UserIndices(stride);
    var pinned: set<nat> := {};
    var used := 0;
    var i := n;
    while i > 0
      invariant 0 <= i <= n && used == Spent(stride, i, n, pinned)
      invariant forall k | k in pinned :: i <= k < n
      invariant pinned + Sweep(stride, i, users, budget - used) == Sweep(stride, n, users, budget)
    {
      i := i - 1;
      if IsUser(stride[i]) {
        var cost := RenderedLen(stride[i]);
        if used + cost <= budget {
          SpentFrom(stride, i, n, pinned, pinned + {i});
          used := used + cost;
          pinned := pinned + {i};
        } else {
          SpentFrom(stride, i, n, pinned, pinned);
        }
      } else {
        SpentFrom(stride, i, n, pinned, pinned);
      }
    }
    ghost var first := pinned;
    ghost var room := budget - used;
    SweepWithin(stride, n, users, budget);
    ghost var second: set<nat> := {};
    i := n;
    while i > 0
      invariant 0 <= i <= n && pinned == first + second && first !! second
      invariant used == budget - room + Spent(stride, i, n, second)
      invariant forall k | k in second :: i <= k < n
      invariant second + Sweep(stride, i, Indices(stride) - first, budget - used)
             == Sweep(stride, n, Indices(stride) - first, room)
    {
      i := i - 1;
      if i in pinned {
        SpentFrom(stride, i, n, second, second);
        continue;
      }
      var cost := RenderedLen(stride[i]);
      if used + cost <= budget {
        SpentFrom(stride, i, n, second, second + {i});
        used := used + cost;
        pinned := pinned + {i};
        second := second + {i};
      } else {
        SpentFrom(stride, i, n, second, second);
      }
    }
    out := [];
    for k := 0 to n
      invariant out == Select(stride, k, pinned)
    {
      if k in pinned {
        out := out + [stride[k]];
      }
    }
  }

  // ----- arithmetic of kept sets

  lemma {:induction false} SpentAgree(stride: seq<Turn>, lo: nat, hi: nat, a: set<nat>, b: set<nat>)
    requires lo <= hi <= |stride| && forall k | lo <= k < hi :: k in a <==> k in b
    ensures Spent(stride, lo, hi, a) == Spent(stride, lo, hi, b)
    decreases hi
  {
    if lo < hi { SpentAgree(stride, lo, hi - 1, a, b); }
  }

  lemma {:induction false} SpentSplit(stride: seq<Turn>, a: nat, b: nat, c: nat, kept: set<nat>)
    requires a <= b <= c <= |stride|
    ensures Spent(stride, a, c, kept) == Spent(stride, a, b, kept) + Spent(stride, b, c, kept)
    decreases c
  {
    if b < c { SpentSplit(stride, a, b, c - 1, kept); }
  }

  lemma SpentFrom(stride: seq<Turn>, i: nat, n: nat, above: set<nat>, kept: set<nat>)
    requires i < n <= |stride| && (forall k | k in above :: i < k < n) && (kept == above || kept == above + {i})
    ensures Spent(stride, i, n, kept)
            == Spent(stride, i + 1, n, above) + if i in kept then RenderedLen(stride[i]) else 0
  {
    SpentSplit(stride, i, i + 1, n, kept);
    SpentAgree(stride, i + 1, n, kept, above);
    assert Spent(stride, i, i, kept) == 0;
  }

  lemma {:induction false} SweepWithin(stride: seq<Turn>, n: nat, eligible: set<nat>, room: int)
    requires n <= |stride|
    ensures forall k | k in Sweep(stride, n, eligible, room) :: k < n && k in eligible
    ensures Spent(stride, 0, n, Sweep(stride, n, eligible, room)) <= (if room < 0 then 0 else room)
  {
    if n > 0 {
      var kept := Sweep(stride, n, eligible, room);
      var cost := RenderedLen(stride[n - 1]);
      SweepWithin(stride, n - 1, eligible, room - cost);
      SweepWithin(stride, n - 1, eligible, room);
      var below := if n - 1 in eligible && cost <= room then Sweep(stride, n - 1, eligible, room - cost)
                   else Sweep(stride, n - 1, eligible, room);
      SpentAgree(stride, 0, n - 1, kept, below);
    }
  }

  /** The rule of one sweep, with no order of events: an eligible turn is kept exactly when it fits
      next to the newer turns that were kept. */
  lemma {:induction false} SweepRule(stride: seq<Turn>, n: nat, eligible: set<nat>, room: int, i: nat)
    requires i < n <= |stride| && i in eligible
    ensures var kept := Sweep(stride, n, eligible, room);
            i in kept <==> Spent(stride, i + 1, n, kept) + RenderedLen(stride[i]) <= room
    decreases n
  {
    var kept := Sweep(stride, n, eligible, room);
    var cost := RenderedLen(stride[n - 1]);
    var taken := n - 1 in eligible && cost <= room;
    var rest := if taken then room - cost else room;
    SweepWithin(stride, n - 1, eligible, rest);
    if i < n - 1 {
      var below := Sweep(stride, n - 1, eligible, rest);
      SweepRule(stride, n - 1, eligible, rest, i);
      SpentAgree(stride, i + 1, n - 1, kept, below);
    }
  }

  lemma {:induction false} SweepNoneLeft(stride: seq<Turn>, n: nat, eligible: set<nat>, room: int, i: nat)
    requires i < n <= |stride| && i in eligible && i !in Sweep(stride, n, eligible, room)
    ensures Spent(stride, 0, n, Sweep(stride, n, eligible, room)) + RenderedLen(stride[i]) > room
  {
    var kept := Sweep(stride, n, eligible, room);
    SweepRule(stride, n, eligible, room, i);
    SpentSplit(stride, 0, i + 1, n, kept);
  }

  // ----- what fit keeps

  lemma PinnedParts(stride: seq<Turn>, budget: int)
    ensures First(stride, budget) !! Second(stride, budget)
    ensures Spent(stride, 0, |stride|, Pinned(stride, budget))
         == Spent(stride, 0, |stride|, First(stride, budget)) + Spent(stride, 0, |stride|, Second(stride, budget))
  {
    var n := |stride|;
    SweepWithin(stride, n, UserIndices(stride), budget);
    SweepWithin(stride, n, Indices(stride) - First(stride, budget), Room(stride, budget));
    SpentUnion(stride, n, First(stride, budget), Second(stride, budget));
  }

  lemma {:induction false} SpentUnion(stride: seq<Turn>, n: nat, a: set<nat>, b: set<nat>)
    requires n <= |stride| && a !! b
    ensures Spent(stride, 0, n, a + b) == Spent(stride, 0, n, a) + Spent(stride, 0, n, b)
  {
    if n > 0 { SpentUnion(stride, n - 1, a, b); }
  }

  lemma DroppedDoesNotFit(stride: seq<Turn>, budget: int, i: nat)
    requires i < |stride| && i !in Pinned(stride, budget)
    ensures Spent(stride, 0, |stride|, Pinned(stride, budget)) + RenderedLen(stride[i]) > budget
  {
    PinnedParts(stride, budget);
    SweepNoneLeft(stride, |stride|, Indices(stride) - First(stride, budget), Room(stride, budget), i);
  }

  lemma PinnedWithinBudget(stride: seq<Turn>, budget: int)
    ensures Spent(stride, 0, |stride|, Pinned(stride, budget)) <= (if budget < 0 then 0 else budget)
  {
    PinnedParts(stride, budget);
    SweepWithin(stride, |stride|, UserIndices(stride), budget);
    SweepWithin(stride, |stride|, Indices(stride) - First(stride, budget), Room(stride, budget));
  }

  // The second sweep looks at the user turns the first one dropped and takes none of them.
  lemma SecondSweepTakesNoUser(stride: seq<Turn>, budget: int, i: nat)
    requires i < |stride| && IsUser(stride[i])
    ensures i in Pinned(stride, budget) <==> i in First(stride, budget)
  {
    if i !in First(stride, budget) {
      SweepNoneLeft(stride, |stride|, UserIndices(stride), budget, i);
      SweepRule(stride, |stride|, Indices(stride) - First(stride, budget), Room(stride, budget), i);
    }
  }

  // The cost of the kept turns in lo..hi that are the engineer's, or of those that are not.
  function KindCost(stride: seq<Turn>, lo: nat, hi: nat, kept: set<nat>, user: bool): nat
    requires lo <= hi <= |stride|
  {
    if lo == hi then 0
    else
      var t := stride[hi - 1];
      KindCost(stride, lo, hi - 1, kept, user)
      + if hi - 1 in kept && (t.role == "user") == user then |t.role| + |t.text| + 3 else 0
  }

  lemma {:induction false} KindIsSpent(stride: seq<Turn>, lo: nat, hi: nat, kept: set<nat>, some: set<nat>, user: bool)
    requires lo <= hi <= |stride|
    requires forall i | lo <= i < hi :: i in some <==> i in kept && (stride[i].role == "user") == user
    ensures KindCost(stride, lo, hi, kept, user) == Spent(stride, lo, hi, some)
    decreases hi
  {
    if lo < hi { KindIsSpent(stride, lo, hi - 1, kept, some, user); }
  }

  lemma SweepsByKind(stride: seq<Turn>, budget: int, i: nat)
    requires i < |stride|
    ensures i in First(stride, budget) <==> i in Pinned(stride, budget) && stride[i].role == "user"
    ensures i in Second(stride, budget) <==> i in Pinned(stride, budget) && stride[i].role != "user"
  {
    SweepWithin(stride, |stride|, UserIndices(stride), budget);
    SweepWithin(stride, |stride|, Indices(stride) - First(stride, budget), Room(stride, budget));
    if IsUser(stride[i]) { SecondSweepTakesNoUser(stride, budget, i); }
  }

  /** What fit keeps, turn by turn: one of the engineer's when it fits on top of the newer ones of
      theirs; any other when it fits on top of all of theirs that are kept and the newer others. */
  lemma FitRule(stride: seq<Turn>, budget: int, i: nat)
    requires i < |stride|
    ensures var kept, n, cost := Pinned(stride, budget), |stride|, |stride[i].role| + |stride[i].text| + 3;
            i in kept <==>
              if stride[i].role == "user" then KindCost(stride, i + 1, n, kept, true) + cost <= budget
              else KindCost(stride, 0, n, kept, true) + KindCost(stride, i + 1, n, kept, false) + cost <= budget
  {
    var n, kept := |stride|, Pinned(stride, budget);
    var first, second := First(stride, budget), Second(stride, budget);
    forall j | 0 <= j < n
      ensures j in first <==> j in kept && (stride[j].role == "user") == true
      ensures j in second <==> j in kept && (stride[j].role == "user") == false
    {
      SweepsByKind(stride, budget, j);
    }
    KindIsSpent(stride, i + 1, n, kept, first, true);
    KindIsSpent(stride, 0, n, kept, first, true);
    KindIsSpent(stride, i + 1, n, kept, second, false);
    if IsUser(stride[i]) {
      SweepRule(stride, n, UserIndices(stride), budget, i);
    } else {
      SweepWithin(stride, n, UserIndices(stride), budget);
      SweepRule(stride, n, Indices(stride) - first, Room(stride, budget), i);
    }
  }

  // The kept of the first n positions, in order.
  function Positions(n: nat, kept: set<nat>): seq<nat> {
    if n == 0 then [] else Positions(n - 1, kept) + if n - 1 in kept then [n - 1] else []
  }

  lemma {:induction false} PositionsAscend(n: nat, kept: set<nat>)
    ensures forall i | i in Positions(n, kept) :: i < n
    ensures forall i, j | 0 <= i < j < |Positions(n, kept)| :: Positions(n, kept)[i] < Positions(n, kept)[j]
  {
    if n > 0 {
      PositionsAscend(n - 1, kept);
      var before := Positions(n - 1, kept);
      assert forall i | 0 <= i < |before| :: before[i] in before;
    }
  }

  lemma {:induction false} PositionsAreKept(n: nat, kept: set<nat>, i: nat)
    ensures i in Positions(n, kept) <==> i < n && i in kept
  {
    if n > 0 { PositionsAreKept(n - 1, kept, i); }
  }

  lemma {:induction false} SelectPositions(stride: seq<Turn>, n: nat, kept: set<nat>)
    requires n <= |stride|
    ensures StandsAt(Select(stride, n, kept), Positions(n, kept), stride)
  {
    if n > 0 { SelectPositions(stride, n - 1, kept); }
  }

  // ----- which user turns survive

  // The user turns a sweep keeps, computed on the turns themselves.
  function KeptUsers(stride: seq<Turn>, room: int): seq<Turn> {
    if stride == [] then []
    else
      var init, last := stride[..|stride| - 1], stride[|stride| - 1];
      if IsUser(last) && RenderedLen(last) <= room then KeptUsers(init, room - RenderedLen(last)) + [last]
      else KeptUsers(init, room)
  }

  // One more turn: what the sweep does with it, and with the older ones.
  lemma SweepTop(stride: seq<Turn>, n: nat, eligible: set<nat>, room: int)
    requires 0 < n <= |stride|
    ensures var taken := n - 1 in eligible && RenderedLen(stride[n - 1]) <= room;
            var rest := if taken then room - RenderedLen(stride[n - 1]) else room;
            && (n - 1 in Sweep(stride, n, eligible, room) <==> taken)
            && forall i | 0 <= i < n - 1 ::
                 i in Sweep(stride, n, eligible, room) <==> i in Sweep(stride, n - 1, eligible, rest)
  {
    SweepWithin(stride, n - 1, eligible, room);
  }

  lemma {:induction false} SelectUsers(stride: seq<Turn>, n: nat, pinned: set<nat>, eligible: set<nat>, room: int)
    requires n <= |stride|
    requires forall i | 0 <= i < n :: i in eligible <==> IsUser(stride[i])
    requires forall i | 0 <= i < n && IsUser(stride[i]) :: i in pinned <==> i in Sweep(stride, n, eligible, room)
    ensures Filter(Select(stride, n, pinned), IsUser) == KeptUsers(stride[..n], room)
  {
    if n > 0 {
      var last := stride[n - 1];
      var taken := IsUser(last) && RenderedLen(last) <= room;
      SweepTop(stride, n, eligible, room);
      SelectUsers(stride, n - 1, pinned, eligible, if taken then room - RenderedLen(last) else room);
      SelectedUsersTop(stride, n, pinned);
      KeptUsersTop(stride, n, room);
    } else {
      assert stride[..0] == [];
    }
  }

  // The last of the first n turns, seen from both sides.
  lemma SelectedUsersTop(stride: seq<Turn>, n: nat, pinned: set<nat>)
    requires 0 < n <= |stride|
    ensures Filter(Select(stride, n, pinned), IsUser)
            == Filter(Select(stride, n - 1, pinned), IsUser)
               + if n - 1 in pinned && IsUser(stride[n - 1]) then [stride[n - 1]] else []
  {
    if n - 1 in pinned {
      UsersSnoc(Select(stride, n - 1, pinned), stride[n - 1]);
    } else {
      assert Select(stride, n, pinned) == Select(stride, n - 1, pinned);
    }
  }

  lemma KeptUsersTop(stride: seq<Turn>, n: nat, room: int)
    requires 0 < n <= |stride|
    ensures var last, init := stride[n - 1], stride[..n - 1];
            KeptUsers(stride[..n], room) ==
            if IsUser(last) && RenderedLen(last) <= room then KeptUsers(init, room - RenderedLen(last)) + [last]
            else KeptUsers(init, room)
  {
    KeptUsersSnoc(stride[..n - 1], stride[n - 1], room);
    assert stride[..n] == stride[..n - 1] + [stride[n - 1]];
  }

  lemma KeptUsersSnoc(init: seq<Turn>, last: Turn, room: int)
    ensures KeptUsers(init + [last], room) ==
            if IsUser(last) && RenderedLen(last) <= room then KeptUsers(init, room - RenderedLen(last)) + [last]
            else KeptUsers(init, room)
  {
    assert (init + [last])[..|init|] == init;
  }

  lemma UsersSnoc(init: seq<Turn>, last: Turn)
    ensures Filter(init + [last], IsUser)
            == if IsUser(last) then Filter(init, IsUser) + [last] else Filter(init, IsUser)
  {
    FilterConcat(init, [last], IsUser);
    assert Filter([last], IsUser) == if IsUser(last) then [last] else [];
  }

  // The last turn of a stride is no prompt: it changes nothing.
  lemma KeptUsersSkips(init: seq<Turn>, last: Turn, room: int)
    requires !IsUser(last)
    ensures Filter(init + [last], IsUser) == Filter(init, IsUser)
    ensures KeptUsers(init + [last], room) == KeptUsers(init, room)
  {
    UsersSnoc(init, last);
    KeptUsersSnoc(init, last, room);
  }

  // It is a prompt: it is kept or not, on both sides alike.
  lemma KeptUsersTakes(init: seq<Turn>, last: Turn, room: int)
    requires IsUser(last)
    requires var left := if RenderedLen(last) <= room then room - RenderedLen(last) else room;
             KeptUsers(Filter(init, IsUser), left) == KeptUsers(init, left)
    ensures KeptUsers(Filter(init + [last], IsUser), room) == KeptUsers(init + [last], room)
  {
    UsersSnoc(init, last);
    KeptUsersSnoc(init, last, room);
    KeptUsersSnoc(Filter(init, IsUser), last, room);
  }

  lemma {:induction false} KeptUsersOfUsers(stride: seq<Turn>, room: int)
    ensures KeptUsers(Filter(stride, IsUser), room) == KeptUsers(stride, room)
    decreases |stride|
  {
    if stride != [] {
      var init, last := stride[..|stride| - 1], stride[|stride| - 1];
      assert init + [last] == stride;
      if !IsUser(last) {
        KeptUsersOfUsers(init, room);
        KeptUsersSkips(init, last, room);
      } else {
        KeptUsersOfUsers(init, if RenderedLen(last) <= room then room - RenderedLen(last) else room);
        KeptUsersTakes(init, last, room);
      }
    }
  }

  lemma FitUsers(stride: seq<Turn>, budget: int)
    ensures Filter(Fit(stride, budget), IsUser) == KeptUsers(stride, budget)
  {
    forall i | 0 <= i < |stride| && IsUser(stride[i])
      ensures i in Pinned(stride, budget) <==> i in First(stride, budget)
    {
      SecondSweepTakesNoUser(stride, budget, i);
    }
    SelectUsers(stride, |stride|, Pinned(stride, budget), UserIndices(stride), budget);
    assert stride[..|stride|] == stride;
  }

  /** Which of the engineer's turns survive depends on those turns and the budget alone: it is what
      fit would keep had the stride held nothing else. */
  lemma UserTurnsFitAlone(stride: seq<Turn>, budget: int)
    ensures Filter(Fit(stride, budget), IsUser) == Filter(Fit(Filter(stride, IsUser), budget), IsUser)
  {
    FitUsers(stride, budget);
    FitUsers(Filter(stride, IsUser), budget);
    KeptUsersOfUsers(stride, budget);
  }

  // ----- order, cost and completeness of the result

  function Cost(turns: seq<Turn>): nat {
    if turns == [] then 0 else Cost(turns[..|turns| - 1]) + RenderedLen(turns[|turns| - 1])
  }

  lemma {:induction false} SelectCost(stride: seq<Turn>, n: nat, kept: set<nat>)
    requires n <= |stride|
    ensures Cost(Select(stride, n, kept)) == Spent(stride, 0, n, kept)
  {
    if n > 0 {
      SelectCost(stride, n - 1, kept);
      var r := Select(stride, n, kept);
      if n - 1 in kept {
        assert r[..|r| - 1] == Select(stride, n - 1, kept);
      } else {
        assert r == Select(stride, n - 1, kept);
      }
    }
  }

  /** fit returns turns of the stride in their order, costs no more than its budget, and is maximal:
      no turn it dropped could still be added. */
  lemma FitIsMaximal(stride: seq<Turn>, budget: int)
    ensures Fit(stride, budget) == Select(stride, |stride|, Pinned(stride, budget))
    ensures Cost(Fit(stride, budget)) <= (if budget < 0 then 0 else budget)
    ensures forall i | 0 <= i < |stride| && i !in Pinned(stride, budget) ::
              Cost(Fit(stride, budget)) + RenderedLen(stride[i]) > budget
  {
    PinnedWithinBudget(stride, budget);
    SelectCost(stride, |stride|, Pinned(stride, budget));
    forall i | 0 <= i < |stride| && i !in Pinned(stride, budget)
      ensures Cost(Fit(stride, budget)) + RenderedLen(stride[i]) > budget
    {
      DroppedDoesNotFit(stride, budget, i);
    }
  }

  lemma {:induction false} SelectAll(stride: seq<Turn>, n: nat, kept: set<nat>)
    requires n <= |stride|
    ensures |Select(stride, n, kept)| == n <==> forall i: nat | i < n :: i in kept
    ensures |Select(stride, n, kept)| == n ==> Select(stride, n, kept) == stride[..n]
  {
    if n > 0 {
      SelectAll(stride, n - 1, kept);
      assert stride[..n] == stride[..n - 1] + [stride[n - 1]];
    }
  }

  /** fit keeps everything exactly when everything fits; what it returns costs no more than the
      budget, and nothing at all when the budget is negative. */
  lemma FitIsCompleteIffItFits(stride: seq<Turn>, budget: int)
    ensures |Fit(stride, budget)| == |stride| <==> Cost(stride) <= budget || stride == []
    ensures |Fit(stride, budget)| == |stride| ==> Fit(stride, budget) == stride
    ensures Cost(Fit(stride, budget)) <= (if budget < 0 then 0 else budget)
  {
    var n, kept := |stride|, Pinned(stride, budget);
    FitIsMaximal(stride, budget);
    SelectCost(stride, n, kept);
    SelectAll(stride, n, kept);
    SelectCost(stride, n, Indices(stride));
    SelectAll(stride, n, Indices(stride));
    assert stride[..n] == stride;
    if |Fit(stride, budget)| == n {
      if n > 0 { CostPositive(stride); }
    } else if Cost(stride) <= budget {
      var i :| 0 <= i < n && i !in kept;
      SpentLess(stride, n, kept, i);
    }
  }

  lemma CostPositive(turns: seq<Turn>)
    requires turns != []
    ensures Cost(turns) > 0
  {
  }

  lemma {:induction false} SpentLess(stride: seq<Turn>, n: nat, kept: set<nat>, i: nat)
    requires i < n <= |stride| && i !in kept
    ensures Spent(stride, 0, n, kept) + RenderedLen(stride[i]) <= Spent(stride, 0, n, Indices(stride))
  {
    if i == n - 1 {
      SpentMost(stride, n - 1, kept);
    } else {
      SpentLess(stride, n - 1, kept, i);
    }
  }

  lemma {:induction false} SpentMost(stride: seq<Turn>, n: nat, kept: set<nat>)
    requires n <= |stride|
    ensures Spent(stride, 0, n, kept) <= Spent(stride, 0, n, Indices(stride))
  {
    if n > 0 { SpentMost(stride, n - 1, kept); }
  }
}
