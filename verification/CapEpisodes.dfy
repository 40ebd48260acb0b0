/** Which transcripts the length cap can mislabel: the condition on a whole call of episodes. */
module CapEpisodes {
  import opened Options
  import opened Episodes
  import opened EpisodeScan

  // ----- the machine before each bin, and what the whole call makes of it

  // The machine when bins 0..i have been scanned.
  function Upto<S(==)>(c: Config<S>, i: nat): (m: Machine<S>)
    requires 0 < i <= |c.times| == |c.states|
    ensures InRange(m, i)
  {
    if i == 1 then Initial()
    else
      StepInRange(c, Upto(c, i - 1), i - 1);
      Step(c, Upto(c, i - 1), i - 1)
  }

  // A property that every step keeps holds before every bin.
  lemma {:induction false} UptoInduction<S(!new)>(c: Config<S>, i: nat, p: (Machine<S>, nat) -> bool)
    requires 0 < i <= |c.times| == |c.states| && p(Initial(), 1)
    requires forall a, j: nat | 0 < j < |c.times| && InRange(a, j) && p(a, j) :: p(Step(c, a, j), j + 1)
    ensures p(Upto(c, i), i)
  {
    if i > 1 { UptoInduction(c, i - 1, p); }
  }

  lemma UptoInv<S(!new)>(c: Config<S>, i: nat)
    requires WellFormed(c) && 0 < i <= |c.times|
    ensures Inv(c, Upto(c, i), i)
  {
    InitialInv(c);
    forall a, j: nat | 0 < j < |c.times| && InRange(a, j) && Inv(c, a, j) ensures Inv(c, Step(c, a, j), j + 1) {
      StepKeeps(c, a, j);
    }
    UptoInduction(c, i, (a: Machine<S>, j: nat) => Inv(c, a, j));
  }

  lemma {:induction false} ScanIsUpto<S>(c: Config<S>, i: nat)
    requires 0 < i <= |c.times| == |c.states|
    ensures Scan(c, Upto(c, i), i) == Upto(c, |c.times|)
    decreases |c.times| - i
  {
    if i < |c.times| {
      StepInRange(c, Upto(c, i), i);
      ScanIsUpto(c, i + 1);
    }
  }

  // The machine after the last flush and close.
  function Final<S(==)>(c: Config<S>): Machine<S>
    requires WellFormed(c) && c.times != []
  {
    CloseAt(Flushed(c, Upto(c, |c.times|), |c.times|), |c.times|, NothingFollows)
  }

  lemma SlicesAreFinal<S>(c: Config<S>)
    requires WellFormed(c) && c.times != []
    ensures Slices(c) == Final(c).out
  {
    ScanIsUpto(c, 1);
  }

  // r has closed all that m has, and the slice m has open is the next one r closes.
  ghost predicate Extends<S>(m: Machine<S>, r: Machine<S>) {
    && m.out <= r.out
    && if |r.out| == |m.out| then r.start == m.start && r.reason == m.reason
       else r.out[|m.out|].from == m.start && r.out[|m.out|].reason == m.reason
  }

  lemma ExtendsTransitive<S>(a: Machine<S>, b: Machine<S>, d: Machine<S>)
    requires Extends(a, b) && Extends(b, d)
    ensures Extends(a, d)
  {
    if |b.out| > |a.out| { assert d.out[|a.out|] == b.out[|a.out|]; }
  }

  lemma CloseExtends<S>(m: Machine<S>, end: nat, why: Opening)
    requires m.start < end
    ensures var r := CloseAt(m, end, why).(pending := None);
            Extends(m, CloseAt(m, end, why)) && Extends(m, r) && r.start == end && r.reason == why
            && r.out == m.out + [Slice(m.start, end, m.reason)]
  {
  }

  lemma FlushExtends<S>(c: Config<S>, m: Machine<S>, i: nat)
    requires 0 < i <= |c.states| && (m.pending.Some? ==> m.start < m.pending.value.from < i) && m.start < i
    ensures var f := Flushed(c, m, i);
            && Extends(m, f) && f.start < i
            && (f.out == m.out || (|f.out| == |m.out| + 1 && f.reason == StateChanged))
  {
    if m.pending.Some? { CloseExtends(m, m.pending.value.from, StateChanged); }
  }

  // The cap is what closes a slice at bin i.
  ghost predicate CapsAt<S>(c: Config<S>, m: Machine<S>, i: nat)
    requires 0 < i < |c.times| == |c.states| && m.start < |c.states|
  {
    && Gap(c, i) <= c.maxGap && c.times[i] - c.times[m.start] >= c.maxSpan
    && var p := Noted(c, m, i).pending; p.Some? ==> p.value.length < c.debounce
  }

  // A flush and then a close, at bin i.
  lemma FlushCloseExtends<S>(c: Config<S>, m: Machine<S>, i: nat, why: Opening)
    requires 0 < i <= |c.states|
    requires m.pending.Some? ==> m.start < m.pending.value.from < i || c.states[i - 1] != m.pending.value.state
    requires m.start < i
    ensures var r := CloseAt(Flushed(c, m, i), i, why).(pending := None);
            && Extends(m, r) && r.start == i && r.reason == why && |m.out| < |r.out| <= |m.out| + 2
            && (|r.out| == |m.out| + 2 ==> r.out[|m.out| + 1].reason == StateChanged)
  {
    var f := Flushed(c, m, i);
    if f != m { FlushExtends(c, m, i); }
    CloseExtends(f, i, why);
    ExtendsTransitive(m, f, CloseAt(f, i, why).(pending := None));
  }

  lemma StepExtends<S>(c: Config<S>, m: Machine<S>, i: nat)
    requires Inv(c, m, i) && i < |c.times|
    ensures var r := Step(c, m, i);
            && Extends(m, r) && m.start <= r.start && |r.out| <= |m.out| + 2
            && (|r.out| == |m.out| + 2 ==> r.out[|m.out| + 1].reason == StateChanged)
            && (|r.out| > |m.out| && r.reason == ReachedCap ==> CapsAt(c, m, i))
            && (Gap(c, i) > c.maxGap || CapsAt(c, m, i) ==> r.start == i)
  {
    var noted := Noted(c, m, i);
    if Gap(c, i) > c.maxGap {
      FlushCloseExtends(c, m, i, Resumed(Gap(c, i)));
    } else if noted.pending.Some? && noted.pending.value.length >= c.debounce {
      NotedRun(c, m, i);
      CloseExtends(noted, noted.pending.value.from, StateChanged);
    } else if c.times[i] - c.times[m.start] >= c.maxSpan {
      if noted.pending.Some? { NotedRun(c, m, i); }
      FlushCloseExtends(c, noted, i, ReachedCap);
    }
  }

  lemma FinalExtends<S(!new)>(c: Config<S>)
    requires WellFormed(c) && c.times != []
    ensures var m, r := Upto(c, |c.times|), Final(c);
            && Extends(m, r) && |m.out| < |r.out| <= |m.out| + 2
            && (|r.out| == |m.out| + 2 ==> r.out[|m.out| + 1].reason == StateChanged)
  {
    UptoInv(c, |c.times|);
    FlushCloseExtends(c, Upto(c, |c.times|), |c.times|, NothingFollows);
  }

  // ----- one step, in what the argument below needs of it

  ghost predicate OneState<S>(c: Config<S>) {
    forall i, j | 0 <= i < |c.states| && 0 <= j < |c.states| :: c.states[i] == c.states[j]
  }

  // The slice a cap closes at bin i, and when it ends on its own state.
  ghost predicate CapSlice<S>(c: Config<S>, m: Machine<S>, s: Slice, i: nat)
    requires 0 < i < |c.states| && m.start < |c.states|
  {
    && s.from < s.to == i
    && (EndsOnItsOwn(c, s) <==> c.states[i - 1] == c.states[m.start] || c.states[i - 1] == c.states[i])
  }

  ghost predicate Link<S>(c: Config<S>, m: Machine<S>, r: Machine<S>, i: nat)
    requires 0 < i < |c.times| == |c.states|
  {
    && m.start < i && m.start <= r.start && Extends(m, r) && |r.out| <= |m.out| + 2
    && (|r.out| == |m.out| + 2 ==> r.out[|m.out| + 1].reason == StateChanged)
    && (|r.out| > |m.out| && r.reason == ReachedCap ==> CapsAt(c, m, i))
    && (Gap(c, i) > c.maxGap ==> r.start == i)
    && (CapsAt(c, m, i) ==> r.start == i && r.reason == ReachedCap && |r.out| > |m.out|
                            && CapSlice(c, m, r.out[|r.out| - 1], i))
  }

  // What one state throughout, or the debounce, adds.
  ghost predicate PlainLink<S>(c: Config<S>, m: Machine<S>, r: Machine<S>, i: nat)
    requires 0 < i < |c.times| == |c.states| && m.start < i
  {
    && (c.debounce <= 1 ==> c.states[i - 1] == c.states[m.start])
    && (c.debounce >= 2 && m.start == i - 1 && c.maxSpan <= Gap(c, i) <= c.maxGap ==> CapsAt(c, m, i))
    && (OneState(c) && Gap(c, i) <= c.maxGap ==>
          if c.times[i] - c.times[m.start] >= c.maxSpan then
            CapsAt(c, m, i) && r.out == m.out + [Slice(m.start, i, m.reason)]
          else r == m && m.pending == None)
  }

  lemma OneStateNotes<S>(c: Config<S>, m: Machine<S>, i: nat)
    requires Inv(c, m, i) && OneState(c)
    ensures m.pending == None && (i < |c.times| ==> Noted(c, m, i).pending == None)
  {
    if m.pending.Some? { PendingDiffers(c, m, i); }
  }

  lemma PendingDiffers<S>(c: Config<S>, m: Machine<S>, i: nat)
    requires Inv(c, m, i) && m.pending.Some?
    ensures c.states[m.pending.value.from] != c.states[m.start]
  {
  }

  lemma CapLink<S>(c: Config<S>, m: Machine<S>, i: nat)
    requires Inv(c, m, i) && i < |c.times| && CapsAt(c, m, i)
    ensures var r := Step(c, m, i); r.out != [] && r.reason == ReachedCap && CapSlice(c, m, r.out[|r.out| - 1], i)
  {
    var noted := Noted(c, m, i);
    if noted.pending.Some? { NotedRun(c, m, i); }
    FlushCloseExtends(c, noted, i, ReachedCap);
    CapEndsOnItsOwnIff(c, m, i);
  }

  lemma StepLinks<S>(c: Config<S>, m: Machine<S>, i: nat)
    requires Inv(c, m, i) && i < |c.times|
    ensures Link(c, m, Step(c, m, i), i)
  {
    StepExtends(c, m, i);
    if CapsAt(c, m, i) { CapLink(c, m, i); }
  }

  lemma StepLinksPlainly<S>(c: Config<S>, m: Machine<S>, i: nat)
    requires Inv(c, m, i) && i < |c.times|
    ensures PlainLink(c, m, Step(c, m, i), i)
  {
    if OneState(c) { OneStateNotes(c, m, i); }
  }

  // ----- the machines before every bin

  // ms[i] is the machine when bins 0..i have been scanned; v are the slices of the whole call.
  ghost predicate Trace<S>(c: Config<S>, ms: seq<Machine<S>>, v: seq<Slice>) {
    && WellFormed(c) && |ms| == |c.times| + 1 >= 2 && ms[1].out == []
    && (forall i, j | 0 < i < |c.times| && j == i + 1 :: Link(c, ms[i], ms[j], i) && PlainLink(c, ms[i], ms[j], i))
    && ms[|c.times|].out <= v && |ms[|c.times|].out| < |v| <= |ms[|c.times|].out| + 2
    && v[|ms[|c.times|].out|].from == ms[|c.times|].start && v[|ms[|c.times|].out|].reason == ms[|c.times|].reason
    && (|v| == |ms[|c.times|].out| + 2 ==> v[|v| - 1].reason == StateChanged)
  }

  lemma {:induction false} Machines<S>(c: Config<S>, n: nat) returns (ms: seq<Machine<S>>)
    requires 0 < n <= |c.times| == |c.states|
    ensures |ms| == n + 1 && forall i | 0 < i <= n :: ms[i] == Upto(c, i)
  {
    if n == 1 {
      ms := [Initial(), Initial()];
    } else {
      ms := Machines(c, n - 1);
      ms := ms + [Upto(c, n)];
    }
  }

  lemma LinkAt<S(!new)>(c: Config<S>, i: nat)
    requires WellFormed(c) && 0 < i < |c.times|
    ensures Link(c, Upto(c, i), Upto(c, i + 1), i) && PlainLink(c, Upto(c, i), Upto(c, i + 1), i)
  {
    UptoInv(c, i);
    StepLinks(c, Upto(c, i), i);
    StepLinksPlainly(c, Upto(c, i), i);
  }

  lemma TraceOf<S(!new)>(c: Config<S>) returns (ms: seq<Machine<S>>)
    requires WellFormed(c) && c.times != []
    ensures Trace(c, ms, Slices(c)) && forall i | 0 < i <= |c.times| :: ms[i] == Upto(c, i)
  {
    ms := Machines(c, |c.times|);
    forall i, j | 0 < i < |c.times| && j == i + 1 ensures Link(c, ms[i], ms[j], i) && PlainLink(c, ms[i], ms[j], i) {
      LinkAt(c, i);
    }
    SlicesAreFinal(c);
    FinalExtends(c);
  }

  // What the machine has open before bin i is a slice of the whole call.
  lemma {:induction false} NextSlice<S>(c: Config<S>, ms: seq<Machine<S>>, v: seq<Slice>, i: nat)
    requires Trace(c, ms, v) && 0 < i <= |c.times|
    ensures ms[i].out <= v && |ms[i].out| < |v|
    ensures v[|ms[i].out|].from == ms[i].start && v[|ms[i].out|].reason == ms[i].reason
    decreases |c.times| - i
  {
    if i < |c.times| {
      var j := i + 1;
      assert Link(c, ms[i], ms[j], i);
      NextSlice(c, ms, v, j);
      if |ms[j].out| > |ms[i].out| { assert v[|ms[i].out|] == ms[j].out[|ms[i].out|]; }
    }
  }

  // ----- slices the cap closed

  predicate CapClosed(v: seq<Slice>, k: nat) { k + 1 < |v| && v[k + 1].reason == ReachedCap }

  // The bin after which k + 1 slices are closed.
  lemma ClosingBin<S>(c: Config<S>, ms: seq<Machine<S>>, v: seq<Slice>, k: nat) returns (i: nat, j: nat)
    requires Trace(c, ms, v) && CapClosed(v, k)
    ensures 0 < i < |c.times| && j == i + 1 && |ms[i].out| <= k < |ms[j].out|
  {
    i, j := 1, 2;
    while |ms[j].out| <= k
      invariant 0 < i < |c.times| && j == i + 1 && |ms[i].out| <= k
      decreases |c.times| - i
    {
      i, j := j, j + 1;
    }
  }

  // A slice the cap closed was closed by the cap.
  lemma CapClosedAt<S>(c: Config<S>, ms: seq<Machine<S>>, v: seq<Slice>, k: nat) returns (i: nat)
    requires Trace(c, ms, v) && CapClosed(v, k)
    ensures 0 < i < |c.times| && ms[i].start < i && CapsAt(c, ms[i], i) && CapSlice(c, ms[i], v[k], i)
  {
    var j;
    i, j := ClosingBin(c, ms, v, k);
    assert Link(c, ms[i], ms[j], i);
    NextSlice(c, ms, v, j);
    assert forall x | 0 <= x < |ms[j].out| :: v[x] == ms[j].out[x];
  }

  // And what the cap closes at bin i is a slice the cap closed.
  lemma CapClosesSlice<S>(c: Config<S>, ms: seq<Machine<S>>, v: seq<Slice>, i: nat) returns (k: nat)
    requires Trace(c, ms, v) && 0 < i < |c.times| && ms[i].start < i && CapsAt(c, ms[i], i)
    ensures CapClosed(v, k) && CapSlice(c, ms[i], v[k], i)
    ensures k + 1 == |ms[i + 1].out| && v[k] == ms[i + 1].out[k]
  {
    var j := i + 1;
    assert Link(c, ms[i], ms[j], i);
    NextSlice(c, ms, v, j);
    k := |ms[j].out| - 1;
  }

  ghost predicate Own<S>(c: Config<S>, s: Slice) {
    s.from < s.to <= |c.states| && EndsOnItsOwn(c, s)
  }

  ghost predicate CapsEndOnTheirOwn<S>(c: Config<S>)
    requires WellFormed(c)
  {
    forall k: nat | CapClosed(Slices(c), k) :: Own(c, Slices(c)[k])
  }

  /** For each episode the cap closed, in a whole transcript: it ends on its own state if and only if
      its last bin, or the bin that reached the cap, has the state that was open. */
  lemma CapClosedEndsOnItsOwnIff<S(!new)>(c: Config<S>, k: nat) returns (i: nat)
    requires WellFormed(c) && c.times != [] && CapClosed(Slices(c), k)
    ensures 0 < i < |c.times| && Slices(c)[k].to == i
    ensures Own(c, Slices(c)[k])
       <==> c.states[i - 1] == c.states[Upto(c, i).start] || c.states[i - 1] == c.states[i]
  {
    var ms := TraceOf(c);
    i := CapClosedAt(c, ms, Slices(c), k);
  }

  // ----- the same scan with one state throughout

  function Uniform<S>(x: S, n: nat): (s: seq<S>)
    ensures |s| == n && forall i | 0 <= i < n :: s[i] == x
  {
    if n == 0 then [] else Uniform(x, n - 1) + [x]
  }

  // The cap closes an episode of two bins or more.
  ghost predicate CapsSeveral<S>(c: Config<S>)
    requires WellFormed(c)
  {
    exists k: nat :: CapClosed(Slices(c), k) && Slices(c)[k].to - Slices(c)[k].from >= 2
  }

  // If it caps single bins only, it never lags behind a scan of other states.
  lemma SingleCap<S>(c: Config<S>, ms: seq<Machine<S>>, i: nat)
    requires WellFormed(c) && Trace(c, ms, Slices(c)) && OneState(c) && !CapsSeveral(c)
    requires 0 < i < |c.times| && ms[i].start < i && CapsAt(c, ms[i], i)
    ensures ms[i].start == i - 1
  {
    var k := CapClosesSlice(c, ms, Slices(c), i);
    assert PlainLink(c, ms[i], ms[i + 1], i);
    assert Slices(c)[k] == Slice(ms[i].start, i, ms[i].reason);
  }

  ghost predicate SameRules<S>(a: Config<S>, b: Config<S>) {
    && WellFormed(a) && WellFormed(b) && a.times == b.times
    && a.debounce == b.debounce && a.maxGap == b.maxGap && a.maxSpan == b.maxSpan
  }

  lemma {:induction false} StartsLead<S>(c0: Config<S>, ms0: seq<Machine<S>>, c: Config<S>, ms: seq<Machine<S>>, i: nat)
    requires SameRules(c0, c) && Trace(c0, ms0, Slices(c0)) && Trace(c, ms, Slices(c))
    requires OneState(c0) && !CapsSeveral(c0) && c.debounce >= 2 && 0 < i <= |c.times|
    requires ms0[1] == ms[1]
    ensures ms0[i].start <= ms[i].start
  {
    if i > 1 {
      var j := i - 1;
      StartsLead(c0, ms0, c, ms, j);
      if ms0[j].start < j && CapsAt(c0, ms0[j], j) { SingleCap(c0, ms0, j); }
      TraceLinks(c0, ms0, Slices(c0), j, i);
      TraceLinks(c, ms, Slices(c), j, i);
      StepLeads(c0, ms0[j], ms0[i], c, ms[j], ms[i], j);
    }
  }

  lemma TraceLinks<S>(c: Config<S>, ms: seq<Machine<S>>, v: seq<Slice>, i: nat, j: nat)
    requires Trace(c, ms, v) && 0 < i < |c.times| && j == i + 1
    ensures Link(c, ms[i], ms[j], i) && PlainLink(c, ms[i], ms[j], i)
  {
  }

  lemma StepLeads<S>(c0: Config<S>, m0: Machine<S>, r0: Machine<S>, c: Config<S>, m: Machine<S>, r: Machine<S>, i: nat)
    requires SameRules(c0, c) && OneState(c0) && c.debounce >= 2 && 0 < i < |c.times|
    requires Link(c0, m0, r0, i) && PlainLink(c0, m0, r0, i) && Link(c, m, r, i) && PlainLink(c, m, r, i)
    requires m0.start <= m.start && (CapsAt(c0, m0, i) ==> m0.start == i - 1)
    ensures r0.start <= r.start
  {
    assert Gap(c0, i) == Gap(c, i);
  }

  // So what the cap closes, it closes at one bin's length, whatever the states.
  lemma CapsSingleBins<S>(c0: Config<S>, ms0: seq<Machine<S>>, c: Config<S>, ms: seq<Machine<S>>, i: nat)
    requires SameRules(c0, c) && Trace(c0, ms0, Slices(c0)) && Trace(c, ms, Slices(c))
    requires OneState(c0) && !CapsSeveral(c0) && c.debounce >= 2 && ms0[1] == ms[1]
    requires 0 < i < |c.times| && ms[i].start < i && CapsAt(c, ms[i], i)
    ensures ms[i].start == i - 1
  {
    var j := i + 1;
    StartsLead(c0, ms0, c, ms, i);
    assert Link(c0, ms0[i], ms0[j], i) && PlainLink(c0, ms0[i], ms0[j], i);
    assert Gap(c0, i) == Gap(c, i);
    assert ms0[i].start < ms[i].start ==> c.times[ms0[i].start] < c.times[ms[i].start];
    SingleCap(c0, ms0, i);
  }

  lemma SingleBinsAreOwn<S(!new)>(c0: Config<S>, c: Config<S>)
    requires SameRules(c0, c) && OneState(c0) && !CapsSeveral(c0) && c.debounce >= 2 && c.times != []
    ensures CapsEndOnTheirOwn(c)
  {
    var ms0 := TraceOf(c0);
    var ms := TraceOf(c);
    forall k: nat | CapClosed(Slices(c), k) ensures Own(c, Slices(c)[k]) {
      var i := CapClosedAt(c, ms, Slices(c), k);
      CapsSingleBins(c0, ms0, c, ms, i);
    }
  }

  // Without a debounce nothing is ever pending.
  lemma NoDebounceIsOwn<S(!new)>(c: Config<S>)
    requires WellFormed(c) && c.debounce <= 1 && c.times != []
    ensures CapsEndOnTheirOwn(c)
  {
    var ms := TraceOf(c);
    forall k: nat | CapClosed(Slices(c), k) ensures Own(c, Slices(c)[k]) {
      var i := CapClosedAt(c, ms, Slices(c), k);
      assert PlainLink(c, ms[i], ms[i + 1], i);
    }
  }

  // ----- one stray bin is enough

  // Scans agree as long as the states do.
  lemma {:induction false} UptoAgrees<S>(a: Config<S>, b: Config<S>, i: nat)
    requires SameRules(a, b) && 0 < i <= |a.times| && forall j | 0 <= j < i :: a.states[j] == b.states[j]
    ensures Upto(a, i) == Upto(b, i)
  {
    if i > 1 {
      UptoAgrees(a, b, i - 1);
      StepAgrees(a, b, Upto(a, i - 1), i - 1);
    }
  }

  lemma StepAgrees<S>(a: Config<S>, b: Config<S>, m: Machine<S>, i: nat)
    requires SameRules(a, b) && 0 < i < |a.times| && InRange(m, i)
    requires forall j | 0 <= j <= i :: a.states[j] == b.states[j]
    ensures Step(a, m, i) == Step(b, m, i)
  {
  }

  // An episode of two bins or more was open one bin earlier too.
  lemma StillOpenBefore<S>(c: Config<S>, ms: seq<Machine<S>>, v: seq<Slice>, i: nat)
    requires Trace(c, ms, v) && OneState(c) && 0 < i < |c.times| && ms[i].start < i - 1
    ensures i > 1 && ms[i - 1] == ms[i] && ms[i].pending == None
    ensures Gap(c, i - 1) <= c.maxGap && c.times[i - 1] - c.times[ms[i].start] < c.maxSpan
  {
    var j := i - 1;
    assert Link(c, ms[j], ms[i], j) && PlainLink(c, ms[j], ms[i], j);
  }

  // One step past a stray bin.
  lemma StrayStep<S>(c: Config<S>, m: Machine<S>, j: nat)
    requires 0 < j < |c.times| == |c.states| && m.start < j && m.pending == None && c.debounce >= 2
    requires Gap(c, j) <= c.maxGap && c.times[j] - c.times[m.start] < c.maxSpan && c.states[j] != c.states[m.start]
    ensures Step(c, m, j) == m.(pending := Some(Run(c.states[j], 1, j)))
  {
  }

  // The bin before a capped one, turned stray, is where the episode ends.
  lemma StrayBeforeCap<S(!new)>(c0: Config<S>, ms0: seq<Machine<S>>, i: nat, y: S) returns (c: Config<S>)
    requires WellFormed(c0) && Trace(c0, ms0, Slices(c0)) && OneState(c0) && c0.debounce >= 2 && 0 < i < |c0.times|
    requires forall j | 0 < j <= |c0.times| :: ms0[j] == Upto(c0, j)
    requires ms0[i].start < i - 1 && CapsAt(c0, ms0[i], i) && y != c0.states[i]
    ensures SameRules(c0, c) && !CapsEndOnTheirOwn(c)
  {
    c := c0.(states := c0.states[i - 1 := y]);
    var m := ms0[i];
    StillOpenBefore(c0, ms0, Slices(c0), i);
    UptoAgrees(c0, c, i - 1);
    StrayStep(c, m, i - 1);
    var ms := TraceOf(c);
    assert ms[i] == m.(pending := Some(Run(y, 1, i - 1)));
    assert c.states[i] == c.states[m.start] == c0.states[i];
    var k := CapClosesSlice(c, ms, Slices(c), i);
    assert !Own(c, Slices(c)[k]);
  }

  lemma SeveralMislabels<S(!new)>(c0: Config<S>, y: S) returns (c: Config<S>)
    requires WellFormed(c0) && OneState(c0) && c0.debounce >= 2 && c0.times != [] && CapsSeveral(c0)
    requires y != c0.states[0]
    ensures SameRules(c0, c) && !CapsEndOnTheirOwn(c)
  {
    var v := Slices(c0);
    var k: nat :| CapClosed(v, k) && v[k].to - v[k].from >= 2;
    var ms0 := TraceOf(c0);
    var i := SeveralAt(c0, ms0, v, k);
    c := StrayBeforeCap(c0, ms0, i, y);
  }

  lemma SeveralAt<S>(c: Config<S>, ms: seq<Machine<S>>, v: seq<Slice>, k: nat) returns (i: nat)
    requires Trace(c, ms, v) && OneState(c) && CapClosed(v, k) && v[k].to - v[k].from >= 2
    ensures 0 < i < |c.times| && ms[i].start < i - 1 && CapsAt(c, ms[i], i)
  {
    var j;
    i, j := ClosingBin(c, ms, v, k);
    assert Link(c, ms[i], ms[j], i) && PlainLink(c, ms[i], ms[j], i);
    NextSlice(c, ms, v, j);
    assert v[k] == ms[j].out[k];
  }

  /** When the cap keeps the promise. For given instants, debounce, gap and length cap, every episode
      the cap closes ends on its own state, whatever the states, if and only if the debounce is at
      most one bin or the cap, on a transcript of one state throughout, closes only episodes of a
      single bin. Otherwise one stray bin before a capped one is enough to break it. */
  lemma CapsEndOnTheirOwnIff<S(!new)>(times: seq<int>, debounce: int, maxGap: int, maxSpan: int, x: S, y: S)
    requires times != [] && x != y && forall i, j | 0 <= i < j < |times| :: times[i] < times[j]
    ensures (forall states: seq<S> | |states| == |times| ::
               CapsEndOnTheirOwn(Config(times, states, debounce, maxGap, maxSpan)))
       <==> debounce <= 1 || !CapsSeveral(Config(times, Uniform(x, |times|), debounce, maxGap, maxSpan))
  {
    var c0 := Config(times, Uniform(x, |times|), debounce, maxGap, maxSpan);
    if debounce >= 2 && CapsSeveral(c0) {
      var c := SeveralMislabels(c0, y);
      assert c == Config(times, c.states, debounce, maxGap, maxSpan);
    } else {
      forall states: seq<S> | |states| == |times|
        ensures CapsEndOnTheirOwn(Config(times, states, debounce, maxGap, maxSpan))
      {
        var c := Config(times, states, debounce, maxGap, maxSpan);
        if debounce <= 1 { NoDebounceIsOwn(c); } else { SingleBinsAreOwn(c0, c); }
      }
    }
  }
}
