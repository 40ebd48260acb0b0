/** Episode segmentation: windows cut where the work changes, pauses, or runs too long. Bins are
    numbered in order; `times` are their instants in seconds and `states` their watched state. */
module Episodes {
  import opened Options

  // Why an episode was opened.
  datatype Opening = TranscriptStart | StateChanged | Resumed(gap: int) | ReachedCap | NothingFollows

  // Bins from..to, half-open.
  datatype Slice = Slice(from: nat, to: nat, reason: Opening)

  // An unconfirmed change: its state, how many bins it has lasted, and where it began.
  datatype Run<S> = Run(state: S, length: nat, from: nat)

  datatype Config<S> = Config(times: seq<int>, states: seq<S>, debounce: int, maxGap: int, maxSpan: int)

  // The variables of the scan.
  datatype Machine<S> = Machine(start: nat, pending: Option<Run<S>>, reason: Opening, out: seq<Slice>)

  ghost predicate WellFormed<S>(c: Config<S>) {
    && |c.times| == |c.states|
    && forall i, j | 0 <= i < j < |c.times| :: c.times[i] < c.times[j]
  }

  function Gap<S>(c: Config<S>, i: nat): int
    requires 0 < i < |c.times|
  {
    c.times[i] - c.times[i - 1]
  }

  // close(end, why, next), where every caller passes next == end.
  function CloseAt<S>(m: Machine<S>, end: nat, why: Opening): Machine<S> {
    if end <= m.start then m.(start := end)
    else m.(start := end, reason := why, out := m.out + [Slice(m.start, end, m.reason)])
  }

  function Flushed<S(==)>(c: Config<S>, m: Machine<S>, i: nat): Machine<S>
    requires 0 < i <= |c.states|
  {
    if m.pending.Some? && c.states[i - 1] == m.pending.value.state then
      CloseAt(m, m.pending.value.from, StateChanged).(pending := None)
    else m
  }

  function Noted<S(==)>(c: Config<S>, m: Machine<S>, i: nat): Machine<S>
    requires i < |c.states| && m.start < |c.states|
  {
    if c.states[i] == c.states[m.start] then m.(pending := None)
    else if m.pending.Some? && c.states[i] == m.pending.value.state then
      m.(pending := Some(m.pending.value.(length := m.pending.value.length + 1)))
    else m.(pending := Some(Run(c.states[i], 1, i)))
  }

  // One bin.
  function Step<S(==)>(c: Config<S>, m: Machine<S>, i: nat): Machine<S>
    requires 0 < i < |c.times| == |c.states| && m.start < |c.states|
  {
    if Gap(c, i) > c.maxGap then
      CloseAt(Flushed(c, m, i), i, Resumed(Gap(c, i))).(pending := None)
    else
      var noted := Noted(c, m, i);
      if noted.pending.Some? && noted.pending.value.length >= c.debounce then
        CloseAt(noted, noted.pending.value.from, StateChanged).(pending := None)
      else if c.times[i] - c.times[m.start] >= c.maxSpan then
        CloseAt(Flushed(c, noted, i), i, ReachedCap).(pending := None)
      else noted
  }

  // ----- what every slice and every boundary satisfies

  // How many bins a change needs before it is believed.
  function Bar<S>(c: Config<S>): (n: nat)
    ensures n >= 1 && n >= c.debounce
  {
    if c.debounce < 1 then 1 else c.debounce
  }

  ghost predicate Same<S>(states: seq<S>, a: nat, b: nat) {
    a < b <= |states| && forall k | a <= k < b :: states[k] == states[a]
  }

  // No run long enough to be believed has another state than the one the stretch publishes.
  ghost predicate Quiet<S>(c: Config<S>, from: nat, to: nat)
    requires from < |c.states|
  {
    forall a: nat, b: nat {:trigger Same(c.states, a, b)} |
      from <= a && a + Bar(c) <= b <= to && Same(c.states, a, b) :: c.states[a] == c.states[from]
  }

  ghost predicate NoGap<S>(c: Config<S>, from: nat, to: nat)
    requires to <= |c.times|
  {
    forall k: nat {:trigger Gap(c, k)} | from < k < to :: Gap(c, k) <= c.maxGap
  }

  // n gaps of the longest kind: n * maxGap.
  function Longest(n: nat, maxGap: int): int {
    if n == 0 then 0 else Longest(n - 1, maxGap) + maxGap
  }

  lemma {:induction false} LongestIs(n: nat, maxGap: int)
    ensures Longest(n, maxGap) == n * maxGap
  {
    if n > 0 {
      LongestIs(n - 1, maxGap);
      assert n * maxGap == (n - 1) * maxGap + maxGap;
    }
  }

  // The debounce cannot by itself outrun the length cap.
  ghost predicate Roomy<S>(c: Config<S>) {
    c.maxSpan > 0 && Longest(Bar(c) - 1, c.maxGap) < c.maxSpan
  }

  function Least(a: nat, b: nat): nat { if a < b then a else b }

  ghost predicate Fits<S>(c: Config<S>, s: Slice) {
    && s.from < s.to <= |c.times| == |c.states|
    && Quiet(c, s.from, s.to) && NoGap(c, s.from, s.to)
    && (Roomy(c) ==> c.times[s.to - 1] - c.times[s.from] < c.maxSpan)
    && (s.reason == StateChanged ==> Same(c.states, s.from, Least(s.from + Bar(c), s.to)))
  }

  ghost predicate EndsOnItsOwn<S>(c: Config<S>, s: Slice)
    requires s.from < s.to <= |c.states|
  {
    c.states[s.to - 1] == c.states[s.from]
  }

  // The length cap may be charged to the last slice s, or, when s is a flushed run, to the one
  // before it.
  ghost predicate CapReached<S>(c: Config<S>, before: seq<Slice>, s: Slice, from: nat)
    requires from < |c.times|
  {
    if s.reason == StateChanged && s.to - s.from < Bar(c) then
      before != [] && var p := before[|before| - 1];
                      p.from < |c.times| && c.times[from] - c.times[p.from] >= c.maxSpan
    else s.from < |c.times| && c.times[from] - c.times[s.from] >= c.maxSpan
  }

  // After the slices `before` and then s, an episode may open at `from` for this reason.
  ghost predicate Follows<S>(c: Config<S>, before: seq<Slice>, s: Slice, from: nat, reason: Opening) {
    && from < |c.times| == |c.states| && s.from < s.to == from
    && match reason
       case StateChanged =>
         Gap(c, from) <= c.maxGap && c.states[from] != c.states[s.from] && c.states[from] != c.states[from - 1]
       case Resumed(g) => g == Gap(c, from) > c.maxGap && EndsOnItsOwn(c, s)
       case ReachedCap => Gap(c, from) <= c.maxGap && CapReached(c, before, s, from)
       case _ => false
  }

  // The slices v being closed, an episode may open at `from` for this reason.
  ghost predicate Justified<S>(c: Config<S>, v: seq<Slice>, from: nat, reason: Opening) {
    if v == [] then from == 0 && reason == TranscriptStart
    else Follows(c, v[..|v| - 1], v[|v| - 1], from, reason)
  }

  // Consecutive slices covering bins 0..to, each fit and each opened for a good reason.
  ghost predicate Closed<S>(c: Config<S>, v: seq<Slice>, to: nat) {
    if v == [] then to == 0
    else
      var init, s := v[..|v| - 1], v[|v| - 1];
      s.to == to && Fits(c, s) && Justified(c, init, s.from, s.reason) && Closed(c, init, s.from)
  }

  ghost predicate PendingOk<S>(c: Config<S>, m: Machine<S>, i: nat)
    requires m.start < i <= |c.states|
  {
    match m.pending
    case None => c.states[i - 1] == c.states[m.start]
    case Some(r) =>
      && m.start < r.from < i && r.length == i - r.from < Bar(c)
      && (forall k | r.from <= k < i :: c.states[k] == r.state)
      && r.state != c.states[m.start] && c.states[r.from - 1] != r.state
  }

  // Bins 0..i have been scanned: the closed slices, the open one, and the unconfirmed run.
  ghost predicate Inv<S>(c: Config<S>, m: Machine<S>, i: nat) {
    && WellFormed(c) && m.start < i <= |c.times|
    && Closed(c, m.out, m.start) && Justified(c, m.out, m.start, m.reason)
    && Fits(c, Slice(m.start, i, m.reason)) && (m.reason == StateChanged ==> m.start + Bar(c) <= i)
    && PendingOk(c, m, i)
  }

  // ----- one bin keeps it

  lemma CloseKeeps<S>(c: Config<S>, m: Machine<S>, end: nat, why: Opening)
    requires Closed(c, m.out, m.start) && Justified(c, m.out, m.start, m.reason)
    requires Fits(c, Slice(m.start, end, m.reason))
    requires Follows(c, m.out, Slice(m.start, end, m.reason), end, why)
    ensures var r := CloseAt(m, end, why);
            && r.start == end && r.reason == why && r.out == m.out + [Slice(m.start, end, m.reason)]
            && Closed(c, r.out, end) && Justified(c, r.out, end, why)
  {
    var v := m.out + [Slice(m.start, end, m.reason)];
    assert v[..|v| - 1] == m.out;
  }

  lemma SameAt<S>(states: seq<S>, a: nat, b: nat, k: nat)
    requires Same(states, a, b) && a <= k < b
    ensures states[k] == states[a]
  {
  }

  // A shorter slice is still fit.
  lemma FitsPrefix<S>(c: Config<S>, s: Slice, to: nat)
    requires WellFormed(c) && Fits(c, s) && s.from < to <= s.to
    requires s.reason == StateChanged ==> s.from + Bar(c) <= to
    ensures Fits(c, Slice(s.from, to, s.reason))
  {
    assert to < s.to ==> c.times[to - 1] < c.times[s.to - 1];
    if s.reason == StateChanged {
      assert Least(s.from + Bar(c), s.to) == s.from + Bar(c) == Least(s.from + Bar(c), to);
    }
  }

  // A stretch of one state is fit, whatever opened it, once it is short enough.
  lemma FitsUniform<S>(c: Config<S>, from: nat, to: nat, reason: Opening)
    requires WellFormed(c) && to <= |c.times| && Same(c.states, from, to) && NoGap(c, from, to)
    requires Roomy(c) ==> c.times[to - 1] - c.times[from] < c.maxSpan
    ensures Fits(c, Slice(from, to, reason))
  {
    assert Quiet(c, from, to) by {
      forall a: nat, b: nat | from <= a && a + Bar(c) <= b <= to && Same(c.states, a, b)
        ensures c.states[a] == c.states[from]
      {
        SameAt(c.states, from, to, a);
      }
    }
    assert Same(c.states, from, Least(from + Bar(c), to));
  }

  // An unconfirmed run cannot start inside the bins that confirmed the open episode.
  lemma PendingIsLate<S>(c: Config<S>, m: Machine<S>, i: nat)
    requires Inv(c, m, i) && m.pending.Some?
    ensures m.reason == StateChanged ==> m.start + Bar(c) <= m.pending.value.from
  {
    var r := m.pending.value;
    assert c.states[r.from] == r.state;
  }

  lemma GapBetween<S>(c: Config<S>, from: nat, to: nat, k: nat)
    requires to <= |c.times| && NoGap(c, from, to) && from < k < to
    ensures Gap(c, k) <= c.maxGap
  {
  }

  // The two pieces a flush leaves: the stretch before the run, and the run itself.
  lemma FlushPieces<S>(c: Config<S>, m: Machine<S>, i: nat)
    requires Inv(c, m, i) && m.pending.Some?
    ensures var r := m.pending.value;
            && Fits(c, Slice(m.start, r.from, m.reason)) && Fits(c, Slice(r.from, i, StateChanged))
            && Same(c.states, r.from, i) && Gap(c, r.from) <= c.maxGap
  {
    var r := m.pending.value;
    assert Same(c.states, r.from, i);
    PendingIsLate(c, m, i);
    FitsPrefix(c, Slice(m.start, i, m.reason), r.from);
    GapBetween(c, m.start, i, r.from);
    assert c.times[m.start] < c.times[r.from];
    FitsUniform(c, r.from, i, StateChanged);
  }

  lemma FlushKeeps<S>(c: Config<S>, m: Machine<S>, i: nat)
    requires Inv(c, m, i) && m.pending.Some?
    ensures var r, f := m.pending.value, Flushed(c, m, i);
            && f.start == r.from < i && f.reason == StateChanged && f.pending == None
            && f.out == m.out + [Slice(m.start, r.from, m.reason)]
            && Closed(c, f.out, f.start) && Justified(c, f.out, f.start, f.reason)
            && Fits(c, Slice(f.start, i, f.reason)) && Same(c.states, f.start, i) && i - f.start < Bar(c)
  {
    FlushPieces(c, m, i);
    CloseKeeps(c, m, m.pending.value.from, StateChanged);
  }

  // What is known when bin i is in the open episode.
  lemma StillOpen<S>(c: Config<S>, m: Machine<S>, n: Machine<S>, i: nat)
    requires WellFormed(c) && m.start <= i < |c.times| && n == m.(pending := n.pending)
    requires Closed(c, m.out, m.start) && Justified(c, m.out, m.start, m.reason)
    requires Fits(c, Slice(m.start, i + 1, m.reason)) && (m.reason == StateChanged ==> m.start + Bar(c) <= i + 1)
    requires PendingOk(c, n, i + 1)
    ensures Inv(c, n, i + 1)
  {
  }

  lemma UniformPending<S>(c: Config<S>, m: Machine<S>, i: nat)
    requires m.start <= i < |c.states| && m.pending == None && Same(c.states, m.start, i + 1)
    ensures PendingOk(c, m, i + 1)
  {
    SameAt(c.states, m.start, i + 1, i);
  }

  // An open episode that has had one state so far.
  lemma OpenUniform<S>(c: Config<S>, m: Machine<S>, i: nat)
    requires WellFormed(c) && m.start <= i < |c.times| && m.pending == None
    requires Closed(c, m.out, m.start) && Justified(c, m.out, m.start, m.reason)
    requires Same(c.states, m.start, i + 1) && NoGap(c, m.start, i + 1)
    requires Roomy(c) ==> c.times[i] - c.times[m.start] < c.maxSpan
    requires m.reason == StateChanged ==> m.start + Bar(c) <= i + 1
    ensures Inv(c, m, i + 1)
  {
    FitsUniform(c, m.start, i + 1, m.reason);
    UniformPending(c, m, i);
    StillOpen(c, m, m, i);
  }

  // A fresh one-bin episode at bin i.
  lemma FreshAt<S>(c: Config<S>, m: Machine<S>, i: nat)
    requires WellFormed(c) && m.start == i < |c.times| && m.pending == None && m.reason != StateChanged
    requires Closed(c, m.out, i) && Justified(c, m.out, i, m.reason)
    ensures Inv(c, m, i + 1)
  {
    assert Same(c.states, i, i + 1) && NoGap(c, i, i + 1);
    OpenUniform(c, m, i);
  }

  // Closing the open slice at i and starting afresh there.
  lemma CloseFresh<S>(c: Config<S>, f: Machine<S>, i: nat, why: Opening)
    requires WellFormed(c) && i < |c.times| && why != StateChanged
    requires Closed(c, f.out, f.start) && Justified(c, f.out, f.start, f.reason) && Fits(c, Slice(f.start, i, f.reason))
    requires Follows(c, f.out, Slice(f.start, i, f.reason), i, why)
    ensures Inv(c, CloseAt(f, i, why).(pending := None), i + 1)
  {
    CloseKeeps(c, f, i, why);
    FreshAt(c, CloseAt(f, i, why).(pending := None), i);
  }

  lemma StepAtGap<S>(c: Config<S>, m: Machine<S>, i: nat)
    requires Inv(c, m, i) && i < |c.times| && Gap(c, i) > c.maxGap
    ensures Inv(c, Step(c, m, i), i + 1)
  {
    var f := Flushed(c, m, i);
    if m.pending.Some? {
      FlushKeeps(c, m, i);
      SameAt(c.states, f.start, i, i - 1);
    }
    assert Follows(c, f.out, Slice(f.start, i, f.reason), i, Resumed(Gap(c, i)));
    CloseFresh(c, f, i, Resumed(Gap(c, i)));
  }

  // What Noted leaves pending: the run that ends with bin i.
  lemma NotedRun<S>(c: Config<S>, m: Machine<S>, i: nat)
    requires Inv(c, m, i) && i < |c.times| && Gap(c, i) <= c.maxGap && Noted(c, m, i).pending.Some?
    ensures var r := Noted(c, m, i).pending.value;
            && m.start < r.from <= i && r.length == i + 1 - r.from <= Bar(c)
            && Same(c.states, r.from, i + 1) && NoGap(c, r.from, i + 1) && c.states[r.from] == r.state == c.states[i]
            && r.state != c.states[m.start] && c.states[r.from - 1] != r.state && Gap(c, r.from) <= c.maxGap
            && Fits(c, Slice(m.start, r.from, m.reason))
            && (r.from < i ==> c.states[i - 1] == r.state && m.pending.Some? && m.pending.value.from == r.from)
  {
    var r := Noted(c, m, i).pending.value;
    if r.from < i {
      PendingIsLate(c, m, i);
      FitsPrefix(c, Slice(m.start, i, m.reason), r.from);
      GapBetween(c, m.start, i, r.from);
    }
  }

  lemma StepAtChange<S>(c: Config<S>, m: Machine<S>, i: nat)
    requires Inv(c, m, i) && i < |c.times| && Gap(c, i) <= c.maxGap
    requires var p := Noted(c, m, i).pending; p.Some? && p.value.length >= c.debounce
    ensures Inv(c, Step(c, m, i), i + 1)
  {
    NotedRun(c, m, i);
    ConfirmedClose(c, m, Noted(c, m, i), i);
  }

  lemma ConfirmedClose<S>(c: Config<S>, m: Machine<S>, noted: Machine<S>, i: nat)
    requires WellFormed(c) && 0 < i < |c.times| && noted.pending.Some? && noted == m.(pending := noted.pending)
    requires Closed(c, m.out, m.start) && Justified(c, m.out, m.start, m.reason)
    requires var r := noted.pending.value;
             && m.start < r.from <= i && i + 1 - r.from == Bar(c)
             && Same(c.states, r.from, i + 1) && NoGap(c, r.from, i + 1) && Gap(c, r.from) <= c.maxGap
             && c.states[r.from] != c.states[m.start] && c.states[r.from - 1] != c.states[r.from]
             && Fits(c, Slice(m.start, r.from, m.reason))
    ensures Inv(c, CloseAt(noted, noted.pending.value.from, StateChanged).(pending := None), i + 1)
  {
    var r := noted.pending.value;
    CloseKeeps(c, noted, r.from, StateChanged);
    ConfirmedAt(c, CloseAt(noted, r.from, StateChanged).(pending := None), i);
  }

  // A just confirmed run, ending with bin i.
  lemma ConfirmedAt<S>(c: Config<S>, m: Machine<S>, i: nat)
    requires WellFormed(c) && m.start <= i < |c.times| && m.pending == None && i + 1 - m.start == Bar(c)
    requires Closed(c, m.out, m.start) && Justified(c, m.out, m.start, m.reason)
    requires Same(c.states, m.start, i + 1) && NoGap(c, m.start, i + 1)
    ensures Inv(c, m, i + 1)
  {
    SpanOfRun(c, m.start, i);
    OpenUniform(c, m, i);
  }

  lemma {:induction false} SpanOfRun<S>(c: Config<S>, a: nat, b: nat)
    requires a <= b < |c.times| && NoGap(c, a, b + 1)
    ensures c.times[b] - c.times[a] <= Longest(b - a, c.maxGap)
    decreases b
  {
    if a < b {
      SpanOfRun(c, a, b - 1);
      assert Gap(c, b) <= c.maxGap;
    }
  }

  // A run of believable length that ends with bin i has the published state, or it would have
  // been believed.
  lemma QuietAtEnd<S>(c: Config<S>, m: Machine<S>, i: nat, a: nat)
    requires Inv(c, m, i) && i < |c.times| && Gap(c, i) <= c.maxGap
    requires var p := Noted(c, m, i).pending; p.Some? ==> p.value.length < c.debounce
    requires m.start <= a && a + Bar(c) <= i + 1 && Same(c.states, a, i + 1)
    ensures c.states[a] == c.states[m.start]
  {
    SameAt(c.states, a, i + 1, i);
    if c.states[i] != c.states[m.start] {
      NotedRun(c, m, i);
    }
  }

  lemma PendingExtends<S>(c: Config<S>, m: Machine<S>, i: nat)
    requires Inv(c, m, i) && i < |c.times| && Gap(c, i) <= c.maxGap
    requires var p := Noted(c, m, i).pending; p.Some? ==> p.value.length < c.debounce
    ensures PendingOk(c, Noted(c, m, i), i + 1)
  {
    if Noted(c, m, i).pending.Some? { NotedRun(c, m, i); }
  }

  lemma QuietExtends<S>(c: Config<S>, m: Machine<S>, i: nat)
    requires Inv(c, m, i) && i < |c.times| && Gap(c, i) <= c.maxGap
    requires var p := Noted(c, m, i).pending; p.Some? ==> p.value.length < c.debounce
    ensures Quiet(c, m.start, i + 1)
  {
    forall a: nat, b: nat | m.start <= a && a + Bar(c) <= b <= i + 1 && Same(c.states, a, b)
      ensures c.states[a] == c.states[m.start]
    {
      if b == i + 1 { QuietAtEnd(c, m, i, a); }
    }
  }

  lemma FitsExtends<S>(c: Config<S>, s: Slice)
    requires WellFormed(c) && Fits(c, s) && s.to < |c.times| && Gap(c, s.to) <= c.maxGap
    requires Quiet(c, s.from, s.to + 1) && c.times[s.to] - c.times[s.from] < c.maxSpan
    requires s.reason == StateChanged ==> s.from + Bar(c) <= s.to
    ensures Fits(c, Slice(s.from, s.to + 1, s.reason))
  {
    assert s.reason == StateChanged ==> Least(s.from + Bar(c), s.to) == Least(s.from + Bar(c), s.to + 1);
  }

  lemma NotedKeeps<S>(c: Config<S>, m: Machine<S>, i: nat)
    requires i < |c.states| && m.start < |c.states|
    ensures var n := Noted(c, m, i); n == m.(pending := n.pending)
  {
  }

  // Bin i joins the open episode.
  lemma ExtendOpen<S>(c: Config<S>, m: Machine<S>, i: nat)
    requires Inv(c, m, i) && i < |c.times| && Gap(c, i) <= c.maxGap
    requires var p := Noted(c, m, i).pending; p.Some? ==> p.value.length < c.debounce
    requires c.times[i] - c.times[m.start] < c.maxSpan
    ensures Inv(c, Noted(c, m, i), i + 1)
  {
    PendingExtends(c, m, i);
    QuietExtends(c, m, i);
    FitsExtends(c, Slice(m.start, i, m.reason));
    NotedKeeps(c, m, i);
    StillOpen(c, m, Noted(c, m, i), i);
  }

  // The cap with a run to flush: the run is closed, and the cap was reached by the episode before it.
  lemma CapOverRun<S>(c: Config<S>, m: Machine<S>, i: nat)
    requires Inv(c, m, i) && m.pending.Some? && i < |c.times| && Gap(c, i) <= c.maxGap
    requires c.times[i] - c.times[m.start] >= c.maxSpan
    ensures Inv(c, CloseAt(Flushed(c, m, i), i, ReachedCap).(pending := None), i + 1)
  {
    var f := Flushed(c, m, i);
    FlushKeeps(c, m, i);
    assert CapReached(c, f.out, Slice(f.start, i, f.reason), i);
    CloseFresh(c, f, i, ReachedCap);
  }

  // The cap with nothing to flush.
  lemma CapAlone<S>(c: Config<S>, m: Machine<S>, f: Machine<S>, i: nat)
    requires Inv(c, m, i) && i < |c.times| && Gap(c, i) <= c.maxGap && f == m.(pending := f.pending)
    requires c.times[i] - c.times[m.start] >= c.maxSpan
    ensures Inv(c, CloseAt(f, i, ReachedCap).(pending := None), i + 1)
  {
    assert CapReached(c, f.out, Slice(f.start, i, f.reason), i);
    CloseFresh(c, f, i, ReachedCap);
  }

  lemma StepAtCap<S>(c: Config<S>, m: Machine<S>, i: nat)
    requires Inv(c, m, i) && i < |c.times| && Gap(c, i) <= c.maxGap
    requires var p := Noted(c, m, i).pending; p.Some? ==> p.value.length < c.debounce
    requires c.times[i] - c.times[m.start] >= c.maxSpan
    ensures Inv(c, Step(c, m, i), i + 1)
  {
    CapFlush(c, m, i);
    if c.states[i] == c.states[i - 1] != c.states[m.start] {
      CapOverRun(c, m, i);
    } else {
      CapAlone(c, m, Noted(c, m, i), i);
    }
  }

  // At the cap the flush closes the run that was pending before bin i was noted, and only when bin
  // i continues it.
  lemma CapFlush<S>(c: Config<S>, m: Machine<S>, i: nat)
    requires Inv(c, m, i) && i < |c.times| && Gap(c, i) <= c.maxGap
    ensures var f := Flushed(c, Noted(c, m, i), i);
            if c.states[i] == c.states[i - 1] != c.states[m.start] then
              m.pending.Some? && f == Flushed(c, m, i) && f.start != m.start
            else f == Noted(c, m, i) && f == m.(pending := f.pending)
  {
    if Noted(c, m, i).pending.Some? { NotedRun(c, m, i); }
  }

  lemma StepKeeps<S>(c: Config<S>, m: Machine<S>, i: nat)
    requires Inv(c, m, i) && i < |c.times|
    ensures Inv(c, Step(c, m, i), i + 1)
  {
    var p := Noted(c, m, i).pending;
    if Gap(c, i) > c.maxGap {
      StepAtGap(c, m, i);
    } else if p.Some? && p.value.length >= c.debounce {
      StepAtChange(c, m, i);
    } else if c.times[i] - c.times[m.start] >= c.maxSpan {
      StepAtCap(c, m, i);
    } else {
      ExtendOpen(c, m, i);
    }
  }
}
