/** error_runs: one interleaved pass that tracks, per resource, the run of failures it is in. */
module ErrorRuns {
  import opened Arithmetic
  import opened Sorting

  // A tool result: when, on which resource, and whether it failed.
  datatype Outcome = Outcome(t: int, key: int, isError: bool)

  const THRASH_RUN: nat := 2

  predicate NoLater(a: Outcome, b: Outcome) { a.t <= b.t }

  // sorted(results, key=lambda r: r.t)
  function Stream(results: seq<Outcome>): seq<Outcome> { Sort(results, NoLater) }

  /** The stream is the results, each as often, in order of their instants; results of one instant keep
      their input order. */
  lemma StreamIsInOrder(results: seq<Outcome>, t: int)
    ensures forall i, j | 0 <= i < j < |Stream(results)| :: Stream(results)[i].t <= Stream(results)[j].t
    ensures multiset(Stream(results)) == multiset(results)
    ensures Filter(Stream(results), (r: Outcome) => r.t == t) == Filter(results, (r: Outcome) => r.t == t)
  {
    var y := Outcome(t, 0, false);
    SortSorts(results, NoLater);
    SortPermutes(results, NoLater);
    SortStable(results, NoLater, y);
    FilterSame(Stream(results), (r: Outcome) => r.t == t, Ties(NoLater, y));
    FilterSame(results, (r: Outcome) => r.t == t, Ties(NoLater, y));
    forall i, j | 0 <= i < j < |Stream(results)| ensures Stream(results)[i].t <= Stream(results)[j].t {
      assert NoLater(Stream(results)[i], Stream(results)[j]);
    }
  }

  // The failures of the results that satisfy `on`, in stream order.
  function Failures(stream: seq<Outcome>, on: Outcome -> bool): seq<bool> {
    if stream == [] then []
    else
      var init, last := stream[..|stream| - 1], stream[|stream| - 1];
      if on(last) then Failures(init, on) + [last.isError] else Failures(init, on)
  }

  function OnKey(k: int): Outcome -> bool { (r: Outcome) => r.key == k }

  function Everything(): Outcome -> bool { (r: Outcome) => true }

  // The specification of a longest run: some block of consecutive failures has this length, and
  // none is longer.
  ghost predicate IsRun(fs: seq<bool>, i: nat, j: nat) {
    i <= j <= |fs| && forall k | i <= k < j :: fs[k]
  }

  ghost predicate IsLongest(fs: seq<bool>, n: nat) {
    && (exists i: nat, j: nat :: IsRun(fs, i, j) && j - i == n)
    && (forall i: nat, j: nat | IsRun(fs, i, j) :: j - i <= n)
  }

  // The run fs ends in, and the best so far: what the pass keeps per key.
  function Trailing(fs: seq<bool>): nat {
    if fs == [] || !fs[|fs| - 1] then 0 else Trailing(fs[..|fs| - 1]) + 1
  }

  function Best(fs: seq<bool>): nat {
    if fs == [] then 0
    else
      var b, t := Best(fs[..|fs| - 1]), Trailing(fs);
      if b < t then t else b
  }

  lemma {:induction false} TrailingIsRun(fs: seq<bool>)
    ensures Trailing(fs) <= |fs| && IsRun(fs, |fs| - Trailing(fs), |fs|)
    ensures forall i: nat | IsRun(fs, i, |fs|) :: |fs| - i <= Trailing(fs)
  {
    if fs != [] && fs[|fs| - 1] {
      var init := fs[..|fs| - 1];
      TrailingIsRun(init);
      forall i: nat | IsRun(fs, i, |fs|) ensures |fs| - i <= Trailing(fs) {
        if i < |fs| { assert IsRun(init, i, |init|); }
      }
    }
  }

  lemma {:induction false} BestIsLongest(fs: seq<bool>)
    ensures IsLongest(fs, Best(fs))
  {
    TrailingIsRun(fs);
    if fs == [] {
      assert IsRun(fs, 0, 0);
    } else {
      var init := fs[..|fs| - 1];
      BestIsLongest(init);
      forall i: nat, j: nat | IsRun(fs, i, j) ensures j - i <= Best(fs) {
        if j <= |init| { assert IsRun(init, i, j); }
      }
      var i: nat, j: nat :| IsRun(init, i, j) && j - i == Best(init);
      assert IsRun(fs, i, j);
    }
  }

  function Keys(stream: seq<Outcome>): set<int> {
    set i | 0 <= i < |stream| :: stream[i].key
  }

  // Resources whose longest run of failures is at least n.
  function Reaching(stream: seq<Outcome>, n: nat): set<int> {
    set k | k in Keys(stream) && Best(Failures(stream, OnKey(k))) >= n
  }

  datatype Report = Report(maxRun: nat, maxRunGlobal: nat, nThrash: nat, nErrTargets: nat, nTargets: nat)

  // What each number means, resource by resource.
  ghost predicate Describes(r: Report, stream: seq<Outcome>) {
    && IsLongest(Failures(stream, Everything()), r.maxRunGlobal)
    && (forall k, n: nat | k in Keys(stream) && IsLongest(Failures(stream, OnKey(k)), n) :: n <= r.maxRun)
    && (r.maxRun > 0 ==> exists k :: k in Keys(stream) && IsLongest(Failures(stream, OnKey(k)), r.maxRun))
    && r.nThrash == |Reaching(stream, 2)|
    && r.nErrTargets == |Reaching(stream, 1)|
    && r.nTargets == |Keys(stream)|
  }

  // One key's [current run, best run] after the results in `stream`.
  function StateOf(stream: seq<Outcome>, k: int): (nat, nat) {
    (Trailing(Failures(stream, OnKey(k))), Best(Failures(stream, OnKey(k))))
  }

  function Bumped(st: (nat, nat), isError: bool): (nat, nat) {
    var now := if isError then st.0 + 1 else 0;
    (now, if st.1 < now then now else st.1)
  }

  ghost predicate Tracks(per: map<int, (nat, nat)>, stream: seq<Outcome>) {
    && per.Keys == Keys(stream)
    && forall k | k in per :: per[k] == StateOf(stream, k)
  }

  lemma {:induction false} FailuresOfAbsent(stream: seq<Outcome>, k: int)
    requires k !in Keys(stream)
    ensures Failures(stream, OnKey(k)) == []
  {
    if stream != [] {
      var init := stream[..|stream| - 1];
      assert forall i | 0 <= i < |init| :: init[i] == stream[i];
      assert stream[|stream| - 1].key != k;
      FailuresOfAbsent(init, k);
    }
  }

  lemma KeysSnoc(stream: seq<Outcome>, r: Outcome)
    ensures Keys(stream + [r]) == Keys(stream) + {r.key}
  {
    var all := stream + [r];
    forall k ensures k in Keys(all) <==> k in Keys(stream) + {r.key} {
      if k in Keys(stream) {
        var i :| 0 <= i < |stream| && stream[i].key == k;
        assert all[i].key == k;
      }
      assert all[|stream|].key == r.key;
    }
  }

  lemma FailuresSnoc(stream: seq<Outcome>, r: Outcome, on: Outcome -> bool)
    ensures Failures(stream + [r], on) == if on(r) then Failures(stream, on) + [r.isError] else Failures(stream, on)
  {
    assert (stream + [r])[..|stream|] == stream;
  }

  lemma BestSnoc(fs: seq<bool>, e: bool)
    ensures Trailing(fs + [e]) == if e then Trailing(fs) + 1 else 0
    ensures Best(fs + [e]) == if Best(fs) < Trailing(fs + [e]) then Trailing(fs + [e]) else Best(fs)
  {
    assert (fs + [e])[..|fs|] == fs;
  }

  lemma StateSnoc(stream: seq<Outcome>, r: Outcome, k: int)
    ensures StateOf(stream + [r], k) == if k == r.key then Bumped(StateOf(stream, k), r.isError) else StateOf(stream, k)
    ensures k !in Keys(stream) ==> StateOf(stream, k) == (0, 0)
  {
    FailuresSnoc(stream, r, OnKey(k));
    BestSnoc(Failures(stream, OnKey(k)), r.isError);
    if k !in Keys(stream) { FailuresOfAbsent(stream, k); }
  }

  lemma TrackNext(per: map<int, (nat, nat)>, stream: seq<Outcome>, r: Outcome)
    requires Tracks(per, stream)
    ensures var was := if r.key in per then per[r.key] else (0, 0);
            Tracks(per[r.key := Bumped(was, r.isError)], stream + [r])
  {
    var next := per[r.key := Bumped(if r.key in per then per[r.key] else (0, 0), r.isError)];
    KeysSnoc(stream, r);
    forall k | k in next ensures next[k] == StateOf(stream + [r], k) {
      StateSnoc(stream, r, k);
    }
  }

  lemma SomeMember(s: set<int>)
    requires s != {}
    ensures exists k :: k in s
  {
    assert (forall k :: k !in s) ==> s == {};
  }

  // max(runs) over the values of the dict, 0 when there is none.
  method MaxBest(per: map<int, (nat, nat)>) returns (m: nat)
    ensures forall k | k in per :: per[k].1 <= m
    ensures m > 0 ==> exists k :: k in per && per[k].1 == m
  {
    m := 0;
    var left := per.Keys;
    while |left| > 0
      invariant left <= per.Keys
      invariant forall k | k in per && k !in left :: per[k].1 <= m
      invariant m > 0 ==> exists k :: k in per && per[k].1 == m
      decreases |left|
    {
      SomeMember(left);
      var k :| k in left;
      if per[k].1 > m {
        m := per[k].1;
      }
      left := left - {k};
    }
  }

  // What the pass knows after the results in `stream`.
  ghost predicate Passed(per: map<int, (nat, nat)>, cur: nat, best: nat, stream: seq<Outcome>) {
    && Tracks(per, stream)
    && cur == Trailing(Failures(stream, Everything()))
    && best == Best(Failures(stream, Everything()))
  }

  lemma PassNext(per: map<int, (nat, nat)>, cur: nat, best: nat, stream: seq<Outcome>, r: Outcome)
    requires Passed(per, cur, best, stream)
    ensures var was := if r.key in per then per[r.key] else (0, 0);
            var next := if r.isError then cur + 1 else 0;
            Passed(per[r.key := Bumped(was, r.isError)], next, if best < next then next else best, stream + [r])
  {
    TrackNext(per, stream, r);
    FailuresSnoc(stream, r, Everything());
    BestSnoc(Failures(stream, Everything()), r.isError);
  }

  lemma PassEmpty()
    ensures Passed(map[], 0, 0, [])
  {}

  // The loop body: one result updates its resource's runs and the global ones.
  method Pass(per: map<int, (nat, nat)>, cur: nat, best: nat, r: Outcome)
    returns (per': map<int, (nat, nat)>, cur': nat, best': nat)
    ensures per' == per[r.key := Bumped(if r.key in per then per[r.key] else (0, 0), r.isError)]
    ensures cur' == if r.isError then cur + 1 else 0
    ensures best' == if best < cur' then cur' else best
  {
    var (now, top) := if r.key in per then per[r.key] else (0, 0);
    cur', best' := cur, best;
    if r.isError {
      now := now + 1;
      top := if top < now then now else top;
      cur' := cur + 1;
      best' := if best < cur' then cur' else best;
    } else {
      now := 0;
      cur' := 0;
    }
    per' := per[r.key := (now, top)];
  }

  /** error_runs meets its per-resource specification in one pass. */
  method Runs(results: seq<Outcome>) returns (r: Report)
    ensures Describes(r, Stream(results))
  {
    var stream := Stream(results);
    var per: map<int, (nat, nat)> := map[];
    var bestGlobal, curGlobal := 0, 0;
    PassEmpty();
    assert stream[..0] == [];
    for i := 0 to |stream|
      invariant Passed(per, curGlobal, bestGlobal, stream[..i])
    {
      assert stream[..i + 1] == stream[..i] + [stream[i]];
      PassNext(per, curGlobal, bestGlobal, stream[..i], stream[i]);
      per, curGlobal, bestGlobal := Pass(per, curGlobal, bestGlobal, stream[i]);
    }
    assert stream[..|stream|] == stream;
    r := Summary(per, bestGlobal, stream);
  }

  method Summary(per: map<int, (nat, nat)>, bestGlobal: nat, ghost stream: seq<Outcome>) returns (r: Report)
    requires Tracks(per, stream)
    requires bestGlobal == Best(Failures(stream, Everything()))
    ensures Describes(r, stream)
  {
    var maxRun := MaxBest(per);
    var thrash := set k | k in per && per[k].1 >= THRASH_RUN;
    var failing := set k | k in per && per[k].1 >= 1;
    Conclude(per, stream, maxRun);
    r := Report(maxRun, bestGlobal, |thrash|, |failing|, |per|);
  }

  lemma LongestIsUnique(fs: seq<bool>, n: nat)
    requires IsLongest(fs, n)
    ensures n == Best(fs)
  {
    BestIsLongest(fs);
  }

  lemma Conclude(per: map<int, (nat, nat)>, stream: seq<Outcome>, maxRun: nat)
    requires Tracks(per, stream)
    requires forall k | k in per :: per[k].1 <= maxRun
    requires maxRun > 0 ==> exists k :: k in per && per[k].1 == maxRun
    ensures Describes(Report(maxRun, Best(Failures(stream, Everything())), |set k | k in per && per[k].1 >= THRASH_RUN|,
                             |set k | k in per && per[k].1 >= 1|, |per|), stream)
  {
    BestIsLongest(Failures(stream, Everything()));
    forall k, n: nat | k in Keys(stream) && IsLongest(Failures(stream, OnKey(k)), n) ensures n <= maxRun {
      LongestIsUnique(Failures(stream, OnKey(k)), n);
    }
    if maxRun > 0 {
      var k :| k in per && per[k].1 == maxRun;
      BestIsLongest(Failures(stream, OnKey(k)));
    }
    assert (set k | k in per && per[k].1 >= THRASH_RUN) == Reaching(stream, THRASH_RUN);
    assert (set k | k in per && per[k].1 >= 1) == Reaching(stream, 1);
    assert |per| == |per.Keys|;
  }

  /** Thrashing resources are failing ones, failing ones are resources; a resource thrashes exactly
      when the longest per-resource run says so. */
  lemma TargetsNest(r: Report, stream: seq<Outcome>)
    requires Describes(r, stream)
    ensures r.nThrash <= r.nErrTargets <= r.nTargets
    ensures r.nThrash > 0 <==> r.maxRun >= 2
    ensures r.nErrTargets > 0 <==> r.maxRun > 0
  {
    SubsetSize(Reaching(stream, THRASH_RUN), Reaching(stream, 1));
    SubsetSize(Reaching(stream, 1), Keys(stream));
    forall k | k in Keys(stream) ensures Best(Failures(stream, OnKey(k))) <= r.maxRun {
      BestIsLongest(Failures(stream, OnKey(k)));
    }
    if r.maxRun > 0 {
      var k :| k in Keys(stream) && IsLongest(Failures(stream, OnKey(k)), r.maxRun);
      LongestIsUnique(Failures(stream, OnKey(k)), r.maxRun);
      assert k in Reaching(stream, 1);
      assert r.maxRun >= THRASH_RUN ==> k in Reaching(stream, THRASH_RUN);
    }
  }

  // The failures on one resource, counted without looking at runs.
  function Failing(s: seq<Outcome>, k: int): nat {
    if s == [] then 0
    else
      var last := s[|s| - 1];
      Failing(s[..|s| - 1], k) + if last.key == k && last.isError then 1 else 0
  }

  lemma FailingSnoc(s: seq<Outcome>, r: Outcome, k: int)
    ensures Failing(s + [r], k) == Failing(s, k) + if r.key == k && r.isError then 1 else 0
  {
    assert (s + [r])[..|s|] == s;
  }

  lemma {:induction false} RunsAreFailures(s: seq<Outcome>, k: int)
    ensures Trailing(Failures(s, OnKey(k))) <= Failing(s, k) && Best(Failures(s, OnKey(k))) <= Failing(s, k)
  {
    if s != [] {
      var init, last := s[..|s| - 1], s[|s| - 1];
      RunsAreFailures(init, k);
      assert s == init + [last];
      FailuresSnoc(init, last, OnKey(k));
      BestSnoc(Failures(init, OnKey(k)), last.isError);
    }
  }

  ghost predicate HasKeys(s: seq<Outcome>, keys: seq<int>) {
    |s| == |keys| && forall m | 0 <= m < |s| :: s[m].key == keys[m]
  }

  ghost predicate OneResource(keys: seq<int>) {
    forall i, j | 0 <= i < |keys| && j == i + 1 && j < |keys| :: keys[i] == keys[j]
  }

  // The results in which exactly the i-th and the one after it fail.
  function PairAt(keys: seq<int>, i: nat, m: nat): Outcome
    requires m < |keys|
  {
    Outcome(m, keys[m], m == i || m == i + 1)
  }

  function PairFails(keys: seq<int>, i: nat, n: nat): seq<Outcome>
    requires n <= |keys|
  {
    if n == 0 then [] else PairFails(keys, i, n - 1) + [PairAt(keys, i, n - 1)]
  }

  lemma {:induction false} PairFailsAt(keys: seq<int>, i: nat, n: nat)
    requires n <= |keys|
    ensures |PairFails(keys, i, n)| == n
    ensures forall m | 0 <= m < n :: PairFails(keys, i, n)[m] == PairAt(keys, i, m)
  {
    if n > 0 { PairFailsAt(keys, i, n - 1); }
  }

  lemma {:induction false} PairFailsPerKey(keys: seq<int>, i: nat, n: nat, k: int)
    requires n <= |keys| && i + 1 < |keys|
    ensures Failing(PairFails(keys, i, n), k)
            == (if i < n && keys[i] == k then 1 else 0) + (if i + 1 < n && keys[i + 1] == k then 1 else 0)
  {
    if n > 0 {
      PairFailsPerKey(keys, i, n - 1, k);
      FailingSnoc(PairFails(keys, i, n - 1), PairAt(keys, i, n - 1), k);
    }
  }

  lemma {:induction false} EverythingAt(s: seq<Outcome>, m: nat)
    requires m < |s|
    ensures |Failures(s, Everything())| == |s| && Failures(s, Everything())[m] == s[m].isError
  {
    var init := s[..|s| - 1];
    if m < |init| {
      EverythingAt(init, m);
    } else if |init| > 0 {
      EverythingAt(init, 0);
    }
  }

  lemma {:induction false} OneKeyIsEverything(s: seq<Outcome>, k: int)
    requires forall m | 0 <= m < |s| :: s[m].key == k
    ensures Failures(s, OnKey(k)) == Failures(s, Everything())
  {
    if s != [] { OneKeyIsEverything(s[..|s| - 1], k); }
  }

  lemma {:induction false} OneResourceIsOneKey(keys: seq<int>, m: nat)
    requires OneResource(keys) && m < |keys|
    ensures keys[m] == keys[0]
  {
    if m > 0 {
      OneResourceIsOneKey(keys, m - 1);
      assert keys[m - 1] == keys[m];
    }
  }

  lemma GlobalWithinOneResource(s: seq<Outcome>, keys: seq<int>, r: Report)
    requires HasKeys(s, keys) && OneResource(keys) && Describes(r, s)
    ensures r.maxRunGlobal <= r.maxRun
  {
    LongestIsUnique(Failures(s, Everything()), r.maxRunGlobal);
    if s != [] {
      forall m | 0 <= m < |s| ensures s[m].key == keys[0] { OneResourceIsOneKey(keys, m); }
      OneKeyIsEverything(s, keys[0]);
      assert s[0].key in Keys(s);
      BestIsLongest(Failures(s, OnKey(keys[0])));
    }
  }

  lemma GlobalAcrossResources(keys: seq<int>, i: nat) returns (s: seq<Outcome>, r: Report)
    requires i + 1 < |keys| && keys[i] != keys[i + 1]
    ensures HasKeys(s, keys) && Describes(r, s) && r.maxRunGlobal >= 2 > r.maxRun
  {
    s := PairFails(keys, i, |keys|);
    PairFailsAt(keys, i, |keys|);
    r := ReportOf(s);
    EverythingAt(s, i);
    EverythingAt(s, i + 1);
    assert IsRun(Failures(s, Everything()), i, i + 2);
    if r.maxRun > 0 {
      var k :| k in Keys(s) && IsLongest(Failures(s, OnKey(k)), r.maxRun);
      LongestIsUnique(Failures(s, OnKey(k)), r.maxRun);
      RunsAreFailures(s, k);
      PairFailsPerKey(keys, i, |keys|, k);
    }
  }

  lemma ReportOf(s: seq<Outcome>) returns (r: Report)
    ensures Describes(r, s)
  {
    var per := map k | k in Keys(s) :: StateOf(s, k);
    assert Tracks(per, s);
    var maxRun := HighestBest(per, per.Keys);
    Conclude(per, s, maxRun);
    r := Report(maxRun, Best(Failures(s, Everything())), |set k | k in per && per[k].1 >= THRASH_RUN|,
                |set k | k in per && per[k].1 >= 1|, |per|);
  }

  lemma HighestBest(per: map<int, (nat, nat)>, among: set<int>) returns (m: nat)
    requires among <= per.Keys
    ensures forall k | k in among :: per[k].1 <= m
    ensures m > 0 ==> exists k :: k in among && per[k].1 == m
  {
    m := 0;
    if among != {} {
      SomeMember(among);
      var k :| k in among;
      m := HighestBest(per, among - {k});
      if per[k].1 > m { m := per[k].1; }
    }
  }

  /** The run over the whole stream is a stricter reading than the per-resource one, whatever fails,
      exactly when the window touches one resource: as soon as two neighbouring results are on
      different resources, their both failing makes it the looser one. */
  lemma GlobalIsStricterIffOneResource(keys: seq<int>)
    ensures (forall s, r | HasKeys(s, keys) && Describes(r, s) :: r.maxRunGlobal <= r.maxRun) <==> OneResource(keys)
  {
    if OneResource(keys) {
      forall s, r | HasKeys(s, keys) && Describes(r, s) ensures r.maxRunGlobal <= r.maxRun {
        GlobalWithinOneResource(s, keys, r);
      }
    } else {
      var i, j :| 0 <= i < |keys| && j == i + 1 && j < |keys| && keys[i] != keys[j];
      var s, r := GlobalAcrossResources(keys, i);
    }
  }
}
