/** The scan itself, as the object its closures share, and what a whole transcript's episodes satisfy. */
module EpisodeScan {
  import opened Options
  import opened Episodes

  // The indices the scan holds stay behind the bin it stands at.
  predicate InRange<S>(m: Machine<S>, i: nat) {
    m.start < i && (m.pending.Some? ==> m.pending.value.from < i)
  }

  lemma StepInRange<S>(c: Config<S>, m: Machine<S>, i: nat)
    requires 0 < i < |c.times| == |c.states| && InRange(m, i)
    ensures InRange(Step(c, m, i), i + 1)
  {
  }

  function Scan<S(==)>(c: Config<S>, m: Machine<S>, i: nat): (r: Machine<S>)
    requires 0 < i <= |c.times| == |c.states| && InRange(m, i)
    ensures InRange(r, |c.times|)
    decreases |c.times| - i
  {
    if i == |c.times| then m
    else
      StepInRange(c, m, i);
      Scan(c, Step(c, m, i), i + 1)
  }

  // A property that every step keeps holds at the end of the scan.
  lemma {:induction false} ScanInduction<S(!new)>(c: Config<S>, m: Machine<S>, i: nat, p: (Machine<S>, nat) -> bool)
    requires 0 < i <= |c.times| == |c.states| && InRange(m, i) && p(m, i)
    requires forall a, j: nat | 0 < j < |c.times| && InRange(a, j) && p(a, j) :: p(Step(c, a, j), j + 1)
    ensures p(Scan(c, m, i), |c.times|)
    decreases |c.times| - i
  {
    if i < |c.times| {
      StepInRange(c, m, i);
      ScanInduction(c, Step(c, m, i), i + 1, p);
    }
  }

  lemma ScanKeeps<S(!new)>(c: Config<S>, m: Machine<S>)
    requires c.times != [] && Inv(c, m, 1) && InRange(m, 1)
    ensures Inv(c, Scan(c, m, 1), |c.times|)
  {
    forall a, j: nat | 0 < j < |c.times| && InRange(a, j) && Inv(c, a, j) ensures Inv(c, Step(c, a, j), j + 1) {
      StepKeeps(c, a, j);
    }
    ScanInduction(c, m, 1, (a: Machine<S>, j: nat) => Inv(c, a, j));
  }

  function Initial<S>(): Machine<S> { Machine(0, None, TranscriptStart, []) }

  lemma InitialInv<S>(c: Config<S>)
    requires WellFormed(c) && c.times != []
    ensures Inv(c, Initial(), 1)
  {
    FreshAt(c, Initial(), 0);
  }

  // The closed slices of a whole transcript.
  function Slices<S(==)>(c: Config<S>): seq<Slice>
    requires WellFormed(c)
  {
    if c.times == [] then []
    else
      var m := Flushed(c, Scan(c, Initial(), 1), |c.times|);
      CloseAt(m, |c.times|, NothingFollows).out
  }

  // ----- the closures over shared variables

  class Scanner<S(==)> {
    const c: Config<S>
    var start: nat
    var pending: Option<Run<S>>
    var reason: Opening
    var out: seq<Slice>

    function Snapshot(): Machine<S>
      reads this
    {
      Machine(start, pending, reason, out)
    }

    constructor (c: Config<S>)
      ensures this.c == c && Snapshot() == Initial()
    {
      this.c := c;
      start, pending, reason, out := 0, None, TranscriptStart, [];
    }

    // close: an empty stretch is not emitted and hands its reason on.
    method Close(end: nat, why: Opening, next: nat)
      requires next == end
      modifies this
      ensures Snapshot() == CloseAt(old(Snapshot()), end, why)
    {
      if end > start {
        out := out + [Slice(start, end, reason)];
        reason := why;
      }
      start := next;
    }

    // flush: a run still unconfirmed at a boundary is closed as its own episode.
    method Flush(i: nat)
      requires 0 < i <= |c.states|
      modifies this
      ensures Snapshot() == Flushed(c, old(Snapshot()), i)
    {
      if pending.Some? && c.states[i - 1] == pending.value.state {
        var from := pending.value.from;
        Close(from, StateChanged, from);
        pending := None;
      }
    }

    // The loop body for bin i.
    method Advance(i: nat)
      requires 0 < i < |c.times| == |c.states| && start < |c.states|
      modifies this
      ensures Snapshot() == Step(c, old(Snapshot()), i)
    {
      var gap := c.times[i] - c.times[i - 1];
      var span := c.times[i] - c.times[start];
      if gap > c.maxGap {
        Flush(i);
        Close(i, Resumed(gap), i);
        pending := None;
        return;
      }
      if c.states[i] != c.states[start] {
        if pending.Some? && c.states[i] == pending.value.state {
          pending := Some(pending.value.(length := pending.value.length + 1));
        } else {
          pending := Some(Run(c.states[i], 1, i));
        }
        if pending.value.length >= c.debounce {
          var from := pending.value.from;
          Close(from, StateChanged, from);
          pending := None;
          return;
        }
      } else {
        pending := None;
      }
      if span >= c.maxSpan {
        Flush(i);
        Close(i, ReachedCap, i);
        pending := None;
      }
    }
  }

  /** episodes: the slices of the transcript, by one pass over the bins. */
  method Segment<S(==)>(c: Config<S>) returns (out: seq<Slice>)
    requires WellFormed(c)
    ensures out == Slices(c)
  {
    if c.times == [] {
      return [];
    }
    var scanner := new Scanner<S>(c);
    for i := 1 to |c.times|
      invariant scanner.c == c && fresh(scanner)
      invariant InRange(scanner.Snapshot(), i)
      invariant Scan(c, scanner.Snapshot(), i) == Scan(c, Initial(), 1)
    {
      StepInRange(c, scanner.Snapshot(), i);
      scanner.Advance(i);
    }
    scanner.Flush(|c.times|);
    scanner.Close(|c.times|, NothingFollows, |c.times|);
    return scanner.out;
  }

  // ----- the whole transcript

  lemma {:induction false} ClosedFacts<S>(c: Config<S>, v: seq<Slice>, to: nat, k: nat)
    requires Closed(c, v, to) && k < |v|
    ensures Fits(c, v[k]) && (k == 0 ==> v[k].from == 0 && v[k].reason == TranscriptStart)
    ensures k > 0 ==> v[k - 1].to == v[k].from && Follows(c, v[..k - 1], v[k - 1], v[k].from, v[k].reason)
    ensures v[k].to <= to && v[|v| - 1].to == to
    decreases |v|
  {
    var init := v[..|v| - 1];
    if k == |v| - 1 {
      if k > 0 { assert init[..k - 1] == v[..k - 1]; }
    } else {
      ClosedFacts(c, init, v[|v| - 1].from, k);
      if k > 0 { assert init[..k - 1] == v[..k - 1]; }
    }
  }

  // What the scan hands over.
  ghost predicate Covers<S>(c: Config<S>, v: seq<Slice>) {
    && WellFormed(c) && v != [] && Closed(c, v, |c.times|)
    && Fits(c, v[|v| - 1]) && EndsOnItsOwn(c, v[|v| - 1])
  }

  lemma SlicesCover<S(!new)>(c: Config<S>)
    requires WellFormed(c) && c.times != []
    ensures Covers(c, Slices(c))
  {
    InitialInv(c);
    ScanKeeps(c, Initial());
    FinalFlush(c, Scan(c, Initial(), 1));
  }

  lemma FinalFlush<S>(c: Config<S>, m: Machine<S>)
    requires Inv(c, m, |c.times|)
    ensures Covers(c, CloseAt(Flushed(c, m, |c.times|), |c.times|, NothingFollows).out)
  {
    var n := |c.times|;
    var f := Flushed(c, m, n);
    if m.pending.Some? {
      FlushKeeps(c, m, n);
      SameAt(c.states, f.start, n, n - 1);
    }
    var v := f.out + [Slice(f.start, n, f.reason)];
    assert v[..|v| - 1] == f.out;
  }

  /** The episodes partition the active bins exactly: consecutive non-empty slices from the first bin
      to the last, each opened for a reason its boundary bears out. Inside one, no two neighbouring
      bins are more than max_gap apart, no run of `debounce` bins shares a state other than the
      published one, and, when (debounce - 1) * max_gap < max_span, first to last spans less than
      max_span. */
  lemma EpisodesPartitionTheBins<S(!new)>(c: Config<S>, k: nat)
    requires WellFormed(c) && c.times != [] && k < |Slices(c)|
    ensures var v := Slices(c);
            && v[0].from == 0 && v[0].reason == TranscriptStart && v[|v| - 1].to == |c.times|
            && v[k].from < v[k].to <= |c.times|
            && (k > 0 ==> v[k - 1].to == v[k].from && Follows(c, v[..k - 1], v[k - 1], v[k].from, v[k].reason))
            && Quiet(c, v[k].from, v[k].to) && NoGap(c, v[k].from, v[k].to)
            && (0 < c.maxSpan && (Bar(c) - 1) * c.maxGap < c.maxSpan ==>
                  c.times[v[k].to - 1] - c.times[v[k].from] < c.maxSpan)
  {
    SlicesCover(c);
    PartitionAt(c, Slices(c), k);
  }

  lemma PartitionAt<S>(c: Config<S>, v: seq<Slice>, k: nat)
    requires Covers(c, v) && k < |v|
    ensures v[0].from == 0 && v[0].reason == TranscriptStart && v[|v| - 1].to == |c.times|
    ensures Fits(c, v[k])
    ensures k > 0 ==> v[k - 1].to == v[k].from && Follows(c, v[..k - 1], v[k - 1], v[k].from, v[k].reason)
    ensures 0 < c.maxSpan && (Bar(c) - 1) * c.maxGap < c.maxSpan ==>
              c.times[v[k].to - 1] - c.times[v[k].from] < c.maxSpan
  {
    ClosedFacts(c, v, |c.times|, 0);
    ClosedFacts(c, v, |c.times|, k);
    LongestIs(Bar(c) - 1, c.maxGap);
  }

  /** Work that stopped is never mislabelled: an episode that ends at an idle gap, or with the
      transcript, has the published state in its last bin. And the boundaries at which work resumed
      are exactly the idle gaps. */
  lemma IdleEpisodesEndOnTheirOwnState<S(!new)>(c: Config<S>, k: nat)
    requires WellFormed(c) && c.times != [] && k < |Slices(c)|
    ensures var v := Slices(c);
            && v[k].from < v[k].to <= |c.states|
            && (k + 1 == |v| || v[k + 1].reason.Resumed? ==> EndsOnItsOwn(c, v[k]))
            && (k + 1 < |v| ==> v[k].to < |c.times| && (v[k + 1].reason.Resumed? <==> Gap(c, v[k].to) > c.maxGap))
            && (k + 1 < |v| && v[k + 1].reason.Resumed? ==> v[k + 1].reason.gap == Gap(c, v[k].to))
  {
    SlicesCover(c);
    IdleAt(c, Slices(c), k);
  }

  lemma IdleAt<S>(c: Config<S>, v: seq<Slice>, k: nat)
    requires Covers(c, v) && k < |v|
    ensures v[k].from < v[k].to <= |c.states|
    ensures k + 1 == |v| || v[k + 1].reason.Resumed? ==> EndsOnItsOwn(c, v[k])
    ensures k + 1 < |v| ==> v[k].to < |c.times| && (v[k + 1].reason.Resumed? <==> Gap(c, v[k].to) > c.maxGap)
    ensures k + 1 < |v| && v[k + 1].reason.Resumed? ==> v[k + 1].reason.gap == Gap(c, v[k].to)
  {
    ClosedFacts(c, v, |c.times|, k);
    if k + 1 < |v| { ClosedFacts(c, v, |c.times|, k + 1); }
  }

  /** The length cap does not carry that guarantee. The episode it closes at bin i ends on its own
      state exactly when the bin before i still had the open episode's state, or bin i repeats it. */
  lemma CapEndsOnItsOwnIff<S>(c: Config<S>, m: Machine<S>, i: nat)
    requires Inv(c, m, i) && i < |c.times| && Gap(c, i) <= c.maxGap && c.times[i] - c.times[m.start] >= c.maxSpan
    requires var p := Noted(c, m, i).pending; p.Some? ==> p.value.length < c.debounce
    ensures var out := Step(c, m, i).out;
            && out != [] && out[|out| - 1].from < out[|out| - 1].to == i
            && (EndsOnItsOwn(c, out[|out| - 1]) <==>
                c.states[i - 1] == c.states[m.start] || c.states[i - 1] == c.states[i])
  {
    CapFlush(c, m, i);
    var f := Flushed(c, Noted(c, m, i), i);
    if f.start != m.start {
      FlushKeeps(c, m, i);
      SameAt(c.states, f.start, i, i - 1);
    }
  }

  // Four bins, the third a stray one, and the cap reached at the fourth.
  function StrayAtCap(): Config<string> {
    Config([0, 900, 1800, 2700], ["main", "main", "stray", "main"], 2, 3600, 2700)
  }

  /** So an episode can publish a state that its own last bin contradicts. */
  lemma CapCanMislabel()
    ensures var c := StrayAtCap();
            WellFormed(c) && |Slices(c)| == 2 && Slices(c)[0] == Slice(0, 3, TranscriptStart)
            && !EndsOnItsOwn(c, Slices(c)[0])
  {
    var c := StrayAtCap();
    var m2 := Machine(0, Some(Run("stray", 1, 2)), TranscriptStart, []);
    var m3 := Machine(3, None, ReachedCap, [Slice(0, 3, TranscriptStart)]);
    assert Step(c, Initial(), 1) == Initial();
    assert Step(c, Initial(), 2) == m2;
    assert Step(c, m2, 3) == m3;
    assert Scan(c, m2, 3) == Scan(c, m3, 4) == m3;
  }

  // ----- the published records

  datatype Episode<S> = Episode(start: int, end: int, bins: nat, events: nat, state: S, reason: Opening)

  predicate Within<S>(e: Episode<S>, t: int) { e.start <= t < e.end }

  predicate InSome<S>(es: seq<Episode<S>>, t: int) { exists k :: 0 <= k < |es| && Within(es[k], t) }

  function EventsIn(events: seq<nat>, from: nat, to: nat): nat
    requires from <= to <= |events|
  {
    if from == to then 0 else EventsIn(events, from, to - 1) + events[to - 1]
  }

  // An episode ends where the next begins; the last one a bin-width after its own last bin.
  function Publish<S>(c: Config<S>, events: seq<nat>, s: Slice): Episode<S>
    requires s.from < s.to <= |c.times| == |c.states| == |events|
  {
    var end := if s.to < |c.times| then c.times[s.to]
               else c.times[s.to - 1] + if s.to - s.from > 1 then c.times[s.to - 1] - c.times[s.to - 2] else 900;
    Episode(c.times[s.from], end, s.to - s.from, EventsIn(events, s.from, s.to), c.states[s.from], s.reason)
  }

  ghost predicate NonEmpty(v: seq<Slice>, n: nat) {
    forall k | 0 <= k < |v| :: v[k].from < v[k].to <= n
  }

  function PublishAll<S>(c: Config<S>, events: seq<nat>, v: seq<Slice>): (r: seq<Episode<S>>)
    requires |c.times| == |c.states| == |events|
    requires NonEmpty(v, |c.times|)
    ensures |r| == |v| && forall k | 0 <= k < |v| :: r[k] == Publish(c, events, v[k])
  {
    if v == [] then [] else PublishAll(c, events, v[..|v| - 1]) + [Publish(c, events, v[|v| - 1])]
  }

  function TotalBins<S>(es: seq<Episode<S>>): nat {
    if es == [] then 0 else TotalBins(es[..|es| - 1]) + es[|es| - 1].bins
  }

  function TotalEvents<S>(es: seq<Episode<S>>): nat {
    if es == [] then 0 else TotalEvents(es[..|es| - 1]) + es[|es| - 1].events
  }

  lemma {:induction false} EventsSplit(events: seq<nat>, a: nat, b: nat, d: nat)
    requires a <= b <= d <= |events|
    ensures EventsIn(events, a, d) == EventsIn(events, a, b) + EventsIn(events, b, d)
    decreases d
  {
    if b < d { EventsSplit(events, a, b, d - 1); }
  }

  lemma PublishLast<S>(c: Config<S>, events: seq<nat>, init: seq<Slice>, s: Slice)
    requires |c.times| == |c.states| == |events| && NonEmpty(init + [s], |c.times|)
    ensures NonEmpty(init, |c.times|) && s.from < s.to <= |c.times|
    ensures PublishAll(c, events, init + [s]) == PublishAll(c, events, init) + [Publish(c, events, s)]
  {
    var v := init + [s];
    assert v[|v| - 1] == s && v[..|v| - 1] == init;
    assert forall k | 0 <= k < |init| :: v[k] == init[k];
  }

  lemma TotalsLast<S>(es: seq<Episode<S>>, e: Episode<S>)
    ensures TotalBins(es + [e]) == TotalBins(es) + e.bins
    ensures TotalEvents(es + [e]) == TotalEvents(es) + e.events
  {
    assert (es + [e])[..|es|] == es;
  }

  lemma {:induction false} PublishedTotals<S>(c: Config<S>, events: seq<nat>, v: seq<Slice>, to: nat)
    requires |c.times| == |c.states| == |events| && Closed(c, v, to) && to <= |events|
    requires NonEmpty(v, |c.times|)
    ensures TotalBins(PublishAll(c, events, v)) == to
    ensures TotalEvents(PublishAll(c, events, v)) == EventsIn(events, 0, to)
    decreases |v|
  {
    if v != [] {
      var init, s := v[..|v| - 1], v[|v| - 1];
      assert v == init + [s];
      PublishLast(c, events, init, s);
      PublishedTotals(c, events, init, s.from);
      TotalsLast(PublishAll(c, events, init), Publish(c, events, s));
      EventsSplit(events, 0, s.from, s.to);
    }
  }

  lemma CoveringIsNonEmpty<S>(c: Config<S>, v: seq<Slice>)
    requires Covers(c, v)
    ensures NonEmpty(v, |c.times|)
  {
    forall k | 0 <= k < |v| ensures v[k].from < v[k].to <= |c.times| { PartitionAt(c, v, k); }
  }

  /** No bin and no event is lost or counted twice: the published counts add up to the transcript's,
      and each published end is the next published start. */
  lemma EpisodesConserve<S(!new)>(c: Config<S>, events: seq<nat>)
    requires WellFormed(c) && c.times != [] && |events| == |c.times|
    ensures NonEmpty(Slices(c), |c.times|)
    ensures var es := PublishAll(c, events, Slices(c));
            && TotalBins(es) == |c.times| && TotalEvents(es) == EventsIn(events, 0, |events|)
            && (forall j, k | 0 <= j < k < |es| && k == j + 1 :: es[j].end == es[k].start)
  {
    SlicesCover(c);
    CoveringIsNonEmpty(c, Slices(c));
    PublishedTotals(c, events, Slices(c), |c.times|);
    PublishedAbut(c, events, Slices(c));
  }

  lemma PublishedAbut<S>(c: Config<S>, events: seq<nat>, v: seq<Slice>)
    requires Covers(c, v) && |events| == |c.times| && NonEmpty(v, |c.times|)
    ensures var es := PublishAll(c, events, v);
            forall j, k | 0 <= j < k < |es| && k == j + 1 :: es[j].end == es[k].start
  {
    forall j, k | 0 <= j < k < |v| && k == j + 1 ensures v[j].to == v[k].from < |c.times| {
      PartitionAt(c, v, k);
    }
  }

  /** Every bin's instant lies in exactly one published [start, end), the one that counts the bin. */
  lemma EveryBinInOneEpisode<S(!new)>(c: Config<S>, events: seq<nat>, i: nat)
    requires WellFormed(c) && |events| == |c.times| && i < |c.times|
    ensures NonEmpty(Slices(c), |c.times|)
    ensures var v, es := Slices(c), PublishAll(c, events, Slices(c));
            && InSome(es, c.times[i])
            && (forall k | 0 <= k < |es| :: Within(es[k], c.times[i]) <==> v[k].from <= i < v[k].to)
  {
    SlicesCover(c);
    CoveringIsNonEmpty(c, Slices(c));
    BinInOne(c, events, Slices(c), i);
  }

  lemma BinInOne<S>(c: Config<S>, events: seq<nat>, v: seq<Slice>, i: nat)
    requires Covers(c, v) && |events| == |c.times| && NonEmpty(v, |c.times|) && i < |c.times|
    ensures var es := PublishAll(c, events, v);
            && InSome(es, c.times[i])
            && (forall k | 0 <= k < |es| :: Within(es[k], c.times[i]) <==> v[k].from <= i < v[k].to)
  {
    var es := PublishAll(c, events, v);
    forall k | 0 <= k < |es| ensures Within(es[k], c.times[i]) <==> v[k].from <= i < v[k].to {
      PublishedSpan(c, events, v[k], i);
    }
    ghost var k := SliceOf(c, v, |c.times|, i);
    assert es[k] == Publish(c, events, v[k]);
    PublishedSpan(c, events, v[k], i);
  }

  lemma PublishedSpan<S>(c: Config<S>, events: seq<nat>, s: Slice, i: nat)
    requires WellFormed(c) && s.from < s.to <= |c.times| == |events| && i < |c.times|
    ensures Within(Publish(c, events, s), c.times[i]) <==> s.from <= i < s.to
  {
    if s.to - s.from > 1 { assert c.times[s.to - 2] < c.times[s.to - 1]; }
    assert i < s.from ==> c.times[i] < c.times[s.from];
    assert i > s.from ==> c.times[i] > c.times[s.from];
    assert s.to < |c.times| && i < s.to ==> c.times[i] < c.times[s.to];
    assert s.to < |c.times| && i > s.to ==> c.times[i] > c.times[s.to];
    assert i < s.to - 1 ==> c.times[i] < c.times[s.to - 1];
  }

  lemma {:induction false} SliceOf<S>(c: Config<S>, v: seq<Slice>, to: nat, i: nat) returns (k: nat)
    requires Closed(c, v, to) && i < to
    ensures k < |v| && v[k].from <= i < v[k].to
    decreases |v|
  {
    var s := v[|v| - 1];
    if s.from <= i {
      k := |v| - 1;
    } else {
      k := SliceOf(c, v[..|v| - 1], s.from, i);
    }
  }

  // ----- the carried state

  // The reference a level last showed at or before bin i. A bin without one is missing evidence.
  function LastSeen(tops: seq<seq<Option<string>>>, level: nat, i: nat): Option<string>
    requires i < |tops| && forall j | 0 <= j < |tops| :: level < |tops[j]|
  {
    if tops[i][level].Some? || i == 0 then tops[i][level] else LastSeen(tops, level, i - 1)
  }

  /** The carried reference is the last one shown: at some bin at or before i, with none shown between;
      and none is carried exactly when none was shown. */
  lemma {:induction false} LastSeenIs(tops: seq<seq<Option<string>>>, level: nat, i: nat)
    requires i < |tops| && forall j | 0 <= j < |tops| :: level < |tops[j]|
    ensures match LastSeen(tops, level, i)
            case None => forall j | 0 <= j <= i :: tops[j][level] == None
            case Some(ref) => exists j :: 0 <= j <= i && tops[j][level] == Some(ref)
                                          && forall k | j < k <= i :: tops[k][level] == None
  {
    if tops[i][level] == None && i > 0 {
      LastSeenIs(tops, level, i - 1);
      if LastSeen(tops, level, i - 1).Some? {
        var ref := LastSeen(tops, level, i - 1).value;
        var j :| 0 <= j <= i - 1 && tops[j][level] == Some(ref) && forall k | j < k <= i - 1 :: tops[k][level] == None;
        assert forall k | j < k <= i :: tops[k][level] == None;
      }
    }
  }

  predicate Rectangular(tops: seq<seq<Option<string>>>, levels: nat) {
    forall j | 0 <= j < |tops| :: |tops[j]| == levels
  }

  method CarryStates(tops: seq<seq<Option<string>>>, levels: nat) returns (states: seq<seq<Option<string>>>)
    requires Rectangular(tops, levels)
    ensures |states| == |tops|
    ensures forall i | 0 <= i < |tops| :: |states[i]| == levels
    ensures forall i, l | 0 <= i < |tops| && 0 <= l < levels :: states[i][l] == LastSeen(tops, l, i)
  {
    states := [];
    var carried: seq<Option<string>> := seq(levels, _ => None);
    for b := 0 to |tops|
      invariant |states| == b && |carried| == levels
      invariant b == 0 ==> forall l | 0 <= l < levels :: carried[l] == None
      invariant b > 0 ==> forall l | 0 <= l < levels :: carried[l] == LastSeen(tops, l, b - 1)
      invariant forall i | 0 <= i < b :: |states[i]| == levels
      invariant forall i, l | 0 <= i < b && 0 <= l < levels :: states[i][l] == LastSeen(tops, l, i)
    {
      ghost var before := carried;
      for l := 0 to levels
        invariant |carried| == levels
        invariant forall q | 0 <= q < levels :: carried[q] == if q < l then LastSeen(tops, q, b) else before[q]
      {
        if tops[b][l].Some? {
          carried := carried[l := tops[b][l]];
        }
      }
      states := states + [carried];
    }
  }

  /** Absence never cuts: an episode opened by a change of state begins at a bin that shows a
      reference, at some watched level, other than the one carried into it. */
  lemma AbsenceNeverCuts(c: Config<seq<Option<string>>>, tops: seq<seq<Option<string>>>, levels: nat, k: nat)
    requires WellFormed(c) && c.times != [] && |tops| == |c.times| && Rectangular(tops, levels)
    requires forall i | 0 <= i < |tops| :: |c.states[i]| == levels
    requires forall i, l | 0 <= i < |tops| && 0 <= l < levels :: c.states[i][l] == LastSeen(tops, l, i)
    requires k < |Slices(c)| && Slices(c)[k].reason == StateChanged
    ensures var i := Slices(c)[k].from;
            0 < i < |tops| && exists l :: 0 <= l < levels && tops[i][l].Some? && tops[i][l] != c.states[i - 1][l]
  {
    SlicesCover(c);
    ChangeOpens(c, Slices(c), k);
    CarriedChange(c.states, tops, levels, Slices(c)[k].from);
  }

  lemma ChangeOpens<S>(c: Config<S>, v: seq<Slice>, k: nat)
    requires Covers(c, v) && k < |v| && v[k].reason == StateChanged
    ensures 0 < v[k].from < |c.states| && c.states[v[k].from] != c.states[v[k].from - 1]
  {
    ClosedFacts(c, v, |c.times|, k);
  }

  lemma CarriedChange(states: seq<seq<Option<string>>>, tops: seq<seq<Option<string>>>, levels: nat, i: nat)
    requires 0 < i < |tops| == |states| && Rectangular(tops, levels)
    requires |states[i - 1]| == |states[i]| == levels && states[i] != states[i - 1]
    requires forall l | 0 <= l < levels ::
               states[i][l] == LastSeen(tops, l, i) && states[i - 1][l] == LastSeen(tops, l, i - 1)
    ensures exists l :: 0 <= l < levels && tops[i][l].Some? && tops[i][l] != states[i - 1][l]
  {
    var l :| 0 <= l < levels && states[i][l] != states[i - 1][l];
    assert tops[i][l].Some?;
  }
}
