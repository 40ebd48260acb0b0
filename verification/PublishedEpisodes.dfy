/** The records episodes publishes, read back against the bins, with no mention of the slices they were
    made from. */
module PublishedEpisodes {
  import opened Options
  import opened Episodes
  import opened EpisodeScan

  // The episodes of a transcript.
  function Records<S(==)>(c: Config<S>, events: seq<nat>): seq<Episode<S>>
    requires WellFormed(c) && c.times != [] && |events| == |c.times| && NonEmpty(Slices(c), |c.times|)
  {
    PublishAll(c, events, Slices(c))
  }

  // Bins from..to, and no others, have their instant in the record's [start, end).
  ghost predicate Holds<S>(c: Config<S>, e: Episode<S>, from: nat, to: nat) {
    && from < to <= |c.times|
    && forall i | 0 <= i < |c.times| :: e.start <= c.times[i] < e.end <==> from <= i < to
  }

  // The state is that of the bin at the start, and no run of bins long enough to be believed has
  // another one.
  ghost predicate States<S>(c: Config<S>, e: Episode<S>, from: nat, to: nat)
    requires from < to <= |c.times| == |c.states|
  {
    && e.start == c.times[from] && e.state == c.states[from]
    && forall a: nat, b: nat {:trigger Same(c.states, a, b)} |
         from <= a && a + Bar(c) <= b <= to && Same(c.states, a, b) :: c.states[a] == e.state
  }

  // It counts its bins and their events, and ends where the next bin starts; after the last bin, a
  // bin-width later.
  ghost predicate Counts<S>(c: Config<S>, events: seq<nat>, e: Episode<S>, from: nat, to: nat)
    requires from < to <= |c.times| == |events|
  {
    && e.bins == to - from && e.events == EventsIn(events, from, to)
    && e.end == if to < |c.times| then c.times[to]
                else if to - from > 1 then 2 * c.times[to - 1] - c.times[to - 2]
                else c.times[to - 1] + 900
  }

  // Why it opened, from the bins on either side of its start and the records before it.
  ghost predicate Reason<S>(c: Config<S>, es: seq<Episode<S>>, k: nat, from: nat)
    requires k < |es| && from < |c.times| == |c.states|
  {
    if k == 0 then from == 0 && es[k].reason == TranscriptStart
    else
      && from > 0
      && var gap := c.times[from] - c.times[from - 1];
         match es[k].reason
         case Resumed(g) => g == gap > c.maxGap
         case StateChanged => gap <= c.maxGap && es[k].state != c.states[from - 1] && es[k].state != es[k - 1].state
         case ReachedCap =>
           && gap <= c.maxGap
           && if es[k - 1].reason == StateChanged && es[k - 1].bins < Bar(c) then
                k > 1 && es[k].start - es[k - 2].start >= c.maxSpan
              else es[k].start - es[k - 1].start >= c.maxSpan
         case _ => false
  }

  // The sum of events is their sum: one bin's, and additive.
  lemma EventsOfOne(events: seq<nat>, i: nat)
    requires i < |events|
    ensures EventsIn(events, i, i) == 0 && EventsIn(events, i, i + 1) == events[i]
  {
  }

  // What a slice of the partition becomes.
  lemma PublishHolds<S>(c: Config<S>, events: seq<nat>, s: Slice)
    requires WellFormed(c) && |events| == |c.times| && s.from < s.to <= |c.times|
    ensures Holds(c, Publish(c, events, s), s.from, s.to) && Counts(c, events, Publish(c, events, s), s.from, s.to)
  {
    forall i | 0 <= i < |c.times|
      ensures Within(Publish(c, events, s), c.times[i]) <==> s.from <= i < s.to
    {
      PublishedSpan(c, events, s, i);
    }
  }

  lemma PublishStates<S>(c: Config<S>, events: seq<nat>, s: Slice)
    requires Fits(c, s) && |events| == |c.times|
    ensures States(c, Publish(c, events, s), s.from, s.to)
  {
  }

  lemma PublishedSlice<S>(c: Config<S>, events: seq<nat>, v: seq<Slice>, k: nat)
    requires Covers(c, v) && |events| == |c.times| && NonEmpty(v, |c.times|) && k < |v|
    ensures var es := PublishAll(c, events, v);
            && Holds(c, es[k], v[k].from, v[k].to) && States(c, es[k], v[k].from, v[k].to)
            && Counts(c, events, es[k], v[k].from, v[k].to)
  {
    PartitionAt(c, v, k);
    PublishHolds(c, events, v[k]);
    PublishStates(c, events, v[k]);
  }

  // The same reason, read off the slices.
  ghost predicate SliceReason<S>(c: Config<S>, v: seq<Slice>, k: nat)
    requires k < |v| && NonEmpty(v, |c.times|) && |c.times| == |c.states|
  {
    var from := v[k].from;
    if k == 0 then from == 0 && v[k].reason == TranscriptStart
    else
      && from > 0
      && var gap := c.times[from] - c.times[from - 1];
         match v[k].reason
         case Resumed(g) => g == gap > c.maxGap
         case StateChanged =>
           gap <= c.maxGap && c.states[from] != c.states[from - 1] && c.states[from] != c.states[v[k - 1].from]
         case ReachedCap =>
           && gap <= c.maxGap
           && if v[k - 1].reason == StateChanged && v[k - 1].to - v[k - 1].from < Bar(c) then
                k > 1 && c.times[from] - c.times[v[k - 2].from] >= c.maxSpan
              else c.times[from] - c.times[v[k - 1].from] >= c.maxSpan
         case _ => false
  }

  lemma SliceReasonFollows<S>(c: Config<S>, v: seq<Slice>, k: nat)
    requires 0 < k < |v| && NonEmpty(v, |c.times|)
    requires Follows(c, v[..k - 1], v[k - 1], v[k].from, v[k].reason)
    ensures SliceReason(c, v, k)
  {
    var before := v[..k - 1];
    assert k > 1 ==> before[|before| - 1] == v[k - 2];
  }

  lemma SliceReasons<S>(c: Config<S>, v: seq<Slice>, k: nat)
    requires Covers(c, v) && NonEmpty(v, |c.times|) && k < |v|
    ensures SliceReason(c, v, k)
  {
    PartitionAt(c, v, k);
    if k > 0 { SliceReasonFollows(c, v, k); }
  }

  lemma PublishedReason<S>(c: Config<S>, events: seq<nat>, v: seq<Slice>, k: nat)
    requires |events| == |c.times| == |c.states| && NonEmpty(v, |c.times|) && k < |v| && SliceReason(c, v, k)
    ensures Reason(c, PublishAll(c, events, v), k, v[k].from)
  {
  }

  // What was said of a record, at slice k of the partition.
  lemma RecordAt<S>(c: Config<S>, events: seq<nat>, v: seq<Slice>, k: nat)
    requires Covers(c, v) && |events| == |c.times| && NonEmpty(v, |c.times|) && k < |v|
    ensures var es := PublishAll(c, events, v);
            && Holds(c, es[k], v[k].from, v[k].to) && States(c, es[k], v[k].from, v[k].to)
            && Counts(c, events, es[k], v[k].from, v[k].to) && Reason(c, es, k, v[k].from)
  {
    PublishedSlice(c, events, v, k);
    SliceReasons(c, v, k);
    PublishedReason(c, events, v, k);
  }

  lemma LastStates<S>(c: Config<S>, events: seq<nat>, v: seq<Slice>, k: nat)
    requires Covers(c, v) && |events| == |c.times| && NonEmpty(v, |c.times|) && k < |v|
    ensures var es := PublishAll(c, events, v);
            && (k + 1 == |es| || es[k + 1].reason.Resumed? ==> c.states[v[k].to - 1] == es[k].state)
            && (k + 1 == |es| <==> v[k].to == |c.times|)
  {
    IdleAt(c, v, k);
    PartitionAt(c, v, k);
  }

  // Everything below that is said of record k and bins from..to.
  ghost predicate Described<S>(c: Config<S>, events: seq<nat>, es: seq<Episode<S>>, k: nat, from: nat, to: nat)
    requires k < |es| && |c.times| == |c.states| == |events|
  {
    && Holds(c, es[k], from, to) && States(c, es[k], from, to) && Counts(c, events, es[k], from, to)
    && Reason(c, es, k, from)
    && (k + 1 == |es| || es[k + 1].reason.Resumed? ==> c.states[to - 1] == es[k].state)
    && (k + 1 == |es| <==> to == |c.times|)
  }

  lemma DescribedAt<S>(c: Config<S>, events: seq<nat>, v: seq<Slice>, k: nat)
    requires Covers(c, v) && |events| == |c.times| && NonEmpty(v, |c.times|) && k < |v|
    ensures Described(c, events, PublishAll(c, events, v), k, v[k].from, v[k].to)
  {
    RecordAt(c, events, v, k);
    LastStates(c, events, v, k);
  }

  /** Each published episode against the bins whose instants it holds: its start, its end, its count of
      bins and of events, the state of its first bin and that no believed change follows, the reason
      it opened, and, where the work resumed after it or nothing follows, that its last bin has its
      state. */
  lemma RecordsAreTheirBins<S(!new)>(c: Config<S>, events: seq<nat>, k: nat) returns (from: nat, to: nat)
    requires WellFormed(c) && c.times != [] && |events| == |c.times| && k < |Slices(c)|
    ensures NonEmpty(Slices(c), |c.times|) && |Records(c, events)| == |Slices(c)|
    ensures Described(c, events, Records(c, events), k, from, to)
  {
    SlicesCover(c);
    CoveringIsNonEmpty(c, Slices(c));
    from, to := Slices(c)[k].from, Slices(c)[k].to;
    DescribedAt(c, events, Slices(c), k);
  }
}
