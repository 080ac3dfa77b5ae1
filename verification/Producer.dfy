/** emit_user_event (event_streamer.py): one transaction increments the counters of the event,
    stores its intent and appends it to the stream. It is a step of the event pipeline and,
    at once, increments of the counter pipeline. */
module Producer {
  import opened Wrappers
  import opened Events
  import Pipeline
  import opened RedisCommands
  import Counters
  import CounterTotals
  import RetryNames

  function Increments(updates: seq<CounterUpdate>): (r: seq<Counters.Step>)
    ensures |r| == |updates|
  {
    seq(|updates|, i requires 0 <= i < |updates| => Counters.Increment(updates[i].group, updates[i].key, updates[i].delta))
  }

  lemma IncrementStep(s: Counters.State, maxRetries: nat, updates: seq<CounterUpdate>, n: nat)
    requires n < |updates|
    ensures Counters.After(s, maxRetries, Increments(updates[..n + 1]))
            == Counters.Exec(Counters.After(s, maxRetries, Increments(updates[..n])), maxRetries,
                             Counters.Increment(updates[n].group, updates[n].key, updates[n].delta))
  {
    assert Increments(updates[..n + 1])[..n] == Increments(updates[..n]);
  }

  /** Each counter grows by exactly the deltas that the event names for it. */
  lemma {:induction false} EmissionAdds(s: Counters.State, maxRetries: nat, updates: seq<CounterUpdate>, g: nat, k: string)
    requires RetryNames.RowId(k).Some?
    ensures CounterTotals.Total(Counters.After(s, maxRetries, Increments(updates)), g, k)
            == CounterTotals.Total(s, g, k) + Named(updates, g, k)
  {
    if updates != [] {
      hide CounterTotals.Total;
      hide RetryNames.RowId;
      var n := |updates| - 1;
      EmissionAdds(s, maxRetries, updates[..n], g, k);
      assert updates[..n + 1] == updates;
      IncrementStep(s, maxRetries, updates, n);
      CounterTotals.IncrementConserves(Counters.After(s, maxRetries, Increments(updates[..n])), maxRetries,
                                       updates[n].group, updates[n].key, updates[n].delta, g, k);
    }
  }

  /** An emission followed by n executions of the event's acknowledgement adds each of its
      deltas n + 1 times, since the code names the same increments in both. */
  lemma EmissionAndAcknowledgements(s: Pipeline.State, e: Event, n: nat, group: nat, key: string)
    requires s.cursor <= |s.log| && Pipeline.Emittable(s, e)
    ensures var t := Repeated(Pipeline.Exec(s, Pipeline.Emit(e)), AckAndEmit, [e], n);
            Count(t.counts, group, key) == Count(s.counts, group, key) + (n + 1) * Named(e.updates, group, key)
  {
    var t := Pipeline.Exec(s, Pipeline.Emit(e));
    BumpAllCounts(s.counts, e.updates, group, key);
    RepeatedCounts(t, [e], n, group, key);
    UpdatesStep([e], 0);
    NearlyAcknowledgedEnds(t, [e]);
    assert [e][..1] == [e] && [] + e.updates == e.updates;
    hide Named;
    hide BumpAll;
    hide Repeated;
    OneMore(n, Named(e.updates, group, key));
  }

  lemma OneMore(n: nat, d: int)
    ensures (n + 1) * d == n * d + d
  {
  }

  class EventStreamer {
    var events: Pipeline.State
    var counters: Counters.State

    constructor (events: Pipeline.State, counters: Counters.State)
      ensures this.events == events && this.counters == counters
    {
      this.events, this.counters := events, counters;
    }

    method EmitUserEvent(event: Event, ghost maxRetries: nat)
      requires events.cursor <= |events.log| && Pipeline.Emittable(events, event)
      modifies this
      ensures events == Pipeline.Exec(old(events), Pipeline.Emit(event))
      ensures events == old(events).(log := old(events).log + [event], counts := events.counts,
                                     intents := old(events).intents[event.key := Pipeline.Intent(event.flag, event.intent)])
      ensures forall g, k :: Count(events.counts, g, k) == Count(old(events).counts, g, k) + Named(event.updates, g, k)
      ensures counters == Counters.After(old(counters), maxRetries, Increments(event.updates))
      ensures forall g, k | RetryNames.RowId(k).Some? ::
                CounterTotals.Total(counters, g, k) == CounterTotals.Total(old(counters), g, k) + Named(event.updates, g, k)
    {
      hide CounterTotals.Total;
      hide RetryNames.RowId;
      var updates := event.updates;
      assert Increments(updates[..0]) == [] && updates[..0] == [];
      for i := 0 to |updates|
        invariant events == old(events).(counts := BumpAll(old(events).counts, updates[..i]))
        invariant counters == Counters.After(old(counters), maxRetries, Increments(updates[..i]))
      {
        IncrementStep(old(counters), maxRetries, updates, i);
        assert updates[..i + 1][..i] == updates[..i];
        events := events.(counts := Bump(events.counts, updates[i]));
        var name := Counters.Live(updates[i].group);
        counters := counters.(hashes := Counters.Bumped(counters.hashes, name, updates[i].key, updates[i].delta));
      }
      assert updates[..|updates|] == updates;
      forall g: nat, k: string
        ensures Count(events.counts, g, k) == Count(old(events).counts, g, k) + Named(updates, g, k)
      {
        BumpAllCounts(old(events).counts, updates, g, k);
      }
      forall g, k | RetryNames.RowId(k).Some?
        ensures CounterTotals.Total(counters, g, k) == CounterTotals.Total(old(counters), g, k) + Named(updates, g, k)
      {
        EmissionAdds(old(counters), maxRetries, updates, g, k);
      }
      events := events.(intents := events.intents[event.key := Pipeline.Intent(event.flag, event.intent)]);
      events := events.(log := events.log + [event]);
    }
  }
}
