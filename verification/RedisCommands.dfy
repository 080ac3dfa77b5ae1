/** The Redis transactions of post_processing.py and pre_processing.py, command by command:
    dead-lettering, acknowledgement with side effects, and trimming. Each pipeline that the
    code builds is proved to have the effect of a step of the event pipeline. */
module RedisCommands {
  import opened Events
  import opened Pipeline
  import opened PipelineSafety
  import PipelineView

  // ----------------------------------------------------------------------- Redis commands

  datatype Command =
    | XAck(id: nat)
    | XAdd(id: nat)
    | CompareDelete(key: Key, intent: Intent)
    | HIncrBy(update: CounterUpdate)

  /** The effect of one command; an XADD at or below the top of its stream raises. */
  function Do(s: State, c: Command): State {
    match c
    case XAck(id) => s.(pel := s.pel - {id})
    case XAdd(id) =>
      if id > s.letters.top then s.(letters := Letters(s.letters.ids + {id}, id))
      else s.(lost := s.lost + ({id} - s.letters.ids))
    case CompareDelete(key, intent) =>
      if key in s.intents && s.intents[key] == intent then s.(intents := s.intents - {key}) else s
    case HIncrBy(update) => s.(counts := Bump(s.counts, update))
  }

  function DoAll(s: State, commands: seq<Command>): State {
    if commands == [] then s else Do(DoAll(s, commands[..|commands| - 1]), commands[|commands| - 1])
  }

  /** Some XADD of the transaction is refused; the other commands take effect nevertheless. */
  predicate Raises(s: State, commands: seq<Command>) {
    exists i :: 0 <= i < |commands| && Refused(DoAll(s, commands[..i]), commands[i])
  }

  predicate Refused(s: State, c: Command) {
    c.XAdd? && c.id <= s.letters.top
  }

  lemma DoAllStep(s: State, commands: seq<Command>, c: Command)
    ensures DoAll(s, commands + [c]) == Do(DoAll(s, commands), c)
    ensures Raises(s, commands + [c]) <==> Raises(s, commands) || Refused(DoAll(s, commands), c)
  {
    var all := commands + [c];
    assert all[..|all| - 1] == commands;
    assert forall i | 0 <= i < |commands| :: all[..i] == commands[..i];
    if Refused(DoAll(s, commands), c) {
      assert all[..|commands|] == commands && Refused(DoAll(s, all[..|commands|]), all[|commands|]);
    }
  }

  /** All events of a dead-lettering come above the top and in increasing order. */
  predicate Ascending(letters: Letters, events: seq<Event>) {
    forall i | 0 <= i < |events| :: Above(letters, events, i)
  }

  lemma AscendingStep(letters: Letters, events: seq<Event>, n: nat)
    requires n < |events|
    ensures Ascending(letters, events[..n + 1])
            <==> Ascending(letters, events[..n]) && events[n].id > Added(letters, events[..n]).top
  {
    var head := events[..n];
    AddedTop(letters, head);
    var more := events[..n + 1];
    assert forall i | 0 <= i < n :: Above(letters, more, i) <==> Above(letters, head, i);
    var top := Added(letters, head).top;
    assert Above(letters, more, n) <==> events[n].id > top by {
      if top != letters.top {
        var i :| 0 <= i < |head| && head[i].id == top;
        assert more[i].id == top;
      }
      assert forall i | 0 <= i < n :: more[i] == head[i];
    }
  }

  lemma BuriedIds(events: seq<Event>, n: nat)
    requires n < |events|
    ensures Ids(events[..n + 1]) == Ids(events[..n]) + {events[n].id}
  {
    assert events[..n + 1] == events[..n] + [events[n]];
  }

  lemma BuriedLetters(letters: Letters, events: seq<Event>, n: nat)
    requires n < |events|
    ensures var before, id := Added(letters, events[..n]), events[n].id;
            && Added(letters, events[..n + 1]) == (if id > before.top then Letters(before.ids + {id}, id) else before)
            && forall i | i in Ids(events[..n]) :: i <= before.top
  {
    assert events[..n + 1][..n] == events[..n];
    AddedTop(letters, events[..n]);
    hide Added;
    assert forall i | 0 <= i < n :: events[..n][i].id <= Added(letters, events[..n]).top;
  }

  lemma BuryStep(s: State, events: seq<Event>, n: nat)
    requires n < |events|
    ensures Bury(s, events[..n + 1]) == Do(Do(Bury(s, events[..n]), XAck(events[n].id)), XAdd(events[n].id))
  {
    hide Added;
    BuriedIds(events, n);
    BuriedLetters(s.letters, events, n);
    var ids, id, before := Ids(events[..n]), events[n].id, Added(s.letters, events[..n]);
    var after := Added(s.letters, events[..n + 1]);
    hide Ids;
    RefusedAdds(ids, id, before.ids, after.ids, id > before.top);
    assert s.pel - (ids + {id}) == s.pel - ids - {id};
  }

  lemma RefusedAdds(ids: set<nat>, id: nat, before: set<nat>, after: set<nat>, added: bool)
    requires after == if added then before + {id} else before
    requires added ==> id !in ids
    ensures (ids + {id}) - after == (ids - before) + if added then {} else {id} - before
  {
  }

  lemma ClearStep(s: State, events: seq<Event>, n: nat)
    requires n < |events|
    ensures s.(intents := Cleared(s.intents, events[..n + 1]))
            == Do(s.(intents := Cleared(s.intents, events[..n])),
                  CompareDelete(events[n].key, Intent(events[n].flag, events[n].intent)))
  {
    assert events[..n + 1][..n] == events[..n];
  }

  lemma AckStep(s: State, events: seq<Event>, n: nat)
    requires n < |events|
    ensures s.(pel := s.pel - Ids(events[..n + 1])) == Do(s.(pel := s.pel - Ids(events[..n])), XAck(events[n].id))
  {
    assert events[..n + 1] == events[..n] + [events[n]];
    assert Ids(events[..n + 1]) == Ids(events[..n]) + {events[n].id};
  }

  // --------------------------------------------------------------------------- repetition

  lemma {:induction false} AddedTwice(letters: Letters, events: seq<Event>)
    requires forall e | e in events :: e.id <= letters.top
    ensures Added(letters, events) == letters
  {
    if events != [] {
      AddedTwice(letters, events[..|events| - 1]);
    }
  }

  lemma BuryTwice(s: State, events: seq<Event>)
    ensures Bury(Bury(s, events), events) == Bury(s, events)
  {
    AddedTop(s.letters, events);
    AddedTwice(Added(s.letters, events), events);
  }

  lemma {:induction false} ClearedNone(intents: map<Key, Intent>, events: seq<Event>)
    requires forall e | e in events && e.key in intents :: intents[e.key] != Intent(e.flag, e.intent)
    ensures Cleared(intents, events) == intents
  {
    if events != [] {
      ClearedNone(intents, events[..|events| - 1]);
    }
  }

  datatype Job = AckAndEmit | AmortizeApplied | AmortizeFailed

  function Performed(s: State, job: Job, events: seq<Event>): State {
    if job == AckAndEmit then Acknowledge(s, events) else Bury(s, events)
  }

  /** The same transaction executed n times, as happens when replies are lost. */
  function Repeated(s: State, job: Job, events: seq<Event>, n: nat): State {
    if n == 0 then s else Performed(Repeated(s, job, events, n - 1), job, events)
  }

  function Times(updates: seq<CounterUpdate>, n: nat): seq<CounterUpdate> {
    if n == 0 then [] else Times(updates, n - 1) + updates
  }

  lemma {:induction false} NamedTimes(updates: seq<CounterUpdate>, n: nat, group: nat, key: string)
    ensures Named(Times(updates, n), group, key) == n * Named(updates, group, key)
  {
    if n > 0 {
      NamedTimes(updates, n - 1, group, key);
      NamedConcat(Times(updates, n - 1), updates, group, key);
      var once := Named(updates, group, key);
      hide Named;
      assert (n - 1) * once + once == n * once;
    }
  }

  /** Acknowledgements and compare-and-deletes repeat without effect, increments do not. */
  lemma {:induction false} RepeatedAcknowledge(s: State, events: seq<Event>, n: nat)
    requires n >= 1
    ensures Repeated(s, AckAndEmit, events, n)
            == Acknowledge(s, events).(counts := BumpAll(s.counts, Times(Updates(events), n)))
  {
    var updates := Updates(events);
    hide Updates;
    if n == 1 {
      assert Times(updates, 1) == Times(updates, 0) + updates == updates;
      assert Repeated(s, AckAndEmit, events, 0) == s;
    } else {
      RepeatedAcknowledge(s, events, n - 1);
      PipelineView.ClearedHolds(s.intents, events);
      ClearedNone(Cleared(s.intents, events), events);
      BumpAllConcat(s.counts, Times(updates, n - 1), updates);
    }
  }

  /** Dead-lettering repeats without effect, but the repetition is refused. */
  lemma {:induction false} RepeatedBury(s: State, job: Job, events: seq<Event>, n: nat)
    requires n >= 1 && job != AckAndEmit
    ensures Repeated(s, job, events, n) == Bury(s, events)
    ensures events != [] ==> !Ascending(Repeated(s, job, events, n).letters, events)
  {
    if n > 1 {
      RepeatedBury(s, job, events, n - 1);
      BuryTwice(s, events);
    } else {
      assert Repeated(s, job, events, 0) == s;
    }
    AddedTop(s.letters, events);
    assert events != [] ==> !Above(Added(s.letters, events), events, 0);
  }

  /** After n executions of an acknowledgement each counter has grown by n times its deltas:
      by exactly its deltas if and only if there was one execution or they sum to zero. */
  lemma RepeatedCounts(s: State, events: seq<Event>, n: nat, group: nat, key: string)
    ensures var once, grown := Named(Updates(events), group, key), Count(Repeated(s, AckAndEmit, events, n).counts, group, key);
            && grown == Count(s.counts, group, key) + n * once
            && (grown == Count(s.counts, group, key) + once <==> n == 1 || once == 0)
  {
    var once := Named(Updates(events), group, key);
    if n >= 1 {
      RepeatedAcknowledge(s, events, n);
      BumpAllCounts(s.counts, Times(Updates(events), n), group, key);
      NamedTimes(Updates(events), n, group, key);
    }
    OnlyOnce(n, once);
  }

  lemma AllCounts(s: State, events: seq<Event>, n: nat)
    ensures forall group, key ::
              Count(Repeated(s, AckAndEmit, events, n).counts, group, key)
              == Count(s.counts, group, key) + n * Named(Updates(events), group, key)
  {
    forall group: nat, key: string
      ensures Count(Repeated(s, AckAndEmit, events, n).counts, group, key)
              == Count(s.counts, group, key) + n * Named(Updates(events), group, key)
    {
      RepeatedCounts(s, events, n, group, key);
    }
  }

  lemma OnlyOnce(n: nat, d: int)
    ensures n * d == d <==> n == 1 || d == 0
  {
    if n * d == d {
      assert (n - 1) * d == 0;
    }
  }

  // -------------------------------------------------------------------------- trimming

  /** `list.remove`. */
  function RemoveFirst(batch: seq<Event>, e: Event): seq<Event> {
    if batch == [] then [] else if batch[0] == e then batch[1..] else [batch[0]] + RemoveFirst(batch[1..], e)
  }

  lemma {:induction false} RemoveFirstAt(kept: seq<Event>, e: Event, rest: seq<Event>)
    requires e !in kept
    ensures RemoveFirst(kept + [e] + rest, e) == kept + rest
  {
    var whole := kept + [e] + rest;
    if kept == [] {
      assert whole[1..] == rest;
    } else {
      RemoveFirstAt(kept[1..], e, rest);
      assert whole[1..] == kept[1..] + [e] + rest;
      assert kept + rest == [kept[0]] + (kept[1..] + rest);
    }
  }

  lemma ThoseStep(batch: seq<Event>, ids: set<nat>, inside: bool, n: nat)
    requires n < |batch|
    ensures Those(batch[..n + 1], ids, inside)
            == Those(batch[..n], ids, inside) + if (batch[n].id in ids) == inside then [batch[n]] else []
  {
    assert batch[..n + 1][..n] == batch[..n];
  }

  /** XACK for each event. */
  function Acks(events: seq<Event>): (r: seq<Command>)
    ensures |r| == |events|
  {
    seq(|events|, i requires 0 <= i < |events| => XAck(events[i].id))
  }

  lemma AcksConcat(events: seq<Event>, e: Event)
    ensures Acks(events + [e]) == Acks(events) + [XAck(e.id)]
  {
  }

  lemma {:induction false} AcksAcknowledge(s: State, events: seq<Event>)
    ensures DoAll(s, Acks(events)) == s.(pel := s.pel - Ids(events)) && !Raises(s, Acks(events))
  {
    if events == [] {
      assert s.pel - Ids(events) == s.pel;
    } else {
      var n := |events| - 1;
      AcksAcknowledge(s, events[..n]);
      assert Acks(events) == Acks(events[..n]) + [XAck(events[n].id)];
      DoAllStep(s, Acks(events[..n]), XAck(events[n].id));
      AckStep(s, events, n);
      assert events[..n + 1] == events;
    }
  }

  /** The batch after i turns of the trimming loop, and the commands queued by then. */
  function Trimmed(original: seq<Event>, inserted: set<nat>, i: nat): seq<Event>
    requires i <= |original|
  {
    Those(original[..i], inserted, true) + original[i..]
  }

  function Queued(original: seq<Event>, inserted: set<nat>, i: nat): seq<Command>
    requires i <= |original|
  {
    Acks(Those(original[..i], inserted, false))
  }

  lemma TrimStep(original: seq<Event>, inserted: set<nat>, i: nat)
    requires i < |original|
    ensures var e, batch := original[i], Trimmed(original, inserted, i);
            && Trimmed(original, inserted, i + 1) == (if e.id in inserted then batch else RemoveFirst(batch, e))
            && Queued(original, inserted, i + 1)
               == Queued(original, inserted, i) + if e.id in inserted then [] else [XAck(e.id)]
  {
    hide Those;
    hide RemoveFirst;
    hide Acks;
    var e, kept := original[i], Those(original[..i], inserted, true);
    ThoseStep(original, inserted, true, i);
    ThoseStep(original, inserted, false, i);
    ThoseHolds(original[..i], inserted, true);
    AcksConcat(Those(original[..i], inserted, false), e);
    assert original[i..] == [e] + original[i + 1..];
    assert Trimmed(original, inserted, i) == kept + [e] + original[i + 1..];
    if e.id !in inserted {
      RemoveFirstAt(kept, e, original[i + 1..]);
    } else {
      assert Those(original[..i + 1], inserted, false) == Those(original[..i], inserted, false);
      assert kept + [e] + original[i + 1..] == (kept + [e]) + original[i + 1..];
    }
  }

  lemma TrimEnds(original: seq<Event>, inserted: set<nat>)
    ensures Trimmed(original, inserted, 0) == original && Queued(original, inserted, 0) == []
    ensures Trimmed(original, inserted, |original|) == Those(original, inserted, true)
    ensures Queued(original, inserted, |original|) == Acks(Those(original, inserted, false))
  {
    assert original[..0] == [] && original[..|original|] == original && original[|original|..] == [];
    assert original[0..] == original;
  }

  /** trim_duplicate_events takes out, in place and over a copy, the events whose ids are not
      newly inserted, and queues their acknowledgements; the others stay in order. */
  method TrimDuplicateEvents(original: seq<Event>, inserted: set<nat>) returns (batch: seq<Event>, pipeline: seq<Command>)
    ensures batch == Those(original, inserted, true)
    ensures pipeline == Acks(Those(original, inserted, false))
  {
    hide *;
    TrimEnds(original, inserted);
    batch, pipeline := original, [];
    for i := 0 to |original|
      invariant batch == Trimmed(original, inserted, i) && pipeline == Queued(original, inserted, i)
    {
      var event := original[i];
      TrimStep(original, inserted, i);
      if event.id !in inserted {
        batch := RemoveFirst(batch, event);
        pipeline := pipeline + [XAck(event.id)];
      }
    }
  }

  /** Every copy of a newly inserted id stays, which is why batches must not repeat an id. */
  lemma CopiesSurviveTrimming(e: Event)
    ensures Those([e, e], {e.id}, true) == [e, e] && !DistinctIds([e, e])
  {
    assert [e, e][..1] == [e] && [e][..0] == [];
    assert Those([e], {e.id}, true) == [e];
    assert [e, e][0].id == [e, e][1].id;
  }

  // ------------------------------------------------------------- the pipelines as they grow

  /** The duplicates are the events whose ids the insert did not return. */
  lemma {:induction false} SameSplit(batch: seq<Event>, dedup: set<nat>)
    ensures Those(batch, Ids(batch) - dedup, true) == Those(batch, dedup, false)
    ensures Those(batch, Ids(batch) - dedup, false) == Those(batch, dedup, true)
  {
    SplitPrefix(batch, Ids(batch) - dedup, dedup);
  }

  lemma {:induction false} SplitPrefix(batch: seq<Event>, inserted: set<nat>, dedup: set<nat>)
    requires forall e | e in batch :: e.id in inserted <==> e.id !in dedup
    ensures Those(batch, inserted, true) == Those(batch, dedup, false)
    ensures Those(batch, inserted, false) == Those(batch, dedup, true)
  {
    if batch != [] {
      SplitPrefix(batch[..|batch| - 1], inserted, dedup);
    }
  }

  /** An ascending dead-lettering adds every event. */
  lemma {:induction false} AscendingAddsAll(letters: Letters, events: seq<Event>)
    ensures Ascending(letters, events) ==> Ids(events) <= Added(letters, events).ids
  {
    if events != [] && Ascending(letters, events) {
      var n := |events| - 1;
      assert events[..n + 1] == events;
      AscendingStep(letters, events, n);
      AscendingAddsAll(letters, events[..n]);
      assert Ids(events) == Ids(events[..n]) + {events[n].id} by {
        assert events == events[..n] + [events[n]];
      }
    }
  }

  lemma NothingToBury(letters: Letters, events: seq<Event>)
    ensures events == [] ==> Ascending(letters, events)
  {
  }

  /** All events acknowledged, the intents of the first i cleared. */
  function HalfAcknowledged(s: State, events: seq<Event>, i: nat): State
    requires i <= |events|
  {
    s.(pel := s.pel - Ids(events), intents := Cleared(s.intents, events[..i]))
  }

  lemma HalfAcknowledgedStep(s: State, events: seq<Event>, i: nat)
    requires i < |events|
    ensures HalfAcknowledged(s, events, i + 1)
            == Do(HalfAcknowledged(s, events, i), CompareDelete(events[i].key, Intent(events[i].flag, events[i].intent)))
  {
    ClearStep(s.(pel := s.pel - Ids(events)), events, i);
  }

  lemma HalfAcknowledgedStarts(s: State, events: seq<Event>)
    ensures Acks(events[..0]) == [] && events[..|events|] == events
    ensures DoAll(s, Acks(events)) == HalfAcknowledged(s, events, 0)
  {
    AcksAcknowledge(s, events);
    assert events[..0] == [] && events[..|events|] == events;
  }

  /** All events acknowledged, all intents cleared, the first increments executed. */
  function NearlyAcknowledged(s: State, events: seq<Event>, done: seq<CounterUpdate>): State {
    s.(pel := s.pel - Ids(events), intents := Cleared(s.intents, events), counts := BumpAll(s.counts, done))
  }

  lemma NearlyAcknowledgedStep(s: State, events: seq<Event>, done: seq<CounterUpdate>, u: CounterUpdate)
    ensures NearlyAcknowledged(s, events, done + [u]) == Do(NearlyAcknowledged(s, events, done), HIncrBy(u))
  {
    assert (done + [u])[..|done + [u]| - 1] == done;
  }

  lemma NearlyAcknowledgedEnds(s: State, events: seq<Event>)
    ensures HalfAcknowledged(s, events, |events|) == NearlyAcknowledged(s, events, [])
    ensures Updates(events[..0]) == []
    ensures NearlyAcknowledged(s, events, Updates(events)) == Acknowledge(s, events)
  {
    assert events[..|events|] == events;
  }

  lemma UpdatesStep(events: seq<Event>, n: nat)
    requires n < |events|
    ensures Updates(events[..n + 1]) == Updates(events[..n]) + events[n].updates
  {
    assert events[..n + 1][..n] == events[..n];
  }

  lemma AmortizeEnds(s: State, events: seq<Event>)
    ensures Bury(s, events[..0]) == s && Ascending(s.letters, events[..0]) && !Raises(s, [])
    ensures events[..|events|] == events
  {
    assert s.pel - Ids(events[..0]) == s.pel;
  }

  lemma AmortizeStep(s: State, pipeline: seq<Command>, events: seq<Event>, i: nat)
    requires i < |events|
    requires DoAll(s, pipeline) == Bury(s, events[..i]) && (Raises(s, pipeline) <==> !Ascending(s.letters, events[..i]))
    ensures var more := pipeline + [XAck(events[i].id)] + [XAdd(events[i].id)];
            && DoAll(s, more) == Bury(s, events[..i + 1])
            && (Raises(s, more) <==> !Ascending(s.letters, events[..i + 1]))
  {
    hide Ascending;
    hide Raises;
    hide DoAll;
    hide Added;
    hide Above;
    var before := Bury(s, events[..i]);
    BuryStep(s, events, i);
    AscendingStep(s.letters, events, i);
    assert before.letters == Added(s.letters, events[..i]);
    var ack, add := XAck(events[i].id), XAdd(events[i].id);
    var between := Do(before, ack);
    assert between.letters == before.letters && !Refused(before, ack);
    assert Refused(between, add) <==> events[i].id <= before.letters.top;
    DoAllStep(s, pipeline, ack);
    DoAllStep(s, pipeline + [ack], add);
  }
}
