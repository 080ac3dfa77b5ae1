/** An event is never in two places that exclude each other: what is in the dead-letter stream,
    or was refused by it, is no longer pending, in every run. */
module PipelinePlaces {
  import opened Events
  import opened Association
  import opened Pipeline
  import opened PipelineSafety
  import opened PipelineView
  import opened PipelineProgress

  function DeliveredIds(s: State): set<nat>
    requires s.cursor <= |s.log|
  {
    Ids(s.log[..s.cursor])
  }

  ghost predicate OnePlace(s: State)
    requires s.cursor <= |s.log|
  {
    && s.pel <= DeliveredIds(s) && s.letters.ids <= DeliveredIds(s) && s.lost <= DeliveredIds(s)
    && s.pel !! s.letters.ids && s.pel !! s.lost
  }

  lemma {:induction false} AddedWithin(letters: Letters, events: seq<Event>)
    ensures letters.ids <= Added(letters, events).ids <= letters.ids + Ids(events)
  {
    if events != [] {
      AddedWithin(letters, events[..|events| - 1]);
      assert forall e | e in events[..|events| - 1] :: e in events;
    }
  }

  /** What a step dead-letters was delivered before. */
  lemma DoomedAreDelivered(s: State, step: Step)
    requires WorkersOk(s)
    ensures Ids(Doomed(s, step)) <= DeliveredIds(s)
  {
    if (step.BuryApplied? || step.BuryFailed?) && step.w < |s.workers| {
      assert WorkerOk(Delivered(s), s.dedup, s.workers[step.w]);
      assert forall e | e in Doomed(s, step) :: e in Batches(s.workers[step.w]);
    }
  }

  /** The new pending ids of a step. */
  function Arriving(s: State, step: Step): set<nat>
    requires s.cursor <= |s.log|
  {
    if step.Deliver? && s.cursor < |s.log| then {s.log[s.cursor].id} else {}
  }

  /** A step takes off the pending list whatever it dead-letters, reclaims or refuses. */
  lemma PendingAfter(s: State, step: Step)
    requires s.cursor <= |s.log|
    ensures var t := Exec(s, step);
            && t.pel <= s.pel + Arriving(s, step)
            && (step.Deliver? ==> t.letters == s.letters && t.lost == s.lost)
            && (!step.Deliver? ==> t.pel !! (t.letters.ids - s.letters.ids) && t.pel !! (t.lost - s.lost))
  {
    AddedWithin(s.letters, Doomed(s, step));
    hide Inserted;
    hide Added;
    hide Cleared;
    hide Those;
    hide BumpAll;
    hide Updates;
    hide Ids;
    NothingToAdd(s);
    if IsOutside(step) {
      hide Redis;
      hide Database;
    } else if IsRedis(step) {
      hide Outside;
      hide Database;
    } else {
      hide Outside;
      hide Redis;
    }
  }

  /** What a step adds to the dead-letter stream, or records as refused, was delivered. */
  lemma LettersAfterStep(s: State, step: Step)
    requires WorkersOk(s)
    ensures var t := Exec(s, step);
            t.letters.ids <= s.letters.ids + DeliveredIds(s) && t.lost <= s.lost + DeliveredIds(s)
  {
    Frame(s, step);
    AddedWithin(s.letters, Doomed(s, step));
    DoomedAreDelivered(s, step);
    hide Framed;
    hide WorkersOk;
    hide Added;
    hide Doomed;
    hide Ids;
    if step.Reclaim? {
      ReclaimedAreDelivered(s, step.ids, step.top);
    } else {
      hide Exec;
    }
  }

  lemma ReclaimedAreDelivered(s: State, ids: set<nat>, top: int)
    requires s.cursor <= |s.log|
    ensures Exec(s, Reclaim(ids, top)).letters.ids <= s.letters.ids + DeliveredIds(s)
    ensures Exec(s, Reclaim(ids, top)).lost == s.lost
  {
  }

  /** A delivered id is new. */
  lemma ArrivingIsNew(s: State, step: Step)
    requires s.cursor <= |s.log| && LogOk(s.log)
    ensures Arriving(s, step) !! DeliveredIds(s)
  {
  }

  lemma StepKeepsOnePlace(s: State, step: Step)
    requires WorkersOk(s) && LogOk(s.log) && OnePlace(s)
    ensures Exec(s, step).cursor <= |Exec(s, step).log| && OnePlace(Exec(s, step))
  {
    CursorStays(s, step);
    PipelineSafety.DeliveredIds(s, step);
    PendingAfter(s, step);
    LettersAfterStep(s, step);
    ArrivingIsNew(s, step);
    hide Exec;
    hide WorkersOk;
    hide LogOk;
    hide Ids;
  }

  lemma {:induction false} RunsKeepOnePlace(rows: Table, workers: nat, run: seq<Step>)
    ensures OnePlace(After(Start(rows, workers), run)) && LogOk(After(Start(rows, workers), run).log)
  {
    if run != [] {
      hide WorkersOk;
      hide OnePlace;
      hide Exec;
      var s := After(Start(rows, workers), run[..|run| - 1]);
      RunsKeepOnePlace(rows, workers, run[..|run| - 1]);
      RunsKeepWorkers(rows, workers, run[..|run| - 1]);
      StepKeepsOnePlace(s, run[|run| - 1]);
      StepOnward(s, run[|run| - 1]);
    }
  }

  /** Main result: in every run, early acknowledgements included, a pending event is one that
      was delivered and is neither in the dead-letter stream nor was refused by it. */
  lemma PendingIsUnsettled(rows: Table, workers: nat, run: seq<Step>, id: nat)
    requires id in After(Start(rows, workers), run).pel
    ensures var s := After(Start(rows, workers), run);
            && (exists i :: 0 <= i < s.cursor && s.log[i].id == id) && id !in s.letters.ids && id !in s.lost
  {
    RunsKeepOnePlace(rows, workers, run);
    var s := After(Start(rows, workers), run);
    var e :| e in s.log[..s.cursor] && e.id == id;
  }
}
