/** In every run each event takes effect at most once, and no event is dropped. */
module PipelineSafety {
  import opened Events
  import opened Association
  import opened Pipeline
  import BisectInsert

  predicate NoRepeats(s: seq<nat>) {
    forall i, j | 0 <= i < j < |s| :: s[i] != s[j]
  }

  function Elements(s: seq<nat>): set<nat> {
    set x | x in s
  }

  // -------------------------------------------------------------------- parts of a batch

  lemma {:induction false} ThoseHolds(batch: seq<Event>, ids: set<nat>, inside: bool)
    ensures forall e :: e in Those(batch, ids, inside) <==> e in batch && (e.id in ids) == inside
    ensures DistinctIds(batch) ==> DistinctIds(Those(batch, ids, inside))
  {
    if batch != [] {
      ThoseHolds(batch[..|batch| - 1], ids, inside);
      assert batch == batch[..|batch| - 1] + [batch[|batch| - 1]];
      var some := Those(batch[..|batch| - 1], ids, inside);
      if DistinctIds(batch) {
        forall i | 0 <= i < |some|
          ensures some[i].id != batch[|batch| - 1].id
        {
          assert some[i] in batch[..|batch| - 1];
        }
      }
    }
  }

  /** Inserting a batch with distinct ids reports each of its ids at most once. */
  lemma {:induction false} InsertedOnce(rows: Table, batch: seq<Event>, rejected: set<nat>, hi: nat)
    requires DistinctIds(batch) && hi <= |batch|
    ensures var ids := BisectInsert.Sequential(InsertOne(rejected), BisectInsert.Progress(rows, []), batch, 0, hi).inserted;
            NoRepeats(ids) && forall id | id in ids :: exists i :: 0 <= i < hi && batch[i].id == id
  {
    if hi > 0 {
      InsertedOnce(rows, batch, rejected, hi - 1);
      var before := BisectInsert.Sequential(InsertOne(rejected), BisectInsert.Progress(rows, []), batch, 0, hi - 1).inserted;
      forall i | 0 <= i < |before|
        ensures before[i] != batch[hi - 1].id
      {
        assert before[i] in before;
      }
    }
  }

  /** Burying raises the top past every event, to one of them if it moves. */
  lemma {:induction false} AddedTop(letters: Letters, events: seq<Event>)
    ensures var top := Added(letters, events).top;
            && letters.top <= top && (forall i | 0 <= i < |events| :: events[i].id <= top)
            && (top == letters.top || exists i :: 0 <= i < |events| && events[i].id == top)
  {
    if events != [] {
      AddedTop(letters, events[..|events| - 1]);
    }
  }

  /** The dead-letter stream afterwards has exactly the old entries and those events that
      came above its top and above every event buried before them. */
  lemma {:induction false} AddedIffAbove(letters: Letters, events: seq<Event>, id: nat)
    requires DistinctIds(events)
    ensures id in Added(letters, events).ids
            <==> id in letters.ids || exists i :: 0 <= i < |events| && events[i].id == id && Above(letters, events, i)
  {
    if events != [] {
      var init, n := events[..|events| - 1], |events| - 1;
      AddedIffAbove(letters, init, id);
      AddedTop(letters, init);
      forall i | 0 <= i < n
        ensures Above(letters, events, i) <==> Above(letters, init, i)
      {
      }
      var top := Added(letters, init).top;
      assert events[n].id > top <==> Above(letters, events, n) by {
        if top != letters.top {
          var i :| 0 <= i < |init| && init[i].id == top;
          assert events[i].id == top;
        }
      }
      assert events[n].id == id && Above(letters, events, n) ==> id in Added(letters, events).ids;
    }
  }

  predicate Above(letters: Letters, events: seq<Event>, i: nat)
    requires i < |events|
  {
    events[i].id > letters.top && forall j | 0 <= j < i :: events[j].id < events[i].id
  }

  // ------------------------------------------------------------------------- invariants

  function Batches(worker: Worker): seq<Event> {
    match worker
    case Idle => []
    case Holding(batch) => batch
    case InTx(batch, dups) => batch + dups
    case Committed(applied, failed) => applied + failed
    case Failed(batch) => batch
  }

  /** A worker holds delivered events; those in a transaction are not in the dedup table yet,
      the ones found there and the committed ones are. */
  ghost predicate WorkerOk(delivered: set<Event>, dedup: set<nat>, worker: Worker) {
    && (forall e | e in Batches(worker) :: e in delivered)
    && match worker
       case InTx(batch, dups) => DistinctIds(batch) && Ids(batch) !! dedup && Ids(dups) <= dedup
       case Committed(applied, failed) => DistinctIds(applied) && DistinctIds(failed) && Ids(applied + failed) <= dedup
       case Holding(batch) => DistinctIds(batch)
       case Failed(batch) => DistinctIds(batch)
       case Idle => true
  }

  ghost predicate Apart(a: Worker, b: Worker) {
    a.InTx? && b.InTx? ==> Ids(a.batch) !! Ids(b.batch)
  }

  ghost predicate WorkersOk(s: State) {
    && s.cursor <= |s.log|
    && (forall w | 0 <= w < |s.workers| :: WorkerOk(Delivered(s), s.dedup, s.workers[w]))
    && (forall v, w | 0 <= v < |s.workers| && 0 <= w < |s.workers| && v != w :: Apart(s.workers[v], s.workers[w]))
  }

  /** Delivering and committing leave the workers that they do not concern in order. */
  lemma WorkerOkGrows(delivered: set<Event>, delivered': set<Event>, dedup: set<nat>, dedup': set<nat>, worker: Worker)
    requires WorkerOk(delivered, dedup, worker) && delivered <= delivered' && dedup <= dedup'
    requires worker.InTx? ==> Ids(worker.batch) !! dedup'
    ensures WorkerOk(delivered', dedup', worker)
  {
  }

  /** One worker moves on, the others stay. */
  lemma WorkersOkPut(s: State, t: State, w: nat, worker: Worker)
    requires WorkersOk(s) && t.cursor <= |t.log| && Delivered(s) <= Delivered(t) && t.dedup == s.dedup
    requires t.workers == Put(s, w, worker).workers && WorkerOk(Delivered(s), s.dedup, worker)
    requires worker.InTx? ==> forall v | 0 <= v < |s.workers| && v != w :: Apart(s.workers[v], worker)
    ensures WorkersOk(t)
  {
    forall v | 0 <= v < |t.workers|
      ensures WorkerOk(Delivered(t), t.dedup, t.workers[v])
    {
      WorkerOkGrows(Delivered(s), Delivered(t), s.dedup, t.dedup, t.workers[v]);
    }
    hide WorkerOk;
  }

  lemma DeliveredGrows(s: State, step: Step)
    requires s.cursor <= |s.log|
    ensures Delivered(s) <= Delivered(Exec(s, step))
    ensures !step.Deliver? ==> Delivered(s) == Delivered(Exec(s, step))
  {
    Frame(s, step);
    hide Exec;
    var t := Exec(s, step);
    assert t.log[..s.cursor] == s.log[..s.cursor];
    if step.Deliver? && s.cursor < |s.log| {
      assert t.log[..t.cursor] == s.log[..s.cursor] + [s.log[s.cursor]];
    }
  }

  lemma SplitOk(delivered: set<Event>, dedup: set<nat>, batch: seq<Event>, ids: set<nat>)
    requires DistinctIds(batch) && forall e | e in batch :: e in delivered
    ensures Ids(batch) <= dedup ==> WorkerOk(delivered, dedup, Committed(Those(batch, ids, true), Those(batch, ids, false)))
    ensures WorkerOk(delivered, dedup, InTx(Those(batch, dedup, false), Those(batch, dedup, true)))
    ensures Ids(Those(batch, dedup, false)) <= Ids(batch)
  {
    ThoseHolds(batch, ids, true);
    ThoseHolds(batch, ids, false);
    ThoseHolds(batch, dedup, true);
    ThoseHolds(batch, dedup, false);
  }

  lemma DedupKeepsWorkers(s: State, w: nat)
    requires WorkersOk(s)
    ensures WorkersOk(Exec(s, Dedup(w)))
  {
    if At(s, w).Holding? && !Blocked(s, w, At(s, w).batch) {
      var batch := At(s, w).batch;
      var worker := InTx(Those(batch, s.dedup, false), Those(batch, s.dedup, true));
      SplitOk(Delivered(s), s.dedup, batch, {});
      forall v | 0 <= v < |s.workers| && v != w
        ensures Apart(s.workers[v], worker)
      {
        assert s.workers[v].InTx? ==> Ids(s.workers[v].batch) !! Ids(batch);
      }
      WorkersOkPut(s, Exec(s, Dedup(w)), w, worker);
    }
  }

  lemma CommitKeepsWorkers(s: State, w: nat, rejected: set<nat>, replied: bool)
    requires WorkersOk(s)
    ensures WorkersOk(Exec(s, Commit(w, rejected, replied)))
  {
    hide Inserted;
    if At(s, w).InTx? && At(s, w).dups == [] {
      var batch := At(s, w).batch;
      var t := Exec(s, Commit(w, rejected, replied));
      SplitOk(Delivered(s), t.dedup, batch, Elements(Inserted(s.rows, batch, rejected).inserted));
      forall v | 0 <= v < |s.workers|
        ensures WorkerOk(Delivered(t), t.dedup, t.workers[v])
      {
        if v != w {
          assert Apart(s.workers[v], s.workers[w]);
          WorkerOkGrows(Delivered(s), Delivered(t), s.dedup, t.dedup, s.workers[v]);
        }
      }
    }
  }

  /** Where the worker of a step stands afterwards, but for dedup and commit. */
  function Next(worker: Worker, step: Step): Worker {
    match step
    case Take(_, batch) => if worker == Idle then Holding(batch) else worker
    case Trim(_, true) => if worker.InTx? then InTx(worker.batch, []) else worker
    case Rollback(_) => if worker.InTx? then Holding(worker.batch) else worker
    case Fail(_) => if worker.InTx? || worker.Holding? then Failed(worker.batch) else worker
    case AckApplied(_, true) => if worker.Committed? then Committed([], worker.failed) else worker
    case BuryApplied(_, true) => if worker.Committed? then Committed([], worker.failed) else worker
    case BuryFailed(_, true) => if worker.Failed? || (worker.Committed? && worker.applied == []) then Idle else worker
    case Crash(_) => Idle
    case _ => worker
  }

  lemma NextOk(delivered: set<Event>, dedup: set<nat>, worker: Worker, step: Step)
    requires WorkerOk(delivered, dedup, worker)
    requires step.Take? ==> DistinctIds(step.batch) && forall e | e in step.batch :: e in delivered
    ensures WorkerOk(delivered, dedup, Next(worker, step))
    ensures Next(worker, step).InTx? ==> worker.InTx? && worker.batch == Next(worker, step).batch
  {
  }

  function WorkerOf(step: Step): nat {
    match step
    case Take(w, _) => w
    case Trim(w, _) => w
    case Rollback(w) => w
    case Fail(w) => w
    case AckApplied(w, _) => w
    case BuryApplied(w, _) => w
    case BuryFailed(w, _) => w
    case Crash(w) => w
    case _ => 0
  }

  lemma StepMovesOne(s: State, step: Step)
    requires s.cursor <= |s.log| && !step.Dedup? && !step.Commit?
    ensures Exec(s, step).dedup == s.dedup
    ensures var w := WorkerOf(step);
            || Exec(s, step).workers == s.workers
            || ((step.Take? ==> Takeable(s, step.batch)) && Exec(s, step).workers == Put(s, w, Next(At(s, w), step)).workers)
  {
    hide Added;
    hide Cleared;
    hide Ids;
    if IsOutside(step) {
      hide Redis;
      hide Database;
    } else if IsRedis(step) {
      hide Outside;
      hide Database;
    } else {
      hide Outside;
      hide Redis;
    }
  }

  lemma StepKeepsWorkers(s: State, step: Step)
    requires WorkersOk(s)
    ensures WorkersOk(Exec(s, step))
  {
    hide Exec;
    hide WorkerOk;
    hide Next;
    match step {
      case Dedup(w) => DedupKeepsWorkers(s, w);
      case Commit(w, rejected, replied) => CommitKeepsWorkers(s, w, rejected, replied);
      case _ => MoveKeepsWorkers(s, step);
    }
  }

  lemma MoveKeepsWorkers(s: State, step: Step)
    requires WorkersOk(s) && !step.Dedup? && !step.Commit?
    ensures WorkersOk(Exec(s, step))
  {
    hide Exec;
    hide Next;
    DeliveredGrows(s, step);
    CursorStays(s, step);
    StepMovesOne(s, step);
    var t, w := Exec(s, step), WorkerOf(step);
    if t.workers == s.workers {
      assert WorkersOk(t) by { hide WorkerOk; WorkersOkSame(s, t); }
    } else {
      if w < |s.workers| {
        NextOk(Delivered(s), s.dedup, At(s, w), step);
        forall v | 0 <= v < |s.workers| && v != w
          ensures Apart(s.workers[v], Next(At(s, w), step))
        {
          assert Apart(s.workers[v], s.workers[w]);
        }
      }
      assert w < |s.workers|;
      WorkersOkPut(s, t, w, Next(At(s, w), step));
    }
  }

  lemma WorkersOkSame(s: State, t: State)
    requires WorkersOk(s) && t.cursor <= |t.log| && Delivered(s) <= Delivered(t) && t.dedup == s.dedup && t.workers == s.workers
    ensures WorkersOk(t)
  {
    forall w | 0 <= w < |s.workers|
      ensures WorkerOk(Delivered(t), t.dedup, t.workers[w])
    {
      WorkerOkGrows(Delivered(s), Delivered(t), s.dedup, t.dedup, s.workers[w]);
    }
  }

  // ------------------------------------------------------------------------ at most once

  /** No event was processed twice, and the processed ones are those in the dedup table. */
  ghost predicate AtMostOnce(s: State) {
    NoRepeats(s.commits) && Elements(s.commits) == s.dedup
  }

  lemma {:induction false} NoRepeatsConcat(a: seq<nat>, b: seq<nat>)
    requires NoRepeats(a) && NoRepeats(b) && Elements(a) !! Elements(b)
    ensures NoRepeats(a + b) && Elements(a + b) == Elements(a) + Elements(b)
  {
    var c := a + b;
    forall i, j | 0 <= i < j < |c|
      ensures c[i] != c[j]
    {
      if i < |a| <= j {
        assert c[i] in Elements(a) && c[j] in Elements(b);
      }
    }
  }

  lemma IdsOfBatch(batch: seq<Event>)
    requires DistinctIds(batch)
    ensures NoRepeats(IdsOf(batch)) && Elements(IdsOf(batch)) == Ids(batch)
  {
    forall e | e in batch
      ensures e.id in IdsOf(batch)
    {
      var i :| 0 <= i < |batch| && batch[i] == e;
      assert IdsOf(batch)[i] == e.id;
    }
  }

  lemma CommitKeepsAtMostOnce(s: State, w: nat, rejected: set<nat>, replied: bool)
    requires WorkersOk(s) && AtMostOnce(s)
    ensures AtMostOnce(Exec(s, Commit(w, rejected, replied)))
  {
    hide Inserted;
    if At(s, w).InTx? && At(s, w).dups == [] {
      var batch := At(s, w).batch;
      assert WorkerOk(Delivered(s), s.dedup, s.workers[w]);
      IdsOfBatch(batch);
      NoRepeatsConcat(s.commits, IdsOf(batch));
    }
  }

  lemma StepKeepsAtMostOnce(s: State, step: Step)
    requires WorkersOk(s) && AtMostOnce(s)
    ensures AtMostOnce(Exec(s, step))
  {
    hide Inserted;
    hide Added;
    if step.Commit? {
      CommitKeepsAtMostOnce(s, step.w, step.rejected, step.replied);
    } else {
      Frame(s, step);
    }
  }

  // -------------------------------------------------------------------------- no event lost

  /** A delivered event is pending, deduplicated, in the dead-letter stream, or recorded lost. */
  ghost predicate Accounted(s: State)
    requires s.cursor <= |s.log|
  {
    Ids(s.log[..s.cursor]) <= s.pel + s.dedup + s.letters.ids + s.lost
  }

  lemma DeliveredIds(s: State, step: Step)
    requires s.cursor <= |s.log|
    ensures var t := Exec(s, step);
            Ids(t.log[..t.cursor])
            == Ids(s.log[..s.cursor]) + if step.Deliver? && s.cursor < |s.log| then {s.log[s.cursor].id} else {}
  {
    Frame(s, step);
    hide Exec;
    var t := Exec(s, step);
    assert t.log[..s.cursor] == s.log[..s.cursor];
    if step.Deliver? && s.cursor < |s.log| {
      assert t.log[..t.cursor] == s.log[..s.cursor] + [s.log[s.cursor]];
    }
  }

  /** What a step lets go of is accounted for. */
  lemma StepAccounts(s: State, step: Step)
    requires WorkersOk(s) && !step.AckEarly?
    ensures var t := Exec(s, step);
            && s.pel <= t.pel + t.dedup + t.letters.ids + t.lost
            && s.dedup <= t.dedup && s.letters.ids <= t.letters.ids && s.lost <= t.lost
  {
    hide Inserted;
    hide Added;
    hide Cleared;
    hide Those;
    AddedGrows(s.letters, Doomed(s, step));
    if IsOutside(step) {
      hide Redis;
      hide Database;
    } else if IsRedis(step) {
      hide Outside;
      hide Database;
      AcknowledgedAreKnown(s, step.w);
    } else {
      hide Outside;
      hide Redis;
    }
  }

  lemma AcknowledgedAreKnown(s: State, w: nat)
    requires WorkersOk(s)
    ensures At(s, w).InTx? ==> Ids(At(s, w).dups) <= s.dedup
    ensures At(s, w).Committed? ==> Ids(At(s, w).applied) <= s.dedup
  {
    assert w < |s.workers| ==> WorkerOk(Delivered(s), s.dedup, s.workers[w]);
    if At(s, w).Committed? {
      assert forall e | e in At(s, w).applied :: e in At(s, w).applied + At(s, w).failed;
    }
  }

  lemma {:induction false} AddedGrows(letters: Letters, events: seq<Event>)
    ensures letters.ids <= Added(letters, events).ids
  {
    if events != [] {
      AddedGrows(letters, events[..|events| - 1]);
    }
  }

  lemma StepKeepsAccounted(s: State, step: Step)
    requires WorkersOk(s) && Accounted(s) && !step.AckEarly?
    ensures WorkersOk(Exec(s, step)) && Accounted(Exec(s, step))
  {
    StepKeepsWorkers(s, step);
    hide WorkersOk;
    DeliveredIds(s, step);
    StepAccounts(s, step);
    if step.Deliver? && s.cursor < |s.log| {
      assert Exec(s, step).pel == s.pel + {s.log[s.cursor].id};
    }
  }

  // ----------------------------------------------------------------------- over all runs

  lemma {:induction false} RunsKeepWorkers(rows: Table, workers: nat, run: seq<Step>)
    ensures WorkersOk(After(Start(rows, workers), run)) && AtMostOnce(After(Start(rows, workers), run))
  {
    var s := Start(rows, workers);
    if run != [] {
      hide WorkersOk;
      RunsKeepWorkers(rows, workers, run[..|run| - 1]);
      var t := After(s, run[..|run| - 1]);
      StepKeepsWorkers(t, run[|run| - 1]);
      StepKeepsAtMostOnce(t, run[|run| - 1]);
    }
  }

  /** Main result: whatever readers, consumers and reclaimers do, with crashes, redelivery,
      lost replies and early acknowledgements included, committed transactions process no
      event twice, and the processed events are exactly those in the dedup table. This holds
      whatever the effect is, so it needs no statement that can be repeated safely. */
  lemma EffectsAtMostOnce(rows: Table, workers: nat, run: seq<Step>)
    ensures var s := After(Start(rows, workers), run);
            && (forall i, j | 0 <= i < j < |s.commits| :: s.commits[i] != s.commits[j])
            && forall id :: id in s.commits <==> id in s.dedup
  {
    RunsKeepWorkers(rows, workers, run);
    var s := After(Start(rows, workers), run);
    assert forall id :: id in s.commits <==> id in Elements(s.commits);
  }

  /** Main result: as long as acknowledgements come after commits, every delivered event is
      still pending, or its dedup row is committed, or it is in the dead-letter stream, or
      the dead-letter stream refused it. */
  lemma {:induction false} NoEventDropped(rows: Table, workers: nat, run: seq<Step>)
    requires CommitsFirst(run)
    ensures Accounted(After(Start(rows, workers), run))
  {
    if run != [] {
      hide WorkersOk;
      NoEventDropped(rows, workers, run[..|run| - 1]);
      RunsKeepWorkers(rows, workers, run[..|run| - 1]);
      StepKeepsAccounted(After(Start(rows, workers), run[..|run| - 1]), run[|run| - 1]);
    }
  }

  /** Each event that a step dead-letters is in the stream already or comes above its top and
      above the events buried before it. */
  ghost predicate Orderly(s: State, step: Step) {
    var events := Doomed(s, step);
    forall i | 0 <= i < |events| :: events[i].id in s.letters.ids || Above(s.letters, events, i)
  }

  lemma NothingAdded(letters: Letters)
    ensures Added(letters, []) == letters && Ids([]) == {}
  {
  }

  lemma RefusedIff(s: State, step: Step)
    requires WorkersOk(s)
    ensures Exec(s, step).lost == {} <==> s.lost == {} && Orderly(s, step)
  {
    Frame(s, step);
    hide Exec;
    hide Added;
    var events := Doomed(s, step);
    assert step.BuryApplied? && step.w < |s.workers| ==> WorkerOk(Delivered(s), s.dedup, s.workers[step.w]);
    assert step.BuryFailed? && step.w < |s.workers| ==> WorkerOk(Delivered(s), s.dedup, s.workers[step.w]);
    forall i | 0 <= i < |events|
      ensures events[i].id in Added(s.letters, events).ids <==> events[i].id in s.letters.ids || Above(s.letters, events, i)
    {
      AddedIffAbove(s.letters, events, events[i].id);
    }
    var refused := Ids(events) - Added(s.letters, events).ids;
    assert step.Reclaim? ==> events == [];
    NothingAdded(s.letters);
    assert Exec(s, step).lost == s.lost + refused;
    if Orderly(s, step) {
      assert refused == {};
    } else {
      var i :| 0 <= i < |events| && events[i].id !in s.letters.ids && !Above(s.letters, events, i);
      assert events[i].id in refused;
    }
  }

  ghost predicate AllOrderly(s: State, run: seq<Step>)
    requires s.cursor <= |s.log|
  {
    forall i | 0 <= i < |run| :: Orderly(After(s, run[..i]), run[i])
  }

  lemma OrderlySplits(s: State, run: seq<Step>)
    requires s.cursor <= |s.log| && run != []
    ensures AllOrderly(s, run)
            <==> AllOrderly(s, run[..|run| - 1]) && Orderly(After(s, run[..|run| - 1]), run[|run| - 1])
  {
    hide After;
    hide Orderly;
    var init := run[..|run| - 1];
    assert init[..|init|] == init;
    assert forall i | 0 <= i <= |init| :: run[..i] == init[..i];
  }

  /** No event is ever refused exactly when every dead-lettering of the run was orderly. */
  lemma {:induction false} NothingLostIffOrderly(rows: Table, workers: nat, run: seq<Step>)
    ensures After(Start(rows, workers), run).lost == {} <==> AllOrderly(Start(rows, workers), run)
  {
    var s := Start(rows, workers);
    if run != [] {
      hide Exec;
      hide Orderly;
      hide WorkersOk;
      hide AtMostOnce;
      hide AllOrderly;
      var init := run[..|run| - 1];
      NothingLostIffOrderly(rows, workers, init);
      OrderlySplits(s, run);
      RunsKeepWorkers(rows, workers, init);
      RefusedIff(After(s, init), run[|run| - 1]);
    }
  }
}
