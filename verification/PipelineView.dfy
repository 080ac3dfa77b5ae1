/** What a user sees of a save or a vote, the stored intent or else the association row,
    is in every run the last action that the user emitted. */
module PipelineView {
  import opened Wrappers
  import opened Events
  import opened Association
  import opened Pipeline
  import opened PipelineSafety
  import BisectInsert

  function View(s: State, key: Key): Option<Flag> {
    if key in s.intents then Some(s.intents[key].flag)
    else if key in s.rows then Some(s.rows[key].state)
    else None
  }

  /** The last emitted event of a key. */
  function Last(log: seq<Event>, key: Key): Option<Event> {
    if log == [] then None
    else if log[|log| - 1].key == key then Some(log[|log| - 1])
    else Last(log[..|log| - 1], key)
  }

  function LastAction(rows: Table, log: seq<Event>, key: Key): Option<Flag> {
    match Last(log, key)
    case Some(e) => Some(e.flag)
    case None => if key in rows then Some(rows[key].state) else None
  }

  // -------------------------------------------------------------------------- invariants

  ghost predicate LogOk(log: seq<Event>) {
    forall i, j | 0 <= i < j < |log| :: log[i].id < log[j].id && log[i].intent != log[j].intent
  }

  /** Each row is an initial one or comes from an emitted event, which is newer. */
  ghost predicate RowsOk(rows0: Table, log: seq<Event>, rows: Table) {
    && (forall k | k in rows0 :: k in rows && rows0[k].lastEvent <= rows[k].lastEvent)
    && (forall k | k in rows :: (k in rows0 && rows[k] == rows0[k])
           || exists e :: e in log && e.key == k && rows[k] == Row(e.flag, e.id))
    && (forall k, e | k in rows0 && e in log :: rows0[k].lastEvent < e.id)
  }

  predicate Covers(rows: Table, e: Event) {
    e.key in rows && e.id <= rows[e.key].lastEvent
  }

  /** An intent is the one of the last action; without it the row holds the last action. */
  ghost predicate KeyOk(s: State, key: Key) {
    match Last(s.log, key)
    case None => key !in s.intents
    case Some(e) => if key in s.intents then s.intents[key] == Intent(e.flag, e.intent) else Covers(s.rows, e)
  }

  /** Committed events that are not yet acknowledged are covered by their rows. */
  ghost predicate WorkerCovered(rows: Table, worker: Worker) {
    worker.Committed? ==> forall e | e in worker.applied :: Covers(rows, e)
  }

  ghost predicate ViewOk(rows0: Table, s: State) {
    && WorkersOk(s) && LogOk(s.log) && RowsOk(rows0, s.log, s.rows)
    && (forall key :: KeyOk(s, key))
    && (forall w | 0 <= w < |s.workers| :: WorkerCovered(s.rows, s.workers[w]))
  }

  lemma {:induction false} LastHolds(log: seq<Event>, key: Key)
    requires LogOk(log)
    ensures match Last(log, key)
            case None => forall e | e in log :: e.key != key
            case Some(l) => l in log && l.key == key && forall e | e in log && e.key == key :: e.id <= l.id
  {
    if log != [] {
      var init := log[..|log| - 1];
      LastHolds(init, key);
      assert log == init + [log[|log| - 1]];
      forall e | e in init
        ensures e.id < log[|log| - 1].id
      {
        var i :| 0 <= i < |init| && init[i] == e;
      }
    }
  }

  lemma SameIdSameEvent(log: seq<Event>, e: Event, f: Event)
    requires LogOk(log) && e in log && f in log
    ensures e.id == f.id ==> e == f
    ensures e.intent == f.intent ==> e == f
  {
    var i, j :| 0 <= i < |log| && 0 <= j < |log| && log[i] == e && log[j] == f;
    if i < j {
      assert log[i].id < log[j].id;
    } else if j < i {
      assert log[j].id < log[i].id;
    }
  }

  /** The invariant says it all. */
  lemma ViewFollows(rows0: Table, s: State, key: Key)
    requires ViewOk(rows0, s)
    ensures View(s, key) == LastAction(rows0, s.log, key)
  {
    assert KeyOk(s, key);
    LastHolds(s.log, key);
    match Last(s.log, key) {
      case None =>
      case Some(l) =>
        if key !in s.intents {
          if !(key in rows0 && s.rows[key] == rows0[key]) {
            var e :| e in s.log && e.key == key && s.rows[key] == Row(e.flag, e.id);
            SameIdSameEvent(s.log, e, l);
          }
        }
    }
  }

  // ------------------------------------------------------------------------------- steps

  lemma EmittedLast(log: seq<Event>, e: Event, key: Key)
    ensures Last(log + [e], key) == if e.key == key then Some(e) else Last(log, key)
  {
    assert (log + [e])[..|log + [e]| - 1] == log;
  }

  lemma EmitKeepsRows(rows0: Table, s: State, e: Event)
    requires LogOk(s.log) && RowsOk(rows0, s.log, s.rows) && Emittable(s, e)
    ensures LogOk(s.log + [e]) && RowsOk(rows0, s.log + [e], s.rows)
  {
    forall k, f | k in rows0 && f in s.log + [e]
      ensures rows0[k].lastEvent < f.id
    {
      assert s.rows[k].lastEvent < e.id;
    }
  }

  lemma EmitKeepsView(rows0: Table, s: State, e: Event)
    requires ViewOk(rows0, s)
    ensures ViewOk(rows0, Exec(s, Emit(e)))
  {
    StepKeepsWorkers(s, Emit(e));
    if Emittable(s, e) {
      EmitKeepsRows(rows0, s, e);
      var t := Exec(s, Emit(e));
      hide Emittable;
      hide RowsOk;
      hide LogOk;
      hide Last;
      hide Covers;
      forall key
        ensures KeyOk(t, key)
      {
        assert KeyOk(s, key);
        EmittedLast(s.log, e, key);
      }
    }
  }

  /** Rows only move forward, and only to emitted events. */
  ghost predicate Advance(log: seq<Event>, rows: Table, rows': Table) {
    && (forall k | k in rows :: k in rows' && rows[k].lastEvent <= rows'[k].lastEvent)
    && (forall k | k in rows' :: (k in rows && rows'[k] == rows[k])
           || exists e :: e in log && e.key == k && rows'[k] == Row(e.flag, e.id))
  }

  lemma {:induction false} InsertedAdvances(
      log: seq<Event>, rows: Table, batch: seq<Event>, rejected: set<nat>, hi: nat)
    requires hi <= |batch| && forall e | e in batch :: e in log
    ensures var p := BisectInsert.Sequential(InsertOne(rejected), BisectInsert.Progress(rows, []), batch, 0, hi);
            && Advance(log, rows, p.table)
            && (forall i | 0 <= i < hi :: batch[i].id !in rejected ==> Covers(p.table, batch[i]))
            && (forall id | id in p.inserted :: id !in rejected)
  {
    if hi > 0 {
      InsertedAdvances(log, rows, batch, rejected, hi - 1);
    }
  }

  lemma AdvanceKeepsRows(rows0: Table, log: seq<Event>, rows: Table, rows': Table)
    requires RowsOk(rows0, log, rows) && Advance(log, rows, rows')
    ensures RowsOk(rows0, log, rows')
  {
  }

  lemma AdvanceKeepsCovers(log: seq<Event>, rows: Table, rows': Table, e: Event)
    requires Advance(log, rows, rows')
    ensures Covers(rows, e) ==> Covers(rows', e)
  {
  }

  lemma CommitKeepsView(rows0: Table, s: State, w: nat, rejected: set<nat>, replied: bool)
    requires ViewOk(rows0, s)
    ensures ViewOk(rows0, Exec(s, Commit(w, rejected, replied)))
  {
    StepKeepsWorkers(s, Commit(w, rejected, replied));
    if At(s, w).InTx? && At(s, w).dups == [] {
      var batch := At(s, w).batch;
      assert WorkerOk(Delivered(s), s.dedup, s.workers[w]);
      assert forall e | e in batch :: e in Delivered(s) && e in s.log;
      hide WorkersOk;
      CommittingKeepsView(rows0, s, w, batch, rejected, replied);
    }
  }

  lemma CommittingKeepsView(rows0: Table, s: State, w: nat, batch: seq<Event>, rejected: set<nat>, replied: bool)
    requires ViewOk(rows0, s) && w < |s.workers| && forall e | e in batch :: e in s.log
    requires WorkersOk(Committing(s, w, batch, rejected, replied))
    ensures ViewOk(rows0, Committing(s, w, batch, rejected, replied))
  {
    hide WorkersOk;
    hide Advance;
    hide RowsOk;
    hide Covers;
    hide Those;
    var t := Committing(s, w, batch, rejected, replied);
    InsertedAdvances(s.log, s.rows, batch, rejected, |batch|);
    var ids := set id | id in Inserted(s.rows, batch, rejected).inserted;
    hide BisectInsert.Sequential;
    AdvanceKeepsRows(rows0, s.log, s.rows, t.rows);
    forall key
      ensures KeyOk(t, key)
    {
      assert KeyOk(s, key);
      if Last(s.log, key).Some? {
        AdvanceKeepsCovers(s.log, s.rows, t.rows, Last(s.log, key).value);
      }
    }
    ThoseHolds(batch, ids, true);
    forall e | e in Those(batch, ids, true)
      ensures Covers(t.rows, e)
    {
      var i :| 0 <= i < |batch| && batch[i] == e;
    }
    forall v | 0 <= v < |s.workers|
      ensures WorkerCovered(t.rows, t.workers[v])
    {
      assert WorkerCovered(s.rows, s.workers[v]);
      if v != w && s.workers[v].Committed? {
        forall e | e in s.workers[v].applied
          ensures Covers(t.rows, e)
        {
          AdvanceKeepsCovers(s.log, s.rows, t.rows, e);
        }
      }
    }
  }

  /** Compare-and-delete takes an intent away only for an event that stored it. */
  lemma {:induction false} ClearedHolds(intents: map<Key, Intent>, events: seq<Event>)
    ensures var m := Cleared(intents, events);
            && m.Keys <= intents.Keys && (forall k | k in m :: m[k] == intents[k])
            && (forall k | k in intents && k !in m ::
                  exists e :: e in events && e.key == k && intents[k] == Intent(e.flag, e.intent))
            && (forall e | e in events && e.key in m :: m[e.key] != Intent(e.flag, e.intent))
  {
    if events != [] {
      ClearedHolds(intents, events[..|events| - 1]);
      assert events == events[..|events| - 1] + [events[|events| - 1]];
    }
  }

  /** Acknowledging events takes their intents away. That is right exactly when each of them
      that is still the last action on its key is covered by its row: true of committed
      events, not of rejected ones. */
  lemma AcknowledgeRightIff(rows0: Table, s: State, events: seq<Event>)
    requires ViewOk(rows0, s) && forall e | e in events :: e in s.log
    ensures (forall key :: KeyOk(Acknowledge(s, events), key))
            <==> forall e | e in events && e.key in s.intents && s.intents[e.key] == Intent(e.flag, e.intent) :: Covers(s.rows, e)
  {
    var t := Acknowledge(s, events);
    ClearedHolds(s.intents, events);
    if forall e | e in events && e.key in s.intents && s.intents[e.key] == Intent(e.flag, e.intent) :: Covers(s.rows, e) {
      forall key
        ensures KeyOk(t, key)
      {
        ClearedKey(rows0, s, events, key);
      }
    } else {
      var e :| e in events && e.key in s.intents && s.intents[e.key] == Intent(e.flag, e.intent) && !Covers(s.rows, e);
      assert KeyOk(s, e.key);
      LastHolds(s.log, e.key);
      SameIdSameEvent(s.log, e, Last(s.log, e.key).value);
      assert !KeyOk(t, e.key);
    }
  }

  lemma ClearedKey(rows0: Table, s: State, events: seq<Event>, key: Key)
    requires ViewOk(rows0, s) && forall e | e in events :: e in s.log
    requires forall e | e in events && e.key in s.intents && s.intents[e.key] == Intent(e.flag, e.intent) :: Covers(s.rows, e)
    ensures KeyOk(Acknowledge(s, events), key)
  {
    ClearedHolds(s.intents, events);
    assert KeyOk(s, key);
    LastHolds(s.log, key);
    if key in s.intents && key !in Cleared(s.intents, events) {
      var e :| e in events && e.key == key && s.intents[key] == Intent(e.flag, e.intent);
      SameIdSameEvent(s.log, e, Last(s.log, key).value);
    }
  }

  lemma AppliedIsCovered(rows0: Table, s: State, w: nat)
    requires ViewOk(rows0, s) && w < |s.workers| && s.workers[w].Committed?
    ensures forall e | e in s.workers[w].applied :: e in s.log && Covers(s.rows, e)
  {
    assert WorkerOk(Delivered(s), s.dedup, s.workers[w]);
    assert WorkerCovered(s.rows, s.workers[w]);
    forall e | e in s.workers[w].applied
      ensures e in s.log
    {
      assert e in s.workers[w].applied + s.workers[w].failed;
      assert e in Delivered(s);
    }
  }

  lemma AckShape(s: State, w: nat, replied: bool)
    requires s.cursor <= |s.log| && At(s, w).Committed?
    ensures Exec(s, AckApplied(w, replied)).intents == Acknowledge(s, At(s, w).applied).intents
  {
    hide Cleared;
    hide BumpAll;
    hide Ids;
  }

  lemma AckKeepsView(rows0: Table, s: State, w: nat, replied: bool)
    requires ViewOk(rows0, s)
    ensures ViewOk(rows0, Exec(s, AckApplied(w, replied)))
  {
    var step := AckApplied(w, replied);
    StepKeepsWorkers(s, step);
    Frame(s, step);
    if At(s, w).Committed? {
      AppliedIsCovered(rows0, s, w);
      AcknowledgeRightIff(rows0, s, s.workers[w].applied);
      AckShape(s, w, replied);
      hide Exec;
      hide WorkersOk;
      hide RowsOk;
      hide KeyOk;
      hide LogOk;
      hide Covers;
      var t := Exec(s, step);
      forall key
        ensures KeyOk(t, key)
      {
        assert KeyOk(Acknowledge(s, s.workers[w].applied), key);
        SameKeys(Acknowledge(s, s.workers[w].applied), t, key);
      }
      forall v | 0 <= v < |t.workers|
        ensures WorkerCovered(t.rows, t.workers[v])
      {
        QuietWorkers(s, step, v);
        assert WorkerCovered(s.rows, s.workers[v]);
      }
    }
  }

  lemma SameKeys(s: State, t: State, key: Key)
    requires s.log == t.log && s.intents == t.intents && s.rows == t.rows
    ensures KeyOk(s, key) == KeyOk(t, key)
  {
  }

  lemma QuietWorkers(s: State, step: Step, v: nat)
    requires s.cursor <= |s.log| && v < |s.workers|
    requires !step.Commit?
    ensures var t := Exec(s, step);
            |t.workers| == |s.workers| && (t.workers[v].Committed? ==>
              s.workers[v].Committed? && (t.workers[v].applied == s.workers[v].applied || t.workers[v].applied == []))
  {
    if !step.Dedup? {
      StepMovesOne(s, step);
      hide Exec;
    }
  }

  lemma QuietKeepsView(rows0: Table, s: State, step: Step)
    requires ViewOk(rows0, s)
    requires !step.Emit? && !step.Commit? && !step.AckApplied? && !step.Expire? && !step.AckEarly?
    ensures ViewOk(rows0, Exec(s, step))
  {
    StepKeepsWorkers(s, step);
    Frame(s, step);
    hide Exec;
    hide WorkersOk;
    hide KeyOk;
    var t := Exec(s, step);
    forall key
      ensures KeyOk(t, key)
    {
      SameKeys(s, t, key);
    }
    forall w | 0 <= w < |t.workers|
      ensures WorkerCovered(t.rows, t.workers[w])
    {
      QuietWorkers(s, step, w);
      assert WorkerCovered(s.rows, s.workers[w]);
    }
  }

  // ------------------------------------------------------------------------------- expiry

  /** An intent may expire once the row covers the last action. */
  predicate InTime(s: State, step: Step) {
    step.Expire? ==> Last(s.log, step.key).Some? ==> Covers(s.rows, Last(s.log, step.key).value)
  }

  lemma ExpireKeepsView(rows0: Table, s: State, key: Key)
    requires ViewOk(rows0, s) && InTime(s, Expire(key))
    ensures ViewOk(rows0, Exec(s, Expire(key)))
  {
    hide Covers;
    StepKeepsWorkers(s, Expire(key));
    var t := Exec(s, Expire(key));
    forall k
      ensures KeyOk(t, k)
    {
      assert KeyOk(s, k);
    }
  }

  /** What is seen after an expiry is the last action exactly when the row says the same. */
  lemma ExpiryShowsIff(rows0: Table, s: State, key: Key)
    requires ViewOk(rows0, s)
    ensures View(Exec(s, Expire(key)), key) == LastAction(rows0, s.log, key)
            <==> (key in s.intents ==> key in s.rows && s.rows[key].state == s.intents[key].flag)
  {
    ViewFollows(rows0, s, key);
  }

  // ----------------------------------------------------------------------- over all runs

  /** Runs that commit before they acknowledge and whose intents expire in time. */
  predicate Proper(s: State, run: seq<Step>)
    requires s.cursor <= |s.log|
  {
    forall i | 0 <= i < |run| :: !run[i].AckEarly? && InTime(After(s, run[..i]), run[i])
  }

  lemma {:induction false} RunsKeepView(rows: Table, workers: nat, run: seq<Step>)
    requires Proper(Start(rows, workers), run)
    ensures ViewOk(rows, After(Start(rows, workers), run))
  {
    if run != [] {
      hide ViewOk;
      hide Exec;
      hide InTime;
      var init, step := run[..|run| - 1], run[|run| - 1];
      assert forall i | 0 <= i < |init| :: init[..i] == run[..i];
      RunsKeepView(rows, workers, init);
      var s := After(Start(rows, workers), init);
      assert InTime(s, step);
      match step {
        case Emit(e) => EmitKeepsView(rows, s, e);
        case Commit(w, rejected, replied) => CommitKeepsView(rows, s, w, rejected, replied);
        case AckApplied(w, replied) => AckKeepsView(rows, s, w, replied);
        case Expire(key) => ExpireKeepsView(rows, s, key);
        case _ => QuietKeepsView(rows, s, step);
      }
    }
  }

  /** Main result: in every proper run of any number of workers, however they interleave,
      crash, repeat, reject and dead-letter, the view of every key is the last emitted action. */
  lemma ViewIsLastAction(rows: Table, workers: nat, run: seq<Step>, key: Key)
    requires Proper(Start(rows, workers), run)
    ensures var s := After(Start(rows, workers), run);
            View(s, key) == LastAction(rows, s.log, key)
  {
    RunsKeepView(rows, workers, run);
    ViewFollows(rows, After(Start(rows, workers), run), key);
  }

  /** Acknowledging before the commit, as the insertion consumer is written, is different: if
      the transaction then does not commit, every event of its batch is neither pending nor
      deduplicated, and a last action among them is no longer seen unless the row agrees. */
  lemma EarlyAcknowledgement(rows0: Table, s: State, w: nat)
    requires ViewOk(rows0, s) && At(s, w).InTx? && At(s, w).dups == []
    ensures var t := Exec(Exec(s, AckEarly(w)), Crash(w));
            forall e | e in At(s, w).batch ::
              && e.id !in t.pel && e.id !in t.dedup
              && (Last(s.log, e.key) == Some(e) && e.key in s.intents
                  && (e.key in s.rows ==> s.rows[e.key].state != e.flag) ==>
                    View(t, e.key) != LastAction(rows0, t.log, e.key))
  {
    var batch := At(s, w).batch;
    assert WorkerOk(Delivered(s), s.dedup, s.workers[w]);
    ClearedHolds(s.intents, batch);
    forall e | e in batch
      ensures e.id in Ids(batch) && KeyOk(s, e.key)
    {
    }
  }
}
