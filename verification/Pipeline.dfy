/** The event pipeline as a machine of atomic steps: a request emits, a reader delivers,
    consumers deduplicate, insert, commit and acknowledge or dead-letter, a reclaimer moves
    events that were delivered too often. Any step may be tried at any time, by any worker;
    a step that is not possible changes nothing, so every sequence of steps is a run. The
    steps of one consumer are those of queue_insertion_consumer (tasks/consumer.py), with
    the database commit before the acknowledgement. */
module Pipeline {
  import opened Events
  import opened Association
  import BisectInsert

  /** The stored value of an intent key. */
  datatype Intent = Intent(flag: Flag, uid: nat)

  /** The dead-letter stream: the ids of the events in it, and the millisecond part of its
      greatest entry id. An event's own id N is read as N-0, so it is above the greatest id
      exactly when N is above that part. */
  datatype Letters = Letters(ids: set<nat>, top: int)

  datatype Worker =
    | Idle
    | Holding(batch: seq<Event>)
    | InTx(batch: seq<Event>, dups: seq<Event>)
    | Committed(applied: seq<Event>, failed: seq<Event>)
    | Failed(batch: seq<Event>)

  /** `cursor` counts the delivered events of `log`; `pel` is the pending list; `counts` is
      what HINCRBY has added to the counters, whose way from there is in Counters. `commits`
      and `lost` record the ids of the events that committed transactions processed, and of
      events that were acknowledged by a transaction that failed to add them to the
      dead-letter stream. */
  datatype State = State(
    log: seq<Event>, cursor: nat, pel: set<nat>, intents: map<Key, Intent>, counts: Counts,
    letters: Letters, lost: set<nat>, rows: Table, dedup: set<nat>, commits: seq<nat>, workers: seq<Worker>)

  /** `replied` tells whether the worker learns that its transaction went through; if not, it
      will try again. */
  datatype Step =
    | Emit(event: Event)
    | Deliver
    | Take(w: nat, batch: seq<Event>)
    | Dedup(w: nat)
    | Trim(w: nat, replied: bool)
    | Commit(w: nat, rejected: set<nat>, replied: bool)
    | Rollback(w: nat)
    | Fail(w: nat)
    | AckApplied(w: nat, replied: bool)
    | BuryApplied(w: nat, replied: bool)
    | BuryFailed(w: nat, replied: bool)
    | Reclaim(ids: set<nat>, top: int)
    | Crash(w: nat)
    | Expire(key: Key)
    | AckEarly(w: nat)

  function Start(rows: Table, workers: nat): State {
    State([], 0, {}, map[], map[], Letters({}, 0), {}, rows, {}, [], seq(workers, _ => Idle))
  }

  function At(s: State, w: nat): Worker {
    if w < |s.workers| then s.workers[w] else Idle
  }

  function Put(s: State, w: nat, worker: Worker): State {
    if w < |s.workers| then s.(workers := s.workers[w := worker]) else s
  }

  // --------------------------------------------------------------- the parts of a step

  /** The events of a batch whose ids are in, or not in, a set. */
  function Those(batch: seq<Event>, ids: set<nat>, inside: bool): seq<Event> {
    if batch == [] then []
    else
      var e := batch[|batch| - 1];
      Those(batch[..|batch| - 1], ids, inside) + if (e.id in ids) == inside then [e] else []
  }

  /** Inserting one event: a constraint may reject it, a stale one changes and returns nothing. */
  function InsertOne(rejected: set<nat>): BisectInsert.Insertion<Table, Event> {
    (t: Table, e: Event) =>
      if e.id in rejected then BisectInsert.Rejected
      else BisectInsert.Accepted(Upsert(t, e), if Newer(t, e) then [e.id] else [])
  }

  /** What batch_insert_with_isolation leaves, see BisectInsert.Connection. */
  function Inserted(rows: Table, batch: seq<Event>, rejected: set<nat>): BisectInsert.Progress<Table> {
    BisectInsert.Sequential(InsertOne(rejected), BisectInsert.Progress(rows, []), batch, 0, |batch|)
  }

  /** A weak insertion statement over a batch that meets no constraint and no repeated key
      leaves and returns what inserting its events one at a time does. */
  lemma {:induction false} StatementInsertsEach(rows: Table, batch: seq<Event>, hi: nat)
    requires hi <= |batch| && Statement(rows, batch[..hi]).Done?
    ensures var r := Statement(rows, batch[..hi]);
            BisectInsert.Sequential(InsertOne({}), BisectInsert.Progress(rows, []), batch, 0, hi)
            == BisectInsert.Progress(r.table, IdsOf(r.applied))
  {
    if hi > 0 {
      assert batch[..hi][..hi - 1] == batch[..hi - 1];
      StatementInsertsEach(rows, batch, hi - 1);
      var r := Statement(rows, batch[..hi - 1]);
      assert IdsOf(r.applied + [batch[hi - 1]]) == IdsOf(r.applied) + [batch[hi - 1].id];
    }
  }

  /** XADD under the event's own id, which the stream refuses at or below its top. */
  function Added(letters: Letters, events: seq<Event>): Letters {
    if events == [] then letters
    else
      var l, e := Added(letters, events[..|events| - 1]), events[|events| - 1];
      if e.id > l.top then Letters(l.ids + {e.id}, e.id) else l
  }

  /** amortize_event: one transaction that acknowledges every event and adds it to the
      dead-letter stream; a refused XADD does not undo the rest. */
  function Bury(s: State, events: seq<Event>): State {
    var letters := Added(s.letters, events);
    s.(pel := s.pel - Ids(events), letters := letters, lost := s.lost + (Ids(events) - letters.ids))
  }

  /** Compare-and-delete of the intents that the events stored. */
  function Cleared(intents: map<Key, Intent>, events: seq<Event>): map<Key, Intent> {
    if events == [] then intents
    else
      var m, e := Cleared(intents, events[..|events| - 1]), events[|events| - 1];
      if e.key in m && m[e.key] == Intent(e.flag, e.intent) then m - {e.key} else m
  }

  /** atomic_ack_and_emit_side_effects. */
  function Acknowledge(s: State, events: seq<Event>): State {
    s.(pel := s.pel - Ids(events), intents := Cleared(s.intents, events), counts := BumpAll(s.counts, Updates(events)))
  }

  /** Another transaction holds the dedup row of an event of the batch: the insert waits. */
  predicate Blocked(s: State, w: nat, batch: seq<Event>) {
    exists v :: 0 <= v < |s.workers| && v != w && s.workers[v].InTx? && !(Ids(s.workers[v].batch) !! Ids(batch))
  }

  /** Stream ids increase and intent ids are unique. */
  predicate Emittable(s: State, e: Event) {
    && (forall f | f in s.log :: f.id < e.id && f.intent != e.intent)
    && (forall k | k in s.rows :: s.rows[k].lastEvent < e.id)
  }

  function Delivered(s: State): set<Event>
    requires s.cursor <= |s.log|
  {
    set e | e in s.log[..s.cursor]
  }

  predicate Takeable(s: State, batch: seq<Event>)
    requires s.cursor <= |s.log|
  {
    DistinctIds(batch) && forall e | e in batch :: e in Delivered(s)
  }

  // ------------------------------------------------------------------------- the machine

  /** Steps outside the consumers. */
  predicate IsOutside(step: Step) {
    step.Emit? || step.Deliver? || step.Reclaim? || step.Expire?
  }

  /** A consumer's Redis transactions. */
  predicate IsRedis(step: Step) {
    step.Trim? || step.AckApplied? || step.BuryApplied? || step.BuryFailed? || step.AckEarly?
  }

  function Outside(s: State, step: Step): State
    requires s.cursor <= |s.log|
  {
    match step
    case Emit(e) =>
      if Emittable(s, e)
      then s.(log := s.log + [e], intents := s.intents[e.key := Intent(e.flag, e.intent)], counts := BumpAll(s.counts, e.updates))
      else s
    case Deliver =>
      if s.cursor < |s.log| then s.(cursor := s.cursor + 1, pel := s.pel + {s.log[s.cursor].id}) else s
    case Reclaim(ids, top) =>
      if (forall id | id in ids :: exists e :: e in Delivered(s) && e.id == id) && top >= s.letters.top
      then s.(pel := s.pel - ids, letters := Letters(s.letters.ids + ids, top))
      else s
    case Expire(key) => s.(intents := s.intents - {key})
    case _ => s
  }

  function Redis(s: State, step: Step): State {
    match step
    case Trim(w, replied) =>
      if At(s, w).InTx?
      then Moved(s.(pel := s.pel - Ids(At(s, w).dups)), w, InTx(At(s, w).batch, []), replied)
      else s
    case AckApplied(w, replied) =>
      if At(s, w).Committed?
      then Moved(Acknowledge(s, At(s, w).applied), w, Committed([], At(s, w).failed), replied)
      else s
    case BuryApplied(w, replied) =>
      if At(s, w).Committed?
      then Moved(Bury(s, At(s, w).applied), w, Committed([], At(s, w).failed), replied)
      else s
    case BuryFailed(w, replied) =>
      if At(s, w).Failed? then Moved(Bury(s, At(s, w).batch), w, Idle, replied)
      else if At(s, w).Committed? && At(s, w).applied == [] then Moved(Bury(s, At(s, w).failed), w, Idle, replied)
      else s
    case AckEarly(w) =>
      if At(s, w).InTx? && At(s, w).dups == [] then Acknowledge(s, At(s, w).batch) else s
    case _ => s
  }

  /** The worker goes on if it learns that its transaction went through. */
  function Moved(s: State, w: nat, worker: Worker, replied: bool): State {
    if replied then Put(s, w, worker) else s
  }

  function Database(s: State, step: Step): State
    requires s.cursor <= |s.log|
  {
    match step
    case Take(w, batch) =>
      if At(s, w) == Idle && Takeable(s, batch) then Put(s, w, Holding(batch)) else s
    case Dedup(w) =>
      if At(s, w).Holding? && !Blocked(s, w, At(s, w).batch)
      then var batch := At(s, w).batch; Put(s, w, InTx(Those(batch, s.dedup, false), Those(batch, s.dedup, true)))
      else s
    case Commit(w, rejected, replied) =>
      if At(s, w).InTx? && At(s, w).dups == [] then Committing(s, w, At(s, w).batch, rejected, replied) else s
    case Rollback(w) =>
      if At(s, w).InTx? then Put(s, w, Holding(At(s, w).batch)) else s
    case Fail(w) =>
      if At(s, w).InTx? || At(s, w).Holding? then Put(s, w, Failed(At(s, w).batch)) else s
    case Crash(w) => Put(s, w, Idle)
    case _ => s
  }

  function Exec(s: State, step: Step): State
    requires s.cursor <= |s.log|
  {
    if IsOutside(step) then Outside(s, step) else if IsRedis(step) then Redis(s, step) else Database(s, step)
  }

  /** Commits the dedup rows together with the inserted events. Without a reply the worker
      starts over with the same batch. */
  function Committing(s: State, w: nat, batch: seq<Event>, rejected: set<nat>, replied: bool): State {
    var done := Inserted(s.rows, batch, rejected);
    var ids := set id | id in done.inserted;
    Put(s.(rows := done.table, dedup := s.dedup + Ids(batch), commits := s.commits + IdsOf(batch)), w,
        if replied then Committed(Those(batch, ids, true), Those(batch, ids, false)) else Holding(batch))
  }

  /** The events that a step tries to dead-letter. */
  function Doomed(s: State, step: Step): seq<Event> {
    match step
    case BuryApplied(w, _) => if At(s, w).Committed? then At(s, w).applied else []
    case BuryFailed(w, _) =>
      if At(s, w).Failed? then At(s, w).batch
      else if At(s, w).Committed? && At(s, w).applied == [] then At(s, w).failed
      else []
    case _ => []
  }

  /** What a step leaves alone. */
  predicate Framed(s: State, step: Step, t: State)
    requires s.cursor <= |s.log|
  {
    && |t.workers| == |s.workers|
    && t.log == (if step.Emit? && Emittable(s, step.event) then s.log + [step.event] else s.log)
    && t.cursor == (if step.Deliver? && s.cursor < |s.log| then s.cursor + 1 else s.cursor)
    && (!step.Commit? ==> t.rows == s.rows && t.dedup == s.dedup && t.commits == s.commits)
    && (!step.Emit? && !step.AckApplied? && !step.AckEarly? && !step.Expire? ==> t.intents == s.intents)
    && (!step.Reclaim? ==> t.letters == Added(s.letters, Doomed(s, step)))
    && t.lost == s.lost + (Ids(Doomed(s, step)) - t.letters.ids)
  }

  lemma Frame(s: State, step: Step)
    requires s.cursor <= |s.log|
    ensures Framed(s, step, Exec(s, step))
  {
    if IsOutside(step) {
      FrameOutside(s, step);
    } else if IsRedis(step) {
      FrameRedis(s, step);
    } else {
      FrameDatabase(s, step);
    }
    hide Framed;
    hide Outside;
    hide Redis;
    hide Database;
  }

  lemma FrameOutside(s: State, step: Step)
    requires s.cursor <= |s.log| && IsOutside(step)
    ensures Framed(s, step, Outside(s, step))
  {
    hide Emittable;
    NothingToAdd(s);
    hide Added;
    hide Ids;
    hide Delivered;
  }

  lemma FrameRedis(s: State, step: Step)
    requires s.cursor <= |s.log| && IsRedis(step)
    ensures Framed(s, step, Redis(s, step))
  {
    if step.BuryApplied? || step.BuryFailed? {
      FrameBury(s, step);
    } else {
      FrameAcknowledge(s, step);
    }
    hide Framed;
    hide Redis;
  }

  lemma FrameBury(s: State, step: Step)
    requires s.cursor <= |s.log| && (step.BuryApplied? || step.BuryFailed?)
    ensures Framed(s, step, Redis(s, step))
  {
    BuryFields(s, Doomed(s, step));
    if Doomed(s, step) == [] {
      NothingToAdd(s);
    }
    hide Added;
    hide Ids;
    hide Acknowledge;
    hide Bury;
  }

  lemma BuryFields(s: State, events: seq<Event>)
    ensures var t := Bury(s, events);
            && t.workers == s.workers && t.log == s.log && t.cursor == s.cursor
            && t.rows == s.rows && t.dedup == s.dedup && t.commits == s.commits && t.intents == s.intents
            && t.letters == Added(s.letters, events) && t.lost == s.lost + (Ids(events) - t.letters.ids)
  {
  }

  lemma FrameAcknowledge(s: State, step: Step)
    requires s.cursor <= |s.log| && (step.Trim? || step.AckApplied? || step.AckEarly?)
    ensures Framed(s, step, Redis(s, step))
  {
    hide Added;
    hide Ids;
    hide Bury;
    hide Cleared;
    hide BumpAll;
    hide Updates;
    NothingToAdd(s);
  }

  lemma FrameDatabase(s: State, step: Step)
    requires s.cursor <= |s.log| && !IsOutside(step) && !IsRedis(step)
    ensures Framed(s, step, Database(s, step))
  {
    hide Inserted;
    hide Those;
    hide Takeable;
    hide Blocked;
    NothingToAdd(s);
    hide Added;
    hide Ids;
  }

  lemma NothingToAdd(s: State)
    ensures Added(s.letters, []) == s.letters && forall l: Letters :: s.lost + (Ids([]) - l.ids) == s.lost
  {
  }

  lemma CursorStays(s: State, step: Step)
    requires s.cursor <= |s.log|
    ensures Exec(s, step).cursor <= |Exec(s, step).log|
  {
    Frame(s, step);
    hide Exec;
  }

  /** A whole run. */
  function After(s: State, run: seq<Step>): (r: State)
    requires s.cursor <= |s.log|
    ensures r.cursor <= |r.log|
  {
    if run == [] then s
    else
      var t := After(s, run[..|run| - 1]);
      CursorStays(t, run[|run| - 1]);
      Exec(t, run[|run| - 1])
  }

  lemma AfterStep(s: State, run: seq<Step>, step: Step)
    requires s.cursor <= |s.log|
    ensures After(s, run + [step]) == Exec(After(s, run), step)
    ensures forall t | t in run + [step] :: t in run || t == step
  {
    assert (run + [step])[..|run + [step]| - 1] == run;
  }

  /** Runs in which the acknowledgement never comes before the commit. */
  predicate CommitsFirst(run: seq<Step>) {
    forall i | 0 <= i < |run| :: !run[i].AckEarly?
  }
}
