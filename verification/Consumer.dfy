/** queue_insertion_consumer and what it calls, as imperative code over the shared state of
    the event pipeline: the retry loops of qos.py and db_qos.py and one round of the consumer.
    Between any two transactions of the consumer the other participants move as a schedule
    says, so every interleaving is covered. Each method takes steps of the machine in
    Pipeline.dfy, to which the results about all runs apply. */
module Consumer {
  import opened Wrappers
  import opened Events
  import opened Association
  import opened Pipeline
  import opened PipelineSafety
  import opened PipelineView
  import opened PipelineProgress
  import opened RedisCommands
  import opened RoundOutcome
  import BisectInsert

  // ------------------------------------------------------------------------ environment

  /** What the worker sees of one Redis transaction: an answer, a network error before it was
      executed or after, or another error. */
  datatype Reply = Answered | Unsent | Unanswered | Faulty
  datatype Fault = Network | Other

  /** The environment's choices; attempts beyond the list are answered. */
  function ReplyAt(replies: seq<Reply>, i: nat): Reply {
    if i < |replies| then replies[i] else Answered
  }

  predicate AllNetwork(replies: seq<Reply>, n: nat) {
    forall i | 0 <= i < n :: ReplyAt(replies, i) in {Unsent, Unanswered}
  }

  predicate NoneExecuted(replies: seq<Reply>, n: nat) {
    forall i | 0 <= i < n :: ReplyAt(replies, i) != Unanswered
  }

  /** How many of the first n attempts were executed. */
  function Executed(replies: seq<Reply>, n: nat): nat {
    if n == 0 then 0 else Executed(replies, n - 1) + if ReplyAt(replies, n - 1) in {Answered, Unanswered} then 1 else 0
  }

  lemma {:induction false} ExecutedNone(replies: seq<Reply>, n: nat)
    requires AllNetwork(replies, n)
    ensures Executed(replies, n) == 0 <==> NoneExecuted(replies, n)
  {
    if n > 0 {
      ExecutedNone(replies, n - 1);
    }
  }

  /** The attempt `k` is the first that is executed, and it is answered. */
  predicate AnsweredFirst(replies: seq<Reply>, k: nat) {
    ReplyAt(replies, k) == Answered && forall i | 0 <= i < k :: ReplyAt(replies, i) == Unsent
  }

  lemma ExecutedOnce(replies: seq<Reply>, k: nat, n: nat, tried: nat)
    requires k < n && AnsweredFirst(replies, k)
    requires tried <= n && (tried > 0 ==> AllNetwork(replies, tried - 1)) && (tried < n ==> !AllNetwork(replies, tried))
    ensures Executed(replies, tried) == 1 && AllNetwork(replies, k) && NoneExecuted(replies, k) && !AllNetwork(replies, n)
  {
    assert tried == k + 1;
    ExecutedNone(replies, k);
  }

  /** The attempt `k` is the first that is not lost to the network, and it is answered. */
  predicate GetsAnswer(replies: seq<Reply>, k: nat) {
    AllNetwork(replies, k) && ReplyAt(replies, k) == Answered
  }

  /** The attempt `k` is the first that is not lost to the network, and it goes through. For a
      dead-lettering that also takes an ascending batch and no earlier execution: a repeated
      XADD is refused. */
  predicate GoesThrough(s: State, job: Job, events: seq<Event>, replies: seq<Reply>, k: nat) {
    && GetsAnswer(replies, k)
    && (job != AckAndEmit && events != [] ==> Ascending(s.letters, events) && NoneExecuted(replies, k))
  }

  /** One database attempt: how it ends, which events a constraint rejects, and the reply to
      the trimming transaction. A commit may go through although its reply is lost. */
  datatype Turn = Turn(ending: Ending, rejected: set<nat>, trim: Reply)
  datatype Ending = Commits | CommitsUnanswered | TransientError | FatalError

  function TurnAt(turns: seq<Turn>, i: nat): Turn {
    if i < |turns| then turns[i] else Turn(Commits, {}, Answered)
  }

  datatype End = Inserted | Raised | NothingLeft | Died

  /** The attempts before `k` trim the batch and then fail for a transient reason. */
  predicate GoesOn(turns: seq<Turn>, k: nat) {
    forall i | 0 <= i < k :: TurnAt(turns, i).trim == Answered && TurnAt(turns, i).ending == TransientError
  }

  /** The attempt `k` is reached, and it trims the batch and then ends so. */
  predicate EndsAt(turns: seq<Turn>, k: nat, ending: Ending) {
    GoesOn(turns, k) && TurnAt(turns, k).trim == Answered && TurnAt(turns, k).ending == ending
  }

  /** The trimming of the attempt `k` is reached and gets no answer. After a commit without
      reply the loop comes around once more. */
  predicate DiesAt(turns: seq<Turn>, k: nat, unseen: bool) {
    && TurnAt(turns, k).trim != Answered
    && ((GoesOn(turns, k) && (k == 0 || unseen)) || (k > 0 && unseen && EndsAt(turns, k - 1, CommitsUnanswered)))
  }

  lemma StopsAt(turns: seq<Turn>, k: nat, n: nat, unseen: bool)
    requires k < n && GoesOn(turns, k) && !EndsAt(turns, k, TransientError)
    ensures !GoesOn(turns, n)
    ensures forall j, ending | 0 <= j < n && ending != TransientError && EndsAt(turns, j, ending) :: j == k
    ensures forall j | 0 <= j < n && DiesAt(turns, j, unseen) :: j == k || (j == k + 1 && EndsAt(turns, k, CommitsUnanswered))
  {
  }

  /** All attempts fail for transient reasons, or one of them is reached that fails for good. */
  ghost predicate NeverCommits(turns: seq<Turn>, n: nat) {
    GoesOn(turns, n) || exists k :: 0 <= k < n && EndsAt(turns, k, FatalError)
  }

  predicate SomeUnseen(s: State, batch: seq<Event>) {
    exists e :: e in batch && e.id !in s.dedup
  }

  /** How the insertion ends when nobody else moves and no row is locked. */
  ghost predicate EndsAsTurnsSay(end: End, turns: seq<Turn>, n: nat, unseen: bool) {
    && (end == Inserted <==> unseen && exists k :: 0 <= k < n && EndsAt(turns, k, Commits))
    && (end == Died <==> exists k :: 0 <= k < n && DiesAt(turns, k, unseen))
    && (end == Raised <==>
          unseen && (GoesOn(turns, n)
                  || (exists k :: 0 <= k < n && EndsAt(turns, k, FatalError))
                  || (n > 0 && EndsAt(turns, n - 1, CommitsUnanswered))))
  }

  // ------------------------------------------------------------------- jobs of the worker

  predicate Fits(worker: Worker, job: Job) {
    match job
    case AmortizeFailed => worker.Failed? || (worker.Committed? && worker.applied == [])
    case _ => worker.Committed?
  }

  function EventsOf(worker: Worker, job: Job): seq<Event>
    requires Fits(worker, job)
  {
    if job != AmortizeFailed then worker.applied else if worker.Failed? then worker.batch else worker.failed
  }

  function AfterJob(worker: Worker, job: Job): Worker
    requires Fits(worker, job)
  {
    if job == AmortizeFailed then Idle else Committed([], worker.failed)
  }

  function StepOf(job: Job, w: nat, replied: bool): Step {
    match job
    case AckAndEmit => AckApplied(w, replied)
    case AmortizeApplied => BuryApplied(w, replied)
    case AmortizeFailed => BuryFailed(w, replied)
  }

  /** A transaction of the worker is its step of the machine. */
  lemma JobStep(s: State, w: nat, job: Job, replied: bool)
    requires s.cursor <= |s.log| && w < |s.workers| && Fits(s.workers[w], job)
    ensures var t := Performed(s, job, EventsOf(s.workers[w], job));
            Exec(s, StepOf(job, w, replied)) == if replied then Put(t, w, AfterJob(s.workers[w], job)) else t
  {
    hide Acknowledge;
    hide Bury;
  }

  lemma JobDone(s: State, job: Job, events: seq<Event>)
    ensures var t := Performed(s, job, events);
            && t.workers == s.workers && t.log == s.log && t.cursor == s.cursor
            && (forall e | e in events :: e.id !in t.pel)
            && (job != AckAndEmit && Ascending(s.letters, events) ==>
                  t.lost == s.lost && forall e | e in events :: e.id in t.letters.ids)
            && (job == AckAndEmit ==> t.lost == s.lost)
  {
    AscendingAddsAll(s.letters, events);
    hide Added;
    hide Cleared;
    hide BumpAll;
    hide Ascending;
    assert forall e | e in events :: e.id in Ids(events);
  }

  /** The job's events are acknowledged and, if it was to, dead-lettered. */
  ghost predicate Finished(s: State, job: Job, events: seq<Event>) {
    forall e | e in events :: e.id !in s.pel && (job != AckAndEmit ==> e.id in s.letters.ids)
  }

  /** Only the attempt that ends the loop can go through. */
  lemma OnlyTheLast(s: State, job: Job, events: seq<Event>, replies: seq<Reply>, k: nat, n: nat)
    requires AllNetwork(replies, k) && k < n && ReplyAt(replies, k) !in {Unsent, Unanswered}
    ensures (exists j :: 0 <= j < n && GoesThrough(s, job, events, replies, j)) <==> GoesThrough(s, job, events, replies, k)
    ensures (exists j :: 0 <= j < n && GetsAnswer(replies, j)) <==> ReplyAt(replies, k) == Answered
    ensures ReplyAt(replies, k) != Answered ==> !GoesThrough(s, job, events, replies, k)
    ensures !AllNetwork(replies, n)
  {
    forall j | 0 <= j < n && GetsAnswer(replies, j)
      ensures j == k
    {
      assert ReplyAt(replies, j) == Answered;
    }
    assert ReplyAt(replies, k) == Answered ==> GetsAnswer(replies, k);
  }

  /** A single execution is what an attempt that goes through amounts to. */
  lemma OnceGoesThrough(s: State, job: Job, events: seq<Event>, replies: seq<Reply>, k: nat, n: nat)
    requires k < n && AnsweredFirst(replies, k)
    ensures Repeated(s, job, events, 1) == Performed(s, job, events)
    ensures (exists j :: 0 <= j < n && GoesThrough(s, job, events, replies, j)) <==> job == AckAndEmit || Ascending(s.letters, events)
    ensures exists j :: 0 <= j < n && GetsAnswer(replies, j)
  {
    assert Repeated(s, job, events, 0) == s;
    OnlyTheLast(s, job, events, replies, k, n);
    assert NoneExecuted(replies, k);
    NothingToBury(s.letters, events);
    hide Ascending;
    hide Performed;
  }

  lemma NoneWhenAllLost(s: State, job: Job, events: seq<Event>, replies: seq<Reply>, n: nat)
    requires AllNetwork(replies, n)
    ensures !exists j :: 0 <= j < n && GetsAnswer(replies, j)
    ensures !exists j :: 0 <= j < n && GoesThrough(s, job, events, replies, j)
  {
  }

  lemma FinishedBy(s: State, t: State, w: nat, job: Job, worker: Worker, raised: bool)
    requires w < |s.workers| && Fits(worker, job)
    requires raised <==> job != AckAndEmit && !Ascending(s.letters, EventsOf(worker, job))
    requires !raised ==> t == Put(Performed(s, job, EventsOf(worker, job)), w, AfterJob(worker, job))
    ensures !raised ==> Finished(t, job, EventsOf(worker, job))
  {
    JobDone(s, job, EventsOf(worker, job));
    hide Performed;
    hide Ascending;
  }

  lemma PutSelf(s: State, w: nat)
    ensures w < |s.workers| ==> Put(s, w, s.workers[w]) == s
  {
    if w < |s.workers| {
      assert s.workers[w := s.workers[w]] == s.workers;
    }
  }

  lemma PutRepeated(s: State, job: Job, events: seq<Event>, n: nat, w: nat, worker: Worker)
    requires w < |s.workers|
    ensures Put(Repeated(s, job, events, n), w, worker).counts == Repeated(s, job, events, n).counts
  {
  }

  lemma RepeatedStarts(s: State, w: nat, job: Job, events: seq<Event>)
    ensures Repeated(s, job, events, 0) == s
    ensures w < |s.workers| ==> Put(s, w, s.workers[w]) == s
  {
    if w < |s.workers| {
      assert s.workers[w := s.workers[w]] == s.workers;
    }
  }

  lemma {:induction false} RepeatedStep(s: State, job: Job, events: seq<Event>, n: nat)
    ensures Repeated(s, job, events, n + 1) == Performed(Repeated(s, job, events, n), job, events)
    ensures Repeated(s, job, events, n + 1).workers == s.workers
    ensures forall w | 0 <= w < |s.workers| :: Put(Repeated(s, job, events, n + 1), w, s.workers[w]) == Repeated(s, job, events, n + 1)
  {
    RepeatedWorkers(s, job, events, n + 1);
    forall w | 0 <= w < |s.workers|
      ensures Put(Repeated(s, job, events, n + 1), w, s.workers[w]) == Repeated(s, job, events, n + 1)
    {
      assert s.workers[w := s.workers[w]] == s.workers;
    }
  }

  lemma {:induction false} RepeatedWorkers(s: State, job: Job, events: seq<Event>, n: nat)
    ensures Repeated(s, job, events, n).workers == s.workers
  {
    if n > 0 {
      RepeatedWorkers(s, job, events, n - 1);
    }
  }

  /** The attempt that is answered goes through exactly when it does not raise. */
  lemma GoesThroughIff(s: State, job: Job, events: seq<Event>, replies: seq<Reply>, k: nat, executions: nat)
    requires AllNetwork(replies, k) && ReplyAt(replies, k) == Answered
    requires executions == 0 <==> NoneExecuted(replies, k)
    ensures GoesThrough(s, job, events, replies, k)
            <==> job == AckAndEmit || Ascending(Repeated(s, job, events, executions).letters, events)
  {
    NothingToBury(Repeated(s, job, events, executions).letters, events);
    if job != AckAndEmit {
      if executions == 0 {
        RepeatedStarts(s, 0, job, events);
      } else {
        RepeatedBury(s, job, events, executions);
      }
    }
  }

  // ----------------------------------------------------------------- what a round achieves

  /** Of the events `all`, those not in `rest` were found deduplicated and acknowledged. */
  ghost predicate RestOf(s: State, all: seq<Event>, rest: seq<Event>, dups: set<nat>)
    requires s.cursor <= |s.log|
  {
    && (forall e | e in rest :: e in all)
    && (forall e | e in all :: e in Delivered(s) && (e in rest || e.id in dups))
    && (forall e | e in all && e.id in dups :: e.id in s.dedup && e.id !in s.pel)
  }

  lemma RestStays(s: State, t: State, all: seq<Event>, rest: seq<Event>, dups: set<nat>)
    requires s.cursor <= |s.log| && t.cursor <= |t.log| && Onward(s, t) && RestOf(s, all, rest, dups)
    ensures RestOf(t, all, rest, dups)
  {
    hide Delivered;
    hide Covers;
  }

  /** Some attempt rejected the event and then lost the reply to its commit. */
  predicate RejectedUnanswered(turns: seq<Turn>, n: nat, id: nat) {
    exists i :: 0 <= i < n && TurnAt(turns, i).ending == CommitsUnanswered && id in TurnAt(turns, i).rejected
  }

  /** Why an event is deduplicated although this round has not finished it. */
  ghost predicate Explained(before: set<nat>, rows: Table, turns: seq<Turn>, n: nat, e: Event) {
    e.id in before || Covers(rows, e) || RejectedUnanswered(turns, n, e.id)
  }

  ghost predicate AllExplained(before: set<nat>, s: State, turns: seq<Turn>, n: nat, all: seq<Event>) {
    forall e | e in all && e.id in s.dedup :: Explained(before, s.rows, turns, n, e)
  }

  lemma ExplainedStays(before: set<nat>, s: State, t: State, turns: seq<Turn>, n: nat, m: nat, all: seq<Event>)
    requires AllExplained(before, s, turns, n, all) && n <= m
    requires t.dedup == s.dedup && t.rows == s.rows
    ensures AllExplained(before, t, turns, m, all)
  {
  }

  /** The same for the events that were found deduplicated. */
  ghost predicate DupsExplained(before: set<nat>, rows: Table, turns: seq<Turn>, n: nat, all: seq<Event>, dups: set<nat>) {
    forall e | e in all && e.id in dups :: Explained(before, rows, turns, n, e)
  }

  lemma ExplainedEnds(
      before: set<nat>, s: State, turns: seq<Turn>, n: nat, m: nat, all: seq<Event>, rest: seq<Event>, dups: set<nat>)
    requires s.cursor <= |s.log| && AllExplained(before, s, turns, n, all) && n <= m && RestOf(s, all, rest, dups)
    ensures DupsExplained(before, s.rows, turns, m, all, dups)
  {
    hide Covers;
    hide Delivered;
  }

  lemma DupsStay(before: set<nat>, s: State, t: State, turns: seq<Turn>, n: nat, all: seq<Event>, dups: set<nat>)
    requires s.cursor <= |s.log| && t.cursor <= |t.log| && Onward(s, t)
    ensures DupsExplained(before, s.rows, turns, n, all, dups) ==> DupsExplained(before, t.rows, turns, n, all, dups)
  {
    hide Delivered;
    hide Covers;
  }

  /** How the insertion ended and what it did to the events `all`. */
  ghost predicate Reached(s: State, worker: Worker, all: seq<Event>, end: End, dups: set<nat>)
    requires s.cursor <= |s.log|
  {
    match end
    case Inserted =>
      && worker.Committed? && RestOf(s, all, worker.applied + worker.failed, dups)
      && forall e | e in worker.applied :: Covers(s.rows, e)
    case Raised => worker.Failed? && RestOf(s, all, worker.batch, dups)
    case NothingLeft => worker == Idle && RestOf(s, all, [], dups)
    case Died => worker == Idle
  }

  lemma RestIsDelivered(s: State, all: seq<Event>, rest: seq<Event>, dups: set<nat>)
    requires s.cursor <= |s.log| && RestOf(s, all, rest, dups)
    ensures (forall e | e in all :: e in Delivered(s)) && forall e | e in rest :: e in all && e in Delivered(s)
  {
  }

  lemma CommittingShape(s: State, w: nat, rejected: set<nat>, replied: bool)
    requires w < |s.workers| && s.workers[w].InTx?
    ensures var t := Committing(s, w, s.workers[w].batch, rejected, replied);
            && t.lost == s.lost && t.log == s.log && t.cursor == s.cursor && |t.workers| == |s.workers|
            && (if replied then t.workers[w].Committed? else t.workers[w] == Holding(s.workers[w].batch))
  {
    hide Pipeline.Inserted;
  }

  lemma CommitReaches(s: State, t: State, w: nat, rejected: set<nat>, all: seq<Event>, dups: set<nat>)
    requires s.cursor <= |s.log| && t.cursor <= |t.log| && w < |s.workers| && s.workers[w].InTx?
    requires RestOf(s, all, s.workers[w].batch, dups) && RestOf(t, all, s.workers[w].batch, dups)
    requires t == Committing(s, w, s.workers[w].batch, rejected, true)
    ensures Reached(t, t.workers[w], all, Inserted, dups) && t.lost == s.lost
  {
    var batch := s.workers[w].batch;
    RestIsDelivered(s, all, batch, dups);
    var done := Pipeline.Inserted(s.rows, batch, rejected);
    forall e | e in batch && e.id in done.inserted
      ensures Covers(done.table, e)
    {
      CommitCovers(s, w, rejected, e);
    }
    hide Pipeline.Inserted;
    hide Covers;
    hide Delivered;
    var ids := set id | id in done.inserted;
    ThoseHolds(batch, ids, true);
    ThoseHolds(batch, ids, false);
    hide Those;
    var applied, failed := t.workers[w].applied, t.workers[w].failed;
    assert forall e :: e in applied + failed <==> e in batch;
  }

  /** The rows after a commit cover every event of the batch that was not rejected. */
  lemma CommitCovers(s: State, w: nat, rejected: set<nat>, e: Event)
    requires s.cursor <= |s.log| && w < |s.workers| && s.workers[w].InTx? && e in s.workers[w].batch
    requires forall x | x in s.workers[w].batch :: x in Delivered(s)
    ensures var done := Pipeline.Inserted(s.rows, s.workers[w].batch, rejected);
            && (e.id !in rejected ==> Covers(done.table, e))
            && (e.id in done.inserted ==> Covers(done.table, e))
  {
    var batch := s.workers[w].batch;
    assert forall x | x in batch :: x in s.log;
    InsertedAdvances(s.log, s.rows, batch, rejected, |batch|);
    var i :| 0 <= i < |batch| && batch[i] == e;
  }

  lemma CommitExplains(before: set<nat>, s: State, w: nat, rejected: set<nat>, turns: seq<Turn>, n: nat, all: seq<Event>)
    requires s.cursor <= |s.log| && LogOk(s.log) && w < |s.workers| && s.workers[w].InTx?
    requires AllExplained(before, s, turns, n, all)
    requires TurnAt(turns, n).ending == CommitsUnanswered && TurnAt(turns, n).rejected == rejected
    requires forall e | e in all :: e in Delivered(s)
    requires forall e | e in s.workers[w].batch :: e in all
    ensures AllExplained(before, Committing(s, w, s.workers[w].batch, rejected, false), turns, n + 1, all)
  {
    var batch := s.workers[w].batch;
    var t := Committing(s, w, batch, rejected, false);
    forall e | e in all && e.id in t.dedup
      ensures Explained(before, t.rows, turns, n + 1, e)
    {
      if e.id in s.dedup {
        assert Explained(before, s.rows, turns, n, e);
        if Covers(s.rows, e) {
          InsertedMonotone(s.rows, batch, rejected, |batch|, e);
        }
      } else {
        var x :| x in batch && x.id == e.id;
        assert x in Delivered(s) && e in Delivered(s);
        SameIdSameEvent(s.log, x, e);
        CommitCovers(s, w, rejected, e);
      }
    }
  }

  // -------------------------------------------------------------- an undisturbed attempt

  function Acked(s: State, batch: seq<Event>): State {
    s.(pel := s.pel - Ids(Those(batch, s.dedup, true)))
  }

  /** Where an attempt leads during which nobody else moves. */
  function Attempted(s: State, w: nat, batch: seq<Event>, turn: Turn): (State, Option<End>) {
    if turn.trim == Answered then Finishing(Acked(s, batch), w, Those(batch, s.dedup, false), turn)
    else (Put(if turn.trim == Unanswered then Acked(s, batch) else s, w, Idle), Some(Died))
  }

  function Finishing(s: State, w: nat, batch: seq<Event>, turn: Turn): (State, Option<End>) {
    if batch == [] then (Put(s, w, Idle), Some(NothingLeft))
    else
      match turn.ending
      case Commits => (Committing(s, w, batch, turn.rejected, true), Some(Inserted))
      case CommitsUnanswered => (Committing(s, w, batch, turn.rejected, false), None)
      case TransientError => (Put(s, w, Holding(batch)), None)
      case FatalError => (Put(s, w, Failed(batch)), Some(Raised))
  }

  lemma PutTwice(s: State, w: nat, one: Worker, other: Worker)
    ensures Put(Put(s, w, one), w, other) == Put(s, w, other)
  {
    if w < |s.workers| {
      assert s.workers[w := one][w := other] == s.workers[w := other];
    }
  }

  lemma CommittingOver(s: State, w: nat, worker: Worker, batch: seq<Event>, rejected: set<nat>, replied: bool)
    ensures Committing(Put(s, w, worker), w, batch, rejected, replied) == Committing(s, w, batch, rejected, replied)
  {
    hide Pipeline.Inserted;
    hide Those;
    hide Ids;
    if w < |s.workers| {
      var other := Committing(s, w, batch, rejected, replied).workers[w];
      assert s.workers[w := worker][w := other] == s.workers[w := other];
    }
  }

  lemma FinishingOver(s: State, w: nat, worker: Worker, batch: seq<Event>, turn: Turn)
    ensures Finishing(Put(s, w, worker), w, batch, turn) == Finishing(s, w, batch, turn)
  {
    CommittingOver(s, w, worker, batch, turn.rejected, true);
    CommittingOver(s, w, worker, batch, turn.rejected, false);
    PutTwice(s, w, worker, Idle);
    PutTwice(s, w, worker, Holding(batch));
    PutTwice(s, w, worker, Failed(batch));
    hide Committing;
    hide Put;
  }

  lemma AttemptedOver(s: State, w: nat, worker: Worker, batch: seq<Event>, turn: Turn)
    ensures Attempted(Put(s, w, worker), w, batch, turn) == Attempted(s, w, batch, turn)
  {
    FinishingOver(Acked(s, batch), w, worker, Those(batch, s.dedup, false), turn);
    PutTwice(s, w, worker, Idle);
    PutTwice(Acked(s, batch), w, worker, Idle);
    hide Finishing;
    hide Those;
    hide Ids;
  }

  /** Events that are all new, or all deduplicated, are not split. */
  lemma {:induction false} NotSplit(batch: seq<Event>, ids: set<nat>, inside: bool)
    requires forall e | e in batch :: (e.id in ids) == inside
    ensures Those(batch, ids, inside) == batch && Those(batch, ids, !inside) == []
  {
    if batch != [] {
      NotSplit(batch[..|batch| - 1], ids, inside);
    }
  }

  /** The next attempt over what a transient error left behind. */
  lemma AttemptedAgain(s: State, w: nat, batch: seq<Event>, turn: Turn)
    requires turn.trim == Answered
    ensures var left := Those(batch, s.dedup, false);
            Attempted(Put(Acked(s, batch), w, Holding(left)), w, left, turn) == Attempted(s, w, batch, turn)
  {
    var left, acked := Those(batch, s.dedup, false), Acked(s, batch);
    ThoseHolds(batch, s.dedup, false);
    NotSplit(left, s.dedup, false);
    AttemptedOver(acked, w, Holding(left), left, turn);
    assert acked.pel - Ids([]) == acked.pel;
    assert Acked(acked, left) == acked;
    hide Finishing;
    hide Those;
  }

  lemma DiesAgain(s: State, w: nat, batch: seq<Event>, turn: Turn)
    ensures turn.trim != Answered ==> Attempted(s, w, batch, turn).1 == Some(Died)
  {
  }

  /** After a commit without reply everything is a duplicate. */
  lemma AttemptedAfterCommit(s: State, w: nat, batch: seq<Event>, rejected: set<nat>, turn: Turn)
    ensures Attempted(Committing(s, w, batch, rejected, false), w, batch, turn).1
            == Some(if turn.trim == Answered then NothingLeft else Died)
  {
    var t := Committing(s, w, batch, rejected, false);
    hide Committing;
    assert t.dedup == s.dedup + Ids(batch) by { CommittingDedup(s, w, batch, rejected); }
    NotSplit(batch, t.dedup, true);
  }

  lemma CommittingDedup(s: State, w: nat, batch: seq<Event>, rejected: set<nat>)
    ensures Committing(s, w, batch, rejected, false).dedup == s.dedup + Ids(batch)
  {
    hide Pipeline.Inserted;
  }

  lemma UnseenIff(s: State, batch: seq<Event>)
    ensures SomeUnseen(s, batch) <==> Those(batch, s.dedup, false) != []
  {
    ThoseHolds(batch, s.dedup, false);
    var left := Those(batch, s.dedup, false);
    hide Those;
    if left != [] {
      assert left[0] in left;
    }
  }

  /** What n attempts have led to that did not end the loop. */
  ghost predicate Midway(s0: State, s: State, w: nat, batch: seq<Event>, turns: seq<Turn>, n: nat) {
    var left := Those(batch, s0.dedup, false);
    if n == 0 then s == s0
    else
      && left != []
      && ((GoesOn(turns, n) && s == Put(Acked(s0, batch), w, Holding(left)))
          || (EndsAt(turns, n - 1, CommitsUnanswered)
              && s == Committing(Acked(s0, batch), w, left, TurnAt(turns, n - 1).rejected, false)))
  }

  lemma MidwayStep(s0: State, s: State, t: State, w: nat, batch: seq<Event>, turns: seq<Turn>, n: nat, max: nat, end: Option<End>)
    requires n < max && w < |s0.workers| && s0.workers[w] == Holding(batch) && Midway(s0, s, w, batch, turns, n)
    requires w < |s.workers| && s.workers[w].Holding? && (t, end) == Attempted(s, w, s.workers[w].batch, TurnAt(turns, n))
    ensures end == None ==> Midway(s0, t, w, batch, turns, n + 1)
    ensures end.Some? ==> EndsAsTurnsSay(end.value, turns, max, SomeUnseen(s0, batch))
    ensures end == Some(Inserted) ==>
              && EndsAt(turns, n, Commits)
              && t == Committing(Acked(s0, batch), w, Those(batch, s0.dedup, false), TurnAt(turns, n).rejected, true)
    ensures end == Some(NothingLeft) && !SomeUnseen(s0, batch) ==> t == Put(Acked(s0, batch), w, Idle)
    ensures end == Some(Raised) ==> t == Put(Acked(s0, batch), w, Failed(Those(batch, s0.dedup, false)))
  {
    hide *;
    var left, turn := Those(batch, s0.dedup, false), TurnAt(turns, n);
    UnseenIff(s0, batch);
    AckedWorkers(s0, batch);
    MidwayIs(s0, s, w, batch, turns, n);
    if n > 0 && EndsAt(turns, n - 1, CommitsUnanswered) {
      AttemptedAfterCommit(Acked(s0, batch), w, left, TurnAt(turns, n - 1).rejected, turn);
      CommittingWorker(Acked(s0, batch), w, left, TurnAt(turns, n - 1).rejected);
      EndsAfterLostReply(turns, n, max, end.value);
    } else {
      AttemptedOnward(s0, s, w, batch, turns, n);
      GoneOn(turns, n);
      MidwayIs(s0, t, w, batch, turns, n + 1);
      if end.Some? {
        EndsHere(turns, n, max, left != [], end.value);
      }
    }
  }

  lemma AckedWorkers(s: State, batch: seq<Event>)
    ensures Acked(s, batch).workers == s.workers
  {
  }

  lemma MidwayIs(s0: State, s: State, w: nat, batch: seq<Event>, turns: seq<Turn>, n: nat)
    ensures var left := Those(batch, s0.dedup, false);
            Midway(s0, s, w, batch, turns, n)
            <==> if n == 0 then s == s0
                 else
                   && left != []
                   && ((GoesOn(turns, n) && s == Put(Acked(s0, batch), w, Holding(left)))
                       || (EndsAt(turns, n - 1, CommitsUnanswered)
                           && s == Committing(Acked(s0, batch), w, left, TurnAt(turns, n - 1).rejected, false)))
    ensures n == 0 ==> GoesOn(turns, n)
    ensures n > 0 && EndsAt(turns, n - 1, CommitsUnanswered) ==> !GoesOn(turns, n)
  {
    hide Those;
    hide Committing;
  }

  lemma GoneOn(turns: seq<Turn>, n: nat)
    requires GoesOn(turns, n)
    ensures forall ending :: EndsAt(turns, n, ending) <==> TurnAt(turns, n).trim == Answered && TurnAt(turns, n).ending == ending
    ensures EndsAt(turns, n, TransientError) ==> GoesOn(turns, n + 1)
  {
  }

  /** An attempt after transient errors alone leads where it would have led at once. */
  lemma AttemptedOnward(s0: State, s: State, w: nat, batch: seq<Event>, turns: seq<Turn>, n: nat)
    requires w < |s0.workers| && s0.workers[w] == Holding(batch)
    requires n == 0 ==> s == s0
    requires n > 0 ==> s == Put(Acked(s0, batch), w, Holding(Those(batch, s0.dedup, false)))
    ensures w < |s.workers| && s.workers[w].Holding?
    ensures var left, turn := Those(batch, s0.dedup, false), TurnAt(turns, n);
            var (t, end) := Attempted(s, w, s.workers[w].batch, turn);
            if turn.trim != Answered then end == Some(Died)
            else if left == [] then (t, end) == (Put(Acked(s0, batch), w, Idle), Some(NothingLeft))
            else
              match turn.ending
              case Commits => (t, end) == (Committing(Acked(s0, batch), w, left, turn.rejected, true), Some(Inserted))
              case CommitsUnanswered => (t, end) == (Committing(Acked(s0, batch), w, left, turn.rejected, false), None)
              case TransientError => (t, end) == (Put(Acked(s0, batch), w, Holding(left)), None)
              case FatalError => (t, end) == (Put(Acked(s0, batch), w, Failed(left)), Some(Raised))
  {
    hide Committing;
    hide Those;
    hide Acked;
    AckedWorkers(s0, batch);
    if TurnAt(turns, n).trim == Answered {
      AttemptedAgain(s0, w, batch, TurnAt(turns, n));
    }
  }

  lemma EndsAfterLostReply(turns: seq<Turn>, n: nat, max: nat, end: End)
    requires 0 < n < max && EndsAt(turns, n - 1, CommitsUnanswered)
    requires end == if TurnAt(turns, n).trim == Answered then NothingLeft else Died
    ensures EndsAsTurnsSay(end, turns, max, true)
  {
    StopsAt(turns, n - 1, max, true);
    assert end == Died ==> DiesAt(turns, n, true);
  }

  /** The attempt `n` is the one that ends the loop. */
  lemma EndsHere(turns: seq<Turn>, n: nat, max: nat, unseen: bool, end: End)
    requires n < max && GoesOn(turns, n) && (n > 0 ==> unseen)
    requires var turn := TurnAt(turns, n);
             && (turn.trim != Answered <==> end == Died)
             && (turn.trim == Answered ==> (!unseen <==> end == NothingLeft))
             && (turn.trim == Answered && unseen ==> turn.ending == if end == Inserted then Commits else FatalError)
    ensures EndsAsTurnsSay(end, turns, max, unseen)
  {
    if !EndsAt(turns, n, TransientError) {
      StopsAt(turns, n, max, unseen);
    }
    match end {
      case Died => assert DiesAt(turns, n, unseen);
      case Inserted => assert EndsAt(turns, n, Commits);
      case Raised => assert EndsAt(turns, n, FatalError);
      case NothingLeft =>
    }
  }

  lemma CommittingWorker(s: State, w: nat, batch: seq<Event>, rejected: set<nat>)
    requires w < |s.workers|
    ensures Committing(s, w, batch, rejected, false).workers == s.workers[w := Holding(batch)]
  {
    hide Pipeline.Inserted;
  }

  lemma MidwayEnds(s0: State, s: State, w: nat, batch: seq<Event>, turns: seq<Turn>, n: nat)
    requires n > 0 && Midway(s0, s, w, batch, turns, n)
    ensures EndsAsTurnsSay(Raised, turns, n, SomeUnseen(s0, batch))
    ensures !EndsAt(turns, n - 1, CommitsUnanswered) ==>
              && s == Put(Acked(s0, batch), w, Holding(Those(batch, s0.dedup, false)))
              && (w < |s.workers| ==> s.workers[w] == Holding(Those(batch, s0.dedup, false)))
              && forall worker :: Put(s, w, worker) == Put(Acked(s0, batch), w, worker)
  {
    UnseenIff(s0, batch);
    hide Those;
    hide Committing;
    if EndsAt(turns, n - 1, CommitsUnanswered) {
      StopsAt(turns, n - 1, n, true);
    } else {
      forall worker: Worker
        ensures Put(s, w, worker) == Put(Acked(s0, batch), w, worker)
      {
        PutTwice(Acked(s0, batch), w, Holding(Those(batch, s0.dedup, false)), worker);
      }
    }
  }

  lemma MidwayStarts(s0: State, w: nat, batch: seq<Event>, turns: seq<Turn>)
    ensures Midway(s0, s0, w, batch, turns, 0)
  {
  }

  lemma MidwayFree(s0: State, s: State, w: nat, batch: seq<Event>, turns: seq<Turn>, n: nat)
    requires w < |s0.workers| && s0.workers[w] == Holding(batch) && Midway(s0, s, w, batch, turns, n)
    requires !Blocked(s0, w, batch)
    ensures w < |s.workers| && s.workers[w].Holding? && !Blocked(s, w, s.workers[w].batch)
  {
    hide Those;
    hide Ids;
    hide Blocked;
    hide Committing;
    var left := Those(batch, s0.dedup, false);
    SplitIds(batch, s0.dedup);
    if n > 0 {
      CommittingWorker(Acked(s0, batch), w, left, TurnAt(turns, n - 1).rejected);
      StillFree(s0, s, w, batch, left);
    }
  }

  lemma TakenBatch(s: State, w: nat, batch: seq<Event>)
    requires w < |s.workers|
    ensures var t := Put(s, w, Holding(batch));
            && (Blocked(t, w, batch) <==> Blocked(s, w, batch)) && (SomeUnseen(t, batch) <==> SomeUnseen(s, batch))
            && Acked(t, batch) == Put(Acked(s, batch), w, Holding(batch))
            && (forall worker :: Put(Acked(t, batch), w, worker) == Put(Acked(s, batch), w, worker))
            && t.dedup == s.dedup
            && forall rejected ::
                 Committing(Acked(t, batch), w, Those(batch, t.dedup, false), rejected, true)
                 == Committing(Acked(s, batch), w, Those(batch, s.dedup, false), rejected, true)
  {
    hide Those;
    hide Ids;
    hide Committing;
    var t := Put(s, w, Holding(batch));
    var left := Those(batch, s.dedup, false);
    if !Blocked(s, w, batch) {
      StillFree(s, t, w, batch, batch);
    }
    if !Blocked(t, w, batch) {
      StillFree(t, s, w, batch, batch);
    }
    hide Blocked;
    forall worker: Worker
      ensures Put(Put(Acked(s, batch), w, Holding(batch)), w, worker) == Put(Acked(s, batch), w, worker)
    {
      PutTwice(Acked(s, batch), w, Holding(batch), worker);
    }
    assert Acked(t, batch) == Put(Acked(s, batch), w, Holding(batch));
    forall rejected: set<nat>
      ensures Committing(Acked(t, batch), w, left, rejected, true) == Committing(Acked(s, batch), w, left, rejected, true)
    {
      CommittingOver(Acked(s, batch), w, Holding(batch), left, rejected, true);
    }
  }

  /** A round that ends undisturbed has settled its batch. */
  lemma RoundEnds(
      s: State, inserted: State, answered: State, t: State, w: nat, batch: seq<Event>, turns: seq<Turn>, n: nat, end: End, finished: bool)
    requires w < |s.workers| && s.workers[w] == Idle && DistinctIds(batch) && EndsAsTurnsSay(end, turns, n, SomeUnseen(s, batch))
    requires end == Inserted ==>
               exists k :: 0 <= k < n && EndsAt(turns, k, Commits)
                 && inserted == Committing(Acked(s, batch), w, Those(batch, s.dedup, false), TurnAt(turns, k).rejected, true)
    requires end == Inserted && w < |inserted.workers| && inserted.workers[w].Committed? ==>
               var worker := inserted.workers[w];
               && answered == Put(Acknowledge(inserted, worker.applied), w, Committed([], worker.failed))
               && t == Put(Bury(answered, worker.failed), w, Idle) && (finished <==> Ascending(answered.letters, worker.failed))
    requires end == NothingLeft ==> t == inserted && finished
    requires end == NothingLeft && !SomeUnseen(s, batch) ==> inserted == Put(Acked(s, batch), w, Idle)
    ensures forall k | 0 <= k < n && EndsAt(turns, k, Commits) ::
              var rejected := TurnAt(turns, k).rejected;
              Settled(s, t, batch, rejected) && (finished <==> AllInTurn(s, batch, rejected))
  {
    hide *;
    forall k | 0 <= k < n && EndsAt(turns, k, Commits)
      ensures var rejected := TurnAt(turns, k).rejected;
              Settled(s, t, batch, rejected) && (finished <==> AllInTurn(s, batch, rejected))
    {
      var rejected := TurnAt(turns, k).rejected;
      CommitsEnd(end, turns, k, n, SomeUnseen(s, batch));
      if end == Inserted {
        CommittedRound(s, inserted, answered, t, w, batch, rejected, finished);
      } else {
        EmptyRound(s, t, w, batch, rejected);
      }
    }
  }

  /** A round that raises, undisturbed, has given its new events up. */
  lemma RoundRaises(s: State, raised: State, t: State, w: nat, batch: seq<Event>, turns: seq<Turn>, n: nat, end: End, finished: bool)
    requires n >= 1 && NeverCommits(turns, n) && EndsAsTurnsSay(end, turns, n, SomeUnseen(s, batch))
    requires w < |s.workers| && s.workers[w] == Idle
    requires end == Raised && !EndsAt(turns, n - 1, CommitsUnanswered) ==>
               raised == Put(Acked(s, batch), w, Failed(Those(batch, s.dedup, false)))
    requires end == Raised && w < |raised.workers| && raised.workers[w].Failed? ==>
               t == Put(Bury(raised, raised.workers[w].batch), w, Idle)
               && (finished <==> Ascending(raised.letters, raised.workers[w].batch))
    requires end == NothingLeft ==> t == raised && finished
    requires end == NothingLeft && !SomeUnseen(s, batch) ==> raised == Put(Acked(s, batch), w, Idle)
    ensures Abandoned(s, t, batch) && (finished <==> AllInTurn(s, batch, Ids(batch)))
  {
    hide *;
    RaisesEnd(end, turns, n, SomeUnseen(s, batch));
    if end == Raised {
      AckedWorkers(s, batch);
      PutHolds(Acked(s, batch), w, Failed(Those(batch, s.dedup, false)));
      RaisedRound(s, raised, t, w, batch, finished);
    } else {
      NothingAbandoned(s, t, w, batch);
    }
  }

  lemma PutHolds(s: State, w: nat, worker: Worker)
    requires w < |s.workers|
    ensures |Put(s, w, worker).workers| == |s.workers| && Put(s, w, worker).workers[w] == worker
  {
  }

  lemma RaisesEnd(end: End, turns: seq<Turn>, n: nat, unseen: bool)
    requires n >= 1 && NeverCommits(turns, n) && EndsAsTurnsSay(end, turns, n, unseen)
    ensures end == if unseen then Raised else NothingLeft
    ensures !EndsAt(turns, n - 1, CommitsUnanswered)
  {
    if !GoesOn(turns, n) {
      var k :| 0 <= k < n && EndsAt(turns, k, FatalError);
      StopsAt(turns, k, n, unseen);
    }
  }

  lemma RaisedRound(s: State, raised: State, t: State, w: nat, batch: seq<Event>, finished: bool)
    requires w < |s.workers| && s.workers[w] == Idle
    requires raised == Put(Acked(s, batch), w, Failed(Those(batch, s.dedup, false)))
    requires t == Put(Bury(raised, Those(batch, s.dedup, false)), w, Idle)
    requires finished <==> Ascending(raised.letters, Those(batch, s.dedup, false))
    ensures Abandoned(s, t, batch) && (finished <==> AllInTurn(s, batch, Ids(batch)))
  {
    var left := Those(batch, s.dedup, false);
    SplitIds(batch, s.dedup);
    AllLeftOver(s, batch);
    hide Those;
    hide Added;
    hide Ascending;
    hide LettersAfter;
    hide AllInTurn;
    hide Ids;
    assert s.workers[w := Failed(left)][w := Idle] == s.workers;
    assert s.pel - Ids(Those(batch, s.dedup, true)) - Ids(left) == s.pel - Ids(batch);
  }

  lemma NothingAbandoned(s: State, t: State, w: nat, batch: seq<Event>)
    requires w < |s.workers| && s.workers[w] == Idle && !SomeUnseen(s, batch) && t == Put(Acked(s, batch), w, Idle)
    ensures Abandoned(s, t, batch) && AllInTurn(s, batch, Ids(batch))
  {
    UnseenIff(s, batch);
    NothingToAdd(s);
    NothingToBury(s.letters, []);
    PutTwice(Acked(s, batch), w, Failed([]), Idle);
    assert s.pel - {} == s.pel;
    var raised := Put(Acked(s, batch), w, Failed([]));
    assert Ids([]) == {};
    assert Bury(raised, []) == raised by {
      assert raised.pel - Ids([]) == raised.pel;
      assert raised.lost + (Ids([]) - raised.letters.ids) == raised.lost;
      assert Added(raised.letters, []) == raised.letters;
    }
    RaisedRound(s, raised, t, w, batch, true);
  }

  /** The loop ends with the commit that it reaches, or has nothing to commit. */
  lemma CommitsEnd(end: End, turns: seq<Turn>, k: nat, n: nat, unseen: bool)
    requires k < n && EndsAt(turns, k, Commits) && EndsAsTurnsSay(end, turns, n, unseen)
    ensures end == if unseen then Inserted else NothingLeft
    ensures forall j | 0 <= j < n && EndsAt(turns, j, Commits) :: j == k
  {
    StopsAt(turns, k, n, unseen);
  }

  lemma CommittedWorker(s: State, w: nat, batch: seq<Event>, rejected: set<nat>)
    requires w < |s.workers|
    ensures var acked, left := Acked(s, batch), Those(batch, s.dedup, false);
            var t, ids := Committing(acked, w, left, rejected, true), EffectiveIds(s, batch, rejected);
            && t.workers == s.workers[w := Committed(Those(left, ids, true), Those(left, ids, false))]
            && t.rows == Pipeline.Inserted(s.rows, left, rejected).table
            && t.dedup == s.dedup + Ids(left) && t.pel == s.pel - Ids(Those(batch, s.dedup, true))
            && t.log == s.log && t.cursor == s.cursor && t.intents == s.intents && t.counts == s.counts
            && t.letters == s.letters && t.lost == s.lost
  {
    hide Pipeline.Inserted;
    hide Those;
    hide Ids;
  }

  lemma IdsOfParts(batch: seq<Event>, dedup: set<nat>, ids: set<nat>, pel: set<nat>)
    ensures var left := Those(batch, dedup, false);
            && pel - Ids(Those(batch, dedup, true)) - Ids(Those(left, ids, true)) - Ids(Those(left, ids, false)) == pel - Ids(batch)
            && dedup + Ids(left) == dedup + Ids(batch)
  {
    var left := Those(batch, dedup, false);
    SplitIds(batch, dedup);
    SplitIds(left, ids);
    hide Those;
    hide Ids;
  }

  lemma CommittedRound(
      s: State, inserted: State, answered: State, t: State, w: nat, batch: seq<Event>, rejected: set<nat>, finished: bool)
    requires w < |s.workers| && s.workers[w] == Idle && DistinctIds(batch)
    requires inserted == Committing(Acked(s, batch), w, Those(batch, s.dedup, false), rejected, true)
    requires w < |inserted.workers| && inserted.workers[w].Committed? ==>
               var worker := inserted.workers[w];
               && answered == Put(Acknowledge(inserted, worker.applied), w, Committed([], worker.failed))
               && t == Put(Bury(answered, worker.failed), w, Idle) && (finished <==> Ascending(answered.letters, worker.failed))
    ensures Settled(s, t, batch, rejected) && (finished <==> AllInTurn(s, batch, rejected))
  {
    var ids := EffectiveIds(s, batch, rejected);
    CommittedWorker(s, w, batch, rejected);
    EffectiveIdsHold(s, batch, rejected);
    IdsOfParts(batch, s.dedup, ids, s.pel);
    hide *;
    RoundSettles(s, t, batch, rejected);
  }

  lemma EmptyRound(s: State, t: State, w: nat, batch: seq<Event>, rejected: set<nat>)
    requires w < |s.workers| && s.workers[w] == Idle && DistinctIds(batch)
    requires !SomeUnseen(s, batch) && t == Put(Acked(s, batch), w, Idle)
    ensures Settled(s, t, batch, rejected) && AllInTurn(s, batch, rejected)
  {
    UnseenIff(s, batch);
    var ids := EffectiveIds(s, batch, rejected);
    EffectiveIdsHold(s, batch, rejected);
    IdsOfParts(batch, s.dedup, ids, s.pel);
    hide *;
    RoundSettles(s, t, batch, rejected);
  }

  /** The others hold what they held, and the batch has not grown. */
  lemma StillFree(s: State, t: State, w: nat, batch: seq<Event>, part: seq<Event>)
    requires !Blocked(s, w, batch) && Ids(part) <= Ids(batch)
    requires |t.workers| == |s.workers| && forall v | 0 <= v < |s.workers| && v != w :: t.workers[v] == s.workers[v]
    ensures !Blocked(t, w, part)
  {
    hide Ids;
  }

  // --------------------------------------------------------------------------- the worker

  /** The steps of a schedule that are not the worker's. */
  function Foreign(steps: seq<Step>, w: nat): seq<Step> {
    if steps == [] then []
    else Foreign(steps[..|steps| - 1], w) + if Own(steps[|steps| - 1], w) then [] else [steps[|steps| - 1]]
  }

  lemma ForeignStep(steps: seq<Step>, w: nat, n: nat)
    requires n < |steps|
    ensures Foreign(steps[..n + 1], w) == Foreign(steps[..n], w) + if Own(steps[n], w) then [] else [steps[n]]
  {
    assert steps[..n + 1][..n] == steps[..n];
  }

  lemma NothingForeign(steps: seq<Step>, w: nat)
    ensures Foreign(steps[..0], w) == [] && steps[..|steps|] == steps
  {
  }

  class QueueConsumer {
    const w: nat
    const maxRetries: nat
    const others: seq<seq<Step>>
    var next: nat
    var s: State
    ghost const start: State
    ghost var trace: seq<Step>

    constructor (w: nat, maxRetries: nat, others: seq<seq<Step>>, s: State)
      requires s.cursor <= |s.log| && LogOk(s.log) && w < |s.workers|
      ensures Valid() && this.s == s && start == s && trace == [] && next == 0
      ensures this.w == w && this.maxRetries == maxRetries && this.others == others
    {
      this.w, this.maxRetries, this.others, this.s := w, maxRetries, others, s;
      next, start, trace := 0, s, [];
    }

    /** The state is what the recorded steps lead to: this consumer's own, none of which is an
        early acknowledgement, and the scheduled ones of the other participants. */
    ghost predicate Valid()
      reads this
    {
      && start.cursor <= |start.log| && s == After(start, trace) && LogOk(s.log)
      && (forall step | step in trace :: step != AckEarly(w) && (Own(step, w) || Scheduled(step)))
      && w < |s.workers| && next <= |others|
    }

    ghost predicate Scheduled(step: Step)
      reads this
    {
      exists i :: 0 <= i < next && i < |others| && step in others[i]
    }

    /** Nobody else moves any more. */
    predicate Quiet()
      reads this
    {
      next >= |others|
    }

    function Mine(): Worker
      reads this
      requires w < |s.workers|
    {
      s.workers[w]
    }

    /** The other participants take their next steps, whatever these are. */
    method OthersMove()
      requires Valid()
      modifies this
      ensures Valid() && Mine() == old(Mine()) && Onward(old(s), s)
      ensures next == if old(Quiet()) then old(next) else old(next) + 1
      ensures old(Quiet()) ==> s == old(s) && trace == old(trace)
      ensures !old(Quiet()) ==> trace == old(trace) + Foreign(others[old(next)], w)
    {
      hide Foreign;
      hide After;
      hide Exec;
      hide Covers;
      if next >= |others| {
        return;
      }
      var steps := others[next];
      next := next + 1;
      NothingForeign(steps, w);
      for i := 0 to |steps|
        invariant Valid() && Mine() == old(Mine()) && Onward(old(s), s) && next == old(next) + 1
        invariant trace == old(trace) + Foreign(steps[..i], w)
      {
        ForeignStep(steps, w, i);
        if !Own(steps[i], w) {
          Taken(start, trace, steps[i]);
          OthersLeaveAlone(s, steps[i], w);
          OnwardTransitive(old(s), s, Exec(s, steps[i]));
          assert Scheduled(steps[i]);
          s := Exec(s, steps[i]);
          trace := trace + [steps[i]];
        }
      }
    }

    // ------------------------------------------------------------------ Redis transactions

    /** One Redis transaction: every command runs, also after one that raised. */
    method Execute(pipeline: seq<Command>) returns (raised: bool)
      modifies this`s
      ensures s == DoAll(old(s), pipeline) && (raised <==> Raises(old(s), pipeline))
    {
      raised := false;
      assert pipeline[..0] == [];
      for i := 0 to |pipeline|
        invariant s == DoAll(old(s), pipeline[..i]) && (raised <==> Raises(old(s), pipeline[..i]))
      {
        DoAllStep(old(s), pipeline[..i], pipeline[i]);
        assert pipeline[..i + 1] == pipeline[..i] + [pipeline[i]];
        raised := raised || Refused(s, pipeline[i]);
        s := Do(s, pipeline[i]);
      }
      assert pipeline[..|pipeline|] == pipeline;
    }

    /** amortize_event raises when an XADD is refused, but has acknowledged all the same. */
    method AmortizeEvent(events: seq<Event>) returns (raised: bool)
      modifies this`s
      ensures s == Bury(old(s), events)
      ensures raised <==> !Ascending(old(s).letters, events)
    {
      hide Bury;
      hide Ascending;
      hide Raises;
      var pipeline: seq<Command> := [];
      AmortizeEnds(s, events);
      for i := 0 to |events|
        invariant s == old(s) && DoAll(s, pipeline) == Bury(s, events[..i])
        invariant Raises(s, pipeline) <==> !Ascending(s.letters, events[..i])
      {
        AmortizeStep(s, pipeline, events, i);
        pipeline := pipeline + [XAck(events[i].id)];
        pipeline := pipeline + [XAdd(events[i].id)];
      }
      raised := Execute(pipeline);
    }

    /** atomic_ack_and_emit_side_effects: all acknowledgements, all intents, all increments. */
    method AtomicAckAndEmit(events: seq<Event>)
      modifies this`s
      ensures s == Acknowledge(old(s), events)
    {
      hide *;
      var pipeline: seq<Command> := [];
      HalfAcknowledgedStarts(s, events);
      for i := 0 to |events|
        invariant s == old(s) && pipeline == Acks(events[..i])
      {
        AcksConcat(events[..i], events[i]);
        assert events[..i + 1] == events[..i] + [events[i]];
        pipeline := pipeline + [XAck(events[i].id)];
      }
      for i := 0 to |events|
        invariant s == old(s) && DoAll(s, pipeline) == HalfAcknowledged(s, events, i)
      {
        var delete := CompareDelete(events[i].key, Intent(events[i].flag, events[i].intent));
        DoAllStep(s, pipeline, delete);
        HalfAcknowledgedStep(s, events, i);
        pipeline := pipeline + [delete];
      }
      pipeline := EmitCounters(events, pipeline);
      var _ := Execute(pipeline);
    }

    method EmitCounters(events: seq<Event>, sofar: seq<Command>) returns (pipeline: seq<Command>)
      requires DoAll(s, sofar) == HalfAcknowledged(s, events, |events|)
      ensures DoAll(s, pipeline) == Acknowledge(s, events)
    {
      hide *;
      pipeline := sofar;
      NearlyAcknowledgedEnds(s, events);
      assert events[..|events|] == events;
      for i := 0 to |events|
        invariant DoAll(s, pipeline) == NearlyAcknowledged(s, events, Updates(events[..i]))
      {
        var updates, before := events[i].updates, Updates(events[..i]);
        UpdatesStep(events, i);
        assert before + updates[..0] == before && updates[..|updates|] == updates;
        for j := 0 to |updates|
          invariant DoAll(s, pipeline) == NearlyAcknowledged(s, events, before + updates[..j])
        {
          DoAllStep(s, pipeline, HIncrBy(updates[j]));
          NearlyAcknowledgedStep(s, events, before + updates[..j], updates[j]);
          assert before + updates[..j + 1] == before + updates[..j] + [updates[j]];
          pipeline := pipeline + [HIncrBy(updates[j])];
        }
      }
    }

    method Perform(job: Job, events: seq<Event>) returns (raised: bool)
      modifies this`s
      ensures s == Performed(old(s), job, events)
      ensures raised <==> job != AckAndEmit && !Ascending(old(s).letters, events)
    {
      if job == AckAndEmit {
        AtomicAckAndEmit(events);
        raised := false;
      } else {
        raised := AmortizeEvent(events);
      }
    }

    function Attempts(attempts: nat): nat {
      if attempts == 0 then maxRetries else attempts
    }

    /** One attempt of the job that was executed: its events are acknowledged, and the worker
        moves on if it learns so and no XADD was refused. */
    method TryJob(job: Job, answered: bool) returns (raised: bool)
      requires Valid() && Fits(Mine(), job)
      modifies this`s, this`trace
      ensures Valid() && Onward(old(s), s)
      ensures var events, t := EventsOf(old(Mine()), job), Performed(old(s), job, EventsOf(old(Mine()), job));
              && s == (if answered && !raised then Put(t, w, AfterJob(old(Mine()), job)) else t)
              && (raised <==> job != AckAndEmit && !Ascending(old(s).letters, events))
    {
      hide After;
      hide Performed;
      hide Ascending;
      hide Onward;
      var worker := Mine();
      raised := Perform(job, EventsOf(worker, job));
      JobDone(old(s), job, EventsOf(worker, job));
      JobStep(old(s), w, job, answered && !raised);
      Taken(start, trace, StepOf(job, w, answered && !raised));
      hide Exec;
      trace := trace + [StepOf(job, w, answered && !raised)];
      if answered && !raised {
        s := s.(workers := s.workers[w := AfterJob(worker, job)]);
      }
    }

    /** One attempt of a retry loop, after the others have moved. Without a fault the worker has
        moved on. */
    method Attempt(job: Job, reply: Reply) returns (fault: Option<Fault>)
      requires Valid() && Fits(Mine(), job)
      modifies this
      ensures Valid() && Onward(old(s), s) && (old(Quiet()) ==> Quiet())
      ensures Mine() == if fault == None then AfterJob(old(Mine()), job) else old(Mine())
      ensures fault == None ==> reply == Answered && Finished(s, job, EventsOf(old(Mine()), job))
      ensures reply == Answered && job == AckAndEmit ==> fault == None
      ensures fault == Some(Network) <==> reply in {Unsent, Unanswered}
      ensures old(Quiet()) ==>
                var events := EventsOf(old(Mine()), job);
                && s == Put(if reply in {Answered, Unanswered} then Performed(old(s), job, events) else old(s), w, Mine())
                && (reply == Answered ==> (fault == None <==> job == AckAndEmit || Ascending(old(s).letters, events)))
    {
      hide After;
      hide Performed;
      hide Ascending;
      hide Covers;
      hide Finished;
      hide Onward;
      ghost var worker, first, events := Mine(), s, EventsOf(Mine(), job);
      PutSelf(s, w);
      OthersMove();
      if reply == Faulty {
        return Some(Other);
      }
      if reply == Unsent {
        return Some(Network);
      }
      ghost var before := s;
      var raised := TryJob(job, reply == Answered);
      JobDone(before, job, events);
      PutSelf(Performed(before, job, events), w);
      OnwardTransitive(first, before, s);
      if reply == Answered {
        FinishedBy(before, s, w, job, worker, raised);
      }
      fault := if reply == Unanswered then Some(Network) else if raised then Some(Other) else None;
    }

    /** execute_with_redis_retries: network errors are retried, others are not. `tried` counts
        the attempts and `executions` those that were executed. When nobody else moves, the
        outcome is that of exactly so many executions, and the loop succeeds exactly when an
        attempt that is reached goes through. */
    method ExecuteWithRedisRetries(job: Job, attempts: nat, replies: seq<Reply>)
      returns (fault: Option<Fault>, tried: nat, executions: nat)
      requires Valid() && Fits(Mine(), job)
      modifies this
      ensures Valid() && Onward(old(s), s) && (old(Quiet()) ==> Quiet())
      ensures tried <= Attempts(attempts) && executions == Executed(replies, tried)
      ensures tried > 0 ==> AllNetwork(replies, tried - 1)
      ensures tried < Attempts(attempts) ==> !AllNetwork(replies, tried)
      ensures Attempts(attempts) == if attempts == 0 then maxRetries else attempts
      ensures var done := fault == None && Attempts(attempts) > 0;
              && Mine() == (if done then AfterJob(old(Mine()), job) else old(Mine()))
              && (done ==> Finished(s, job, EventsOf(old(Mine()), job)))
              && (done ==> tried > 0 && ReplyAt(replies, tried - 1) == Answered
                           && (executions == 1 <==> NoneExecuted(replies, tried - 1)))
      ensures fault == Some(Network) <==> Attempts(attempts) > 0 && AllNetwork(replies, Attempts(attempts))
      ensures old(Quiet()) ==>
                var events := EventsOf(old(Mine()), job);
                && s == Put(Repeated(old(s), job, events, executions), w, Mine())
                && (fault == None
                    <==> (Attempts(attempts) == 0
                          || exists k :: 0 <= k < Attempts(attempts) && GoesThrough(old(s), job, events, replies, k)))
      ensures job == AckAndEmit ==>
                (fault == None
                 <==> (Attempts(attempts) == 0 || exists k :: 0 <= k < Attempts(attempts) && GetsAnswer(replies, k)))
      ensures fault == None ==> Attempts(attempts) == 0 || exists k :: 0 <= k < Attempts(attempts) && GetsAnswer(replies, k)
      ensures old(Quiet()) && job == AckAndEmit ==>
                forall group, key ::
                  Count(s.counts, group, key)
                  == Count(old(s).counts, group, key) + executions * Named(Updates(old(Mine()).applied), group, key)
    {
      hide After;
      hide Performed;
      hide Repeated;
      hide Ascending;
      hide Covers;
      hide Finished;
      hide GoesThrough;
      hide GetsAnswer;
      hide Onward;
      hide Count;
      hide Named;
      ghost var worker, events := Mine(), EventsOf(Mine(), job);
      fault, tried, executions := None, 0, 0;
      OnwardSelf(s);
      RepeatedStarts(s, w, job, events);
      while tried < Attempts(attempts)
        invariant tried <= Attempts(attempts) && executions == Executed(replies, tried) && AllNetwork(replies, tried)
        invariant Valid() && Onward(old(s), s) && Mine() == worker && (old(Quiet()) ==> Quiet())
        invariant fault == if tried == 0 then None else Some(Network)
        invariant old(Quiet()) ==> s == Repeated(old(s), job, events, executions)
      {
        ghost var before := s;
        var reply := ReplyAt(replies, tried);
        fault := Attempt(job, reply);
        OnwardTransitive(old(s), before, s);
        RepeatedStep(old(s), job, events, executions);
        ExecutedNone(replies, tried);
        PutSelf(before, w);
        if reply in {Answered, Unanswered} {
          executions := executions + 1;
        }
        tried := tried + 1;
        if reply !in {Unsent, Unanswered} {
          OnlyTheLast(old(s), job, events, replies, tried - 1, Attempts(attempts));
          if reply == Answered {
            GoesThroughIff(old(s), job, events, replies, tried - 1, executions - 1);
          }
          PutRepeated(old(s), job, events, executions, w, Mine());
          AllCounts(old(s), events, executions);
          return;
        }
      }
      AllCounts(old(s), events, executions);
      NoneWhenAllLost(old(s), job, events, replies, tried);
    }

    // ------------------------------------------------------------- database transactions

    method Become(worker: Worker)
      requires w < |s.workers|
      modifies this`s
      ensures s == Put(old(s), w, worker)
    {
      s := s.(workers := s.workers[w := worker]);
    }

    /** A process that ends, or has nothing left to do, drops what it holds. */
    method Quit()
      requires Valid()
      modifies this`s, this`trace
      ensures Valid() && Onward(old(s), s) && s == Put(old(s), w, Idle)
    {
      hide After;
      Taken(start, trace, Crash(w));
      Become(Idle);
      trace := trace + [Crash(w)];
    }

    method TakeBatch(batch: seq<Event>)
      requires Valid() && Mine() == Idle && Takeable(s, batch)
      modifies this`s, this`trace
      ensures Valid() && Onward(old(s), s) && s == Put(old(s), w, Holding(batch))
    {
      hide After;
      Taken(start, trace, Take(w, batch));
      Become(Holding(batch));
      trace := trace + [Take(w, batch)];
    }

    method Undo()
      requires Valid() && Mine().InTx?
      modifies this`s, this`trace
      ensures Valid() && Onward(old(s), s) && s == Put(old(s), w, Holding(old(Mine()).batch))
    {
      hide After;
      Taken(start, trace, Rollback(w));
      Become(Holding(Mine().batch));
      trace := trace + [Rollback(w)];
    }

    method GiveUp()
      requires Valid() && (Mine().InTx? || Mine().Holding?)
      modifies this`s, this`trace
      ensures Valid() && Onward(old(s), s) && s == Put(old(s), w, Failed(old(Mine()).batch))
    {
      hide After;
      Taken(start, trace, Fail(w));
      Become(Failed(Mine().batch));
      trace := trace + [Fail(w)];
    }

    /** batch_dedup_insert_events: the ids that were not in the table yet. */
    method InsertDedupRows() returns (inserted: set<nat>)
      requires Valid() && Mine().Holding? && !Blocked(s, w, Mine().batch)
      modifies this`s, this`trace
      ensures Valid() && Onward(old(s), s)
      ensures var batch := old(Mine()).batch;
              && inserted == Ids(batch) - s.dedup
              && s == Put(old(s), w, InTx(Those(batch, inserted, true), Those(batch, inserted, false)))
              && s == Put(old(s), w, InTx(Those(batch, s.dedup, false), Those(batch, s.dedup, true)))
    {
      hide After;
      hide Those;
      hide Takeable;
      var batch := Mine().batch;
      inserted := Ids(batch) - s.dedup;
      SameSplit(batch, s.dedup);
      Taken(start, trace, Dedup(w));
      Become(InTx(Those(batch, inserted, true), Those(batch, inserted, false)));
      trace := trace + [Dedup(w)];
    }

    /** trim_duplicate_events: the duplicates leave the batch and are acknowledged. */
    method TrimBatch(original: seq<Event>, inserted: set<nat>, reply: Reply) returns (ok: bool)
      requires Valid() && Mine() == InTx(Those(original, inserted, true), Those(original, inserted, false))
      modifies this`s, this`trace
      ensures Valid() && Onward(old(s), s) && (ok <==> reply == Answered) && Mine().InTx?
      ensures var acked := old(s).(pel := old(s).pel - Ids(old(Mine()).dups));
              s == if ok then Put(acked, w, InTx(old(Mine()).batch, [])) else if reply == Unanswered then acked else old(s)
    {
      hide After;
      hide Those;
      var batch, pipeline := TrimDuplicateEvents(original, inserted);
      ghost var dups := Mine().dups;
      AcksAcknowledge(s, dups);
      ok := reply == Answered;
      if ok || reply == Unanswered {
        Taken(start, trace, Trim(w, ok));
        var _ := Execute(pipeline);
        if ok {
          Become(InTx(batch, []));
        }
        trace := trace + [Trim(w, ok)];
      }
    }

    /** The bisecting insert and the commit, which also commits the dedup rows. */
    method InsertAndCommit(rejected: set<nat>, replied: bool)
      requires Valid() && Mine().InTx? && Mine().dups == [] && Mine().batch != []
      modifies this`s, this`trace
      ensures Valid() && Onward(old(s), s) && s == Committing(old(s), w, old(Mine()).batch, rejected, replied)
      ensures DistinctIds(old(Mine()).batch) ==> CommitOutcome(old(s), s, w, rejected, replied)
    {
      hide After;
      hide CommitOutcome;
      hide DistinctIds;
      hide Onward;
      hide Exec;
      var batch := Mine().batch;
      CommitStep(s, w, rejected, replied);
      if DistinctIds(batch) {
        CommittingHasOutcome(s, w, rejected, replied);
      }
      var conn := new BisectInsert.Connection(InsertOne(rejected), s.rows);
      conn.InsertWithIsolation(batch, 0, |batch|);
      Taken(start, trace, Commit(w, rejected, replied));
      var ids := set id | id in conn.inserted;
      s := s.(rows := conn.table, dedup := s.dedup + Ids(batch), commits := s.commits + IdsOf(batch));
      Become(if replied then Committed(Those(batch, ids, true), Those(batch, ids, false)) else Holding(batch));
      trace := trace + [Commit(w, rejected, replied)];
    }

    /** The dedup insert waits while another transaction holds one of its rows; a wait that
        never ends fails like any other attempt. */
    method AwaitRows() returns (free: bool)
      requires Valid() && Mine().Holding?
      modifies this
      ensures Valid() && Onward(old(s), s) && Mine() == old(Mine())
      ensures free <==> !Blocked(s, w, Mine().batch)
      ensures !free ==> Quiet()
      ensures old(Quiet()) ==> Quiet() && s == old(s)
    {
      hide After;
      hide Blocked;
      hide Covers;
      ghost var before := s;
      OthersMove();
      while Blocked(s, w, Mine().batch) && next < |others|
        invariant Valid() && Onward(old(s), s) && Mine() == old(Mine())
        invariant old(Quiet()) ==> Quiet() && s == old(s)
        decreases |others| - next
      {
        before := s;
        OthersMove();
        OnwardTransitive(old(s), before, s);
      }
      free := !Blocked(s, w, Mine().batch);
    }

    // ----------------------------------------------------------------------------- a round

    /** One attempt: dedup rows, trimming, insertion, commit, with the others moving between
        the transactions. None means that the loop goes on. */
    method OneAttempt(turns: seq<Turn>, n: nat, ghost all: seq<Event>, ghost before: set<nat>, ghost known: set<nat>, ghost quiet: bool)
      returns (end: Option<End>, ghost dups: set<nat>)
      requires Valid() && Mine().Holding? && Mine().batch != [] && RestOf(s, all, Mine().batch, known)
      requires n < maxRetries && (quiet ==> Quiet() && AllExplained(before, s, turns, n, all))
      modifies this
      ensures Valid() && Onward(old(s), s) && (quiet ==> Quiet() && s.lost == old(s).lost)
      ensures end == None ==>
                && Mine().Holding? && Mine().batch != [] && RestOf(s, all, Mine().batch, dups)
                && (quiet ==> AllExplained(before, s, turns, n + 1, all))
      ensures end.Some? ==>
                && Reached(s, Mine(), all, end.value, dups)
                && (quiet ==> DupsExplained(before, s.rows, turns, maxRetries, all, dups))
      ensures end == Some(Died) ==> TurnAt(turns, n).trim != Answered
      ensures quiet ==>
                if Blocked(old(s), w, old(Mine()).batch) then end == None && s == old(s)
                else (s, end) == Attempted(old(s), w, old(Mine()).batch, TurnAt(turns, n))
    {
      hide After;
      hide Those;
      hide Ids;
      hide Blocked;
      hide Finishing;
      hide Covers;
      hide Delivered;
      hide Explained;
      hide RestOf;
      hide AllExplained;
      hide DupsExplained;
      hide Committing;
      hide Onward;
      var turn := TurnAt(turns, n);
      dups := known;
      ghost var last := s;
      var free := AwaitRows();
      Continued(old(s), old(s), s, all, Mine().batch, dups);
      if !free {
        if quiet {
          ExplainedStays(before, old(s), s, turns, n, n + 1, all);
        }
        return None, dups;
      }
      var original := Mine().batch;
      last := s;
      var inserted := InsertDedupRows();
      Continued(old(s), last, s, all, original, dups);
      SplitIds(original, inserted);
      last := s;
      OthersMove();
      OnwardDedup(last, s);
      Continued(old(s), last, s, all, original, dups);
      last := s;
      var ok := TrimBatch(original, inserted, turn.trim);
      Continued(old(s), last, s, all, original, dups);
      if quiet {
        ExplainedStays(before, old(s), s, turns, n, n, all);
        ExplainedEnds(before, s, turns, n, maxRetries, all, original, dups);
      }
      last := s;
      if quiet {
        PutTwice(Acked(old(s), original), w, Mine(), Idle);
        PutTwice(old(s), w, InTx(Those(original, old(s).dedup, false), Those(original, old(s).dedup, true)), Mine());
        PutTwice(old(s), w, InTx(Those(original, old(s).dedup, false), Those(original, old(s).dedup, true)), Idle);
        FinishingOver(Acked(old(s), original), w, Mine(), Those(original, old(s).dedup, false), turn);
      }
      if !ok {
        Quit();
        Continued(old(s), last, s, all, original, dups);
        DupsStay(before, last, s, turns, maxRetries, all, dups);
        return Some(Died), dups;
      }
      TrimRest(s, all, original, inserted, dups);
      dups := dups + Ids(Those(original, inserted, false));
      end := FinishAttempt(turns, n, all, before, dups, quiet);
      OnwardTransitive(old(s), last, s);
    }

    /** The second half of an attempt, once the duplicates are gone. */
    method FinishAttempt(turns: seq<Turn>, n: nat, ghost all: seq<Event>, ghost before: set<nat>, ghost dups: set<nat>, ghost quiet: bool)
      returns (end: Option<End>)
      requires Valid() && Mine().InTx? && Mine().dups == [] && RestOf(s, all, Mine().batch, dups)
      requires n < maxRetries && (quiet ==> Quiet() && AllExplained(before, s, turns, n, all))
      modifies this
      ensures Valid() && Onward(old(s), s) && (quiet ==> Quiet() && s.lost == old(s).lost)
      ensures end == None ==>
                && Mine().Holding? && Mine().batch != [] && RestOf(s, all, Mine().batch, dups)
                && (quiet ==> AllExplained(before, s, turns, n + 1, all))
      ensures end.Some? ==>
                && Reached(s, Mine(), all, end.value, dups)
                && (quiet ==> DupsExplained(before, s.rows, turns, maxRetries, all, dups))
      ensures end != Some(Died)
      ensures quiet ==> (s, end) == Finishing(old(s), w, old(Mine()).batch, TurnAt(turns, n))
    {
      hide After;
      hide Those;
      hide Ids;
      hide Covers;
      hide Delivered;
      hide Explained;
      hide RestOf;
      hide AllExplained;
      hide DupsExplained;
      hide Committing;
      hide Onward;
      var turn, batch := TurnAt(turns, n), Mine().batch;
      if quiet {
        ExplainedEnds(before, s, turns, n, maxRetries, all, batch, dups);
      }
      if batch == [] {
        Quit();
        Continued(old(s), old(s), s, all, batch, dups);
        DupsStay(before, old(s), s, turns, maxRetries, all, dups);
        return Some(NothingLeft);
      }
      OthersMove();
      ghost var last := s;
      Continued(old(s), old(s), s, all, batch, dups);
      match turn.ending {
        case Commits =>
          InsertAndCommit(turn.rejected, true);
          Continued(old(s), last, s, all, batch, dups);
          CommitReaches(last, s, w, turn.rejected, all, dups);
          end := Some(Inserted);
        case CommitsUnanswered =>
          if quiet {
            RestIsDelivered(last, all, batch, dups);
            CommitExplains(before, last, w, turn.rejected, turns, n, all);
          }
          InsertAndCommit(turn.rejected, false);
          CommittingShape(last, w, turn.rejected, false);
          Continued(old(s), last, s, all, batch, dups);
          end := None;
        case TransientError =>
          Undo();
          Continued(old(s), last, s, all, batch, dups);
          if quiet {
            ExplainedStays(before, last, s, turns, n, n + 1, all);
          }
          end := None;
        case FatalError =>
          GiveUp();
          Continued(old(s), last, s, all, batch, dups);
          end := Some(Raised);
      }
      DupsStay(before, last, s, turns, maxRetries, all, dups);
    }

    /** db_execute_with_retries around the insertion. `dups` are the ids that were found
        deduplicated on the way and acknowledged as such. When nobody else moves, the turns
        decide how it ends. */
    method InsertWithRetries(turns: seq<Turn>) returns (end: End, ghost dups: set<nat>)
      requires Valid() && Mine().Holding? && Mine().batch != [] && forall e | e in Mine().batch :: e in Delivered(s)
      modifies this
      ensures Valid() && Onward(old(s), s) && (old(Quiet()) ==> Quiet() && s.lost == old(s).lost)
      ensures maxRetries >= 1 ==>
                && Reached(s, Mine(), old(Mine()).batch, end, dups)
                && (old(Quiet()) ==> DupsExplained(old(s).dedup, s.rows, turns, maxRetries, old(Mine()).batch, dups))
      ensures maxRetries == 0 ==> end == NothingLeft && Mine() == Idle
      ensures end == Died ==> exists k :: 0 <= k < maxRetries && TurnAt(turns, k).trim != Answered
      ensures old(Quiet()) && maxRetries >= 1 ==>
                var batch := old(Mine()).batch;
                if Blocked(old(s), w, batch) then end == Raised && s == Put(old(s), w, Failed(batch))
                else
                  && EndsAsTurnsSay(end, turns, maxRetries, SomeUnseen(old(s), batch))
                  && (end == Inserted ==>
                        exists k :: 0 <= k < maxRetries && EndsAt(turns, k, Commits)
                          && s == Committing(Acked(old(s), batch), w, Those(batch, old(s).dedup, false), TurnAt(turns, k).rejected, true))
                  && (end == NothingLeft && !SomeUnseen(old(s), batch) ==> s == Put(Acked(old(s), batch), w, Idle))
                  && (end == Raised && !EndsAt(turns, maxRetries - 1, CommitsUnanswered) ==>
                        s == Put(Acked(old(s), batch), w, Failed(Those(batch, old(s).dedup, false))))
    {
      hide After;
      hide Those;
      hide Acked;
      hide Blocked;
      hide Attempted;
      hide Committing;
      hide EndsAsTurnsSay;
      hide SomeUnseen;
      hide EndsAt;
      hide Midway;
      hide Covers;
      hide Delivered;
      hide Explained;
      hide RestOf;
      hide AllExplained;
      hide DupsExplained;
      hide Onward;
      ghost var all, before := Mine().batch, s.dedup;
      var attempt, ended := 0, None;
      dups := {};
      RestStarts(s, all, turns);
      MidwayStarts(s, w, all, turns);
      while attempt < maxRetries
        invariant attempt <= maxRetries && Valid() && Onward(old(s), s) && Mine().Holding? && Mine().batch != []
        invariant RestOf(s, all, Mine().batch, dups)
        invariant old(Quiet()) ==> Quiet() && s.lost == old(s).lost && AllExplained(before, s, turns, attempt, all)
        invariant old(Quiet()) && Blocked(old(s), w, all) ==> s == old(s)
        invariant old(Quiet()) && !Blocked(old(s), w, all) ==> Midway(old(s), s, w, all, turns, attempt)
      {
        ghost var last := s;
        if old(Quiet()) && !Blocked(old(s), w, all) {
          MidwayFree(old(s), s, w, all, turns, attempt);
        }
        ended, dups := OneAttempt(turns, attempt, all, before, dups, old(Quiet()));
        OnwardTransitive(old(s), last, s);
        if old(Quiet()) && !Blocked(old(s), w, all) {
          MidwayStep(old(s), last, s, w, all, turns, attempt, maxRetries, ended);
        }
        attempt := attempt + 1;
        if ended.Some? {
          return ended.value, dups;
        }
      }
      ghost var last := s;
      if attempt > 0 {
        if old(Quiet()) {
          ExplainedEnds(before, s, turns, attempt, maxRetries, all, Mine().batch, dups);
          if !Blocked(old(s), w, all) {
            MidwayEnds(old(s), s, w, all, turns, attempt);
          }
        }
        ghost var rest := Mine().batch;
        GiveUp();
        Continued(old(s), last, s, all, rest, dups);
        DupsStay(before, last, s, turns, maxRetries, all, dups);
        return Raised, dups;
      }
      Quit();
      OnwardTransitive(old(s), last, s);
      return NothingLeft, dups;
    }

    /** dlq_aware_process_events around the acknowledgement: when it fails for good, the same
        events are dead-lettered, with one attempt if the network was at fault. It returns
        normally exactly when an attempt of either goes through. */
    method CommitProcessedEvents(replies: seq<Reply>, dlqReplies: seq<Reply>) returns (ok: bool)
      requires Valid() && Mine().Committed? && maxRetries >= 1
      modifies this
      ensures Valid() && Onward(old(s), s)
      ensures Mine() == if ok then Committed([], old(Mine()).failed) else Idle
      ensures ok ==> forall e | e in old(Mine()).applied :: e.id !in s.pel
      ensures (exists k :: 0 <= k < maxRetries && GetsAnswer(replies, k)) ==> ok
      ensures ok ==>
                || (exists k :: 0 <= k < maxRetries && GetsAnswer(replies, k))
                || exists k :: 0 <= k < (if AllNetwork(replies, maxRetries) then 1 else maxRetries) && GetsAnswer(dlqReplies, k)
      ensures old(Quiet()) ==> Quiet() && (ok ==> s.lost == old(s).lost)
      ensures old(Quiet()) ==>
                var attempts := if AllNetwork(replies, maxRetries) then 1 else maxRetries;
                && (ok <==>
                      || (exists k :: 0 <= k < maxRetries && GetsAnswer(replies, k))
                      || exists k :: 0 <= k < attempts && GoesThrough(old(s), AmortizeApplied, old(Mine()).applied, dlqReplies, k))
                && ((exists k :: 0 <= k < maxRetries && AnsweredFirst(replies, k)) ==>
                      ok && s == Put(Acknowledge(old(s), old(Mine()).applied), w, Committed([], old(Mine()).failed)))
    {
      hide After;
      hide Repeated;
      hide GoesThrough;
      hide Covers;
      hide Onward;
      hide GetsAnswer;
      hide Acknowledge;
      ghost var applied, failed := Mine().applied, Mine().failed;
      var fault, tried, executions := ExecuteWithRedisRetries(AckAndEmit, maxRetries, replies);
      RepeatedLoses(old(s), applied, executions);
      if old(Quiet()) && exists k :: 0 <= k < maxRetries && AnsweredFirst(replies, k) {
        ghost var k :| 0 <= k < maxRetries && AnsweredFirst(replies, k);
        ExecutedOnce(replies, k, maxRetries, tried);
        OnceGoesThrough(old(s), AckAndEmit, applied, replies, k, maxRetries);
      }
      if fault == None {
        return true;
      }
      ghost var last := s;
      var dlqAttempts := if fault == Some(Network) then 1 else maxRetries;
      fault, tried, executions := ExecuteWithRedisRetries(AmortizeApplied, dlqAttempts, dlqReplies);
      OnwardTransitive(old(s), last, s);
      SameLetters(old(s), last, AmortizeApplied, applied, dlqReplies, dlqAttempts);
      if fault == None {
        if old(Quiet()) {
          ghost var k :| 0 <= k < dlqAttempts && GoesThrough(last, AmortizeApplied, applied, dlqReplies, k);
          SuccessLosesNothing(last, AmortizeApplied, applied, dlqReplies, k, executions);
        }
        return true;
      }
      last := s;
      Quit();
      OnwardTransitive(old(s), last, s);
      return false;
    }

    /** declare_dead_with_retries for what the round could not apply: if it returns normally,
        every event is in the dead-letter stream and none is pending. It does so exactly when
        an attempt goes through. */
    method DeclareDead(replies: seq<Reply>) returns (ok: bool)
      requires Valid() && Fits(Mine(), AmortizeFailed) && maxRetries >= 1
      modifies this
      ensures Valid() && Onward(old(s), s) && Mine() == Idle
      ensures ok ==> forall e | e in EventsOf(old(Mine()), AmortizeFailed) :: e.id !in s.pel && e.id in s.letters.ids
      ensures ok ==> exists k :: 0 <= k < maxRetries && GetsAnswer(replies, k)
      ensures old(Quiet()) ==> Quiet() && (ok ==> s.lost == old(s).lost)
      ensures old(Quiet()) ==>
                var events := EventsOf(old(Mine()), AmortizeFailed);
                && (ok <==> exists k :: 0 <= k < maxRetries && GoesThrough(old(s), AmortizeFailed, events, replies, k))
                && ((exists k :: 0 <= k < maxRetries && AnsweredFirst(replies, k)) ==>
                      s == Put(Bury(old(s), events), w, Idle) && (ok <==> Ascending(old(s).letters, events)))
    {
      hide After;
      hide Repeated;
      hide GoesThrough;
      hide Covers;
      hide Onward;
      hide GetsAnswer;
      hide Ascending;
      hide Bury;
      ghost var events := EventsOf(Mine(), AmortizeFailed);
      var fault, tried, executions := ExecuteWithRedisRetries(AmortizeFailed, maxRetries, replies);
      if old(Quiet()) && exists k :: 0 <= k < maxRetries && AnsweredFirst(replies, k) {
        ghost var k :| 0 <= k < maxRetries && AnsweredFirst(replies, k);
        ExecutedOnce(replies, k, maxRetries, tried);
        OnceGoesThrough(old(s), AmortizeFailed, events, replies, k, maxRetries);
        PutTwice(Bury(old(s), events), w, Mine(), Idle);
      }
      if fault == None {
        if old(Quiet()) {
          ghost var k :| 0 <= k < maxRetries && GoesThrough(old(s), AmortizeFailed, events, replies, k);
          SuccessLosesNothing(old(s), AmortizeFailed, events, replies, k, executions);
        }
        return true;
      }
      ghost var last := s;
      Quit();
      OnwardTransitive(old(s), last, s);
      return false;
    }

    /** One round of queue_insertion_consumer over a batch, the other participants moving all
        the time. Unless its process dies, no event of the batch is pending afterwards, and
        each is covered by its row, or in the dead-letter stream, or was found deduplicated.
        When nobody else moves, the round loses nothing, and an event is found deduplicated
        only if it was before the round, or its row covers it, or a commit of the round that
        rejected it went through without reply. When moreover every reply arrives, the round
        settles its batch: the new events that are neither rejected nor stale change their
        rows, take their own intents away and add their deltas once; exactly the other new
        ones are dead-lettered, and the round finishes exactly when these come in order. If no
        attempt commits, all new events are dead-lettered and nothing else changes. */
    method Round(
        batch: seq<Event>, turns: seq<Turn>, ackReplies: seq<Reply>, fallbackReplies: seq<Reply>, dlqReplies: seq<Reply>)
      returns (finished: bool, ghost dups: set<nat>)
      requires Valid() && Mine() == Idle && Takeable(s, batch) && batch != []
      modifies this
      ensures Valid() && Onward(old(s), s) && Mine() == Idle
      ensures finished && maxRetries >= 1 ==>
                forall e | e in batch ::
                  e.id !in s.pel && (if e.id in dups then e.id in s.dedup else Covers(s.rows, e) || e.id in s.letters.ids)
      ensures finished && maxRetries >= 1 && old(Quiet()) ==>
                s.lost == old(s).lost && DupsExplained(old(s).dedup, s.rows, turns, maxRetries, batch, dups)
      ensures old(Quiet()) && maxRetries >= 1 && !Blocked(old(s), w, batch)
              && (exists i :: 0 <= i < maxRetries && AnsweredFirst(ackReplies, i))
              && (exists i :: 0 <= i < maxRetries && AnsweredFirst(dlqReplies, i)) ==>
                forall k | 0 <= k < maxRetries && EndsAt(turns, k, Commits) ::
                  var rejected := TurnAt(turns, k).rejected;
                  Settled(old(s), s, batch, rejected) && (finished <==> AllInTurn(old(s), batch, rejected))
      ensures old(Quiet()) && maxRetries >= 1 && !Blocked(old(s), w, batch) && NeverCommits(turns, maxRetries)
              && (exists i :: 0 <= i < maxRetries && AnsweredFirst(dlqReplies, i)) ==>
                Abandoned(old(s), s, batch) && (finished <==> AllInTurn(old(s), batch, Ids(batch)))
    {
      hide After;
      hide Those;
      hide Ids;
      hide Acked;
      hide Blocked;
      hide Committing;
      hide Settled;
      hide AllInTurn;
      hide EndsAt;
      hide AnsweredFirst;
      hide NeverCommits;
      hide Abandoned;
      hide LogOk;
      hide TurnAt;
      hide DistinctIds;
      hide Performed;
      hide Foreign;
      hide Exec;
      hide GetsAnswer;
      hide GoesThrough;
      hide GoesOn;
      hide SomeUnseen;
      hide EndsAsTurnsSay;
      hide Bury;
      hide Acknowledge;
      hide Ascending;
      hide Covers;
      hide Onward;
      hide RestOf;
      hide DupsExplained;
      hide Reached;
      TakeBatch(batch);
      ghost var last, taken := s, s;
      var end;
      end, dups := InsertWithRetries(turns);
      OnwardTransitive(old(s), last, s);
      last := s;
      ghost var worker, answered := Mine(), s;
      OnwardSelf(s);
      if maxRetries >= 1 {
        ReachedShape(s, worker, batch, end, dups);
      }
      match end {
        case Died =>
          finished := false;
        case NothingLeft =>
          finished := true;
          if maxRetries >= 1 {
            RoundDone(last, s, worker, batch, end, dups);
          }
        case Raised =>
          finished := DeclareDead(dlqReplies);
          RoundDone(last, s, worker, batch, end, dups);
        case Inserted =>
          finished := CommitProcessedEvents(ackReplies, fallbackReplies);
          if finished {
            ghost var between := s;
            answered := s;
            finished := DeclareDead(dlqReplies);
            StayDone(last, between, s, worker.applied);
            OnwardTransitive(last, between, s);
            RoundDone(last, s, worker, batch, end, dups);
          }
      }
      OnwardTransitive(old(s), last, s);
      DupsStay(old(s).dedup, last, s, turns, maxRetries, batch, dups);
      if old(Quiet()) && maxRetries >= 1 && !Blocked(old(s), w, batch)
         && (exists i :: 0 <= i < maxRetries && AnsweredFirst(ackReplies, i))
         && (exists i :: 0 <= i < maxRetries && AnsweredFirst(dlqReplies, i))
      {
        TakenBatch(old(s), w, batch);
        RoundEnds(old(s), last, answered, s, w, batch, turns, maxRetries, end, finished);
      }
      if old(Quiet()) && maxRetries >= 1 && !Blocked(old(s), w, batch) && NeverCommits(turns, maxRetries)
         && (exists i :: 0 <= i < maxRetries && AnsweredFirst(dlqReplies, i))
      {
        TakenBatch(old(s), w, batch);
        RoundRaises(old(s), last, s, w, batch, turns, maxRetries, end, finished);
      }
    }
  }

  /** An event that was to be done stays to be done, or done, whoever moves. */
  lemma Continued(first: State, s: State, t: State, all: seq<Event>, rest: seq<Event>, dups: set<nat>)
    requires first.cursor <= |first.log| && s.cursor <= |s.log| && t.cursor <= |t.log|
    requires Onward(first, s) && Onward(s, t) && RestOf(s, all, rest, dups)
    ensures Onward(first, t) && RestOf(t, all, rest, dups)
  {
    OnwardTransitive(first, s, t);
    RestStays(s, t, all, rest, dups);
  }

  /** Whether a dead-lettering goes through depends on the dead-letter stream alone. */
  lemma SameLetters(s: State, t: State, job: Job, events: seq<Event>, replies: seq<Reply>, n: nat)
    ensures s.letters == t.letters ==>
              ((exists k :: 0 <= k < n && GoesThrough(s, job, events, replies, k))
               <==> exists k :: 0 <= k < n && GoesThrough(t, job, events, replies, k))
  {
    if s.letters == t.letters {
      assert forall k: nat :: GoesThrough(s, job, events, replies, k) <==> GoesThrough(t, job, events, replies, k);
    }
    hide GoesThrough;
  }

  lemma RepeatedLoses(s: State, events: seq<Event>, n: nat)
    ensures Repeated(s, AckAndEmit, events, n).lost == s.lost
    ensures Repeated(s, AckAndEmit, events, n).letters == s.letters
  {
    if n > 0 {
      RepeatedAcknowledge(s, events, n);
    }
  }

  /** A dead-lettering that succeeds was executed once and refused nothing. */
  lemma SuccessLosesNothing(s: State, job: Job, events: seq<Event>, replies: seq<Reply>, k: nat, n: nat)
    requires job != AckAndEmit && GoesThrough(s, job, events, replies, k)
    ensures Repeated(s, job, events, n).lost == s.lost
  {
    if n > 0 {
      RepeatedBury(s, job, events, n);
      NothingToBury(s.letters, events);
      AscendingAddsAll(s.letters, events);
    }
  }

  lemma ReachedShape(s: State, worker: Worker, all: seq<Event>, end: End, dups: set<nat>)
    requires s.cursor <= |s.log| && Reached(s, worker, all, end, dups)
    ensures end == Raised ==> worker.Failed?
    ensures end == NothingLeft || end == Died ==> worker == Idle
    ensures end == Inserted ==> worker.Committed? && forall e | e in worker.applied :: e in Delivered(s)
  {
    if end == Inserted {
      forall e | e in worker.applied
        ensures e in Delivered(s)
      {
        assert e in worker.applied + worker.failed;
      }
    }
  }

  /** What is acknowledged stays so. */
  lemma StayDone(first: State, s: State, t: State, events: seq<Event>)
    requires first.cursor <= |first.log| && s.cursor <= |s.log| && t.cursor <= |t.log|
    requires Onward(first, s) && Onward(s, t) && forall e | e in events :: e in Delivered(first) && e.id !in s.pel
    ensures forall e | e in events :: e.id !in t.pel
  {
    hide Covers;
    hide Delivered;
  }

  /** Applied and failed events are done, and the others were found deduplicated. */
  lemma RoundDone(s: State, t: State, worker: Worker, all: seq<Event>, end: End, dups: set<nat>)
    requires s.cursor <= |s.log| && t.cursor <= |t.log| && Onward(s, t) && Reached(s, worker, all, end, dups) && end != Died
    ensures var done := match end
                        case Inserted =>
                          && (forall e | e in worker.applied :: e.id !in t.pel)
                          && (forall e | e in worker.failed :: e.id !in t.pel && e.id in t.letters.ids)
                        case Raised => forall e | e in worker.batch :: e.id !in t.pel && e.id in t.letters.ids
                        case _ => true;
            done ==> forall e | e in all ::
                       e.id !in t.pel && (if e.id in dups then e.id in t.dedup else Covers(t.rows, e) || e.id in t.letters.ids)
  {
    hide Covers;
    hide Delivered;
  }

  lemma OnwardSelf(s: State)
    requires s.cursor <= |s.log|
    ensures Onward(s, s)
  {
  }

  lemma OnwardDedup(s: State, t: State)
    requires s.cursor <= |s.log| && t.cursor <= |t.log| && Onward(s, t)
    ensures s.dedup <= t.dedup
  {
  }

  lemma RestStarts(s: State, all: seq<Event>, turns: seq<Turn>)
    requires s.cursor <= |s.log| && forall e | e in all :: e in Delivered(s)
    ensures RestOf(s, all, all, {}) && AllExplained(s.dedup, s, turns, 0, all) && Onward(s, s)
  {
  }

  lemma {:induction false} SplitIds(batch: seq<Event>, ids: set<nat>)
    ensures Ids(Those(batch, ids, true)) == Ids(batch) * ids
    ensures Ids(Those(batch, ids, false)) == Ids(batch) - ids
  {
    var a, b := Those(batch, ids, true), Those(batch, ids, false);
    ThoseHolds(batch, ids, true);
    ThoseHolds(batch, ids, false);
    hide Those;
    assert forall e | e in batch :: e in a || e in b;
  }

  /** Trimming moves the duplicates from the rest to the events that are done. */
  lemma TrimRest(s: State, all: seq<Event>, original: seq<Event>, inserted: set<nat>, dups: set<nat>)
    requires s.cursor <= |s.log| && RestOf(s, all, original, dups)
    requires var gone := Ids(Those(original, inserted, false)); gone <= s.dedup && gone !! s.pel
    ensures RestOf(s, all, Those(original, inserted, true), dups + Ids(Those(original, inserted, false)))
  {
    ThoseHolds(original, inserted, true);
    ThoseHolds(original, inserted, false);
    hide Those;
  }

  /** One more recorded step. */
  lemma Taken(start: State, trace: seq<Step>, step: Step)
    requires start.cursor <= |start.log| && LogOk(After(start, trace).log)
    ensures var s := After(start, trace);
            && After(start, trace + [step]) == Exec(s, step)
            && Exec(s, step).cursor <= |Exec(s, step).log| && Onward(s, Exec(s, step)) && LogOk(Exec(s, step).log)
    ensures forall t | t in trace + [step] :: t in trace || t == step
  {
    AfterStep(start, trace, step);
    StepOnward(After(start, trace), step);
  }
}
