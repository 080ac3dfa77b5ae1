/** What no step ever takes back, whoever takes it, and what other participants cannot do to
    a worker. A consumer relies on this between its own steps. */
module PipelineProgress {
  import opened Events
  import opened Association
  import opened Pipeline
  import opened PipelineSafety
  import opened PipelineView
  import BisectInsert

  /** The steps of the consumer `w`. */
  predicate Own(step: Step, w: nat) {
    match step
    case Take(v, _) => v == w
    case Dedup(v) => v == w
    case Trim(v, _) => v == w
    case Commit(v, _, _) => v == w
    case Rollback(v) => v == w
    case Fail(v) => v == w
    case AckApplied(v, _) => v == w
    case BuryApplied(v, _) => v == w
    case BuryFailed(v, _) => v == w
    case Crash(v) => v == w
    case AckEarly(v) => v == w
    case _ => false
  }

  ghost predicate Onward(s: State, t: State)
    requires s.cursor <= |s.log| && t.cursor <= |t.log|
  {
    && |t.workers| == |s.workers|
    && Delivered(s) <= Delivered(t)
    && s.dedup <= t.dedup && s.letters.ids <= t.letters.ids && s.lost <= t.lost
    && (forall e | e in Delivered(s) && e.id in t.pel :: e.id in s.pel)
    && (forall e | Covers(s.rows, e) :: Covers(t.rows, e))
  }

  lemma OnwardTransitive(s: State, t: State, u: State)
    requires s.cursor <= |s.log| && t.cursor <= |t.log| && u.cursor <= |u.log|
    requires Onward(s, t) && Onward(t, u)
    ensures Onward(s, u)
  {
    hide Covers;
    hide Delivered;
  }

  lemma {:induction false} InsertedMonotone(rows: Table, batch: seq<Event>, rejected: set<nat>, hi: nat, e: Event)
    requires hi <= |batch| && Covers(rows, e)
    ensures Covers(BisectInsert.Sequential(InsertOne(rejected), BisectInsert.Progress(rows, []), batch, 0, hi).table, e)
  {
    if hi > 0 {
      InsertedMonotone(rows, batch, rejected, hi - 1, e);
    }
  }

  /** Only a delivery makes an id pending, one that was not delivered before. */
  lemma PendingOnlyShrinks(s: State, step: Step, e: Event)
    requires s.cursor <= |s.log| && LogOk(s.log) && e in Delivered(s)
    ensures e.id in Exec(s, step).pel ==> e.id in s.pel
  {
    hide Added;
    hide Cleared;
    hide BumpAll;
    hide Updates;
    hide Inserted;
    hide Those;
    hide Ids;
    if step.Deliver? && s.cursor < |s.log| {
      var i :| 0 <= i < s.cursor && s.log[i] == e;
      assert s.log[i].id < s.log[s.cursor].id;
    }
    if IsOutside(step) {
      hide Redis;
      hide Database;
    } else if IsRedis(step) {
      hide Outside;
      hide Database;
    } else {
      hide Outside;
      hide Redis;
    }
  }

  lemma LettersGrow(s: State, step: Step)
    requires s.cursor <= |s.log|
    ensures s.letters.ids <= Exec(s, step).letters.ids
    ensures s.dedup <= Exec(s, step).dedup
    ensures forall e | Covers(s.rows, e) :: Covers(Exec(s, step).rows, e)
  {
    Frame(s, step);
    AddedGrows(s.letters, Doomed(s, step));
    hide Added;
    match step {
      case Reclaim(ids, top) =>
      case Commit(w, rejected, replied) =>
        if At(s, w).InTx? && At(s, w).dups == [] {
          var batch := At(s, w).batch;
          forall e | Covers(s.rows, e)
            ensures Covers(Inserted(s.rows, batch, rejected).table, e)
          {
            InsertedMonotone(s.rows, batch, rejected, |batch|, e);
          }
          hide Inserted;
        }
      case _ =>
        hide Exec;
    }
  }

  lemma StepOnward(s: State, step: Step)
    requires s.cursor <= |s.log| && LogOk(s.log)
    ensures Exec(s, step).cursor <= |Exec(s, step).log| && Onward(s, Exec(s, step)) && LogOk(Exec(s, step).log)
  {
    Frame(s, step);
    CursorStays(s, step);
    DeliveredGrows(s, step);
    LettersGrow(s, step);
    hide Exec;
    hide Covers;
    forall e | e in Delivered(s) && e.id in Exec(s, step).pel
      ensures e.id in s.pel
    {
      PendingOnlyShrinks(s, step, e);
    }
  }

  /** A worker moves by its own steps alone. */
  lemma OthersLeaveAlone(s: State, step: Step, w: nat)
    requires s.cursor <= |s.log| && w < |s.workers| && !Own(step, w)
    ensures |Exec(s, step).workers| == |s.workers| && Exec(s, step).workers[w] == s.workers[w]
  {
    hide Added;
    hide Cleared;
    hide BumpAll;
    hide Updates;
    hide Inserted;
    hide Those;
    hide Ids;
    if IsOutside(step) {
      hide Redis;
      hide Database;
    } else if IsRedis(step) {
      hide Outside;
      hide Database;
    } else {
      hide Outside;
      hide Redis;
    }
  }
}
