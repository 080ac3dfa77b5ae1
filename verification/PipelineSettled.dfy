/** What becomes of deduplicated events. A dedup row alone does not process an event: a
    constraint may have rejected it. The law is that each deduplicated event is covered by
    its row, is in the dead-letter stream or refused by it, or is held as failed by the
    worker that committed it. Exactly two kinds of steps break it. */
module PipelineSettled {
  import opened Events
  import opened Association
  import opened Pipeline
  import opened PipelineSafety
  import opened PipelineView
  import BisectInsert

  predicate HeldFailed(workers: seq<Worker>, e: Event) {
    exists w :: 0 <= w < |workers| && workers[w].Committed? && e in workers[w].failed
  }

  predicate Settled(s: State, e: Event) {
    Covers(s.rows, e) || e.id in s.letters.ids || e.id in s.lost || HeldFailed(s.workers, e)
  }

  /** The law. */
  ghost predicate AllSettled(s: State) {
    forall e | e in s.log && e.id in s.dedup :: Settled(s, e)
  }

  /** A commit whose reply is lost strands the rejected events of its batch, unless their rows
      are newer or they were dead-lettered before; a crash strands the failed events of a
      worker that committed, under the same condition. */
  predicate Strands(s: State, step: Step, e: Event) {
    match step
    case Commit(w, rejected, replied) =>
      && !replied && At(s, w).InTx? && At(s, w).dups == [] && e in At(s, w).batch
      && !Covers(Inserted(s.rows, At(s, w).batch, rejected).table, e) && e.id !in s.letters.ids && e.id !in s.lost
    case Crash(w) =>
      && w < |s.workers| && At(s, w).Committed? && e in At(s, w).failed
      && !Covers(s.rows, e) && e.id !in s.letters.ids && e.id !in s.lost
    case _ => false
  }

  // --------------------------------------------------------------------------- invariants

  ghost predicate Fine(s: State) {
    && WorkersOk(s) && LogOk(s.log)
    && (forall id | id in s.dedup :: id in Ids(s.log))
    && FailedApart(s.workers)
  }

  /** Two committed workers hold no failed event in common. */
  ghost predicate FailedApart(workers: seq<Worker>) {
    forall v, w, e | 0 <= v < |workers| && 0 <= w < |workers| && workers[v].Committed? && workers[w].Committed?
                     && e in workers[v].failed && e in workers[w].failed :: v == w
  }

  lemma InTheLog(s: State, w: nat, e: Event)
    requires WorkersOk(s) && w < |s.workers| && e in Batches(s.workers[w])
    ensures e in s.log && e.id in Ids(s.log)
  {
    assert WorkerOk(Delivered(s), s.dedup, s.workers[w]);
    assert e in Delivered(s);
  }

  lemma FailedIsDeduplicated(s: State, w: nat, e: Event)
    requires WorkersOk(s) && w < |s.workers| && s.workers[w].Committed? && e in s.workers[w].failed
    ensures e.id in s.dedup && e in s.log
  {
    assert e in Batches(s.workers[w]);
    InTheLog(s, w, e);
    assert WorkerOk(Delivered(s), s.dedup, s.workers[w]);
  }

  lemma OpenIsNot(s: State, w: nat, e: Event)
    requires WorkersOk(s) && w < |s.workers| && s.workers[w].InTx? && e in s.workers[w].batch
    ensures e.id !in s.dedup && e in s.log
  {
    assert e in Batches(s.workers[w]);
    InTheLog(s, w, e);
    assert WorkerOk(Delivered(s), s.dedup, s.workers[w]);
    assert e.id in Ids(s.workers[w].batch);
  }

  lemma LogKept(s: State, step: Step)
    requires s.cursor <= |s.log| && LogOk(s.log)
    ensures var t := Exec(s, step);
            && LogOk(t.log) && (t.log == s.log || (step.Emit? && Emittable(s, step.event) && t.log == s.log + [step.event]))
            && (step.Commit? || t.dedup == s.dedup)
  {
    Frame(s, step);
    hide Exec;
  }

  lemma StepKeepsFine(s: State, step: Step)
    requires Fine(s)
    ensures Fine(Exec(s, step))
  {
    StepKeepsWorkers(s, step);
    LogKept(s, step);
    var t := Exec(s, step);
    assert Ids(s.log) <= Ids(t.log);
    if step.Commit? {
      CommitKeepsFine(s, step.w, step.rejected, step.replied);
    } else {
      assert FailedApart(t.workers) by {
        hide Exec;
        FailedStays(s, step);
      }
    }
  }

  /** Apart from commits, steps give no worker a failed event that it did not have. */
  lemma FailedStays(s: State, step: Step)
    requires s.cursor <= |s.log| && !step.Commit? && FailedApart(s.workers)
    ensures FailedApart(Exec(s, step).workers)
  {
    forall v | 0 <= v < |s.workers|
      ensures |Exec(s, step).workers| == |s.workers|
      ensures Exec(s, step).workers[v].Committed? ==>
                s.workers[v].Committed? && Exec(s, step).workers[v].failed == s.workers[v].failed
    {
      if !step.Dedup? {
        StepMovesOne(s, step);
        hide Exec;
      }
    }
  }

  lemma CommitKeepsFine(s: State, w: nat, rejected: set<nat>, replied: bool)
    requires Fine(s)
    ensures var t := Exec(s, Commit(w, rejected, replied));
            FailedApart(t.workers) && forall id | id in t.dedup :: id in Ids(t.log)
  {
    hide Inserted;
    if At(s, w).InTx? && At(s, w).dups == [] {
      var batch := s.workers[w].batch;
      var t := Exec(s, Commit(w, rejected, replied));
      forall e | e in batch
        ensures e.id !in s.dedup && e in s.log && e.id in Ids(s.log)
      {
        OpenIsNot(s, w, e);
      }
      forall v, e | 0 <= v < |s.workers| && s.workers[v].Committed? && e in s.workers[v].failed
        ensures e.id in s.dedup
      {
        FailedIsDeduplicated(s, v, e);
      }
      ThoseHolds(batch, set id | id in Inserted(s.rows, batch, rejected).inserted, false);
    }
  }

  // ------------------------------------------------------------------------------ the law

  /** What a commit does to the rows and, with a reply, to the events of its batch. */
  lemma CommitRows(s: State, w: nat, rejected: set<nat>, e: Event)
    requires WorkersOk(s) && w < |s.workers| && s.workers[w].InTx?
    ensures var done := Inserted(s.rows, s.workers[w].batch, rejected);
            && (Covers(s.rows, e) ==> Covers(done.table, e))
            && (e in s.workers[w].batch && e.id in done.inserted ==> Covers(done.table, e))
  {
    var batch := s.workers[w].batch;
    forall x | x in batch
      ensures x in s.log
    {
      OpenIsNot(s, w, x);
    }
    InsertedAdvances(s.log, s.rows, batch, rejected, |batch|);
  }

  /** An event that was deduplicated before a commit stays settled. */
  lemma OldSettles(s: State, w: nat, rejected: set<nat>, replied: bool, e: Event)
    requires Fine(s) && Settled(s, e) && At(s, w).InTx? && e.id in s.dedup
    ensures e !in s.workers[w].batch && Settled(Committing(s, w, s.workers[w].batch, rejected, replied), e)
  {
    CommitRows(s, w, rejected, e);
    if e in s.workers[w].batch {
      OpenIsNot(s, w, e);
    }
    hide Inserted;
    hide Covers;
    var t := Committing(s, w, s.workers[w].batch, rejected, replied);
    if v :| 0 <= v < |s.workers| && s.workers[v].Committed? && e in s.workers[v].failed {
      assert t.workers[v] == s.workers[v];
    }
  }

  /** An event of the batch is settled by a commit with a reply; without one it depends. */
  lemma NewSettles(s: State, w: nat, rejected: set<nat>, replied: bool, e: Event)
    requires Fine(s) && At(s, w).InTx? && e in s.workers[w].batch
    ensures var t := Committing(s, w, s.workers[w].batch, rejected, replied);
            Settled(t, e) <==> replied || Covers(t.rows, e) || e.id in s.letters.ids || e.id in s.lost
  {
    CommitRows(s, w, rejected, e);
    OpenIsNot(s, w, e);
    NotHeldElsewhere(s, e);
    var ids := set id | id in Inserted(s.rows, s.workers[w].batch, rejected).inserted;
    ThoseHolds(s.workers[w].batch, ids, false);
    hide Inserted;
    hide Covers;
    hide Those;
    var t := Committing(s, w, s.workers[w].batch, rejected, replied);
    if replied {
      assert e.id in ids || e in t.workers[w].failed;
    } else {
      assert forall v | 0 <= v < |t.workers| && t.workers[v].Committed? :: t.workers[v] == s.workers[v];
    }
  }

  /** A single deduplicated event through a commit. */
  lemma CommitSettles(s: State, w: nat, rejected: set<nat>, replied: bool, e: Event)
    requires Fine(s) && AllSettled(s) && At(s, w).InTx? && At(s, w).dups == []
    requires e in s.log && e.id in s.dedup + Ids(s.workers[w].batch)
    ensures Settled(Committing(s, w, s.workers[w].batch, rejected, replied), e) <==> !Strands(s, Commit(w, rejected, replied), e)
  {
    hide Inserted;
    hide Settled;
    if e.id in s.dedup {
      OldSettles(s, w, rejected, replied, e);
    } else {
      var x :| x in s.workers[w].batch && x.id == e.id;
      OpenIsNot(s, w, x);
      SameIdSameEvent(s.log, x, e);
      NewSettles(s, w, rejected, replied, e);
    }
  }

  lemma NotHeldElsewhere(s: State, e: Event)
    requires WorkersOk(s) && e.id !in s.dedup
    ensures !HeldFailed(s.workers, e)
  {
    if w :| 0 <= w < |s.workers| && s.workers[w].Committed? && e in s.workers[w].failed {
      FailedIsDeduplicated(s, w, e);
    }
  }

  lemma CrashSettles(s: State, w: nat, e: Event)
    requires Fine(s) && AllSettled(s) && e in s.log && e.id in s.dedup
    ensures Settled(Exec(s, Crash(w)), e) <==> !Strands(s, Crash(w), e)
  {
    var t := Exec(s, Crash(w));
    assert Settled(s, e);
    if w < |s.workers| {
      if v :| 0 <= v < |s.workers| && v != w && s.workers[v].Committed? && e in s.workers[v].failed {
        assert t.workers[v] == s.workers[v];
      }
    }
  }

  lemma OtherFields(s: State, step: Step)
    requires s.cursor <= |s.log| && !step.Commit?
    ensures var t := Exec(s, step);
            t.rows == s.rows && s.letters.ids <= t.letters.ids && s.lost <= t.lost
  {
    AddedGrows(s.letters, Doomed(s, step));
    Frame(s, step);
    if !step.Reclaim? {
      hide Exec;
    }
  }

  /** Failed events stay with their worker until it dead-letters them or dies. */
  lemma FailedKept(s: State, step: Step, v: nat)
    requires s.cursor <= |s.log| && v < |s.workers| && s.workers[v].Committed? && !step.Commit? && !step.Crash?
    requires !(step.BuryFailed? && step.w == v)
    ensures var t := Exec(s, step);
            |t.workers| == |s.workers| && t.workers[v].Committed? && t.workers[v].failed == s.workers[v].failed
  {
    if !step.Dedup? {
      StepMovesOne(s, step);
      hide Exec;
    }
  }

  lemma BuriedSettles(s: State, w: nat, replied: bool, e: Event)
    requires s.cursor <= |s.log| && w < |s.workers| && s.workers[w].Committed? && e in s.workers[w].failed
    ensures Settled(Exec(s, BuryFailed(w, replied)), e)
  {
    hide Added;
    assert e.id in Ids(s.workers[w].failed);
  }

  /** A worker that dead-letters its failed events passes them on; other steps than commits
      and crashes leave them where they are. */
  lemma OtherSettles(s: State, step: Step, e: Event)
    requires s.cursor <= |s.log| && !step.Commit? && !step.Crash? && Settled(s, e)
    ensures Settled(Exec(s, step), e)
  {
    OtherFields(s, step);
    hide Exec;
    hide Covers;
    if v :| 0 <= v < |s.workers| && s.workers[v].Committed? && e in s.workers[v].failed {
      if step.BuryFailed? && step.w == v {
        BuriedSettles(s, v, step.replied, e);
      } else {
        FailedKept(s, step, v);
      }
    }
  }

  lemma StrandedIsDeduplicated(s: State, step: Step, e: Event)
    requires Fine(s) && Strands(s, step, e)
    ensures e in s.log && e.id in Exec(s, step).dedup
  {
    hide Inserted;
    hide Covers;
    match step {
      case Commit(w, _, _) => OpenIsNot(s, w, e);
      case Crash(w) => FailedIsDeduplicated(s, w, e);
    }
  }

  lemma StepSettles(s: State, step: Step, e: Event)
    requires Fine(s) && AllSettled(s) && e in s.log && e.id in Exec(s, step).dedup
    ensures Settled(Exec(s, step), e) <==> !Strands(s, step, e)
  {
    hide Settled;
    LogKept(s, step);
    match step {
      case Commit(w, rejected, replied) =>
        if At(s, w).InTx? && At(s, w).dups == [] {
          CommitSettles(s, w, rejected, replied, e);
        }
      case Crash(w) => CrashSettles(s, w, e);
      case _ =>
        assert Settled(s, e);
        OtherSettles(s, step, e);
    }
  }

  /** A step keeps the law exactly when it strands nothing. */
  lemma StepKeepsLawIff(s: State, step: Step)
    requires Fine(s) && AllSettled(s)
    ensures AllSettled(Exec(s, step)) <==> StrandsNothing(s, step)
  {
    LogKept(s, step);
    hide Settled;
    hide Strands;
    var t := Exec(s, step);
    hide Exec;
    forall e | e in t.log && e.id in t.dedup
      ensures e in s.log && (Settled(t, e) <==> !Strands(s, step, e))
    {
      StepSettles(s, step, e);
    }
    forall e | Strands(s, step, e)
      ensures e in t.log && e.id in t.dedup
    {
      StrandedIsDeduplicated(s, step, e);
    }
  }

  // ----------------------------------------------------------------------- over all runs

  lemma {:induction false} RunsKeepFine(rows: Table, workers: nat, run: seq<Step>)
    ensures Fine(After(Start(rows, workers), run))
  {
    if run != [] {
      hide Fine;
      hide Exec;
      RunsKeepFine(rows, workers, run[..|run| - 1]);
      StepKeepsFine(After(Start(rows, workers), run[..|run| - 1]), run[|run| - 1]);
    }
  }

  ghost predicate StrandsNothing(s: State, step: Step) {
    forall e :: !Strands(s, step, e)
  }

  ghost predicate LawAllAlong(s: State, run: seq<Step>)
    requires s.cursor <= |s.log|
  {
    forall i | 0 <= i <= |run| :: AllSettled(After(s, run[..i]))
  }

  ghost predicate NeverStrands(s: State, run: seq<Step>)
    requires s.cursor <= |s.log|
  {
    forall i | 0 <= i < |run| :: StrandsNothing(After(s, run[..i]), run[i])
  }

  lemma AllAlongSplits(s: State, run: seq<Step>)
    requires s.cursor <= |s.log| && run != []
    ensures var init := run[..|run| - 1];
            && (LawAllAlong(s, run) <==> LawAllAlong(s, init) && AllSettled(After(s, run)))
            && (NeverStrands(s, run) <==> NeverStrands(s, init) && StrandsNothing(After(s, init), run[|run| - 1]))
            && (LawAllAlong(s, init) ==> AllSettled(After(s, init)))
  {
    hide After;
    hide AllSettled;
    hide StrandsNothing;
    var init := run[..|run| - 1];
    assert run[..|run|] == run && init[..|init|] == init;
    assert forall i | 0 <= i <= |init| :: run[..i] == init[..i];
  }

  /** Main result: the law holds all through a run exactly when none of its steps is a commit
      without reply, or a crash, that strands an event. Then no event is dropped: whatever
      is not pending any more was processed or is in the dead-letter stream or was refused. */
  lemma {:induction false} LawHoldsIffNothingStranded(rows: Table, workers: nat, run: seq<Step>)
    ensures LawAllAlong(Start(rows, workers), run) <==> NeverStrands(Start(rows, workers), run)
  {
    var s := Start(rows, workers);
    if run == [] {
      StartSettled(rows, workers);
      assert run[..0] == run;
    } else {
      hide Exec;
      hide Fine;
      hide AllSettled;
      hide Strands;
      hide LawAllAlong;
      hide NeverStrands;
      var init := run[..|run| - 1];
      LawHoldsIffNothingStranded(rows, workers, init);
      AllAlongSplits(s, run);
      RunsKeepFine(rows, workers, init);
      if AllSettled(After(s, init)) {
        StepKeepsLawIff(After(s, init), run[|run| - 1]);
      }
    }
  }

  lemma StartSettled(rows: Table, workers: nat)
    ensures AllSettled(Start(rows, workers))
  {
  }
}
