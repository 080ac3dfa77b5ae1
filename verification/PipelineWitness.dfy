/** Two runs that go wrong as the repository is written: an acknowledgement before the commit,
    and a batch that is dead-lettered out of order. */
module PipelineWitness {
  import opened Wrappers
  import opened Events
  import opened Association
  import opened Pipeline
  import opened PipelineSafety
  import opened PipelineView
  import BisectInsert

  /** A run without early acknowledgement and without crash. */
  predicate Calm(run: seq<Step>) {
    forall i | 0 <= i < |run| :: !run[i].AckEarly? && !run[i].Crash?
  }

  /** The run so far and where it stands. */
  lemma Then(start: State, run: seq<Step>, s: State, step: Step, t: State) returns (longer: seq<Step>)
    requires start.cursor <= |start.log| && After(start, run) == s && Exec(s, step) == t
    ensures After(start, longer) == t
    ensures CommitsFirst(run) && !step.AckEarly? ==> CommitsFirst(longer)
    ensures Calm(run) && !step.AckEarly? && !step.Crash? ==> Calm(longer)
  {
    AfterStep(start, run, step);
    longer := run + [step];
  }

  /** Acknowledge, then crash before the commit: the only event of the run leaves no trace. */
  lemma AcknowledgedTooEarly(e: Event) returns (run: seq<Step>)
    ensures var s := After(Start(map[], 1), run);
            && s.log == [e] && s.cursor == 1
            && e.id !in s.pel + s.dedup + s.letters.ids + s.lost
            && View(s, e.key) == None && LastAction(map[], s.log, e.key) == Some(e.flag)
  {
    var start := Start(map[], 1);
    hide CommitsFirst;
    hide Calm;
    run := OneDelivered(e);
    var s3 := After(start, run).(workers := [InTx([e], [])]);
    run := ToTransaction(start, run, [e]);
    Acknowledged(s3, e);
    hide After;
    hide Acknowledge;
    hide BumpAll;
    run := AcknowledgedEarly(start, run, s3, [e]);
    hide Exec;
    run := Crashed(start, run, Acknowledge(s3, [e]));
  }

  lemma AcknowledgedEarly(start: State, run: seq<Step>, s: State, batch: seq<Event>) returns (longer: seq<Step>)
    requires start.cursor <= |start.log| && After(start, run) == s && s.workers == [InTx(batch, [])]
    ensures After(start, longer) == Acknowledge(s, batch)
  {
    hide After;
    hide Acknowledge;
    longer := Then(start, run, s, AckEarly(0), Acknowledge(s, batch));
  }

  lemma Crashed(start: State, run: seq<Step>, s: State) returns (longer: seq<Step>)
    requires start.cursor <= |start.log| && After(start, run) == s
    ensures After(start, longer) == Put(s, 0, Idle)
  {
    longer := Then(start, run, s, Crash(0), Put(s, 0, Idle));
  }

  lemma OneDelivered(e: Event) returns (run: seq<Step>)
    ensures CommitsFirst(run) && Calm(run)
    ensures var s := After(Start(map[], 1), run);
            && s == Start(map[], 1).(log := [e], intents := map[e.key := Intent(e.flag, e.intent)],
                                     counts := BumpAll(map[], e.updates), cursor := 1, pel := {e.id})
            && s.workers == [Idle] && Takeable(s, [e])
  {
    var start := Start(map[], 1);
    var s1 := start.(log := [e], intents := map[e.key := Intent(e.flag, e.intent)], counts := BumpAll(map[], e.updates));
    var s2 := s1.(cursor := 1, pel := {e.id});
    assert After(start, []) == start && CommitsFirst([]) && Calm([]);
    hide After;
    hide CommitsFirst;
    hide Calm;
    assert Exec(start, Emit(e)) == s1;
    run := Then(start, [], start, Emit(e), s1);
    run := Then(start, run, s1, Deliver, s2);
    assert s2.log[..1][0] == e;
  }

  lemma Acknowledged(s: State, e: Event)
    requires s.intents == map[e.key := Intent(e.flag, e.intent)] && s.pel == {e.id}
    ensures Acknowledge(s, [e]) == s.(pel := {}, intents := map[], counts := Acknowledge(s, [e]).counts)
  {
    assert e in [e] && [e][..0] == [];
    assert Ids([e]) == {e.id};
    assert Cleared(s.intents, [e][..0]) == s.intents;
  }

  /** The only worker takes delivered events into a transaction. */
  lemma ToTransaction(start: State, run: seq<Step>, batch: seq<Event>) returns (longer: seq<Step>)
    requires start.cursor <= |start.log|
    requires var s := After(start, run); s.workers == [Idle] && s.dedup == {} && Takeable(s, batch)
    ensures var s := After(start, run);
            After(start, longer) == s.(workers := [InTx(batch, [])])
    ensures CommitsFirst(run) ==> CommitsFirst(longer)
    ensures Calm(run) ==> Calm(longer)
  {
    var s := After(start, run);
    var t := s.(workers := [Holding(batch)]);
    hide After;
    longer := Then(start, run, s, Take(0, batch), t);
    NothingDeduplicated(batch);
    assert !Blocked(t, 0, batch);
    longer := Then(start, longer, t, Dedup(0), s.(workers := [InTx(batch, [])]));
  }

  lemma {:induction false} NothingDeduplicated(batch: seq<Event>)
    ensures Those(batch, {}, false) == batch && Those(batch, {}, true) == []
  {
    if batch != [] {
      NothingDeduplicated(batch[..|batch| - 1]);
    }
  }

  /** Two events dead-lettered in one transaction, the newer one first: the older one is
      acknowledged and nowhere to be found. */
  lemma BuriedOutOfOrder(a: Event, b: Event) returns (run: seq<Step>)
    requires a.id < b.id && a.intent != b.intent
    ensures CommitsFirst(run)
    ensures var s := After(Start(map[], 1), run);
            s.log == [a, b] && s.cursor == 2 && a.id in s.lost && a.id !in s.pel + s.dedup + s.letters.ids
  {
    var start := Start(map[], 1);
    run := BothDelivered(a, b);
    var s := After(start, run);
    hide After;
    hide Exec;
    hide Bury;
    run := ToTransaction(start, run, [b, a]);
    var s' := s.(workers := [Failed([b, a])]);
    run := Failing(start, run, s, [b, a]);
    BuriedDescending(s', a, b);
    run := Burying(start, run, s', [b, a]);
  }

  lemma Failing(start: State, run: seq<Step>, s: State, batch: seq<Event>) returns (longer: seq<Step>)
    requires start.cursor <= |start.log| && After(start, run) == s.(workers := [InTx(batch, [])])
    ensures After(start, longer) == s.(workers := [Failed(batch)])
    ensures CommitsFirst(run) ==> CommitsFirst(longer)
  {
    hide After;
    longer := Then(start, run, s.(workers := [InTx(batch, [])]), Fail(0), s.(workers := [Failed(batch)]));
  }

  lemma Burying(start: State, run: seq<Step>, s: State, batch: seq<Event>) returns (longer: seq<Step>)
    requires start.cursor <= |start.log| && After(start, run) == s && s.workers == [Failed(batch)]
    ensures After(start, longer) == Put(Bury(s, batch), 0, Idle)
    ensures CommitsFirst(run) ==> CommitsFirst(longer)
  {
    hide After;
    longer := Then(start, run, s, BuryFailed(0, true), Put(Bury(s, batch), 0, Idle));
  }

  lemma BothDelivered(a: Event, b: Event) returns (run: seq<Step>)
    requires a.id < b.id && a.intent != b.intent
    ensures CommitsFirst(run)
    ensures var s := After(Start(map[], 1), run);
            && s.log == [a, b] && s.cursor == 2 && s.workers == [Idle] && s.dedup == {} && s.letters == Letters({}, 0)
            && Takeable(s, [b, a])
  {
    var start := Start(map[], 1);
    run := OneDelivered(a);
    var s := After(start, run);
    hide After;
    hide CommitsFirst;
    assert Emittable(s, b);
    var s1 := Exec(s, Emit(b));
    assert s1.log == [a, b];
    run := Then(start, run, s, Emit(b), s1);
    var s2 := Exec(s1, Deliver);
    run := Then(start, run, s1, Deliver, s2);
    assert s2.log[..2][0] == a && s2.log[..2][1] == b;
  }

  lemma BuriedDescending(s: State, a: Event, b: Event)
    requires a.id < b.id && s.letters == Letters({}, 0)
    ensures var t := Bury(s, [b, a]); a.id in t.lost && a.id !in t.pel + t.letters.ids
  {
    assert [b, a][..1] == [b] && [b][..0] == [];
    assert Added(s.letters, [b]) == Letters({b.id}, b.id);
    assert a in [b, a] && a.id in Ids([b, a]);
  }

  /** The only event of a run is rejected, the reply to the commit is lost, the next attempt
      finds it deduplicated and acknowledges it: it is not pending, in no row, not
      dead-lettered and not refused, although nothing crashed. */
  lemma StrandedByLostReply(e: Event) returns (run: seq<Step>)
    ensures Calm(run)
    ensures var s := After(Start(map[], 1), run);
            s.log == [e] && s.cursor == 1 && s.pel == {} && s.rows == map[] && e.id in s.dedup
            && e.id !in s.letters.ids + s.lost
  {
    hide Calm;
    hide CommitsFirst;
    var start := Start(map[], 1);
    run := OneDelivered(e);
    var s := After(start, run);
    hide After;
    run := ToTransaction(start, run, [e]);
    run := RejectedUnanswered(start, run, s, e);
    run := FoundDuplicate(start, run, s.(dedup := {e.id}, commits := [e.id], workers := [Holding([e])]), e);
  }

  lemma RejectedUnanswered(start: State, run: seq<Step>, s: State, e: Event) returns (longer: seq<Step>)
    requires start.cursor <= |start.log| && After(start, run) == s.(workers := [InTx([e], [])])
    requires s.dedup == {} && s.commits == []
    ensures After(start, longer) == s.(dedup := {e.id}, commits := [e.id], workers := [Holding([e])])
    ensures Calm(run) ==> Calm(longer)
  {
    hide After;
    hide Calm;
    hide CommitsFirst;
    var t := s.(workers := [InTx([e], [])]);
    CommitRejected(t, e);
    hide Committing;
    longer := Then(start, run, t, Commit(0, {e.id}, false), Committing(t, 0, [e], {e.id}, false));
  }

  lemma CommitRejected(s: State, e: Event)
    requires s.workers == [InTx([e], [])] && s.dedup == {} && s.commits == []
    ensures Committing(s, 0, [e], {e.id}, false) == s.(dedup := {e.id}, commits := [e.id], workers := [Holding([e])])
  {
    assert e in [e];
    assert Ids([e]) == {e.id};
    assert IdsOf([e]) == [e.id];
    assert BisectInsert.Sequential(InsertOne({e.id}), BisectInsert.Progress(s.rows, []), [e], 0, 0)
        == BisectInsert.Progress(s.rows, []);
  }

  lemma FoundDuplicate(start: State, run: seq<Step>, s: State, e: Event) returns (longer: seq<Step>)
    requires start.cursor <= |start.log| && After(start, run) == s
    requires s.workers == [Holding([e])] && s.dedup == {e.id} && s.pel == {e.id}
    ensures After(start, longer) == s.(pel := {}, workers := [InTx([], [])])
    ensures Calm(run) ==> Calm(longer)
  {
    hide After;
    hide Calm;
    hide CommitsFirst;
    AllDuplicate(s, e);
    longer := Then(start, run, s, Dedup(0), s.(workers := [InTx([], [e])]));
    longer := TrimmedAway(start, longer, s, e);
  }

  lemma AllDuplicate(s: State, e: Event)
    requires s.cursor <= |s.log| && s.workers == [Holding([e])] && s.dedup == {e.id}
    ensures Exec(s, Dedup(0)) == s.(workers := [InTx([], [e])])
  {
    OneDuplicate(s.workers[0].batch, s.dedup);
    assert !Blocked(s, 0, [e]);
    assert s.workers[0 := InTx([], [e])] == [InTx([], [e])];
  }

  lemma OneDuplicate(batch: seq<Event>, dedup: set<nat>)
    requires |batch| == 1 && batch[0].id in dedup
    ensures Those(batch, dedup, true) == batch && Those(batch, dedup, false) == []
  {
  }

  lemma TrimmedAway(start: State, run: seq<Step>, s: State, e: Event) returns (longer: seq<Step>)
    requires start.cursor <= |start.log| && After(start, run) == s.(workers := [InTx([], [e])]) && s.pel == {e.id}
    ensures After(start, longer) == s.(pel := {}, workers := [InTx([], [])])
    ensures Calm(run) ==> Calm(longer)
  {
    hide After;
    hide Calm;
    hide CommitsFirst;
    assert e in [e];
    assert Ids([e]) == {e.id};
    longer := Then(start, run, s.(workers := [InTx([], [e])]), Trim(0, true), s.(pel := {}, workers := [InTx([], [])]));
  }
}
