/** What a run adds to the counters: the increments of every emission and, as the code is
    written, the same increments again for every execution of an acknowledgement. */
module PipelineCounts {
  import opened Events
  import opened Pipeline

  /** The events that a step acknowledges with their side effects. */
  function Acknowledged(s: State, step: Step): seq<Event> {
    match step
    case AckApplied(w, _) => if At(s, w).Committed? then At(s, w).applied else []
    case AckEarly(w) => if At(s, w).InTx? && At(s, w).dups == [] then At(s, w).batch else []
    case _ => []
  }

  /** The executions of acknowledgements over a whole run, repetitions included. */
  function Acknowledgements(s: State, run: seq<Step>): seq<Event>
    requires s.cursor <= |s.log|
  {
    if run == [] then []
    else
      var init := run[..|run| - 1];
      Acknowledgements(s, init) + Acknowledged(After(s, init), run[|run| - 1])
  }

  lemma StepBumps(s: State, step: Step)
    requires s.cursor <= |s.log|
    ensures var t := Exec(s, step);
            && |s.log| <= |t.log| && t.log[..|s.log|] == s.log
            && t.counts == BumpAll(BumpAll(s.counts, Updates(t.log[|s.log|..])), Updates(Acknowledged(s, step)))
  {
    assert s.log[|s.log|..] == [];
    NoUpdates(s.counts);
    if step.Emit? {
      var e := step.event;
      assert (s.log + [e])[|s.log|..] == [e] && [e][..0] == [];
      assert Updates([e]) == Updates([e][..0]) + e.updates == e.updates;
    } else {
      QuietBumps(s, step);
    }
  }

  lemma QuietBumps(s: State, step: Step)
    requires s.cursor <= |s.log| && !step.Emit?
    ensures Exec(s, step).log == s.log
    ensures Exec(s, step).counts == BumpAll(s.counts, Updates(Acknowledged(s, step)))
  {
    hide Added;
    hide Inserted;
    hide Cleared;
    NoUpdates(s.counts);
    Frame(s, step);
    hide BumpAll;
    hide Updates;
    hide Takeable;
    hide Blocked;
    hide Those;
    hide Ids;
    if IsOutside(step) {
      hide Redis;
      hide Database;
    } else if IsRedis(step) {
      hide Outside;
      hide Database;
    } else {
      hide Outside;
      hide Redis;
    }
  }

  lemma NoUpdates(counts: Counts)
    ensures Updates([]) == [] && BumpAll(counts, []) == counts
  {
  }

  lemma {:induction false} UpdatesConcat(a: seq<Event>, b: seq<Event>)
    ensures Updates(a + b) == Updates(a) + Updates(b)
  {
    if b == [] {
      assert a + b == a;
    } else {
      UpdatesConcat(a, b[..|b| - 1]);
      assert (a + b)[..|a + b| - 1] == a + b[..|b| - 1];
    }
  }

  lemma NamedEvents(a: seq<Event>, b: seq<Event>, group: nat, key: string)
    ensures Named(Updates(a + b), group, key) == Named(Updates(a), group, key) + Named(Updates(b), group, key)
  {
    UpdatesConcat(a, b);
    NamedConcat(Updates(a), Updates(b), group, key);
  }

  /** Main result: in every run each counter has grown by the deltas of all emitted events
      and, once more per execution, by those of the acknowledged ones; so the emitted deltas
      are counted once exactly when the executed acknowledgements sum to nothing for it. */
  lemma {:induction false} CountsOfRun(start: State, run: seq<Step>, group: nat, key: string)
    requires start.cursor <= |start.log|
    ensures var s := After(start, run);
            && |start.log| <= |s.log|
            && Count(s.counts, group, key)
               == Count(start.counts, group, key) + Named(Updates(s.log[|start.log|..]), group, key)
                  + Named(Updates(Acknowledgements(start, run)), group, key)
            && (Count(s.counts, group, key)
                == Count(start.counts, group, key) + Named(Updates(s.log[|start.log|..]), group, key)
                <==> Named(Updates(Acknowledgements(start, run)), group, key) == 0)
  {
    hide Exec;
    hide Acknowledged;
    hide BumpAll;
    hide Updates;
    hide Named;
    if run == [] {
      assert start.log[|start.log|..] == [];
      NoUpdates(start.counts);
      BumpAllCounts(start.counts, [], group, key);
      NamedEvents([], [], group, key);
    } else {
      var init, step := run[..|run| - 1], run[|run| - 1];
      CountsOfRun(start, init, group, key);
      var s, t := After(start, init), After(start, run);
      StepBumps(s, step);
      var emitted, acked := t.log[|s.log|..], Acknowledged(s, step);
      BumpAllCounts(s.counts, Updates(emitted), group, key);
      BumpAllCounts(BumpAll(s.counts, Updates(emitted)), Updates(acked), group, key);
      NamedEvents(s.log[|start.log|..], emitted, group, key);
      assert t.log[|start.log|..] == s.log[|start.log|..] + emitted;
      NamedEvents(Acknowledgements(start, init), acked, group, key);
    }
  }
}
