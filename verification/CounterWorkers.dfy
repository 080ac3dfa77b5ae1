/** batch_update_counter_group and the two worker loops around it (tasks/counters.py), with
    dispatch_to_retrier and flush_counter_updates, as code that changes Redis and the table
    step by step. Producers and other workers move between its transactions as a schedule
    says. It is proved to take steps of the machine in Counters.dfy. */
module CounterWorkers {
  import opened Wrappers
  import opened Counters
  import opened CounterLadder

  /** How the UPDATE and its commit end. The failures leave the table as it was, except that
      the commit may have gone through although the connection reports an operational error. */
  datatype FlushOutcome = Fine | Recoverable | CommittedUnseen | Unrecoverable

  predicate LooksRecoverable(outcome: FlushOutcome) {
    outcome == Recoverable || outcome == CommittedUnseen
  }

  predicate Own(step: Step, w: nat) {
    match step
    case Increment(_, _, _) => false
    case TakeLive(v, _) => v == w
    case Pop(v) => v == w
    case Drain(v) => v == w
    case Flush(v, _) => v == w
    case FlushUnanswered(v, _) => v == w
    case FlushFails(v, _) => v == w
    case Requeue(v, _) => v == w
    case Bury(v, _) => v == w
    case Crash(v) => v == w
  }

  /** The steps of the worker among those of everybody. */
  function OwnSteps(trace: seq<Step>, w: nat): seq<Step> {
    if trace == [] then []
    else OwnSteps(trace[..|trace| - 1], w) + if Own(trace[|trace| - 1], w) then [trace[|trace| - 1]] else []
  }

  lemma OwnAppended(trace: seq<Step>, step: Step, w: nat)
    ensures OwnSteps(trace + [step], w) == OwnSteps(trace, w) + if Own(step, w) then [step] else []
  {
    assert (trace + [step])[..|trace + [step]| - 1] == trace;
  }

  /** The steps of a schedule that are not the worker's. */
  function Foreign(steps: seq<Step>, w: nat): seq<Step> {
    if steps == [] then []
    else Foreign(steps[..|steps| - 1], w) + if Own(steps[|steps| - 1], w) then [] else [steps[|steps| - 1]]
  }

  lemma ForeignStep(steps: seq<Step>, w: nat, n: nat)
    requires n < |steps|
    ensures Foreign(steps[..n + 1], w) == Foreign(steps[..n], w) + if Own(steps[n], w) then [] else [steps[n]]
  {
    assert steps[..n + 1][..n] == steps[..n];
  }

  lemma NothingForeign(steps: seq<Step>, w: nat)
    ensures Foreign(steps[..0], w) == [] && steps[..|steps|] == steps
  {
  }

  /** One more recorded step. */
  lemma Recorded(start: State, maxRetries: nat, trace: seq<Step>, step: Step)
    requires Ladder(After(start, maxRetries, trace), maxRetries)
    ensures var s := After(start, maxRetries, trace);
            && After(start, maxRetries, trace + [step]) == Exec(s, maxRetries, step) && Ladder(Exec(s, maxRetries, step), maxRetries)
    ensures forall t | t in trace + [step] :: t in trace || t == step
  {
    assert (trace + [step])[..|trace + [step]| - 1] == trace;
    StepKeepsLadder(After(start, maxRetries, trace), maxRetries, step);
  }

  /** A worker moves by its own steps alone. */
  lemma OthersLeaveAlone(s: State, maxRetries: nat, step: Step, w: nat)
    requires w < |s.workers| && !Own(step, w)
    ensures |Exec(s, maxRetries, step).workers| == |s.workers| && Exec(s, maxRetries, step).workers[w] == s.workers[w]
  {
    hide Normalise;
    hide Updated;
    hide Lists;
    hide Merged;
    hide Bumped;
    hide MayRequeue;
    hide MustBury;
  }

  /** A step uses up at most the identifier that it draws. */
  lemma UsedByStep(s: State, maxRetries: nat, step: Step)
    requires Ladder(s, maxRetries)
    ensures Exec(s, maxRetries, step).used <= s.used + if step.Requeue? then {step.ident} else {}
  {
    hide Normalise;
    hide Updated;
    hide Lists;
    hide Merged;
    hide Bumped;
    hide MustBury;
    if step.Requeue? && step.w < |s.workers| {
      assert WorkerOk(s, maxRetries, s.workers[step.w]);
    }
    hide RegistryOk;
    hide HashesOk;
    hide Bounded;
  }

  lemma TakenByStep(s: State, maxRetries: nat, w: nat, name: Name)
    requires w < |s.workers| && s.workers[w] == if name.Live? then Idle else Popped(name)
    ensures Exec(s, maxRetries, if name.Live? then TakeLive(w, name.group) else Drain(w))
            == if name in s.hashes then Put(s.(hashes := s.hashes - {name}), w, Holding(name, s.hashes[name]))
               else Put(s, w, Idle)
  {
    if name.Live? {
      assert s.workers[w := Idle] == s.workers;
    }
  }

  function FlushStep(w: nat, order: seq<string>, outcome: FlushOutcome): Step {
    match outcome
    case Fine => Flush(w, order)
    case CommittedUnseen => FlushUnanswered(w, order)
    case _ => FlushFails(w, outcome == Recoverable)
  }

  lemma FlushedByStep(s: State, maxRetries: nat, w: nat, order: seq<string>, outcome: FlushOutcome)
    requires w < |s.workers| && s.workers[w].Holding? && Lists(order, s.workers[w].batch.hash)
    ensures var n, batch := s.workers[w].name, Attempted(s.workers[w].batch);
            var rows := Updated(s.rows, n.group, Normalise(batch.hash, order));
            Exec(s, maxRetries, FlushStep(w, order, outcome))
            == match outcome
               case Fine => Put(s.(rows := rows, flushed := s.flushed + [batch.attempts]), w, Idle)
               case CommittedUnseen => Put(s.(rows := rows), w, Failed(n, batch, true))
               case _ => Put(s, w, Failed(n, batch, outcome == Recoverable))
  {
    hide Normalise;
    hide Updated;
    hide Lists;
  }

  class CounterWorker {
    const w: nat
    const maxRetries: nat
    const others: seq<seq<Step>>
    var next: nat
    var s: State
    ghost const start: State
    ghost var trace: seq<Step>

    constructor (w: nat, maxRetries: nat, others: seq<seq<Step>>, s: State)
      requires w < |s.workers| && Ladder(s, maxRetries)
      ensures Valid() && this.s == s && start == s && trace == [] && next == 0
      ensures this.w == w && this.maxRetries == maxRetries && this.others == others
    {
      this.w, this.maxRetries, this.others, this.s := w, maxRetries, others, s;
      next, start, trace := 0, s, [];
    }

    /** The state is what the recorded steps lead to: this worker's own and the scheduled ones of
        producers and other workers. */
    ghost predicate Valid()
      reads this
    {
      && s == After(start, maxRetries, trace) && Ladder(s, maxRetries)
      && (forall step | step in trace :: Own(step, w) || Scheduled(step))
      && w < |s.workers| && next <= |others|
    }

    ghost predicate Scheduled(step: Step)
      reads this
    {
      exists i :: 0 <= i < next && i < |others| && step in others[i]
    }

    /** Nobody else moves any more. */
    predicate Quiet()
      reads this
    {
      next >= |others|
    }

    /** Identifiers are drawn at random: nobody else draws this one. */
    ghost predicate Fresh(ident: nat)
      reads this
    {
      ident !in s.used && forall i, step | 0 <= i < |others| && step in others[i] && step.Requeue? :: step.ident != ident
    }

    function Mine(): Worker
      reads this
      requires w < |s.workers|
    {
      s.workers[w]
    }

    /** Producers and other workers take their next steps, whatever these are. */
    method OthersMove()
      requires Valid()
      modifies this
      ensures Valid() && Mine() == old(Mine())
      ensures forall ident | old(Fresh(ident)) :: Fresh(ident)
      ensures next == if old(Quiet()) then old(next) else old(next) + 1
      ensures OwnSteps(trace, w) == OwnSteps(old(trace), w)
      ensures old(Quiet()) ==> s == old(s) && trace == old(trace)
      ensures !old(Quiet()) ==> trace == old(trace) + Foreign(others[old(next)], w)
    {
      hide Foreign;
      hide OwnSteps;
      hide After;
      hide Exec;
      hide Ladder;
      if next >= |others| {
        return;
      }
      var steps := others[next];
      next := next + 1;
      NothingForeign(steps, w);
      for i := 0 to |steps|
        invariant Valid() && Mine() == old(Mine()) && next == old(next) + 1
        invariant trace == old(trace) + Foreign(steps[..i], w)
        invariant OwnSteps(trace, w) == OwnSteps(old(trace), w)
        invariant forall ident | old(Fresh(ident)) :: Fresh(ident)
      {
        ForeignStep(steps, w, i);
        if !Own(steps[i], w) {
          Recorded(start, maxRetries, trace, steps[i]);
          OthersLeaveAlone(s, maxRetries, steps[i], w);
          UsedByStep(s, maxRetries, steps[i]);
          assert Scheduled(steps[i]);
          OwnAppended(trace, steps[i], w);
          s := Exec(s, maxRetries, steps[i]);
          trace := trace + [steps[i]];
        }
      }
    }

    method Become(worker: Worker)
      requires w < |s.workers|
      modifies this`s
      ensures s == Put(old(s), w, worker)
    {
      s := s.(workers := s.workers[w := worker]);
    }

    /** A process that dies, or that forgets the name it popped. */
    method Die()
      requires Valid()
      modifies this`s, this`trace
      ensures Valid() && s == Exec(old(s), maxRetries, Crash(w)) && trace == old(trace) + [Crash(w)]
    {
      Recorded(start, maxRetries, trace, Crash(w));
      if Mine().Popped? {
        s := s.(orphans := s.orphans + {Mine().name});
      } else {
        assert s.orphans + {} == s.orphans;
      }
      s := s.(lost := s.lost + Remains(Mine()));
      Become(Idle);
      trace := trace + [Crash(w)];
    }

    /** BLPOP on the retry registry. */
    method PopName() returns (name: Option<Name>)
      requires Valid() && Mine() == Idle
      modifies this`s, this`trace
      ensures Valid()
      ensures name == if old(s).registry == [] then None else Some(old(s).registry[0])
      ensures s == if name == None then old(s) else Put(old(s), w, Popped(name.value)).(registry := old(s).registry[1..])
      ensures trace == if name == None then old(trace) else old(trace) + [Pop(w)]
    {
      if s.registry == [] {
        return None;
      }
      Recorded(start, maxRetries, trace, Pop(w));
      name := Some(s.registry[0]);
      s := s.(registry := s.registry[1..]);
      Become(Popped(name.value));
      trace := trace + [Pop(w)];
    }

    /** HGETALL and DEL in one transaction. */
    method TakeHash(name: Name) returns (taken: bool)
      requires Valid() && Mine() == if name.Live? then Idle else Popped(name)
      modifies this`s, this`trace
      ensures Valid() && (taken <==> name in old(s).hashes)
      ensures trace == old(trace) + [if name.Live? then TakeLive(w, name.group) else Drain(w)]
      ensures s == if taken then Put(old(s), w, Holding(name, old(s).hashes[name])).(hashes := old(s).hashes - {name})
                   else Put(old(s), w, Idle)
    {
      hide After;
      ghost var step := if name.Live? then TakeLive(w, name.group) else Drain(w);
      Recorded(start, maxRetries, trace, step);
      TakenByStep(s, maxRetries, w, name);
      hide Exec;
      taken := name in s.hashes;
      if taken {
        var batch := s.hashes[name];
        s := s.(hashes := s.hashes - {name});
        Become(Holding(name, batch));
      } else {
        Become(Idle);
      }
      trace := trace + [step];
    }

    method FlushCounterUpdates(order: seq<string>, outcome: FlushOutcome)
      requires Valid() && Mine().Holding? && Lists(order, Mine().batch.hash)
      modifies this`s, this`trace
      ensures Valid() && trace == old(trace) + [FlushStep(w, order, outcome)] && s.used == old(s).used
      ensures var n, batch := old(Mine()).name, Attempted(old(Mine()).batch);
              var rows := Updated(old(s).rows, n.group, Normalise(batch.hash, order));
              s == match outcome
                   case Fine => Put(old(s), w, Idle).(rows := rows, flushed := old(s).flushed + [batch.attempts])
                   case CommittedUnseen => Put(old(s), w, Failed(n, batch, true)).(rows := rows)
                   case _ => Put(old(s), w, Failed(n, batch, outcome == Recoverable))
    {
      hide Normalise;
      hide Updated;
      hide After;
      var name, batch := Mine().name, Attempted(Mine().batch);
      ghost var step := FlushStep(w, order, outcome);
      Recorded(start, maxRetries, trace, step);
      FlushedByStep(s, maxRetries, w, order, outcome);
      hide Exec;
      if outcome == Fine || outcome == CommittedUnseen {
        var counters := Normalise(batch.hash, order);
        s := s.(rows := Updated(s.rows, name.group, counters));
      }
      if outcome == Fine {
        s := s.(flushed := s.flushed + [batch.attempts]);
        Become(Idle);
      } else {
        Become(Failed(name, batch, LooksRecoverable(outcome)));
      }
      trace := trace + [step];
    }

    /** dispatch_to_retrier: the next name joins the registry, its hash the store. */
    method DispatchToRetrier(ident: nat)
      requires Valid() && MayRequeue(s, Mine(), ident, maxRetries)
      modifies this`s, this`trace
      ensures Valid() && trace == old(trace) + [Requeue(w, ident)]
      ensures var n := NextName(old(Mine()).name, ident);
              s == Put(old(s), w, Idle).(hashes := Merged(old(s).hashes, n, old(Mine()).batch),
                                         registry := old(s).registry + [n], used := old(s).used + {n.ident})
      ensures var n := NextName(old(Mine()).name, ident);
              s.hashes == old(s).hashes[n := old(Mine()).batch] && n !in old(s).hashes
    {
      NextNameIsNew(s, maxRetries, w, ident);
      hide After;
      assert map[] + Mine().batch.hash == Mine().batch.hash;
      Recorded(start, maxRetries, trace, Requeue(w, ident));
      hide Ladder;
      var name := NextName(Mine().name, ident);
      s := s.(registry := s.registry + [name], hashes := Merged(s.hashes, name, Mine().batch), used := s.used + {name.ident});
      Become(Idle);
      trace := trace + [Requeue(w, ident)];
    }

    method DeclareCountersDead(order: seq<string>)
      requires Valid() && MustBury(Mine(), maxRetries) && Lists(order, Mine().batch.hash)
      modifies this`s, this`trace
      ensures Valid() && trace == old(trace) + [Bury(w, order)]
      ensures var n, batch := old(Mine()).name, old(Mine()).batch;
              s == Put(old(s), w, Idle).(dead := old(s).dead + [Letter(n.group, Normalise(batch.hash, order), batch.attempts)])
    {
      Recorded(start, maxRetries, trace, Bury(w, order));
      var letter := Letter(Mine().name.group, Normalise(Mine().batch.hash, order), Mine().batch.attempts);
      s := s.(dead := s.dead + [letter]);
      Become(Idle);
      trace := trace + [Bury(w, order)];
    }

    /** The order in which HGETALL lists a hash. */
    method ListKeys(hash: Hash) returns (order: seq<string>)
      ensures Listed(order, hash)
    {
      order := [];
      var rest := hash.Keys;
      while rest != {}
        invariant rest <= hash.Keys && (forall k :: k in order <==> k in hash && k !in rest)
        invariant forall i, j | 0 <= i < j < |order| :: order[i] != order[j]
        decreases rest
      {
        var k :| k in rest;
        assert forall i | 0 <= i < |order| :: order[i] in order;
        rest, order := rest - {k}, order + [k];
      }
    }

    /** The try and except branches of batch_update_counter_group, for a batch in hand. */
    method FlushOrRetry(order: seq<string>, outcome: FlushOutcome, ident: nat, redisFails: bool) returns (flushed: bool)
      requires Valid() && Mine().Holding? && Lists(order, Mine().batch.hash) && Fresh(ident)
      modifies this
      ensures Valid() && Mine() == Idle && |trace| > 0 && (flushed <==> outcome == Fine)
      ensures flushed ==> trace[|trace| - 1] == Flush(w, order)
      ensures !flushed && !redisFails ==> Settled(old(Mine()), order, outcome, ident)
      ensures OwnSteps(trace, w)
              == OwnSteps(old(trace), w)
                 + if outcome == Fine then [Flush(w, order)]
                   else [FlushStep(w, order, outcome), LastStep(old(Mine()).name, order, outcome, ident, redisFails)]
      ensures old(Quiet()) ==> Landed(old(s), old(Mine()).name, old(Mine()).batch, order, outcome, ident, redisFails)
    {
      hide After;
      hide Exec;
      hide Normalise;
      hide Updated;
      hide Ladder;
      hide Lists;
      hide Merged;
      hide OwnSteps;
      ghost var worker, own := Mine(), OwnSteps(trace, w);
      OthersMove();
      OwnAppended(trace, FlushStep(w, order, outcome), w);
      FlushCounterUpdates(order, outcome);
      flushed := outcome == Fine;
      if flushed {
        return;
      }
      assert Fresh(ident);
      OthersMove();
      ghost var last := LastStep(worker.name, order, outcome, ident, redisFails);
      OwnAppended(trace, last, w);
      assert own + [FlushStep(w, order, outcome)] + [last] == own + [FlushStep(w, order, outcome), last];
      RetryOrBury(order, outcome, ident, redisFails);
    }

    /** The except branches: the next retry name, a dead letter, or an end of the process. */
    method RetryOrBury(order: seq<string>, outcome: FlushOutcome, ident: nat, redisFails: bool)
      requires Valid() && Mine().Failed? && Lists(order, Mine().batch.hash) && Fresh(ident)
      requires outcome != Fine && Mine().recoverable == LooksRecoverable(outcome)
      modifies this`s, this`trace
      ensures Valid() && trace == old(trace) + [LastStep(old(Mine()).name, order, outcome, ident, redisFails)]
      ensures var n, batch, done := old(Mine()).name, old(Mine()).batch, Put(old(s), w, Idle);
              s == if redisFails then done.(lost := done.lost + [(n.group, batch.hash)])
                   else if LooksRecoverable(outcome) && Version(n) < maxRetries then
                     var next := NextName(n, ident);
                     done.(hashes := done.hashes[next := batch], registry := done.registry + [next], used := done.used + {next.ident})
                   else
                     done.(dead := done.dead + [Letter(n.group, Normalise(batch.hash, order), batch.attempts)])
    {
      hide After;
      hide Exec;
      hide Normalise;
      hide Ladder;
      hide Lists;
      hide Merged;
      assert Fresh(ident);
      ghost var before := s;
      if redisFails {
        Die();
        CrashDrops(before, maxRetries, w);
      } else if LooksRecoverable(outcome) && Version(Mine().name) < maxRetries {
        DispatchToRetrier(ident);
      } else {
        DeclareCountersDead(order);
      }
    }

    /** Where a batch in hand ends when nobody else moves: in the table, under its next name, as
        a dead letter or dropped. Nothing else has changed. */
    ghost predicate Landed(
        before: State, name: Name, batch: Batch, order: seq<string>, outcome: FlushOutcome, ident: nat, redisFails: bool)
      requires w < |before.workers| && Lists(order, batch.hash)
      reads this
    {
      var rows := if outcome in {Fine, CommittedUnseen} then Updated(before.rows, name.group, Normalise(batch.hash, order))
                  else before.rows;
      var done := before.(rows := rows, workers := before.workers[w := Idle]);
      s == if outcome == Fine then done.(flushed := done.flushed + [batch.attempts + 1])
           else if redisFails then done.(lost := done.lost + [(name.group, batch.hash)])
           else if LooksRecoverable(outcome) && Version(name) < maxRetries then
             var next := NextName(name, ident);
             done.(hashes := done.hashes[next := Batch(batch.hash, batch.attempts + 1)],
                   registry := done.registry + [next], used := done.used + {next.ident})
           else
             done.(dead := done.dead + [Letter(name.group, Normalise(batch.hash, order), batch.attempts + 1)])
    }

    /** Whatever the worker held before. */
    lemma LandedFrom(
        before: State, worker: Worker, name: Name, batch: Batch, order: seq<string>, outcome: FlushOutcome, ident: nat, redisFails: bool)
      requires w < |before.workers| && Lists(order, batch.hash)
      ensures Landed(Put(before, w, worker), name, batch, order, outcome, ident, redisFails)
              == Landed(before, name, batch, order, outcome, ident, redisFails)
    {
      hide Normalise;
      hide Updated;
      hide Lists;
      assert before.workers[w := worker][w := Idle] == before.workers[w := Idle];
    }

    /** What a worker does with a batch whose flush looked failed. */
    ghost function LastStep(name: Name, order: seq<string>, outcome: FlushOutcome, ident: nat, redisFails: bool): Step {
      if redisFails then Crash(w)
      else if LooksRecoverable(outcome) && Version(name) < maxRetries then Requeue(w, ident)
      else Bury(w, order)
    }

    /** The batch of a flush that looked failed waits under its next name, with one attempt more
        and not merged with anything, or is the latest dead letter. */
    ghost predicate Settled(worker: Worker, order: seq<string>, outcome: FlushOutcome, ident: nat)
      requires worker.Holding? && Lists(order, worker.batch.hash)
      reads this
    {
      if LooksRecoverable(outcome) && Version(worker.name) < maxRetries then
        var n := NextName(worker.name, ident);
        && |trace| > 0 && trace[|trace| - 1] == Requeue(w, ident)
        && n in s.hashes && s.hashes[n] == Attempted(worker.batch)
        && |s.registry| > 0 && s.registry[|s.registry| - 1] == n
      else
        && |trace| > 0 && trace[|trace| - 1] == Bury(w, order)
        && |s.dead| > 0
        && s.dead[|s.dead| - 1]
           == Letter(worker.name.group, Normalise(worker.batch.hash, order), worker.batch.attempts + 1)
    }

    /** batch_update_counter_group. `lockSet` is the reply to SET NX, `ident` a new identifier,
        `redisFails` the failure of the last transaction; `drained` is the batch that it took
        and `order` its listing. Without the lock a live group is left alone, and a popped retry
        name is forgotten. The counters are returned exactly when the flush is seen to go
        through; otherwise they wait under their next name with one more attempt, or are dead
        letters, or, if the process dies over malformed keys or failing Redis, are dropped. The
        worker's own steps are these whatever the others do between them, and when nobody else
        moves the new state is the one stated here. */
    method BatchUpdateCounterGroup(name: Name, lockSet: bool, outcome: FlushOutcome, ident: nat, redisFails: bool)
      returns (counters: Option<Hash>, order: seq<string>, ghost drained: Option<Batch>)
      requires Valid() && Mine() == if name.Live? then Idle else Popped(name)
      requires Fresh(ident)
      modifies this
      ensures Valid() && Mine() == Idle && (drained.Some? ==> lockSet && Listed(order, drained.value.hash))
      ensures counters.Some? <==> drained.Some? && Lists(order, drained.value.hash) && outcome == Fine
      ensures counters.Some? ==>
                counters.value == drained.value.hash && |trace| > 0 && trace[|trace| - 1] == Flush(w, order)
      ensures drained.Some? && Lists(order, drained.value.hash) && outcome != Fine && !redisFails ==>
                Settled(Holding(name, drained.value), order, outcome, ident)
      ensures var take := if name.Live? then TakeLive(w, name.group) else Drain(w);
              OwnSteps(trace, w)
              == OwnSteps(old(trace), w)
                 + if !lockSet then (if name.Live? then [] else [Crash(w)])
                   else if drained == None then [take]
                   else if !Lists(order, drained.value.hash) then [take, Crash(w)]
                   else if outcome == Fine then [take, Flush(w, order)]
                   else [take, FlushStep(w, order, outcome), LastStep(name, order, outcome, ident, redisFails)]
      ensures old(Quiet()) && !lockSet ==>
                if name.Live? then s == old(s) && trace == old(trace)
                else s == old(s).(orphans := old(s).orphans + {name}, workers := old(s).workers[w := Idle])
      ensures old(Quiet()) ==> drained == if lockSet && name in old(s).hashes then Some(old(s).hashes[name]) else None
      ensures old(Quiet()) && lockSet && name !in old(s).hashes ==> s == old(s).(workers := old(s).workers[w := Idle])
      ensures old(Quiet()) && lockSet && name in old(s).hashes ==>
                var batch, taken := old(s).hashes[name], old(s).(hashes := old(s).hashes - {name});
                if Lists(order, batch.hash) then Landed(taken, name, batch, order, outcome, ident, redisFails)
                else s == taken.(lost := taken.lost + [(name.group, batch.hash)], workers := taken.workers[w := Idle])
    {
      hide After;
      hide Exec;
      hide Normalise;
      hide Updated;
      hide Ladder;
      hide Lists;
      hide Listed;
      hide Settled;
      hide Merged;
      hide OwnSteps;
      hide Landed;
      hide NextName;
      counters, order, drained := None, [], None;
      ghost var own := OwnSteps(trace, w);
      ghost var take := if name.Live? then TakeLive(w, name.group) else Drain(w);
      OthersMove();
      ghost var before := s;
      OwnAppended(trace, Crash(w), w);
      if !lockSet {
        if name.Retry? {
          Die();
          CrashDrops(before, maxRetries, w);
        }
        return;
      }
      OthersMove();
      before := s;
      OwnAppended(trace, take, w);
      var taken := TakeHash(name);
      PutIdle(before, w);
      if !taken {
        return;
      }
      drained := Some(Mine().batch);
      order := ListKeys(Mine().batch.hash);
      before := s;
      if !Lists(order, Mine().batch.hash) {
        OwnAppended(trace, Crash(w), w);
        assert own + [take] + [Crash(w)] == own + [take, Crash(w)];
        Die();
        CrashDrops(before, maxRetries, w);
        return;
      }
      var hash := Mine().batch.hash;
      ghost var worker := Mine();
      var flushed := FlushOrRetry(order, outcome, ident, redisFails);
      if old(Quiet()) {
        LandedFrom(old(s).(hashes := old(s).hashes - {name}), worker, name, worker.batch, order, outcome, ident, redisFails);
      }
      Prefixed(own, take, FlushStep(w, order, outcome), LastStep(name, order, outcome, ident, redisFails));
      if flushed {
        counters := Some(hash);
      }
    }
  }

  lemma Prefixed(own: seq<Step>, a: Step, b: Step, c: Step)
    ensures own + [a] + [b] == own + [a, b] && own + [a] + [b, c] == own + [a, b, c]
  {
  }

  lemma PutIdle(s: State, w: nat)
    ensures w < |s.workers| && s.workers[w] == Idle ==> s.workers[w := Idle] == s.workers
  {
  }

  /** A worker that dies drops what it holds, and forgets the name it popped. */
  lemma CrashDrops(s: State, maxRetries: nat, w: nat)
    requires w < |s.workers|
    ensures var dropped := s.(workers := s.workers[w := Idle]);
            Exec(s, maxRetries, Crash(w))
            == match s.workers[w]
               case Idle => dropped
               case Popped(name) => dropped.(orphans := s.orphans + {name})
               case Holding(name, batch) => dropped.(lost := s.lost + [(name.group, batch.hash)])
               case Failed(name, batch, _) => dropped.(lost := s.lost + [(name.group, batch.hash)])
  {
    assert s.lost + [] == s.lost && s.orphans + {} == s.orphans;
  }
}
