/** The retry ladder: in every run a batch climbs one version per failed flush, so it reaches
    the table or the dead-letter stream after at most MAX_RETRIES + 1 attempts; retry names
    never collide, and registered names and stored retry hashes match. */
module CounterLadder {
  import opened Counters

  /** No stored retry hash has this identifier. */
  ghost predicate Unstored(hashes: map<Name, Batch>, ident: nat) {
    forall n | n in hashes && n.Retry? :: n.ident != ident
  }

  ghost predicate RegistryOk(s: State) {
    && (forall i | 0 <= i < |s.registry| :: s.registry[i].Retry? && s.registry[i] in s.hashes)
    && (forall i, j | 0 <= i < j < |s.registry| :: s.registry[i] != s.registry[j])
  }

  /** A stored retry hash is registered, popped by a worker, or was popped by one that died. */
  ghost predicate Reachable(s: State, n: Name) {
    n in s.registry || n in s.orphans || exists w :: 0 <= w < |s.workers| && s.workers[w] == Popped(n)
  }

  ghost predicate HashesOk(s: State, maxRetries: nat) {
    && (forall n | n in s.hashes :: Version(n) <= maxRetries && s.hashes[n].attempts == Version(n))
    && (forall n | n in s.hashes && n.Retry? :: n.ident in s.used && Reachable(s, n))
    && (forall m, n | m in s.hashes && n in s.hashes && m.Retry? && n.Retry? && m.ident == n.ident :: m == n)
  }

  /** A worker's batch went through one attempt per version; nobody else has its name. */
  ghost predicate WorkerOk(s: State, maxRetries: nat, worker: Worker) {
    match worker
    case Idle => true
    case Popped(n) => n.Retry? && n in s.hashes && n !in s.registry
    case Holding(n, batch) => batch.attempts == Version(n) <= maxRetries && HolderOk(s, n)
    case Failed(n, batch, _) => batch.attempts == Version(n) + 1 && Version(n) <= maxRetries && HolderOk(s, n)
  }

  ghost predicate HolderOk(s: State, n: Name) {
    n.Retry? ==> n.ident in s.used && Unstored(s.hashes, n.ident)
  }

  ghost predicate Apart(a: Worker, b: Worker) {
    a.Idle? || b.Idle? || a.name.Live? || b.name.Live? || a.name.ident != b.name.ident
  }

  ghost predicate WorkersOk(s: State, maxRetries: nat) {
    && (forall w | 0 <= w < |s.workers| :: WorkerOk(s, maxRetries, s.workers[w]))
    && (forall v, w | 0 <= v < |s.workers| && 0 <= w < |s.workers| && v != w :: Apart(s.workers[v], s.workers[w]))
  }

  ghost predicate Bounded(s: State, maxRetries: nat) {
    && (forall i | 0 <= i < |s.flushed| :: s.flushed[i] <= maxRetries + 1)
    && (forall i | 0 <= i < |s.dead| :: s.dead[i].attempts <= maxRetries + 1)
  }

  ghost predicate Ladder(s: State, maxRetries: nat) {
    RegistryOk(s) && HashesOk(s, maxRetries) && WorkersOk(s, maxRetries) && Bounded(s, maxRetries)
  }

  // ------------------------------------------------------------------------------- steps

  lemma IncrementKeeps(s: State, maxRetries: nat, group: Group, key: string, delta: int)
    requires Ladder(s, maxRetries)
    ensures Ladder(Exec(s, maxRetries, Increment(group, key, delta)), maxRetries)
  {
    var t := Exec(s, maxRetries, Increment(group, key, delta));
    forall n | n in t.hashes && n.Retry?
      ensures n in s.hashes && Reachable(t, n)
    {
      assert Reachable(s, n);
    }
    forall w | 0 <= w < |t.workers|
      ensures WorkerOk(t, maxRetries, t.workers[w])
    {
      assert WorkerOk(s, maxRetries, s.workers[w]);
    }
  }

  lemma TakeLiveKeeps(s: State, maxRetries: nat, w: nat, group: Group)
    requires Ladder(s, maxRetries)
    ensures Ladder(Exec(s, maxRetries, TakeLive(w, group)), maxRetries)
  {
    var t := Exec(s, maxRetries, TakeLive(w, group));
    if t != s {
      forall n | n in t.hashes && n.Retry?
        ensures Reachable(t, n)
      {
        assert Reachable(s, n);
        if v :| 0 <= v < |s.workers| && s.workers[v] == Popped(n) {
          assert t.workers[v] == Popped(n);
        }
      }
      forall v | 0 <= v < |t.workers|
        ensures WorkerOk(t, maxRetries, t.workers[v])
      {
        assert WorkerOk(s, maxRetries, s.workers[v]);
      }
      forall u, v | 0 <= u < |t.workers| && 0 <= v < |t.workers| && u != v
        ensures Apart(t.workers[u], t.workers[v])
      {
        assert Apart(s.workers[u], s.workers[v]);
      }
    }
  }

  lemma PopKeeps(s: State, maxRetries: nat, w: nat)
    requires Ladder(s, maxRetries)
    ensures Ladder(Exec(s, maxRetries, Pop(w)), maxRetries)
  {
    var t := Exec(s, maxRetries, Pop(w));
    if t != s {
      var n := s.registry[0];
      assert n in s.hashes;
      forall m | m in t.hashes && m.Retry?
        ensures Reachable(t, m)
      {
        assert Reachable(s, m);
        if m == n {
          assert t.workers[w] == Popped(n);
        } else if v :| 0 <= v < |s.workers| && s.workers[v] == Popped(m) {
          assert t.workers[v] == Popped(m);
        } else if m in s.registry {
          var i :| 0 <= i < |s.registry| && s.registry[i] == m;
          assert t.registry[i - 1] == m;
        }
      }
      forall v | 0 <= v < |t.workers|
        ensures WorkerOk(t, maxRetries, t.workers[v])
        ensures v != w ==> Apart(t.workers[v], Popped(n)) && Apart(Popped(n), t.workers[v])
      {
        assert WorkerOk(s, maxRetries, s.workers[v]);
        assert n in s.registry;
      }
    }
  }

  lemma DrainKeeps(s: State, maxRetries: nat, w: nat)
    requires Ladder(s, maxRetries)
    ensures Ladder(Exec(s, maxRetries, Drain(w)), maxRetries)
  {
    var t := Exec(s, maxRetries, Drain(w));
    if t != s {
      var n := s.workers[w].name;
      assert WorkerOk(s, maxRetries, s.workers[w]);
      forall m | m in t.hashes && m.Retry?
        ensures Reachable(t, m)
      {
        assert Reachable(s, m);
        if v :| 0 <= v < |s.workers| && s.workers[v] == Popped(m) {
          assert t.workers[v] == Popped(m);
        }
      }
      forall v | 0 <= v < |t.workers|
        ensures WorkerOk(t, maxRetries, t.workers[v])
        ensures v != w ==> Apart(t.workers[v], t.workers[w]) && Apart(t.workers[w], t.workers[v])
      {
        assert WorkerOk(s, maxRetries, s.workers[v]);
        assert v != w ==> Apart(s.workers[v], s.workers[w]);
      }
    }
  }

  /** A worker without a popped name moves on under the same name, or drops it. */
  lemma MoveKeeps(s: State, maxRetries: nat, t: State, w: nat, worker: Worker)
    requires Ladder(s, maxRetries) && w < |s.workers| && Bounded(t, maxRetries)
    requires t.hashes == s.hashes && t.registry == s.registry && t.used == s.used && t.workers == s.workers[w := worker]
    requires s.orphans <= t.orphans && (s.workers[w].Popped? ==> s.workers[w].name in t.orphans)
    requires WorkerOk(s, maxRetries, worker) && (worker.Idle? || (!s.workers[w].Idle? && worker.name == s.workers[w].name))
    ensures Ladder(t, maxRetries)
  {
    forall n | n in t.hashes && n.Retry?
      ensures Reachable(t, n)
    {
      assert Reachable(s, n);
      if v :| 0 <= v < |s.workers| && s.workers[v] == Popped(n) {
        assert v != w ==> t.workers[v] == Popped(n);
      }
    }
    forall v | 0 <= v < |t.workers|
      ensures WorkerOk(t, maxRetries, t.workers[v])
      ensures v != w ==> Apart(t.workers[v], t.workers[w]) && Apart(t.workers[w], t.workers[v])
    {
      assert WorkerOk(s, maxRetries, s.workers[v]);
      assert v != w ==> Apart(s.workers[v], s.workers[w]) && Apart(s.workers[w], s.workers[v]);
    }
  }

  /** The next name of a failed batch is new. */
  lemma NextNameIsNew(s: State, maxRetries: nat, w: nat, ident: nat)
    requires Ladder(s, maxRetries) && w < |s.workers| && MayRequeue(s, s.workers[w], ident, maxRetries)
    ensures var n := NextName(s.workers[w].name, ident);
            && n !in s.hashes && Unstored(s.hashes, n.ident) && n !in s.registry
            && Version(n) <= maxRetries && s.workers[w].batch.attempts == Version(n)
            && forall v | 0 <= v < |s.workers| && v != w && !s.workers[v].Idle? && s.workers[v].name.Retry? ::
                 s.workers[v].name.ident != n.ident
  {
    assert WorkerOk(s, maxRetries, s.workers[w]);
    forall v | 0 <= v < |s.workers| && v != w && !s.workers[v].Idle? && s.workers[v].name.Retry?
      ensures s.workers[v].name.ident != NextName(s.workers[w].name, ident).ident
    {
      assert WorkerOk(s, maxRetries, s.workers[v]);
      assert Apart(s.workers[v], s.workers[w]);
    }
  }

  lemma RequeueKeeps(s: State, maxRetries: nat, w: nat, ident: nat)
    requires Ladder(s, maxRetries)
    ensures Ladder(Exec(s, maxRetries, Requeue(w, ident)), maxRetries)
  {
    var t := Exec(s, maxRetries, Requeue(w, ident));
    if MayRequeue(s, At(s, w), ident, maxRetries) {
      NextNameIsNew(s, maxRetries, w, ident);
      var n := NextName(s.workers[w].name, ident);
      assert t.registry[|s.registry|] == n;
      assert forall m | m in s.registry :: m in t.registry;
      forall m | m in t.hashes && m.Retry?
        ensures Reachable(t, m) && m.ident in t.used
      {
        if m != n {
          assert Reachable(s, m);
          if v :| 0 <= v < |s.workers| && s.workers[v] == Popped(m) {
            assert t.workers[v] == Popped(m);
          }
        }
      }
      forall v | 0 <= v < |t.workers|
        ensures WorkerOk(t, maxRetries, t.workers[v])
      {
        assert WorkerOk(s, maxRetries, s.workers[v]);
      }
    }
  }

  lemma StepKeepsLadder(s: State, maxRetries: nat, step: Step)
    requires Ladder(s, maxRetries)
    ensures Ladder(Exec(s, maxRetries, step), maxRetries)
  {
    match step {
      case Increment(group, key, delta) => IncrementKeeps(s, maxRetries, group, key, delta);
      case TakeLive(w, group) => TakeLiveKeeps(s, maxRetries, w, group);
      case Pop(w) => PopKeeps(s, maxRetries, w);
      case Drain(w) => DrainKeeps(s, maxRetries, w);
      case Requeue(w, ident) => RequeueKeeps(s, maxRetries, w, ident);
      case _ => WorkerStepKeeps(s, maxRetries, step);
    }
  }

  lemma WorkerStepKeeps(s: State, maxRetries: nat, step: Step)
    requires Ladder(s, maxRetries) && (step.Flush? || step.FlushUnanswered? || step.FlushFails? || step.Bury? || step.Crash?)
    ensures Ladder(Exec(s, maxRetries, step), maxRetries)
  {
    hide RegistryOk;
    hide HashesOk;
    hide Normalise;
    hide Updated;
    var t := Exec(s, maxRetries, step);
    if step.w < |s.workers| && t != s {
      assert WorkerOk(s, maxRetries, s.workers[step.w]);
      MoveKeeps(s, maxRetries, t, step.w, t.workers[step.w]);
    }
  }

  // ----------------------------------------------------------------------- over all runs

  lemma {:induction false} RunsKeepLadder(rows: map<(Group, nat), int>, workers: nat, maxRetries: nat, run: seq<Step>)
    ensures Ladder(After(Start(rows, workers), maxRetries, run), maxRetries)
  {
    if run != [] {
      hide Ladder;
      RunsKeepLadder(rows, workers, maxRetries, run[..|run| - 1]);
      StepKeepsLadder(After(Start(rows, workers), maxRetries, run[..|run| - 1]), maxRetries, run[|run| - 1]);
    }
  }

  /** Main result: every batch that reached the table or the dead-letter stream took at most
      MAX_RETRIES + 1 flush attempts, and one that is still waiting took at most MAX_RETRIES. */
  lemma AttemptsAreBounded(rows: map<(Group, nat), int>, workers: nat, maxRetries: nat, run: seq<Step>)
    ensures var s := After(Start(rows, workers), maxRetries, run);
            && (forall i | 0 <= i < |s.flushed| :: s.flushed[i] <= maxRetries + 1)
            && (forall i | 0 <= i < |s.dead| :: s.dead[i].attempts <= maxRetries + 1)
            && (forall n | n in s.hashes :: s.hashes[n].attempts <= maxRetries)
  {
    RunsKeepLadder(rows, workers, maxRetries, run);
  }

  /** Main result: every registered name has its hash, and every stored retry hash is
      registered or popped by a worker, unless the worker that popped it died. */
  lemma NamesMatchHashes(rows: map<(Group, nat), int>, workers: nat, maxRetries: nat, run: seq<Step>)
    ensures var s := After(Start(rows, workers), maxRetries, run);
            && (forall n | n in s.registry :: n.Retry? && n in s.hashes)
            && (forall n | n in s.hashes && n.Retry? ::
                  n in s.registry || n in s.orphans || exists w :: 0 <= w < |s.workers| && s.workers[w] == Popped(n))
  {
    RunsKeepLadder(rows, workers, maxRetries, run);
    var s := After(Start(rows, workers), maxRetries, run);
    assert forall n | n in s.hashes && n.Retry? :: Reachable(s, n);
  }
}
