/** Conservation: in every interleaving of producers, workers and retry workers, what was
    added to a counter is in its row, in a hash, held by a worker, dead-lettered, or was
    dropped by a crash; nothing is counted twice. */
module CounterTotals {
  import opened Wrappers
  import opened Counters
  import opened CounterLadder
  import opened Text
  import RetryNames

  /** The keys of a group, on which the row id is defined and injective. */
  ghost predicate Injective(keys: set<string>) {
    && (forall k | k in keys :: RetryNames.RowId(k).Some?)
    && (forall j, k | j in keys && k in keys && RetryNames.RowId(j) == RetryNames.RowId(k) :: j == k)
  }

  // ----------------------------------------------------------------------- normalisation

  /** Injective keys keep their deltas under their row ids. */
  lemma {:induction false} NormaliseKeeps(hash: Hash, order: seq<string>, k: string)
    requires forall j | j in order :: j in hash && RetryNames.RowId(j).Some?
    requires RetryNames.RowId(k).Some?
    requires forall j | j in order && RetryNames.RowId(j) == RetryNames.RowId(k) :: j == k
    ensures var m, id := Normalise(hash, order), RetryNames.RowId(k).value;
            (id in m <==> k in order) && (k in order ==> m[id] == hash[k])
  {
    if order != [] {
      var init := order[..|order| - 1];
      assert order == init + [order[|order| - 1]];
      NormaliseKeeps(hash, init, k);
    }
  }

  /** The last key of an id decides. */
  lemma LastKeyWins(hash: Hash, order: seq<string>)
    requires order != [] && forall j | j in order :: j in hash && RetryNames.RowId(j).Some?
    ensures var k := order[|order| - 1];
            RetryNames.RowId(k).value in Normalise(hash, order) && Normalise(hash, order)[RetryNames.RowId(k).value] == hash[k]
  {
  }

  /** Normalisation keeps every delta, whatever the deltas and the order of listing. */
  ghost predicate Faithful(keys: set<string>) {
    forall hash: Hash, order, k | hash.Keys == keys && Lists(order, hash) && k in keys :: Kept(hash, order, k)
  }

  predicate Kept(hash: Hash, order: seq<string>, k: string)
    requires Lists(order, hash) && k in hash
  {
    Get(hash, k) == Amount(Normalise(hash, order), RetryNames.RowId(k).value)
  }

  lemma InjectiveKeeps(keys: set<string>, hash: Hash, order: seq<string>, k: string)
    requires Injective(keys) && hash.Keys <= keys && Lists(order, hash) && k in keys
    ensures Get(hash, k) == Amount(Normalise(hash, order), RetryNames.RowId(k).value)
  {
    NormaliseKeeps(hash, order, k);
  }

  lemma ClashLoses(keys: set<string>, j: string, k: string) returns (hash: Hash, order: seq<string>)
    requires forall x | x in keys :: RetryNames.RowId(x).Some?
    requires j in keys && k in keys && j != k && RetryNames.RowId(j) == RetryNames.RowId(k)
    ensures hash.Keys == keys && Lists(order, hash) && !Kept(hash, order, j)
  {
    hide RetryNames.RowId;
    hash := map x | x in keys :: if x == j then 1 else 0;
    order := Listing(keys - {k});
    order := order + [k];
    LastKeyWins(hash, order);
  }

  /** That is so exactly when no two keys have the same row id. */
  lemma FaithfulIffInjective(keys: set<string>)
    requires forall k | k in keys :: RetryNames.RowId(k).Some?
    ensures Faithful(keys) <==> Injective(keys)
  {
    hide RetryNames.RowId;
    hide Lists;
    hide Normalise;
    if Injective(keys) {
      forall hash: Hash, order, k | hash.Keys == keys && Lists(order, hash) && k in keys
        ensures Kept(hash, order, k)
      {
        InjectiveKeeps(keys, hash, order, k);
      }
    } else {
      var j, k :| j in keys && k in keys && RetryNames.RowId(j) == RetryNames.RowId(k) && j != k;
      var hash, order := ClashLoses(keys, j, k);
      assert !Kept(hash, order, j);
    }
  }

  function Amount(m: map<nat, int>, id: nat): int {
    if id in m then m[id] else 0
  }

  /** Some order of a set of keys. */
  lemma Listing(keys: set<string>) returns (order: seq<string>)
    ensures (forall i, j | 0 <= i < j < |order| :: order[i] != order[j]) && forall k :: k in order <==> k in keys
  {
    order := [];
    if keys != {} {
      var k :| k in keys;
      order := Listing(keys - {k});
      assert forall i | 0 <= i < |order| :: order[i] in order;
      order := order + [k];
    }
  }

  /** Keys made of one resource name and an id are injective; two resource names can clash. */
  lemma OneResourceIsInjective(resource: string, ids: set<nat>)
    requires Free(resource, RetryNames.NAME_SEPARATOR)
    ensures Injective(set id | id in ids :: RetryNames.CacheKey(resource, id))
  {
    forall id | id in ids
      ensures RetryNames.RowId(RetryNames.CacheKey(resource, id)) == Some(id)
    {
      RetryNames.RowIdOfCacheKey(resource, id);
    }
  }

  lemma TwoResourcesClash(r: string, q: string, id: nat)
    requires Free(r, RetryNames.NAME_SEPARATOR) && Free(q, RetryNames.NAME_SEPARATOR) && r != q
    ensures !Injective({RetryNames.CacheKey(r, id), RetryNames.CacheKey(q, id)})
  {
    RetryNames.RowIdOfCacheKey(r, id);
    RetryNames.RowIdOfCacheKey(q, id);
    var a, b := [r, Dec(id)], [q, Dec(id)];
    DecRoundTrip(id);
    SplitJoin(a, RetryNames.NAME_SEPARATOR);
    SplitJoin(b, RetryNames.NAME_SEPARATOR);
    assert a[0] != b[0];
  }

  // ------------------------------------------------------------------------------ totals

  /** A hash's share of the key `k` of the group `g`. */
  function Share(group: Group, hash: Hash, g: Group, k: string): int {
    if group == g then Get(hash, k) else 0
  }

  ghost function Waiting(hashes: map<Name, Batch>, g: Group, k: string): int {
    if hashes == map[] then 0
    else
      var n :| n in hashes;
      Share(n.group, hashes[n].hash, g, k) + Waiting(hashes - {n}, g, k)
  }

  function Held(workers: seq<Worker>, g: Group, k: string): int {
    if workers == [] then 0
    else Held(workers[..|workers| - 1], g, k) + Carried(workers[|workers| - 1], g, k)
  }

  function Carried(worker: Worker, g: Group, k: string): int {
    match worker
    case Holding(n, batch) => Share(n.group, batch.hash, g, k)
    case Failed(n, batch, _) => Share(n.group, batch.hash, g, k)
    case _ => 0
  }

  function Buried(dead: seq<Letter>, g: Group, id: nat): int {
    if dead == [] then 0
    else
      var letter := dead[|dead| - 1];
      Buried(dead[..|dead| - 1], g, id) + if letter.group == g then Amount(letter.deltas, id) else 0
  }

  function Dropped(lost: seq<(Group, Hash)>, g: Group, k: string): int {
    if lost == [] then 0
    else Dropped(lost[..|lost| - 1], g, k) + Share(lost[|lost| - 1].0, lost[|lost| - 1].1, g, k)
  }

  /** Everything that was ever added to the counter and where it is now. */
  ghost function Total(s: State, g: Group, k: string): int
    requires RetryNames.RowId(k).Some?
  {
    var id := RetryNames.RowId(k).value;
    (if (g, id) in s.rows then s.rows[(g, id)] else 0)
    + Waiting(s.hashes, g, k) + Held(s.workers, g, k) + Buried(s.dead, g, id) + Dropped(s.lost, g, k)
  }

  function Added(run: seq<Step>, g: Group, k: string): int {
    if run == [] then 0
    else
      Added(run[..|run| - 1], g, k)
      + match run[|run| - 1]
        case Increment(group, key, delta) => if group == g && key == k then delta else 0
        case _ => 0
  }

  lemma {:induction false} WaitingWithout(hashes: map<Name, Batch>, n: Name, g: Group, k: string)
    requires n in hashes
    ensures Waiting(hashes, g, k) == Share(n.group, hashes[n].hash, g, k) + Waiting(hashes - {n}, g, k)
    decreases |hashes|
  {
    var m :| m in hashes && Waiting(hashes, g, k) == Share(m.group, hashes[m].hash, g, k) + Waiting(hashes - {m}, g, k);
    if m != n {
      WaitingWithout(hashes - {m}, n, g, k);
      WaitingWithout(hashes - {n}, m, g, k);
      assert hashes - {m} - {n} == hashes - {n} - {m};
    }
  }

  lemma WaitingStored(hashes: map<Name, Batch>, n: Name, batch: Batch, g: Group, k: string)
    ensures Waiting(hashes[n := batch], g, k)
            == Waiting(hashes, g, k) - (if n in hashes then Share(n.group, hashes[n].hash, g, k) else 0)
               + Share(n.group, batch.hash, g, k)
  {
    var stored := hashes[n := batch];
    WaitingWithout(stored, n, g, k);
    assert stored - {n} == hashes - {n};
    if n in hashes {
      WaitingWithout(hashes, n, g, k);
    } else {
      assert hashes - {n} == hashes;
    }
  }

  lemma {:induction false} HeldMoves(workers: seq<Worker>, w: nat, worker: Worker, g: Group, k: string)
    requires w < |workers|
    ensures Held(workers[w := worker], g, k) == Held(workers, g, k) - Carried(workers[w], g, k) + Carried(worker, g, k)
  {
    var n := |workers| - 1;
    var moved := workers[w := worker];
    if w < n {
      HeldMoves(workers[..n], w, worker, g, k);
      assert moved[..n] == workers[..n][w := worker];
    } else {
      assert moved[..n] == workers[..n];
    }
  }

  // ------------------------------------------------------------------------------- steps

  /** All keys counted in the group `g` are among `keys`. */
  ghost predicate KeysWithin(s: State, g: Group, keys: set<string>) {
    && (forall n | n in s.hashes && n.group == g :: s.hashes[n].hash.Keys <= keys)
    && (forall w | 0 <= w < |s.workers| :: CarriedWithin(s.workers[w], g, keys))
  }

  ghost predicate CarriedWithin(worker: Worker, g: Group, keys: set<string>) {
    (worker.Holding? || worker.Failed?) && worker.name.group == g ==> worker.batch.hash.Keys <= keys
  }

  predicate CountsOn(step: Step, g: Group, keys: set<string>) {
    step.Increment? && step.group == g ==> step.key in keys
  }

  lemma StepKeepsKeys(s: State, maxRetries: nat, step: Step, g: Group, keys: set<string>)
    requires Ladder(s, maxRetries) && KeysWithin(s, g, keys) && CountsOn(step, g, keys)
    ensures KeysWithin(Exec(s, maxRetries, step), g, keys)
  {
    hide Normalise;
    hide Updated;
    hide Ladder;
    if step.Requeue? && MayRequeue(s, At(s, step.w), step.ident, maxRetries) {
      NextNameIsNew(s, maxRetries, step.w, step.ident);
      assert CarriedWithin(s.workers[step.w], g, keys);
    }
  }

  ghost predicate Counted(s: State, g: Group, keys: set<string>, k: string) {
    && KeysWithin(s, g, keys) && Injective(keys) && k in keys
    && RetryNames.RowId(k).Some? && (g, RetryNames.RowId(k).value) in s.rows
  }

  lemma IncrementConserves(s: State, maxRetries: nat, group: Group, key: string, delta: int, g: Group, k: string)
    requires RetryNames.RowId(k).Some?
    ensures Total(Exec(s, maxRetries, Increment(group, key, delta)), g, k)
            == Total(s, g, k) + if group == g && key == k then delta else 0
  {
    var n := Live(group);
    WaitingStored(s.hashes, n, Bumped(s.hashes, n, key, delta)[n], g, k);
  }

  /** Draining moves a hash from the store to the worker. */
  lemma DrainConserves(s: State, w: nat, n: Name, g: Group, k: string)
    requires RetryNames.RowId(k).Some? && w < |s.workers| && n in s.hashes && Carried(s.workers[w], g, k) == 0
    ensures Total(Put(s, w, Holding(n, s.hashes[n])).(hashes := s.hashes - {n}), g, k) == Total(s, g, k)
  {
    WaitingWithout(s.hashes, n, g, k);
    HeldMoves(s.workers, w, Holding(n, s.hashes[n]), g, k);
  }

  lemma MoveConserves(s: State, w: nat, worker: Worker, g: Group, k: string)
    requires RetryNames.RowId(k).Some? && (w < |s.workers| ==> Carried(s.workers[w], g, k) == Carried(worker, g, k))
    ensures Total(Put(s, w, worker), g, k) == Total(s, g, k)
  {
    if w < |s.workers| {
      HeldMoves(s.workers, w, worker, g, k);
    }
  }

  lemma FlushConserves(s: State, maxRetries: nat, w: nat, order: seq<string>, g: Group, keys: set<string>, k: string)
    requires Counted(s, g, keys, k)
    ensures Total(Exec(s, maxRetries, Flush(w, order)), g, k) == Total(s, g, k)
  {
    if At(s, w).Holding? && Lists(order, At(s, w).batch.hash) {
      var n, hash := At(s, w).name, At(s, w).batch.hash;
      assert CarriedWithin(s.workers[w], g, keys);
      HeldMoves(s.workers, w, Idle, g, k);
      if n.group == g {
        InjectiveKeeps(keys, hash, order, k);
      }
    }
  }

  /** What a step counts a second time: the deltas of a flush that went through although it
      looks failed, for rows that exist. The batch goes on and will be flushed again. */
  function RecountedBy(s: State, step: Step, g: Group, k: string): int
    requires RetryNames.RowId(k).Some?
  {
    match step
    case FlushUnanswered(w, order) =>
      if At(s, w).Holding? && Lists(order, At(s, w).batch.hash) && (g, RetryNames.RowId(k).value) in s.rows
      then Share(At(s, w).name.group, At(s, w).batch.hash, g, k)
      else 0
    case _ => 0
  }

  lemma UnansweredRecounts(
      s: State, maxRetries: nat, w: nat, order: seq<string>, g: Group, keys: set<string>, k: string)
    requires KeysWithin(s, g, keys) && Injective(keys) && k in keys
    ensures Total(Exec(s, maxRetries, FlushUnanswered(w, order)), g, k)
            == Total(s, g, k) + RecountedBy(s, FlushUnanswered(w, order), g, k)
  {
    if At(s, w).Holding? && Lists(order, At(s, w).batch.hash) {
      var n, batch := At(s, w).name, Attempted(At(s, w).batch);
      assert CarriedWithin(s.workers[w], g, keys);
      HeldMoves(s.workers, w, Failed(n, batch, true), g, k);
      if n.group == g {
        InjectiveKeeps(keys, batch.hash, order, k);
      }
    }
  }

  lemma BuryConserves(s: State, maxRetries: nat, w: nat, order: seq<string>, g: Group, keys: set<string>, k: string)
    requires Counted(s, g, keys, k)
    ensures Total(Exec(s, maxRetries, Bury(w, order)), g, k) == Total(s, g, k)
  {
    if MustBury(At(s, w), maxRetries) && Lists(order, At(s, w).batch.hash) {
      var n, batch := At(s, w).name, At(s, w).batch;
      assert CarriedWithin(s.workers[w], g, keys);
      HeldMoves(s.workers, w, Idle, g, k);
      if n.group == g {
        InjectiveKeeps(keys, batch.hash, order, k);
      }
      var letter := Letter(n.group, Normalise(batch.hash, order), batch.attempts);
      assert (s.dead + [letter])[..|s.dead|] == s.dead;
    }
  }

  lemma RequeueConserves(s: State, maxRetries: nat, w: nat, ident: nat, g: Group, k: string)
    requires Ladder(s, maxRetries) && RetryNames.RowId(k).Some?
    ensures Total(Exec(s, maxRetries, Requeue(w, ident)), g, k) == Total(s, g, k)
  {
    if MayRequeue(s, At(s, w), ident, maxRetries) {
      var worker := s.workers[w];
      var n := NextName(worker.name, ident);
      NextNameIsNew(s, maxRetries, w, ident);
      hide Ladder;
      assert map[] + worker.batch.hash == worker.batch.hash;
      WaitingStored(s.hashes, n, worker.batch, g, k);
      HeldMoves(s.workers, w, Idle, g, k);
      assert Merged(s.hashes, n, worker.batch) == s.hashes[n := worker.batch];
    }
  }

  lemma CrashConserves(s: State, maxRetries: nat, w: nat, g: Group, k: string)
    requires RetryNames.RowId(k).Some?
    ensures Total(Exec(s, maxRetries, Crash(w)), g, k) == Total(s, g, k)
  {
    if w < |s.workers| {
      HeldMoves(s.workers, w, Idle, g, k);
      var gone := Remains(s.workers[w]);
      if gone == [] {
        assert s.lost + gone == s.lost;
      } else {
        assert (s.lost + gone)[..|s.lost|] == s.lost;
      }
    }
  }

  lemma StepConserves(s: State, maxRetries: nat, step: Step, g: Group, keys: set<string>, k: string)
    requires Ladder(s, maxRetries) && Counted(s, g, keys, k) && CountsOn(step, g, keys)
    ensures Counted(Exec(s, maxRetries, step), g, keys, k)
    ensures Total(Exec(s, maxRetries, step), g, k) == Total(s, g, k) + Added([step], g, k) + RecountedBy(s, step, g, k)
  {
    StepKeepsKeys(s, maxRetries, step, g, keys);
    hide Ladder;
    hide KeysWithin;
    hide Total;
    hide RetryNames.RowId;
    hide Normalise;
    hide Updated;
    hide Merged;
    hide Bumped;
    hide Share;
    assert [step][..0] == [];
    match step {
      case Increment(group, key, delta) => IncrementConserves(s, maxRetries, group, key, delta, g, k);
      case TakeLive(w, group) =>
        if w < |s.workers| && At(s, w) == Idle && Live(group) in s.hashes {
          DrainConserves(s, w, Live(group), g, k);
        }
      case Pop(w) =>
        if w < |s.workers| && At(s, w) == Idle && s.registry != [] {
          MoveConserves(s, w, Popped(s.registry[0]), g, k);
          SameTotal(Put(s, w, Popped(s.registry[0])), Exec(s, maxRetries, step), g, k);
        }
      case Drain(w) =>
        if At(s, w).Popped? {
          if At(s, w).name in s.hashes {
            DrainConserves(s, w, At(s, w).name, g, k);
          } else {
            MoveConserves(s, w, Idle, g, k);
          }
        }
      case Flush(w, order) => FlushConserves(s, maxRetries, w, order, g, keys, k);
      case FlushUnanswered(w, order) => UnansweredRecounts(s, maxRetries, w, order, g, keys, k);
      case FlushFails(w, recoverable) =>
        if At(s, w).Holding? {
          MoveConserves(s, w, Failed(At(s, w).name, Attempted(At(s, w).batch), recoverable), g, k);
        }
      case Requeue(w, ident) => RequeueConserves(s, maxRetries, w, ident, g, k);
      case Bury(w, order) => BuryConserves(s, maxRetries, w, order, g, keys, k);
      case Crash(w) => CrashConserves(s, maxRetries, w, g, k);
    }
  }

  lemma SameTotal(s: State, t: State, g: Group, k: string)
    requires RetryNames.RowId(k).Some?
    requires s.rows == t.rows && s.hashes == t.hashes && s.workers == t.workers && s.dead == t.dead && s.lost == t.lost
    ensures Total(s, g, k) == Total(t, g, k)
  {
  }

  // ----------------------------------------------------------------------- over all runs

  lemma {:induction false} StartIsEmpty(rows: map<(Group, nat), int>, workers: nat, g: Group, k: string)
    ensures Held(Start(rows, workers).workers, g, k) == 0
  {
    if workers > 0 {
      StartIsEmpty(rows, workers - 1, g, k);
      assert Start(rows, workers).workers[..workers - 1] == Start(rows, workers - 1).workers;
    }
  }

  /** The deltas counted a second time over a whole run. */
  function Recounted(s: State, maxRetries: nat, run: seq<Step>, g: Group, k: string): int
    requires RetryNames.RowId(k).Some?
  {
    if run == [] then 0
    else
      var init := run[..|run| - 1];
      Recounted(s, maxRetries, init, g, k) + RecountedBy(After(s, maxRetries, init), run[|run| - 1], g, k)
  }

  lemma {:induction false} RunConserves(
      rows: map<(Group, nat), int>, workers: nat, maxRetries: nat, run: seq<Step>, g: Group, keys: set<string>, k: string)
    requires Injective(keys) && k in keys && (g, RetryNames.RowId(k).value) in rows
    requires forall i | 0 <= i < |run| :: CountsOn(run[i], g, keys)
    ensures var s := After(Start(rows, workers), maxRetries, run);
            && Counted(s, g, keys, k)
            && Total(s, g, k)
               == rows[(g, RetryNames.RowId(k).value)] + Added(run, g, k) + Recounted(Start(rows, workers), maxRetries, run, g, k)
  {
    if run == [] {
      StartIsEmpty(rows, workers, g, k);
    } else {
      hide Total;
      hide Counted;
      hide Ladder;
      hide CountsOn;
      hide RetryNames.RowId;
      hide Exec;
      hide RecountedBy;
      var init, step := run[..|run| - 1], run[|run| - 1];
      RunConserves(rows, workers, maxRetries, init, g, keys, k);
      RunsKeepLadder(rows, workers, maxRetries, init);
      StepConserves(After(Start(rows, workers), maxRetries, init), maxRetries, step, g, keys, k);
      assert [step][..0] == [];
    }
  }

  /** Main result, in full: the row, the waiting hashes, the workers, the dead letters and
      what crashes dropped add up to the start value, every delta added, and those that
      flushes counted a second time because they went through but looked failed. */
  lemma Conservation(
      rows: map<(Group, nat), int>, workers: nat, maxRetries: nat, run: seq<Step>, g: Group, keys: set<string>, k: string)
    requires Injective(keys) && k in keys && (g, RetryNames.RowId(k).value) in rows
    requires forall i | 0 <= i < |run| :: CountsOn(run[i], g, keys)
    ensures var s, id := After(Start(rows, workers), maxRetries, run), RetryNames.RowId(k).value;
            && (g, id) in s.rows
            && s.rows[(g, id)] + Waiting(s.hashes, g, k) + Held(s.workers, g, k) + Buried(s.dead, g, id) + Dropped(s.lost, g, k)
               == rows[(g, id)] + Added(run, g, k) + Recounted(Start(rows, workers), maxRetries, run, g, k)
  {
    RunConserves(rows, workers, maxRetries, run, g, keys, k);
  }

  /** So a counter is conserved exactly when the recounted deltas sum to nothing, in
      particular when every flush that goes through is seen to. */
  lemma ConservedIffNothingRecounted(
      rows: map<(Group, nat), int>, workers: nat, maxRetries: nat, run: seq<Step>, g: Group, keys: set<string>, k: string)
    requires Injective(keys) && k in keys && (g, RetryNames.RowId(k).value) in rows
    requires forall i | 0 <= i < |run| :: CountsOn(run[i], g, keys)
    ensures var start := Start(rows, workers);
            && (Total(After(start, maxRetries, run), g, k) == Total(start, g, k) + Added(run, g, k)
                <==> Recounted(start, maxRetries, run, g, k) == 0)
            && ((forall i | 0 <= i < |run| :: !run[i].FlushUnanswered?) ==> Recounted(start, maxRetries, run, g, k) == 0)
  {
    RunConserves(rows, workers, maxRetries, run, g, keys, k);
    RunConserves(rows, workers, maxRetries, [], g, keys, k);
    NothingRecounted(Start(rows, workers), maxRetries, run, g, k);
  }

  lemma {:induction false} NothingRecounted(s: State, maxRetries: nat, run: seq<Step>, g: Group, k: string)
    requires RetryNames.RowId(k).Some?
    ensures (forall i | 0 <= i < |run| :: !run[i].FlushUnanswered?) ==> Recounted(s, maxRetries, run, g, k) == 0
  {
    if run != [] {
      NothingRecounted(s, maxRetries, run[..|run| - 1], g, k);
    }
  }

  /** Such a flush conserves a key's total if and only if its row does not exist or its delta
      is zero: the worker goes on holding what the row already has. */
  lemma UnansweredConservesIff(s: State, maxRetries: nat, w: nat, order: seq<string>, keys: set<string>, k: string)
    requires At(s, w).Holding? && Lists(order, At(s, w).batch.hash)
    requires Injective(keys) && k in keys && KeysWithin(s, At(s, w).name.group, keys)
    ensures var g := At(s, w).name.group;
            Total(Exec(s, maxRetries, FlushUnanswered(w, order)), g, k) == Total(s, g, k)
            <==> (g, RetryNames.RowId(k).value) !in s.rows || Get(At(s, w).batch.hash, k) == 0
  {
    UnansweredRecounts(s, maxRetries, w, order, At(s, w).name.group, keys, k);
  }

  /** Without crashes nothing is dropped. */
  lemma {:induction false} NothingDroppedWithoutCrash(rows: map<(Group, nat), int>, workers: nat, maxRetries: nat, run: seq<Step>)
    requires forall i | 0 <= i < |run| :: !run[i].Crash?
    ensures var s := After(Start(rows, workers), maxRetries, run);
            s.lost == [] && s.orphans == {}
  {
    if run != [] {
      NothingDroppedWithoutCrash(rows, workers, maxRetries, run[..|run| - 1]);
      hide Normalise;
      hide Updated;
    }
  }

  /** A flush of a key whose row does not exist makes its delta vanish: the total stays
      exactly when the row exists or the delta is zero. */
  lemma FlushConservesIff(s: State, maxRetries: nat, w: nat, order: seq<string>, keys: set<string>, k: string)
    requires At(s, w).Holding? && Lists(order, At(s, w).batch.hash)
    requires Injective(keys) && k in keys && At(s, w).batch.hash.Keys <= keys
    ensures var g := At(s, w).name.group;
            Total(Exec(s, maxRetries, Flush(w, order)), g, k) == Total(s, g, k)
            <==> (g, RetryNames.RowId(k).value) in s.rows || Get(At(s, w).batch.hash, k) == 0
  {
    HeldMoves(s.workers, w, Idle, At(s, w).name.group, k);
    InjectiveKeeps(keys, At(s, w).batch.hash, order, k);
  }

  /** Storing a batch under a name that is taken, as HSET would, keeps the total of a key
      exactly when the two hashes do not both count it: retry names must be unique. */
  lemma MergeConservesIff(hashes: map<Name, Batch>, n: Name, batch: Batch, k: string)
    ensures Waiting(Merged(hashes, n, batch), n.group, k) == Waiting(hashes, n.group, k) + Get(batch.hash, k)
            <==> n !in hashes || k !in batch.hash || Get(hashes[n].hash, k) == 0
  {
    WaitingStored(hashes, n, Merged(hashes, n, batch)[n], n.group, k);
  }
}
