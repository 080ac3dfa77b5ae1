/** The counter flush pipeline as a machine of atomic steps: producers increment hashes,
    workers drain a hash, flush it to SQL and, on failure, register it again under its next
    retry name or dead-letter it (tasks/counters.py). No lock appears: any number of workers
    may work on the same group, as they do when a flush lock expires. */
module Counters {
  import opened Wrappers
  import RetryNames

  type Group = nat
  type Hash = map<string, int>

  /** A hash's name, see RetryNames for its text: a group's live hash, or a retry batch. */
  datatype Name = Live(group: Group) | Retry(group: Group, ident: nat, version: nat)

  function Version(n: Name): nat {
    match n
    case Live(_) => 0
    case Retry(_, _, version) => version
  }

  /** A hash with the number of flush attempts that its deltas went through. */
  datatype Batch = Batch(hash: Hash, attempts: nat)

  datatype Worker =
    | Idle
    | Popped(name: Name)
    | Holding(name: Name, batch: Batch)
    | Failed(name: Name, batch: Batch, recoverable: bool)

  datatype Letter = Letter(group: Group, deltas: map<nat, int>, attempts: nat)

  /** `lost` holds what crashed workers held, `orphans` the retry names they had popped, `used`
      the retry identifiers drawn so far. */
  datatype State = State(
    hashes: map<Name, Batch>, registry: seq<Name>, rows: map<(Group, nat), int>, dead: seq<Letter>,
    flushed: seq<nat>, workers: seq<Worker>, lost: seq<(Group, Hash)>, orphans: set<Name>, used: set<nat>)

  /** FlushUnanswered is a commit that goes through although the worker sees an operational
      error, which counts as recoverable. The orders `order` are those in which HGETALL happened to list the hash. */
  datatype Step =
    | Increment(group: Group, key: string, delta: int)
    | TakeLive(w: nat, group: Group)
    | Pop(w: nat)
    | Drain(w: nat)
    | Flush(w: nat, order: seq<string>)
    | FlushUnanswered(w: nat, order: seq<string>)
    | FlushFails(w: nat, recoverable: bool)
    | Requeue(w: nat, ident: nat)
    | Bury(w: nat, order: seq<string>)
    | Crash(w: nat)

  function Get(h: Hash, key: string): int {
    if key in h then h[key] else 0
  }

  function At(s: State, w: nat): Worker {
    if w < |s.workers| then s.workers[w] else Idle
  }

  function Put(s: State, w: nat, worker: Worker): State {
    if w < |s.workers| then s.(workers := s.workers[w := worker]) else s
  }

  /** HINCRBY, and the merge that HSET does when the hash exists. */
  function Bumped(hashes: map<Name, Batch>, n: Name, key: string, delta: int): map<Name, Batch> {
    var batch := if n in hashes then hashes[n] else Batch(map[], 0);
    hashes[n := batch.(hash := batch.hash[key := Get(batch.hash, key) + delta])]
  }

  function Merged(hashes: map<Name, Batch>, n: Name, batch: Batch): map<Name, Batch> {
    hashes[n := batch.(hash := (if n in hashes then hashes[n].hash else map[]) + batch.hash)]
  }

  /** The keys of a hash in some order, each one once. */
  predicate Listed(order: seq<string>, hash: Hash) {
    && (forall i, j | 0 <= i < j < |order| :: order[i] != order[j])
    && (forall k | k in hash :: k in order)
    && (forall k | k in order :: k in hash)
  }

  /** And each names a row, so that the normalisers raise nothing. */
  predicate Lists(order: seq<string>, hash: Hash) {
    Listed(order, hash) && forall k | k in order :: RetryNames.RowId(k).Some?
  }

  /** _database_normalize_cache_normalized_counter_data: a dictionary over row ids, in which a
      later key overwrites an earlier one of the same id. */
  function Normalise(hash: Hash, order: seq<string>): map<nat, int>
    requires forall k | k in order :: k in hash && RetryNames.RowId(k).Some?
  {
    if order == [] then map[]
    else
      var k := order[|order| - 1];
      Normalise(hash, order[..|order| - 1])[RetryNames.RowId(k).value := hash[k]]
  }

  /** UPDATE ... FROM (VALUES ...): rows that do not exist are passed over. */
  function Updated(rows: map<(Group, nat), int>, group: Group, deltas: map<nat, int>): map<(Group, nat), int> {
    map r | r in rows :: rows[r] + if r.0 == group && r.1 in deltas then deltas[r.1] else 0
  }

  /** The name of the next retry: a new identifier the first time, the same one after that. */
  function NextName(n: Name, ident: nat): Name {
    match n
    case Live(group) => Retry(group, ident, 1)
    case Retry(group, same, version) => Retry(group, same, version + 1)
  }

  predicate MayRequeue(s: State, worker: Worker, ident: nat, maxRetries: nat) {
    && worker.Failed? && worker.recoverable && Version(worker.name) < maxRetries
    && (worker.name.Live? ==> ident !in s.used)
  }

  predicate MustBury(worker: Worker, maxRetries: nat) {
    worker.Failed? && (!worker.recoverable || Version(worker.name) >= maxRetries)
  }

  function Attempted(b: Batch): Batch {
    b.(attempts := b.attempts + 1)
  }

  function Exec(s: State, maxRetries: nat, step: Step): State {
    match step
    case Increment(group, key, delta) => s.(hashes := Bumped(s.hashes, Live(group), key, delta))
    case TakeLive(w, group) =>
      if w < |s.workers| && At(s, w) == Idle && Live(group) in s.hashes
      then Put(s, w, Holding(Live(group), s.hashes[Live(group)])).(hashes := s.hashes - {Live(group)})
      else s
    case Pop(w) =>
      if w < |s.workers| && At(s, w) == Idle && s.registry != []
      then Put(s, w, Popped(s.registry[0])).(registry := s.registry[1..])
      else s
    case Drain(w) =>
      if At(s, w).Popped?
      then
        var n := At(s, w).name;
        if n in s.hashes then Put(s, w, Holding(n, s.hashes[n])).(hashes := s.hashes - {n}) else Put(s, w, Idle)
      else s
    case Flush(w, order) =>
      if At(s, w).Holding? && Lists(order, At(s, w).batch.hash)
      then
        var n, batch := At(s, w).name, Attempted(At(s, w).batch);
        Put(s, w, Idle).(rows := Updated(s.rows, n.group, Normalise(batch.hash, order)), flushed := s.flushed + [batch.attempts])
      else s
    case FlushUnanswered(w, order) =>
      if At(s, w).Holding? && Lists(order, At(s, w).batch.hash)
      then
        var n, batch := At(s, w).name, Attempted(At(s, w).batch);
        Put(s, w, Failed(n, batch, true)).(rows := Updated(s.rows, n.group, Normalise(batch.hash, order)))
      else s
    case FlushFails(w, recoverable) =>
      if At(s, w).Holding? then Put(s, w, Failed(At(s, w).name, Attempted(At(s, w).batch), recoverable)) else s
    case Requeue(w, ident) =>
      if MayRequeue(s, At(s, w), ident, maxRetries)
      then
        var n := NextName(At(s, w).name, ident);
        Put(s, w, Idle).(hashes := Merged(s.hashes, n, At(s, w).batch), registry := s.registry + [n], used := s.used + {n.ident})
      else s
    case Bury(w, order) =>
      if MustBury(At(s, w), maxRetries) && Lists(order, At(s, w).batch.hash)
      then
        var batch := At(s, w).batch;
        Put(s, w, Idle).(dead := s.dead + [Letter(At(s, w).name.group, Normalise(batch.hash, order), batch.attempts)])
      else s
    case Crash(w) =>
      if w < |s.workers|
      then Put(s, w, Idle).(lost := s.lost + Remains(At(s, w)),
                            orphans := s.orphans + if At(s, w).Popped? then {At(s, w).name} else {})
      else s
  }

  /** What a crash drops. */
  function Remains(worker: Worker): seq<(Group, Hash)> {
    match worker
    case Holding(n, batch) => [(n.group, batch.hash)]
    case Failed(n, batch, _) => [(n.group, batch.hash)]
    case _ => []
  }

  function After(s: State, maxRetries: nat, run: seq<Step>): State {
    if run == [] then s else Exec(After(s, maxRetries, run[..|run| - 1]), maxRetries, run[|run| - 1])
  }

  function Start(rows: map<(Group, nat), int>, workers: nat): State {
    State(map[], [], rows, [], [], seq(workers, _ => Idle), [], {}, {})
  }
}
