/** User actions on a resource (saves and votes) as they travel from the request to the
    association table, and the counter increments that they name. */
module Events {
  /** The intent flags; each one names the state that its action leaves behind. */
  datatype Flag = CreationPending | CreationPendingAlt | DeletionPending

  datatype Key = Key(user: nat, resource: nat)

  datatype CounterUpdate = CounterUpdate(group: nat, key: string, delta: int)

  /** A streamed event: its flattened stream id, the association it concerns, the action,
      the unique id of the intent that the request stored with it, and its increments. */
  datatype Event = Event(id: nat, key: Key, flag: Flag, intent: nat, updates: seq<CounterUpdate>)

  function Ids(events: seq<Event>): set<nat> {
    set e | e in events :: e.id
  }

  function IdsOf(events: seq<Event>): (r: seq<nat>)
    ensures |r| == |events|
  {
    seq(|events|, i requires 0 <= i < |events| => events[i].id)
  }

  predicate DistinctIds(events: seq<Event>) {
    forall i, j | 0 <= i < j < |events| :: events[i].id != events[j].id
  }

  predicate DistinctKeys(events: seq<Event>) {
    forall i, j | 0 <= i < j < |events| :: events[i].key != events[j].key
  }

  // --------------------------------------------------------------------------- increments

  /** What HINCRBY has added to each counter. */
  type Counts = map<(nat, string), int>

  function Count(counts: Counts, group: nat, key: string): int {
    if (group, key) in counts then counts[(group, key)] else 0
  }

  function Bump(counts: Counts, u: CounterUpdate): Counts {
    counts[(u.group, u.key) := Count(counts, u.group, u.key) + u.delta]
  }

  function BumpAll(counts: Counts, updates: seq<CounterUpdate>): Counts {
    if updates == [] then counts else Bump(BumpAll(counts, updates[..|updates| - 1]), updates[|updates| - 1])
  }

  /** The increments of several events in order. */
  function Updates(events: seq<Event>): seq<CounterUpdate> {
    if events == [] then [] else Updates(events[..|events| - 1]) + events[|events| - 1].updates
  }

  /** The sum of the deltas that the increments name for one counter. */
  function Named(updates: seq<CounterUpdate>, group: nat, key: string): int {
    if updates == [] then 0
    else
      var u := updates[|updates| - 1];
      Named(updates[..|updates| - 1], group, key) + if u.group == group && u.key == key then u.delta else 0
  }

  /** Each counter grows by exactly the sum of its deltas. */
  lemma {:induction false} BumpAllCounts(counts: Counts, updates: seq<CounterUpdate>, group: nat, key: string)
    ensures Count(BumpAll(counts, updates), group, key) == Count(counts, group, key) + Named(updates, group, key)
  {
    if updates != [] {
      BumpAllCounts(counts, updates[..|updates| - 1], group, key);
    }
  }

  lemma {:induction false} BumpAllConcat(counts: Counts, a: seq<CounterUpdate>, b: seq<CounterUpdate>)
    ensures BumpAll(BumpAll(counts, a), b) == BumpAll(counts, a + b)
  {
    if b == [] {
      assert a + b == a;
    } else {
      BumpAllConcat(counts, a, b[..|b| - 1]);
      assert (a + b)[..|a + b| - 1] == a + b[..|b| - 1];
    }
  }

  lemma {:induction false} NamedConcat(a: seq<CounterUpdate>, b: seq<CounterUpdate>, group: nat, key: string)
    ensures Named(a + b, group, key) == Named(a, group, key) + Named(b, group, key)
  {
    if b == [] {
      assert a + b == a;
    } else {
      NamedConcat(a, b[..|b| - 1], group, key);
      assert (a + b)[..|a + b| - 1] == a + b[..|b| - 1];
    }
  }
}
