/** Moving events that were delivered too often to the dead-letter stream
    (utils/coordination.py, workers/redis/helpers.py). */
module Reclaim {
  import opened StreamIds

  datatype Pending = Pending(id: StreamId, delivered: nat)
  datatype Entry = Entry(id: StreamId, payload: nat)

  /** get_min_max_from_xread: both ends of a set of ids in one pass. */
  method GetMinMax(ids: set<StreamId>) returns (min: StreamId, max: StreamId)
    requires ids != {}
    ensures min in ids && max in ids
    ensures forall id | id in ids :: !Before(id, min) && !Before(max, id)
  {
    var first :| first in ids;
    min, max := first, first;
    var rest := ids;
    while rest != {}
      invariant rest <= ids && min in ids && max in ids && !Before(max, min)
      invariant forall id | id in ids - rest :: !Before(id, min) && !Before(max, id)
      decreases rest
    {
      var id :| id in rest;
      if id.ms < min.ms || (min.ms == id.ms && id.counter < min.counter) {
        min := id;
      } else if id.ms > max.ms || (id.ms == max.ms && id.counter > max.counter) {
        max := id;
      }
      assert ids - (rest - {id}) == (ids - rest) + {id};
      rest := rest - {id};
    }
  }

  /** XRANGE: the entries from `min` to `max`, both included. */
  function Range(stream: seq<Entry>, min: StreamId, max: StreamId): seq<Entry> {
    if stream == [] then []
    else (if Before(stream[0].id, min) || Before(max, stream[0].id) then [] else [stream[0]]) + Range(stream[1..], min, max)
  }

  /** The entries whose id is (or is not) in the set. */
  function Among(stream: seq<Entry>, ids: set<StreamId>, wanted: bool): seq<Entry> {
    if stream == [] then []
    else (if (stream[0].id in ids) == wanted then [stream[0]] else []) + Among(stream[1..], ids, wanted)
  }

  /** Ids that reached the delivery limit. */
  function DeadIds(pending: seq<Pending>, maxDeliveries: nat): set<StreamId> {
    set p | p in pending && p.delivered >= maxDeliveries :: p.id
  }

  predicate Exhausted(id: StreamId, pending: seq<Pending>, maxDeliveries: nat)
    ensures Exhausted(id, pending, maxDeliveries) <==> id in DeadIds(pending, maxDeliveries)
  {
    exists p :: p in pending && p.id == id && p.delivered >= maxDeliveries
  }

  /** The direct selection: entries still in the stream that have a pending record at the
      delivery limit. */
  function DeadEntries(stream: seq<Entry>, pending: seq<Pending>, maxDeliveries: nat): seq<Entry> {
    if stream == [] then []
    else
      (if Exhausted(stream[0].id, pending, maxDeliveries) then [stream[0]] else [])
      + DeadEntries(stream[1..], pending, maxDeliveries)
  }

  lemma AmongHead(e: Entry, rest: seq<Entry>, ids: set<StreamId>)
    ensures Among([e] + rest, ids, true) == (if e.id in ids then [e] else []) + Among(rest, ids, true)
  {
    assert ([e] + rest)[1..] == rest;
  }

  /** Scanning between the ends of the id set and filtering by the set is the direct
      selection, whatever lies between the ends. */
  lemma {:induction false} ScanIsDirectSelection(
      stream: seq<Entry>, pending: seq<Pending>, maxDeliveries: nat, min: StreamId, max: StreamId)
    requires forall id | id in DeadIds(pending, maxDeliveries) :: !Before(id, min) && !Before(max, id)
    ensures Among(Range(stream, min, max), DeadIds(pending, maxDeliveries), true)
            == DeadEntries(stream, pending, maxDeliveries)
  {
    if stream != [] {
      ScanIsDirectSelection(stream[1..], pending, maxDeliveries, min, max);
      var e, rest := stream[0], Range(stream[1..], min, max);
      AmongHead(e, rest, DeadIds(pending, maxDeliveries));
      if Before(e.id, min) || Before(max, e.id) {
        assert !Exhausted(e.id, pending, maxDeliveries);
        assert Range(stream, min, max) == rest;
      }
    }
  }

  lemma {:induction false} NothingDead(stream: seq<Entry>, pending: seq<Pending>, maxDeliveries: nat)
    requires DeadIds(pending, maxDeliveries) == {}
    ensures DeadEntries(stream, pending, maxDeliveries) == [] && Among(stream, {}, false) == stream
  {
    if stream != [] {
      NothingDead(stream[1..], pending, maxDeliveries);
    }
  }

  /** The moved entries and the remaining ones are the old stream, none twice. */
  lemma {:induction false} NoEntryLost(stream: seq<Entry>, ids: set<StreamId>)
    ensures multiset(stream) == multiset(Among(stream, ids, true)) + multiset(Among(stream, ids, false))
  {
    if stream != [] {
      NoEntryLost(stream[1..], ids);
      assert stream == [stream[0]] + stream[1..];
    }
  }

  function Payloads(entries: seq<Entry>): (r: seq<nat>)
    ensures |r| == |entries|
    ensures forall i | 0 <= i < |entries| :: r[i] == entries[i].payload
  {
    seq(|entries|, i requires 0 <= i < |entries| => entries[i].payload)
  }

  function Without(pending: seq<Pending>, ids: set<StreamId>): seq<Pending> {
    if pending == [] then []
    else (if pending[0].id in ids then [] else [pending[0]]) + Without(pending[1..], ids)
  }

  lemma {:induction false} WithoutNothing(pending: seq<Pending>)
    ensures Without(pending, {}) == pending
  {
    if pending != [] {
      WithoutNothing(pending[1..]);
    }
  }

  // ------------------------------------------------------------------------ by position

  /** `part` is what stands in `list` at the positions `at`, in the same order. */
  ghost predicate PickedAt<T>(list: seq<T>, at: seq<nat>, part: seq<T>) {
    && |at| == |part|
    && (forall i, j | 0 <= i < j < |at| :: at[i] < at[j])
    && forall i | 0 <= i < |at| :: at[i] < |list| && part[i] == list[at[i]]
  }

  function OneLater(at: seq<nat>): seq<nat> {
    seq(|at|, i requires 0 <= i < |at| => at[i] + 1)
  }

  lemma LaterHolds(at: seq<nat>)
    ensures forall k: nat :: k in OneLater(at) <==> k > 0 && k - 1 in at
  {
    forall k: nat | k > 0 && k - 1 in at
      ensures k in OneLater(at)
    {
      var i :| 0 <= i < |at| && at[i] == k - 1;
      assert OneLater(at)[i] == k;
    }
  }

  lemma PickedLater<T>(list: seq<T>, at: seq<nat>, part: seq<T>)
    requires list != [] && PickedAt(list[1..], at, part)
    ensures PickedAt(list, OneLater(at), part)
  {
  }

  lemma PickedFirst<T>(list: seq<T>, at: seq<nat>, part: seq<T>)
    requires list != [] && PickedAt(list, at, part) && 0 !in at
    ensures PickedAt(list, [0] + at, [list[0]] + part)
  {
    forall i | 0 <= i < |at|
      ensures at[i] > 0
    {
      assert at[i] in at;
    }
  }

  /** One more element in front, picked or not. */
  lemma PickedInFront<T>(list: seq<T>, at: seq<nat>, part: seq<T>, picked: bool) returns (at': seq<nat>)
    requires list != [] && PickedAt(list[1..], at, part)
    ensures PickedAt(list, at', (if picked then [list[0]] else []) + part)
    ensures 0 in at' <==> picked
    ensures forall k: nat | k > 0 :: k in at' <==> k - 1 in at
  {
    hide PickedAt;
    at' := OneLater(at);
    LaterHolds(at);
    PickedLater(list, at, part);
    hide OneLater;
    if picked {
      PickedFirst(list, at', part);
      at' := [0] + at';
    } else {
      assert [] + part == part;
    }
  }

  lemma {:induction false} DeadAt(stream: seq<Entry>, pending: seq<Pending>, maxDeliveries: nat) returns (at: seq<nat>)
    ensures PickedAt(stream, at, DeadEntries(stream, pending, maxDeliveries))
    ensures forall k | 0 <= k < |stream| :: k in at <==> Exhausted(stream[k].id, pending, maxDeliveries)
  {
    if stream == [] {
      at := [];
    } else {
      hide Exhausted;
      var rest := DeadAt(stream[1..], pending, maxDeliveries);
      at := PickedInFront(stream, rest, DeadEntries(stream[1..], pending, maxDeliveries), Exhausted(stream[0].id, pending, maxDeliveries));
      hide PickedAt;
      assert forall k | 1 <= k < |stream| :: stream[k] == stream[1..][k - 1];
    }
  }

  lemma {:induction false} AmongAt(stream: seq<Entry>, ids: set<StreamId>, wanted: bool) returns (at: seq<nat>)
    ensures PickedAt(stream, at, Among(stream, ids, wanted))
    ensures forall k | 0 <= k < |stream| :: k in at <==> (stream[k].id in ids) == wanted
  {
    if stream == [] {
      at := [];
    } else {
      var rest := AmongAt(stream[1..], ids, wanted);
      at := PickedInFront(stream, rest, Among(stream[1..], ids, wanted), (stream[0].id in ids) == wanted);
      hide PickedAt;
      assert forall k | 1 <= k < |stream| :: stream[k] == stream[1..][k - 1];
    }
  }

  lemma {:induction false} WithoutAt(pending: seq<Pending>, ids: set<StreamId>) returns (at: seq<nat>)
    ensures PickedAt(pending, at, Without(pending, ids))
    ensures forall k | 0 <= k < |pending| :: k in at <==> pending[k].id !in ids
  {
    if pending == [] {
      at := [];
    } else {
      var rest := WithoutAt(pending[1..], ids);
      at := PickedInFront(pending, rest, Without(pending[1..], ids), pending[0].id !in ids);
      hide PickedAt;
      assert forall k | 1 <= k < |pending| :: pending[k] == pending[1..][k - 1];
    }
  }

  /** The id has a record among the first `readCount` pending ones, at the delivery limit. */
  ghost predicate GivenUp(pending: seq<Pending>, readCount: nat, maxDeliveries: nat, id: StreamId) {
    exists i :: 0 <= i < readCount && i < |pending| && pending[i].id == id && pending[i].delivered >= maxDeliveries
  }

  lemma GivenUpIff(pending: seq<Pending>, readCount: nat, maxDeliveries: nat, id: StreamId)
    ensures var read := pending[..if readCount < |pending| then readCount else |pending|];
            && (id in DeadIds(read, maxDeliveries) <==> GivenUp(pending, readCount, maxDeliveries, id))
            && (Exhausted(id, read, maxDeliveries) <==> GivenUp(pending, readCount, maxDeliveries, id))
  {
    var read := pending[..if readCount < |pending| then readCount else |pending|];
    if GivenUp(pending, readCount, maxDeliveries, id) {
      var i :| 0 <= i < readCount && i < |pending| && pending[i].id == id && pending[i].delivered >= maxDeliveries;
      assert read[i] in read;
    }
  }

  /** Exactly the entries that were given up are moved, in their order, and the others, with
      their pending records, stay in theirs. */
  ghost predicate Moved(
      stream: seq<Entry>, pending: seq<Pending>, readCount: nat, maxDeliveries: nat,
      moved: seq<nat>, stream': seq<Entry>, pending': seq<Pending>)
  {
    && (exists at, dead :: PickedAt(stream, at, dead) && moved == Payloads(dead)
          && forall k | 0 <= k < |stream| :: k in at <==> GivenUp(pending, readCount, maxDeliveries, stream[k].id))
    && (exists at :: PickedAt(stream, at, stream')
          && forall k | 0 <= k < |stream| :: k in at <==> !GivenUp(pending, readCount, maxDeliveries, stream[k].id))
    && exists at :: PickedAt(pending, at, pending')
          && forall k | 0 <= k < |pending| :: k in at <==> !GivenUp(pending, readCount, maxDeliveries, pending[k].id)
  }

  lemma MovedByPosition(stream: seq<Entry>, pending: seq<Pending>, readCount: nat, maxDeliveries: nat)
    ensures var read := pending[..if readCount < |pending| then readCount else |pending|];
            var ids := DeadIds(read, maxDeliveries);
            Moved(stream, pending, readCount, maxDeliveries,
                  Payloads(DeadEntries(stream, read, maxDeliveries)), Among(stream, ids, false), Without(pending, ids))
  {
    hide PickedAt;
    hide GivenUp;
    hide Exhausted;
    hide DeadIds;
    var read := pending[..if readCount < |pending| then readCount else |pending|];
    var ids := DeadIds(read, maxDeliveries);
    forall id
      ensures id in ids <==> GivenUp(pending, readCount, maxDeliveries, id)
      ensures Exhausted(id, read, maxDeliveries) <==> GivenUp(pending, readCount, maxDeliveries, id)
    {
      GivenUpIff(pending, readCount, maxDeliveries, id);
    }
    var a := DeadAt(stream, read, maxDeliveries);
    var b := AmongAt(stream, ids, false);
    var c := WithoutAt(pending, ids);
  }

  /** One stream with its group's pending list and the dead-letter stream. */
  class Broker {
    var stream: seq<Entry>
    var pending: seq<Pending>
    var deadLetters: seq<nat>

    /** reclaim_dead_events over the first `readCount` pending records. */
    method ReclaimDeadEvents(readCount: nat, maxDeliveries: nat)
      modifies this
      ensures exists moved ::
                && deadLetters == old(deadLetters) + moved
                && Moved(old(stream), old(pending), readCount, maxDeliveries, moved, stream, pending)
      ensures var read := old(pending)[..if readCount < |old(pending)| then readCount else |old(pending)|];
              var dead := DeadIds(read, maxDeliveries);
              && deadLetters == old(deadLetters) + Payloads(DeadEntries(old(stream), read, maxDeliveries))
              && stream == Among(old(stream), dead, false)
              && pending == Without(old(pending), dead)
    {
      hide Moved;
      MovedByPosition(stream, pending, readCount, maxDeliveries);
      var read := pending[..if readCount < |pending| then readCount else |pending|];
      var ids: set<StreamId> := {};
      for i := 0 to |read|
        invariant ids == DeadIds(read[..i], maxDeliveries)
        invariant read == old(pending)[..if readCount < |old(pending)| then readCount else |old(pending)|]
        invariant stream == old(stream) && pending == old(pending) && deadLetters == old(deadLetters)
      {
        assert read[..i + 1] == read[..i] + [read[i]];
        if read[i].delivered >= maxDeliveries {
          ids := ids + {read[i].id};
        }
      }
      assert read[..|read|] == read;
      if ids == {} {
        NothingDead(stream, read, maxDeliveries);
        WithoutNothing(pending);
        return;
      }
      var min, max := GetMinMax(ids);
      var events := Among(Range(stream, min, max), ids, true);
      ScanIsDirectSelection(stream, read, maxDeliveries, min, max);
      deadLetters := deadLetters + Payloads(events);
      stream, pending := Among(stream, ids, false), Without(pending, ids);
    }
  }
}
