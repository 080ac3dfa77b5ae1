/** What the flattening of stream ids means for the association table: last-writer-wins is by
    the flattened ids, which may sort the other way round than the stream. */
module LastWriter {
  import opened Events
  import opened Association
  import opened StreamIds

  /** Of two actions on a key the row ends with the one whose flattened id is greater, in
      whatever order, batches and repetitions they were applied. */
  lemma GreaterIdWins(t: Table, batches: seq<seq<Event>>, a: Event, b: Event)
    requires Effective(t, batches) == {a, b} && a.key == b.key && a.id < b.id
    requires a.key in t ==> t[a.key].lastEvent < a.id
    ensures var r := Run(t, batches); a.key in r && r[a.key] == Row(b.flag, b.id)
  {
    RunHoldsNewest(t, batches);
    var r := Run(t, batches);
    assert a in {a, b} && b in {a, b};
    assert b.id <= r[b.key].lastEvent;
  }

  /** The row ends with the state of the older of two actions, the one that comes first in the
      stream, if and only if its counter has more digits: exactly then flattening inverts the
      order of the two. */
  lemma OlderActionWinsIff(t: Table, batches: seq<seq<Event>>, a: Event, b: Event, first: StreamId, second: StreamId)
    requires Effective(t, batches) == {a, b} && a.key == b.key && a.flag != b.flag
    requires a.key in t ==> t[a.key].lastEvent < a.id && t[a.key].lastEvent < b.id
    requires a.id == Flatten(first) && b.id == Flatten(second) && Before(first, second)
    requires first.ms > 0 && Width(first.ms) == Width(second.ms)
    ensures var r := Run(t, batches);
            && a.key in r
            && (r[a.key].state == a.flag <==> Width(second.counter) < Width(first.counter))
            && (r[a.key].state == b.flag <==> Width(first.counter) <= Width(second.counter))
  {
    FlattenOrder(first, second);
    FlattenInjective(first, second);
    if a.id < b.id {
      GreaterIdWins(t, batches, a, b);
    } else {
      assert {a, b} == {b, a};
      GreaterIdWins(t, batches, b, a);
    }
  }
}
