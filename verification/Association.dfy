/** What WEAK_INSERTION_SQL does to an association table (templates/sql.py): insert, or
    overwrite the state when the incoming event id is greater than the stored one. */
module Association {
  import opened Events

  datatype Row = Row(state: Flag, lastEvent: int)
  type Table = map<Key, Row>

  predicate Newer(t: Table, e: Event) {
    e.key !in t || t[e.key].lastEvent < e.id
  }

  function Upsert(t: Table, e: Event): Table {
    if Newer(t, e) then t[e.key := Row(e.flag, e.id)] else t
  }

  /** Result of one statement over a staged batch: the new table with the rows it returned,
      or the error for changing one row twice. */
  datatype Outcome = Done(table: Table, applied: seq<Event>) | AffectsRowTwice

  function Keys(events: seq<Event>): set<Key> {
    set e | e in events :: e.key
  }

  function Statement(t: Table, staged: seq<Event>): (r: Outcome)
    ensures r.Done? ==> forall e | e in r.applied :: e in staged
  {
    if staged == [] then Done(t, [])
    else
      var e := staged[|staged| - 1];
      match Statement(t, staged[..|staged| - 1])
      case AffectsRowTwice => AffectsRowTwice
      case Done(t', applied) =>
        if e.key in Keys(applied) then AffectsRowTwice
        else if Newer(t', e) then Done(Upsert(t', e), applied + [e])
        else Done(t', applied)
  }

  /** Batches without a repeated key never meet the error. */
  lemma {:induction false} DistinctKeysSucceed(t: Table, staged: seq<Event>)
    requires DistinctKeys(staged)
    ensures Statement(t, staged).Done?
  {
    if staged != [] {
      var init := staged[..|staged| - 1];
      DistinctKeysSucceed(t, init);
      assert staged[|staged| - 1].key !in Keys(Statement(t, init).applied);
    }
  }

  /** Two staged events on one key, the first of them newer than its row. */
  predicate RepeatsApplied(t: Table, staged: seq<Event>) {
    exists i, j :: 0 <= i < j < |staged| && staged[i].key == staged[j].key && Newer(t, staged[i])
  }

  lemma {:induction false} AppliedIff(t: Table, staged: seq<Event>, e: Event)
    requires Statement(t, staged).Done?
    ensures var r := Statement(t, staged);
            && (e.key in Keys(r.applied) <==> exists i :: 0 <= i < |staged| && staged[i].key == e.key && Newer(t, staged[i]))
            && (e.key !in Keys(r.applied) ==> (Newer(r.table, e) <==> Newer(t, e)))
  {
    if staged != [] {
      var n := |staged| - 1;
      var init, last := staged[..n], staged[n];
      AppliedIff(t, init, e);
      AppliedIff(t, init, last);
      AppliedKeys(Statement(t, init).applied, last);
      hide Keys;
    }
  }

  /** The error is raised exactly when a row that an event has changed is named again. */
  lemma {:induction false} AffectsRowTwiceIff(t: Table, staged: seq<Event>)
    ensures Statement(t, staged).AffectsRowTwice? <==> RepeatsApplied(t, staged)
  {
    if staged != [] {
      hide RepeatsApplied;
      hide Newer;
      hide Keys;
      var init, last := staged[..|staged| - 1], staged[|staged| - 1];
      AffectsRowTwiceIff(t, init);
      RepeatsGrow(t, staged);
      if Statement(t, init).Done? {
        AppliedIff(t, init, last);
      }
    } else {
      assert !RepeatsApplied(t, staged);
    }
  }

  lemma AppliedKeys(applied: seq<Event>, e: Event)
    ensures Keys(applied + [e]) == Keys(applied) + {e.key}
  {
  }

  lemma RepeatsGrow(t: Table, staged: seq<Event>)
    requires staged != []
    ensures var n := |staged| - 1;
            RepeatsApplied(t, staged)
            <==> RepeatsApplied(t, staged[..n]) || exists i :: 0 <= i < n && staged[i].key == staged[n].key && Newer(t, staged[i])
  {
    hide Newer;
    var n := |staged| - 1;
    if i, j :| 0 <= i < j < n && staged[i].key == staged[j].key && Newer(t, staged[i]) {
      assert staged[..n][i] == staged[i] && staged[..n][j] == staged[j];
    }
  }

  /** Every staged event is covered by the table afterwards; the returned ones are what the
      table then holds, the others were stale. */
  lemma {:induction false} StatementCovers(t: Table, staged: seq<Event>)
    requires Statement(t, staged).Done?
    ensures var r := Statement(t, staged);
            && t.Keys <= r.table.Keys
            && (forall k | k in t :: t[k].lastEvent <= r.table[k].lastEvent)
            && (forall k | k in r.table :: (k in t && r.table[k] == t[k])
                   || exists e :: e in r.applied && e.key == k && r.table[k] == Row(e.flag, e.id))
            && (forall e | e in staged :: e.key in r.table && e.id <= r.table[e.key].lastEvent)
            && (forall e | e in r.applied :: e.key in r.table && r.table[e.key] == Row(e.flag, e.id))
  {
    if staged != [] {
      StatementCovers(t, staged[..|staged| - 1]);
    }
  }

  /** The table that a set of events calls for on top of `t0`, said without any order: each
      key holds its row of `t0` or one of its events, whichever has the greatest id. */
  ghost predicate HoldsNewest(t0: Table, events: set<Event>, t: Table) {
    && t.Keys == t0.Keys + (set e | e in events :: e.key)
    && (forall k | k in t :: (k in t0 && t[k] == t0[k])
           || exists e :: e in events && e.key == k && t[k] == Row(e.flag, e.id))
    && (forall k | k in t0 :: t0[k].lastEvent <= t[k].lastEvent)
    && (forall e | e in events :: e.id <= t[e.key].lastEvent)
  }

  /** Event ids identify events, also against the rows already stored. */
  ghost predicate Coherent(t0: Table, events: set<Event>) {
    && (forall e, f | e in events && f in events && e.id == f.id :: e == f)
    && (forall e | e in events && e.key in t0 && t0[e.key].lastEvent == e.id :: t0[e.key].state == e.flag)
  }

  lemma NewestRow(t0: Table, events: set<Event>, t: Table, u: Table, k: Key)
    requires Coherent(t0, events) && HoldsNewest(t0, events, t) && HoldsNewest(t0, events, u) && k in t
    ensures k in u && t[k] == u[k]
  {
    if !(k in t0 && t[k] == t0[k]) {
      var e :| e in events && e.key == k && t[k] == Row(e.flag, e.id);
      assert e.id <= u[k].lastEvent;
    }
    if !(k in t0 && u[k] == t0[k]) {
      var f :| f in events && f.key == k && u[k] == Row(f.flag, f.id);
      assert f.id <= t[k].lastEvent;
    }
  }

  lemma NewestIsUnique(t0: Table, events: set<Event>, t: Table, u: Table)
    requires Coherent(t0, events) && HoldsNewest(t0, events, t) && HoldsNewest(t0, events, u)
    ensures t == u
  {
    forall k | k in t
      ensures k in u && t[k] == u[k]
    {
      NewestRow(t0, events, t, u, k);
    }
  }

  lemma UpsertKeepsNewest(t0: Table, events: set<Event>, t: Table, e: Event)
    requires HoldsNewest(t0, events, t)
    ensures HoldsNewest(t0, events + {e}, Upsert(t, e))
  {
    var u := Upsert(t, e);
    assert e in events + {e};
    forall k | k in u
      ensures (k in t0 && u[k] == t0[k])
              || exists f :: f in events + {e} && f.key == k && u[k] == Row(f.flag, f.id)
    {
      if u[k] == Row(e.flag, e.id) && k == e.key {
      } else if !(k in t0 && t[k] == t0[k]) {
        var f :| f in events && f.key == k && t[k] == Row(f.flag, f.id);
        assert f in events + {e};
      }
    }
  }

  function Members(events: seq<Event>): set<Event> {
    set e | e in events
  }

  /** A statement that goes through is its events upserted one after the other. */
  lemma StatementStep(t: Table, staged: seq<Event>)
    requires staged != [] && Statement(t, staged).Done?
    ensures Statement(t, staged[..|staged| - 1]).Done?
    ensures Statement(t, staged).table == Upsert(Statement(t, staged[..|staged| - 1]).table, staged[|staged| - 1])
    ensures Members(staged) == Members(staged[..|staged| - 1]) + {staged[|staged| - 1]}
  {
    assert staged == staged[..|staged| - 1] + [staged[|staged| - 1]];
  }

  lemma {:induction false} StatementKeepsNewest(t0: Table, events: set<Event>, t: Table, staged: seq<Event>)
    requires HoldsNewest(t0, events, t) && Statement(t, staged).Done?
    ensures HoldsNewest(t0, events + Members(staged), Statement(t, staged).table)
  {
    if staged == [] {
      assert events + Members(staged) == events;
    } else {
      var init, e := staged[..|staged| - 1], staged[|staged| - 1];
      StatementStep(t, staged);
      StatementKeepsNewest(t0, events, t, init);
      UpsertKeepsNewest(t0, events + Members(init), Statement(t, init).table, e);
      assert events + Members(staged) == events + Members(init) + {e};
    }
  }

  /** A history of statements; one that fails leaves the table as it was. */
  function Run(t: Table, batches: seq<seq<Event>>): Table {
    if batches == [] then t
    else
      var before := Run(t, batches[..|batches| - 1]);
      match Statement(before, batches[|batches| - 1])
      case Done(after, _) => after
      case AffectsRowTwice => before
  }

  /** The events of the statements that went through. */
  function Effective(t: Table, batches: seq<seq<Event>>): set<Event> {
    if batches == [] then {}
    else
      var init := batches[..|batches| - 1];
      Effective(t, init)
      + if Statement(Run(t, init), batches[|batches| - 1]).Done? then Members(batches[|batches| - 1]) else {}
  }

  lemma {:induction false} RunHoldsNewest(t: Table, batches: seq<seq<Event>>)
    ensures HoldsNewest(t, Effective(t, batches), Run(t, batches))
  {
    if batches != [] {
      var init, last := batches[..|batches| - 1], batches[|batches| - 1];
      RunHoldsNewest(t, init);
      if Statement(Run(t, init), last).Done? {
        StatementKeepsNewest(t, Effective(t, init), Run(t, init), last);
      } else {
        assert Effective(t, batches) == Effective(t, init);
      }
    }
  }

  /** Order, grouping and repetition do not matter: two histories with the same effective
      events end in the same table. */
  lemma HistoryIrrelevant(t: Table, left: seq<seq<Event>>, right: seq<seq<Event>>)
    requires Coherent(t, Effective(t, left)) && Effective(t, left) == Effective(t, right)
    ensures Run(t, left) == Run(t, right)
  {
    RunHoldsNewest(t, left);
    RunHoldsNewest(t, right);
    NewestIsUnique(t, Effective(t, left), Run(t, left), Run(t, right));
  }
}
