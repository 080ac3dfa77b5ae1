/** What a commit, and a whole round of the consumer, does to each event of a batch, said of
    the stores before and after alone: which events count as applied, what becomes of their
    rows, intents and increments, and which events are dead-lettered. */
module RoundOutcome {
  import opened Events
  import opened Association
  import opened Pipeline
  import opened PipelineSafety
  import opened PipelineView
  import opened RedisCommands
  import BisectInsert

  // ------------------------------------------------------------------- which events count

  /** The event at `i` changes its row: it is not skipped, and newer than the row and than
      every earlier event of the batch on its key that is not skipped. */
  predicate TakesEffect(rows: Table, batch: seq<Event>, skipped: set<nat>, i: nat)
    requires i < |batch|
  {
    && batch[i].id !in skipped
    && (batch[i].key in rows ==> rows[batch[i].key].lastEvent < batch[i].id)
    && forall j | 0 <= j < i && batch[j].key == batch[i].key && batch[j].id !in skipped :: batch[j].id < batch[i].id
  }

  /** When no key is repeated, an event changes its row unless it is skipped or the row before
      covers it. */
  lemma DistinctTakesEffect(rows: Table, batch: seq<Event>, skipped: set<nat>, i: nat)
    requires DistinctKeys(batch) && i < |batch|
    ensures TakesEffect(rows, batch, skipped, i) <==> batch[i].id !in skipped && !Covers(rows, batch[i])
  {
  }

  /** No later event of the batch changes the same row again. */
  predicate TakesEffectLast(rows: Table, batch: seq<Event>, skipped: set<nat>, i: nat)
    requires i < |batch|
  {
    && TakesEffect(rows, batch, skipped, i)
    && forall j | i < j < |batch| && batch[j].key == batch[i].key :: !TakesEffect(rows, batch, skipped, j)
  }

  predicate Untouched(rows: Table, batch: seq<Event>, skipped: set<nat>, key: Key) {
    forall i | 0 <= i < |batch| && batch[i].key == key :: !TakesEffect(rows, batch, skipped, i)
  }

  /** The rows hold the last events to take effect, other keys are as before. */
  ghost predicate RowsAfter(rows: Table, batch: seq<Event>, skipped: set<nat>, rows': Table) {
    && (forall i | 0 <= i < |batch| && TakesEffectLast(rows, batch, skipped, i) ::
          batch[i].key in rows' && rows'[batch[i].key] == Row(batch[i].flag, batch[i].id))
    && (forall key | Untouched(rows, batch, skipped, key) ::
          if key in rows then key in rows' && rows'[key] == rows[key] else key !in rows')
  }

  /** `part` is made of events of the batch, in their order. */
  ghost predicate InOrder(part: seq<Event>, batch: seq<Event>) {
    && (forall e | e in part :: e in batch)
    && forall i, j, a, b | 0 <= i < j < |part| && 0 <= a < |batch| && 0 <= b < |batch| && part[i] == batch[a] && part[j] == batch[b] ::
         a < b
  }

  /** The applied events are those that take effect, the failed ones are the others. */
  ghost predicate SplitByEffect(rows: Table, batch: seq<Event>, skipped: set<nat>, applied: seq<Event>, failed: seq<Event>) {
    && InOrder(applied, batch) && InOrder(failed, batch)
    && forall i | 0 <= i < |batch| ::
         && (batch[i] in applied <==> TakesEffect(rows, batch, skipped, i))
         && (batch[i] in failed <==> !TakesEffect(rows, batch, skipped, i))
  }

  // ---------------------------------------------------------------------------- the insert

  function Progressed(rows: Table, batch: seq<Event>, skipped: set<nat>, hi: nat): BisectInsert.Progress<Table>
    requires hi <= |batch|
  {
    BisectInsert.Sequential(InsertOne(skipped), BisectInsert.Progress(rows, []), batch, 0, hi)
  }

  lemma {:induction false} NewerAfter(rows: Table, batch: seq<Event>, skipped: set<nat>, hi: nat, e: Event)
    requires hi <= |batch|
    ensures Newer(Progressed(rows, batch, skipped, hi).table, e)
            <==> Newer(rows, e) && forall j | 0 <= j < hi && batch[j].key == e.key && batch[j].id !in skipped :: batch[j].id < e.id
  {
    if hi > 0 {
      NewerAfter(rows, batch, skipped, hi - 1, e);
      NewerAfter(rows, batch, skipped, hi - 1, batch[hi - 1]);
    }
  }

  /** The next event changes the table exactly when it takes effect. */
  lemma ProgressStep(rows: Table, batch: seq<Event>, skipped: set<nat>, n: nat)
    requires n < |batch|
    ensures var p, e := Progressed(rows, batch, skipped, n), batch[n];
            Progressed(rows, batch, skipped, n + 1)
            == if TakesEffect(rows, batch, skipped, n)
               then BisectInsert.Progress(p.table[e.key := Row(e.flag, e.id)], p.inserted + [e.id]) else p
  {
    NewerAfter(rows, batch, skipped, n, batch[n]);
  }

  lemma {:induction false} InsertedIds(rows: Table, batch: seq<Event>, skipped: set<nat>, hi: nat, id: nat)
    requires hi <= |batch|
    ensures id in Progressed(rows, batch, skipped, hi).inserted
            <==> exists i :: 0 <= i < hi && batch[i].id == id && TakesEffect(rows, batch, skipped, i)
  {
    if hi > 0 {
      InsertedIds(rows, batch, skipped, hi - 1, id);
      ProgressStep(rows, batch, skipped, hi - 1);
      hide Progressed;
      hide TakesEffect;
    }
  }

  /** The first hi events leave the row of a key to the last of them that takes effect. */
  ghost predicate RowHolds(rows: Table, batch: seq<Event>, skipped: set<nat>, hi: nat, key: Key, t: Table)
    requires hi <= |batch|
  {
    && (forall i | 0 <= i < hi && batch[i].key == key && TakesEffect(rows, batch, skipped, i)
                   && (forall j | i < j < hi && batch[j].key == key :: !TakesEffect(rows, batch, skipped, j)) ::
          key in t && t[key] == Row(batch[i].flag, batch[i].id))
    && ((forall i | 0 <= i < hi && batch[i].key == key :: !TakesEffect(rows, batch, skipped, i)) ==>
          if key in rows then key in t && t[key] == rows[key] else key !in t)
  }

  lemma RowHoldsFirst(rows: Table, batch: seq<Event>, skipped: set<nat>, key: Key)
    ensures RowHolds(rows, batch, skipped, 0, key, rows)
  {
    hide TakesEffect;
  }

  lemma RowHoldsStep(rows: Table, batch: seq<Event>, skipped: set<nat>, n: nat, key: Key, t: Table)
    requires n < |batch| && RowHolds(rows, batch, skipped, n, key, t)
    ensures var e := batch[n];
            RowHolds(rows, batch, skipped, n + 1, key, if TakesEffect(rows, batch, skipped, n) then t[e.key := Row(e.flag, e.id)] else t)
  {
    hide TakesEffect;
    var e := batch[n];
    if e.key == key && TakesEffect(rows, batch, skipped, n) {
      RowHoldsLast(rows, batch, skipped, n, t[e.key := Row(e.flag, e.id)]);
    } else {
      var u := if TakesEffect(rows, batch, skipped, n) then t[e.key := Row(e.flag, e.id)] else t;
      assert key in u <==> key in t;
      assert key in t ==> u[key] == t[key];
      RowHoldsSame(rows, batch, skipped, n, key, t, u);
    }
  }

  lemma RowHoldsLast(rows: Table, batch: seq<Event>, skipped: set<nat>, n: nat, t: Table)
    requires n < |batch| && TakesEffect(rows, batch, skipped, n)
    requires batch[n].key in t && t[batch[n].key] == Row(batch[n].flag, batch[n].id)
    ensures RowHolds(rows, batch, skipped, n + 1, batch[n].key, t)
  {
    hide TakesEffect;
  }

  lemma RowHoldsSame(rows: Table, batch: seq<Event>, skipped: set<nat>, n: nat, key: Key, t: Table, u: Table)
    requires n < |batch| && RowHolds(rows, batch, skipped, n, key, t)
    requires batch[n].key == key ==> !TakesEffect(rows, batch, skipped, n)
    requires (key in u <==> key in t) && (key in t ==> u[key] == t[key])
    ensures RowHolds(rows, batch, skipped, n + 1, key, u)
  {
    hide TakesEffect;
  }

  lemma {:induction false} InsertedRow(rows: Table, batch: seq<Event>, skipped: set<nat>, hi: nat, key: Key)
    requires hi <= |batch|
    ensures RowHolds(rows, batch, skipped, hi, key, Progressed(rows, batch, skipped, hi).table)
  {
    hide RowHolds;
    hide TakesEffect;
    if hi == 0 {
      RowHoldsFirst(rows, batch, skipped, key);
    } else {
      InsertedRow(rows, batch, skipped, hi - 1, key);
      ProgressStep(rows, batch, skipped, hi - 1);
      RowHoldsStep(rows, batch, skipped, hi - 1, key, Progressed(rows, batch, skipped, hi - 1).table);
      hide Progressed;
    }
  }

  lemma InsertedRows(rows: Table, batch: seq<Event>, skipped: set<nat>)
    ensures RowsAfter(rows, batch, skipped, Inserted(rows, batch, skipped).table)
  {
    hide TakesEffect;
    var t := Inserted(rows, batch, skipped).table;
    forall key
      ensures RowHolds(rows, batch, skipped, |batch|, key, t)
    {
      InsertedRow(rows, batch, skipped, |batch|, key);
      hide RowHolds;
    }
    hide Inserted;
    forall i | 0 <= i < |batch| && TakesEffectLast(rows, batch, skipped, i)
      ensures batch[i].key in t && t[batch[i].key] == Row(batch[i].flag, batch[i].id)
    {
      assert RowHolds(rows, batch, skipped, |batch|, batch[i].key, t);
    }
    forall key | Untouched(rows, batch, skipped, key)
      ensures if key in rows then key in t && t[key] == rows[key] else key !in t
    {
      assert RowHolds(rows, batch, skipped, |batch|, key, t);
    }
  }

  lemma InsertedOutcome(rows: Table, batch: seq<Event>, skipped: set<nat>)
    requires DistinctIds(batch)
    ensures var done := Inserted(rows, batch, skipped);
            && RowsAfter(rows, batch, skipped, done.table)
            && forall i | 0 <= i < |batch| :: batch[i].id in done.inserted <==> TakesEffect(rows, batch, skipped, i)
    ensures forall id | id in Inserted(rows, batch, skipped).inserted :: id in Ids(batch) && id !in skipped
  {
    hide RowsAfter;
    InsertedRows(rows, batch, skipped);
    var done := Inserted(rows, batch, skipped);
    assert done == Progressed(rows, batch, skipped, |batch|);
    hide Inserted;
    hide Progressed;
    forall i | 0 <= i < |batch|
      ensures batch[i].id in done.inserted <==> TakesEffect(rows, batch, skipped, i)
    {
      InsertedIds(rows, batch, skipped, |batch|, batch[i].id);
    }
    forall id | id in done.inserted
      ensures id in Ids(batch) && id !in skipped
    {
      InsertedIds(rows, batch, skipped, |batch|, id);
    }
  }

  lemma {:induction false} ThoseInOrder(batch: seq<Event>, ids: set<nat>, inside: bool)
    requires DistinctIds(batch)
    ensures InOrder(Those(batch, ids, inside), batch)
  {
    hide InOrder;
    if batch == [] {
      NothingInOrder(batch);
    } else {
      var n := |batch| - 1;
      ThoseInOrder(batch[..n], ids, inside);
      ThoseStep(batch, ids, inside, n);
      assert batch[..n + 1] == batch;
      var some := Those(batch[..n], ids, inside);
      hide Those;
      InOrderGrows(some, batch);
      assert (batch[n].id in ids) != inside ==> Those(batch, ids, inside) == some;
    }
  }

  lemma NothingInOrder(batch: seq<Event>)
    ensures InOrder([], batch)
  {
  }

  lemma InOrderGrows(part: seq<Event>, batch: seq<Event>)
    requires DistinctIds(batch) && batch != [] && InOrder(part, batch[..|batch| - 1])
    ensures InOrder(part, batch) && InOrder(part + [batch[|batch| - 1]], batch)
  {
    var n := |batch| - 1;
    var init, more := batch[..n], part + [batch[n]];
    forall i, a | 0 <= i < |part| && 0 <= a < |batch| && part[i] == batch[a]
      ensures a < n && init[a] == part[i]
    {
      assert part[i] in init;
    }
    forall i, j, a, b | 0 <= i < j < |more| && 0 <= a < |batch| && 0 <= b < |batch| && more[i] == batch[a] && more[j] == batch[b]
      ensures a < b
    {
      assert more[i] == part[i];
      if j == |part| {
        assert batch[b].id == batch[n].id;
      } else {
        assert more[j] == part[j];
      }
    }
    forall i, j, a, b | 0 <= i < j < |part| && 0 <= a < |batch| && 0 <= b < |batch| && part[i] == batch[a] && part[j] == batch[b]
      ensures a < b
    {
      assert init[a] == part[i] && init[b] == part[j];
    }
  }

  lemma SplitOutcome(rows: Table, batch: seq<Event>, skipped: set<nat>, ids: set<nat>)
    requires DistinctIds(batch)
    requires forall i | 0 <= i < |batch| :: batch[i].id in ids <==> TakesEffect(rows, batch, skipped, i)
    ensures SplitByEffect(rows, batch, skipped, Those(batch, ids, true), Those(batch, ids, false))
  {
    ThoseInOrder(batch, ids, true);
    ThoseInOrder(batch, ids, false);
    ThoseHolds(batch, ids, true);
    ThoseHolds(batch, ids, false);
    hide Those;
    hide InOrder;
    hide TakesEffect;
  }

  // ---------------------------------------------------------------------------- the commit

  /** A commit writes the rows and the dedup rows of the whole batch and nothing else; a worker
      that learns of it holds the events that took effect as applied and the others as failed. */
  ghost predicate CommitOutcome(s: State, t: State, w: nat, rejected: set<nat>, replied: bool)
    requires w < |s.workers| && s.workers[w].InTx?
  {
    var batch := s.workers[w].batch;
    && RowsAfter(s.rows, batch, rejected, t.rows)
    && t.dedup == s.dedup + Ids(batch) && t.commits == s.commits + IdsOf(batch)
    && t == s.(rows := t.rows, dedup := t.dedup, commits := t.commits, workers := t.workers)
    && |t.workers| == |s.workers| && (forall v | 0 <= v < |s.workers| && v != w :: t.workers[v] == s.workers[v])
    && if replied
       then t.workers[w].Committed? && SplitByEffect(s.rows, batch, rejected, t.workers[w].applied, t.workers[w].failed)
       else t.workers[w] == Holding(batch)
  }

  lemma CommitHasOutcome(s: State, w: nat, rejected: set<nat>, replied: bool)
    requires s.cursor <= |s.log| && w < |s.workers| && s.workers[w].InTx? && s.workers[w].dups == []
    requires DistinctIds(s.workers[w].batch)
    ensures CommitOutcome(s, Exec(s, Commit(w, rejected, replied)), w, rejected, replied)
  {
    hide CommitOutcome;
    CommitStep(s, w, rejected, replied);
    CommittingHasOutcome(s, w, rejected, replied);
    hide Exec;
  }

  lemma CommitStep(s: State, w: nat, rejected: set<nat>, replied: bool)
    requires s.cursor <= |s.log| && w < |s.workers| && s.workers[w].InTx? && s.workers[w].dups == []
    ensures Exec(s, Commit(w, rejected, replied)) == Committing(s, w, s.workers[w].batch, rejected, replied)
  {
    hide Committing;
    hide Outside;
    hide Redis;
  }

  /** In a batch without a repeated key the applied events are those that no constraint rejects
      and that the rows before did not cover. */
  lemma CommitApplies(s: State, w: nat, rejected: set<nat>, e: Event)
    requires s.cursor <= |s.log| && w < |s.workers| && s.workers[w].InTx? && s.workers[w].dups == []
    requires DistinctIds(s.workers[w].batch) && DistinctKeys(s.workers[w].batch)
    ensures var batch, worker := s.workers[w].batch, Exec(s, Commit(w, rejected, true)).workers[w];
            && worker.Committed?
            && (e in worker.applied <==> e in batch && e.id !in rejected && !Covers(s.rows, e))
            && (e in worker.failed <==> e in batch && (e.id in rejected || Covers(s.rows, e)))
  {
    var batch := s.workers[w].batch;
    CommitHasOutcome(s, w, rejected, true);
    var worker := Exec(s, Commit(w, rejected, true)).workers[w];
    hide Exec;
    if e in batch {
      var i :| 0 <= i < |batch| && batch[i] == e;
      DistinctTakesEffect(s.rows, batch, rejected, i);
      hide TakesEffect;
    }
  }

  lemma CommittingHasOutcome(s: State, w: nat, rejected: set<nat>, replied: bool)
    requires w < |s.workers| && s.workers[w].InTx? && DistinctIds(s.workers[w].batch)
    ensures CommitOutcome(s, Committing(s, w, s.workers[w].batch, rejected, replied), w, rejected, replied)
  {
    hide Inserted;
    hide Those;
    hide RowsAfter;
    hide SplitByEffect;
    hide TakesEffect;
    var batch := s.workers[w].batch;
    InsertedOutcome(s.rows, batch, rejected);
    var done := Inserted(s.rows, batch, rejected);
    var ids := set id | id in done.inserted;
    SplitOutcome(s.rows, batch, rejected, ids);
  }

  // ----------------------------------------------------------------------------- the round

  /** The increments of the first n events, of those that take effect. */
  function EffectSum(rows: Table, batch: seq<Event>, skipped: set<nat>, n: nat, group: nat, key: string): int
    requires n <= |batch|
  {
    if n == 0 then 0
    else
      EffectSum(rows, batch, skipped, n - 1, group, key)
      + if TakesEffect(rows, batch, skipped, n - 1) then Named(batch[n - 1].updates, group, key) else 0
  }

  /** New events that do not take effect are left over for the dead-letter stream. */
  predicate LeftOver(s: State, batch: seq<Event>, rejected: set<nat>, i: nat)
    requires i < |batch|
  {
    batch[i].id !in s.dedup && !TakesEffect(s.rows, batch, s.dedup + rejected, i)
  }

  /** The event comes above the dead-letter stream and above those left over before it. */
  predicate InTurn(s: State, batch: seq<Event>, rejected: set<nat>, i: nat)
    requires i < |batch|
  {
    batch[i].id > s.letters.top && forall j | 0 <= j < i && LeftOver(s, batch, rejected, j) :: batch[j].id < batch[i].id
  }

  ghost predicate AllInTurn(s: State, batch: seq<Event>, rejected: set<nat>) {
    forall i | 0 <= i < |batch| && LeftOver(s, batch, rejected, i) :: InTurn(s, batch, rejected, i)
  }

  /** Exactly the intents that an event to take effect stored are gone. */
  ghost predicate IntentsAfter(s: State, batch: seq<Event>, rejected: set<nat>, intents: map<Key, Intent>) {
    forall key ::
      if key in s.intents && forall i | 0 <= i < |batch| && batch[i].key == key && TakesEffect(s.rows, batch, s.dedup + rejected, i) ::
                               s.intents[key] != Intent(batch[i].flag, batch[i].intent)
      then key in intents && intents[key] == s.intents[key]
      else key !in intents
  }

  /** Exactly the events left over are dead-lettered, those in turn; the others are lost. */
  ghost predicate LettersAfter(s: State, batch: seq<Event>, rejected: set<nat>, ids: set<nat>, lost: set<nat>) {
    && (forall id :: id in ids <==>
          id in s.letters.ids
          || exists i :: 0 <= i < |batch| && batch[i].id == id && LeftOver(s, batch, rejected, i) && InTurn(s, batch, rejected, i))
    && (forall id :: id in lost <==>
          id in s.lost || (id !in ids && exists i :: 0 <= i < |batch| && batch[i].id == id && LeftOver(s, batch, rejected, i)))
  }

  /** What a round in which nobody else moves and every reply arrives does to the stores. */
  ghost predicate Settled(s: State, t: State, batch: seq<Event>, rejected: set<nat>) {
    && t.log == s.log && t.cursor == s.cursor && t.workers == s.workers
    && t.pel == s.pel - Ids(batch) && t.dedup == s.dedup + Ids(batch)
    && RowsAfter(s.rows, batch, s.dedup + rejected, t.rows)
    && IntentsAfter(s, batch, rejected, t.intents)
    && (forall group, key ::
          Count(t.counts, group, key)
          == Count(s.counts, group, key) + EffectSum(s.rows, batch, s.dedup + rejected, |batch|, group, key))
    && LettersAfter(s, batch, rejected, t.letters.ids, t.lost)
  }

  /** What a round that fails for good does instead: its new events are dead-lettered, the
      others acknowledged, and nothing else changes. */
  ghost predicate Abandoned(s: State, t: State, batch: seq<Event>) {
    && t == s.(pel := s.pel - Ids(batch), letters := t.letters, lost := t.lost)
    && LettersAfter(s, batch, Ids(batch), t.letters.ids, t.lost)
  }

  // ------------------------------------------------------------------ the parts of a round

  lemma ThoseAppended(batch: seq<Event>, e: Event, ids: set<nat>, inside: bool)
    ensures Those(batch + [e], ids, inside) == Those(batch, ids, inside) + if (e.id in ids) == inside then [e] else []
  {
    assert (batch + [e])[..|batch + [e]| - 1] == batch;
  }

  lemma {:induction false} ThoseTwice(batch: seq<Event>, a: set<nat>, b: set<nat>)
    ensures Those(Those(batch, a, false), b, true) == Those(batch, b - a, true)
    ensures Those(Those(batch, a, false), b, false) == Those(batch, a + b, false)
  {
    if batch != [] {
      var init, e := batch[..|batch| - 1], batch[|batch| - 1];
      ThoseTwice(init, a, b);
      assert batch == init + [e];
      ThoseAppended(init, e, a, false);
      ThoseAppended(init, e, b - a, true);
      ThoseAppended(init, e, a + b, false);
      var some := Those(init, a, false);
      ThoseAppended(some, e, b, true);
      ThoseAppended(some, e, b, false);
      hide Those;
      if e.id in a {
        assert Those(batch, a, false) == some;
      }
    }
  }

  lemma {:induction false} SequentialPrefix(rows: Table, left: seq<Event>, right: seq<Event>, rejected: set<nat>, hi: nat)
    requires hi <= |left| && hi <= |right| && left[..hi] == right[..hi]
    ensures Progressed(rows, left, rejected, hi) == Progressed(rows, right, rejected, hi)
  {
    if hi > 0 {
      assert left[hi - 1] == left[..hi][hi - 1] == right[hi - 1];
      assert left[..hi - 1] == left[..hi][..hi - 1] == right[..hi - 1];
      SequentialPrefix(rows, left, right, rejected, hi - 1);
    }
  }

  function InsertedNext(p: BisectInsert.Progress<Table>, e: Event, rejected: set<nat>): BisectInsert.Progress<Table> {
    if e.id in rejected then p
    else BisectInsert.Progress(Upsert(p.table, e), p.inserted + if Newer(p.table, e) then [e.id] else [])
  }

  lemma InsertedAppended(rows: Table, batch: seq<Event>, e: Event, rejected: set<nat>)
    ensures Inserted(rows, batch + [e], rejected) == InsertedNext(Inserted(rows, batch, rejected), e, rejected)
  {
    SequentialPrefix(rows, batch, batch + [e], rejected, |batch|);
  }

  /** Inserting what the dedup table leaves is inserting the whole batch without the rest. */
  lemma {:induction false} InsertedSkips(rows: Table, batch: seq<Event>, dedup: set<nat>, rejected: set<nat>)
    ensures Inserted(rows, Those(batch, dedup, false), rejected) == Inserted(rows, batch, dedup + rejected)
  {
    if batch != [] {
      var init, e := batch[..|batch| - 1], batch[|batch| - 1];
      var some := Those(init, dedup, false);
      InsertedSkips(rows, init, dedup, rejected);
      assert batch == init + [e];
      ThoseAppended(init, e, dedup, false);
      InsertedAppended(rows, init, e, dedup + rejected);
      InsertedAppended(rows, some, e, rejected);
      hide Those;
      hide Inserted;
      if e.id in dedup {
        assert Those(batch, dedup, false) == some;
      }
    }
  }

  lemma UpdatesAppended(batch: seq<Event>, e: Event)
    ensures Updates(batch + [e]) == Updates(batch) + e.updates
  {
    assert (batch + [e])[..|batch + [e]| - 1] == batch;
  }

  lemma {:induction false} EffectSumIsNamed(rows: Table, batch: seq<Event>, skipped: set<nat>, ids: set<nat>, n: nat, group: nat, key: string)
    requires n <= |batch|
    requires forall i | 0 <= i < |batch| :: batch[i].id in ids <==> TakesEffect(rows, batch, skipped, i)
    ensures Named(Updates(Those(batch[..n], ids, true)), group, key) == EffectSum(rows, batch, skipped, n, group, key)
  {
    hide TakesEffect;
    if n == 0 {
      assert batch[..0] == [];
    } else {
      hide Those;
      hide Updates;
      hide Named;
      EffectSumIsNamed(rows, batch, skipped, ids, n - 1, group, key);
      var some, e := Those(batch[..n - 1], ids, true), batch[n - 1];
      ThoseStep(batch, ids, true, n - 1);
      UpdatesAppended(some, e);
      NamedConcat(Updates(some), e.updates, group, key);
      if e.id !in ids {
        assert Those(batch[..n], ids, true) == some;
      }
    }
  }

  /** Dead-lettering events in a row adds those that come above the others before them, and is
      ascending when they all do. */
  ghost predicate LettersByPosition(letters: Letters, batch: seq<Event>, ids: set<nat>, n: nat, part: seq<Event>)
    requires n <= |batch|
  {
    && (Ascending(letters, part) <==> forall i | 0 <= i < n && batch[i].id !in ids :: AboveOthers(letters, batch, ids, i))
    && (forall id :: id in Added(letters, part).ids <==>
          id in letters.ids
          || exists i :: 0 <= i < n && batch[i].id == id && batch[i].id !in ids && AboveOthers(letters, batch, ids, i))
  }

  lemma NoLettersByPosition(letters: Letters, batch: seq<Event>, ids: set<nat>)
    ensures LettersByPosition(letters, batch, ids, 0, Those(batch[..0], ids, false))
  {
    hide AboveOthers;
    assert Those(batch[..0], ids, false) == [];
  }

  lemma NextLetter(letters: Letters, batch: seq<Event>, ids: set<nat>, m: nat, some: seq<Event>)
    requires m < |batch| && LettersByPosition(letters, batch, ids, m, some)
    requires Added(letters, some).top < batch[m].id <==> AboveOthers(letters, batch, ids, m)
    ensures LettersByPosition(letters, batch, ids, m + 1, if batch[m].id in ids then some else some + [batch[m]])
  {
    hide Added;
    hide Ascending;
    hide AboveOthers;
    AppendedLetter(letters, some, batch[m]);
  }

  lemma {:induction false} AddedByPosition(letters: Letters, batch: seq<Event>, ids: set<nat>, n: nat)
    requires n <= |batch|
    ensures LettersByPosition(letters, batch, ids, n, Those(batch[..n], ids, false))
  {
    hide LettersByPosition;
    if n == 0 {
      NoLettersByPosition(letters, batch, ids);
    } else {
      hide Those;
      hide Added;
      hide AboveOthers;
      var some := Those(batch[..n - 1], ids, false);
      AddedByPosition(letters, batch, ids, n - 1);
      TopByPosition(letters, batch, ids, n - 1);
      NextLetter(letters, batch, ids, n - 1, some);
      ThoseStep(batch, ids, false, n - 1);
      assert some + [] == some;
    }
  }

  lemma AppendedLetter(letters: Letters, some: seq<Event>, e: Event)
    ensures var before := Added(letters, some);
            && Added(letters, some + [e]) == (if e.id > before.top then Letters(before.ids + {e.id}, e.id) else before)
            && (Ascending(letters, some + [e]) <==> Ascending(letters, some) && e.id > before.top)
  {
    var part := some + [e];
    assert part[..|some|] == some && part[..|some| + 1] == part;
    AscendingStep(letters, part, |some|);
  }

  lemma TopByPosition(letters: Letters, batch: seq<Event>, ids: set<nat>, m: nat)
    requires m < |batch|
    ensures Added(letters, Those(batch[..m], ids, false)).top < batch[m].id <==> AboveOthers(letters, batch, ids, m)
  {
    var some := Those(batch[..m], ids, false);
    AddedTop(letters, some);
    ThoseHolds(batch[..m], ids, false);
    hide Those;
    hide Added;
    forall j | 0 <= j < m && batch[j].id !in ids
      ensures batch[j].id <= Added(letters, some).top
    {
      assert batch[..m][j] in batch[..m];
      var i :| 0 <= i < |some| && some[i] == batch[j];
    }
    forall i | 0 <= i < |some|
      ensures exists j :: 0 <= j < m && batch[j].id == some[i].id && batch[j].id !in ids
    {
      assert some[i] in batch[..m];
    }
  }

  predicate AboveOthers(letters: Letters, batch: seq<Event>, ids: set<nat>, i: nat)
    requires i < |batch|
  {
    batch[i].id > letters.top && forall j | 0 <= j < i && batch[j].id !in ids :: batch[j].id < batch[i].id
  }

  /** The ids of the new events that take effect. */
  function EffectiveIds(s: State, batch: seq<Event>, rejected: set<nat>): set<nat> {
    set id | id in Inserted(s.rows, Those(batch, s.dedup, false), rejected).inserted
  }

  lemma EffectiveIdsHold(s: State, batch: seq<Event>, rejected: set<nat>)
    requires DistinctIds(batch)
    ensures var ids := EffectiveIds(s, batch, rejected);
            && (forall i | 0 <= i < |batch| :: batch[i].id in ids <==> TakesEffect(s.rows, batch, s.dedup + rejected, i))
            && ids !! s.dedup
            && RowsAfter(s.rows, batch, s.dedup + rejected, Inserted(s.rows, Those(batch, s.dedup, false), rejected).table)
            && Those(Those(batch, s.dedup, false), ids, true) == Those(batch, ids, true)
            && Those(Those(batch, s.dedup, false), ids, false) == Those(batch, s.dedup + ids, false)
  {
    InsertedSkips(s.rows, batch, s.dedup, rejected);
    InsertedOutcome(s.rows, batch, s.dedup + rejected);
    hide Inserted;
    hide RowsAfter;
    hide TakesEffect;
    var ids := EffectiveIds(s, batch, rejected);
    ThoseTwice(batch, s.dedup, ids);
    assert ids - s.dedup == ids;
  }

  lemma IntentsSettle(s: State, batch: seq<Event>, rejected: set<nat>, ids: set<nat>)
    requires forall i | 0 <= i < |batch| :: batch[i].id in ids <==> TakesEffect(s.rows, batch, s.dedup + rejected, i)
    ensures IntentsAfter(s, batch, rejected, Cleared(s.intents, Those(batch, ids, true)))
  {
    hide TakesEffect;
    var applied := Those(batch, ids, true);
    ThoseHolds(batch, ids, true);
    ClearedHolds(s.intents, applied);
    hide Those;
    hide Cleared;
    var after := Cleared(s.intents, applied);
    forall i | 0 <= i < |batch| && TakesEffect(s.rows, batch, s.dedup + rejected, i)
      ensures batch[i] in applied
    {
    }
  }

  lemma CountsSettle(s: State, batch: seq<Event>, rejected: set<nat>, ids: set<nat>, group: nat, key: string)
    requires forall i | 0 <= i < |batch| :: batch[i].id in ids <==> TakesEffect(s.rows, batch, s.dedup + rejected, i)
    ensures Count(BumpAll(s.counts, Updates(Those(batch, ids, true))), group, key)
            == Count(s.counts, group, key) + EffectSum(s.rows, batch, s.dedup + rejected, |batch|, group, key)
  {
    hide TakesEffect;
    assert batch[..|batch|] == batch;
    EffectSumIsNamed(s.rows, batch, s.dedup + rejected, ids, |batch|, group, key);
    BumpAllCounts(s.counts, Updates(Those(batch, ids, true)), group, key);
    hide Those;
    hide Updates;
    hide BumpAll;
    hide Named;
  }

  lemma LeftOverIff(s: State, batch: seq<Event>, rejected: set<nat>, ids: set<nat>)
    requires forall i | 0 <= i < |batch| :: batch[i].id in ids <==> TakesEffect(s.rows, batch, s.dedup + rejected, i)
    ensures forall i | 0 <= i < |batch| :: LeftOver(s, batch, rejected, i) <==> batch[i].id !in s.dedup + ids
    ensures forall i | 0 <= i < |batch| :: InTurn(s, batch, rejected, i) <==> AboveOthers(s.letters, batch, s.dedup + ids, i)
  {
    hide TakesEffect;
    assert forall i | 0 <= i < |batch| :: LeftOver(s, batch, rejected, i) <==> batch[i].id !in s.dedup + ids;
    hide LeftOver;
  }

  lemma LeftIds(batch: seq<Event>, ids: set<nat>, id: nat)
    ensures id in Ids(Those(batch, ids, false)) <==> exists i :: 0 <= i < |batch| && batch[i].id == id && batch[i].id !in ids
  {
    ThoseHolds(batch, ids, false);
    hide Those;
    if i :| 0 <= i < |batch| && batch[i].id == id && batch[i].id !in ids {
      assert batch[i] in Those(batch, ids, false);
    }
  }

  lemma LettersSettle(s: State, batch: seq<Event>, rejected: set<nat>, ids: set<nat>)
    requires forall i | 0 <= i < |batch| :: batch[i].id in ids <==> TakesEffect(s.rows, batch, s.dedup + rejected, i)
    ensures var failed := Those(batch, s.dedup + ids, false);
            && LettersAfter(s, batch, rejected, Added(s.letters, failed).ids, s.lost + (Ids(failed) - Added(s.letters, failed).ids))
            && (Ascending(s.letters, failed) <==> AllInTurn(s, batch, rejected))
  {
    hide TakesEffect;
    hide Those;
    hide Added;
    hide Ascending;
    hide LeftOver;
    hide InTurn;
    hide AboveOthers;
    hide Ids;
    var all := s.dedup + ids;
    var failed := Those(batch, all, false);
    LeftOverIff(s, batch, rejected, ids);
    assert batch[..|batch|] == batch;
    AddedByPosition(s.letters, batch, all, |batch|);
    forall id: nat
      ensures id in Ids(failed) <==> exists i :: 0 <= i < |batch| && batch[i].id == id && LeftOver(s, batch, rejected, i)
    {
      LeftIds(batch, all, id);
    }
  }

  /** The stores after trimming, commit, acknowledgement and dead-lettering. */
  lemma RoundSettles(s: State, t: State, batch: seq<Event>, rejected: set<nat>)
    requires DistinctIds(batch)
    requires var ids, left := EffectiveIds(s, batch, rejected), Those(batch, s.dedup + EffectiveIds(s, batch, rejected), false);
             && t.log == s.log && t.cursor == s.cursor && t.workers == s.workers
             && t.pel == s.pel - Ids(batch) && t.dedup == s.dedup + Ids(batch)
             && t.rows == Inserted(s.rows, Those(batch, s.dedup, false), rejected).table
             && t.intents == Cleared(s.intents, Those(batch, ids, true))
             && t.counts == BumpAll(s.counts, Updates(Those(batch, ids, true)))
             && t.letters == Added(s.letters, left) && t.lost == s.lost + (Ids(left) - t.letters.ids)
    ensures Settled(s, t, batch, rejected)
    ensures Ascending(s.letters, Those(batch, s.dedup + EffectiveIds(s, batch, rejected), false)) <==> AllInTurn(s, batch, rejected)
  {
    hide TakesEffect;
    hide EffectiveIds;
    hide Those;
    hide Inserted;
    hide Cleared;
    hide BumpAll;
    hide Updates;
    hide Added;
    hide Ascending;
    hide DistinctIds;
    hide RowsAfter;
    hide IntentsAfter;
    hide LettersAfter;
    hide AllInTurn;
    hide EffectSum;
    hide Count;
    hide Ids;
    var ids := EffectiveIds(s, batch, rejected);
    EffectiveIdsHold(s, batch, rejected);
    IntentsSettle(s, batch, rejected, ids);
    LettersSettle(s, batch, rejected, ids);
    forall group: nat, key: string
      ensures Count(t.counts, group, key)
              == Count(s.counts, group, key) + EffectSum(s.rows, batch, s.dedup + rejected, |batch|, group, key)
    {
      CountsSettle(s, batch, rejected, ids, group, key);
    }
  }

  /** Where no event takes effect, all new ones are left over. */
  lemma AllLeftOver(s: State, batch: seq<Event>)
    ensures var left := Those(batch, s.dedup, false);
            && LettersAfter(s, batch, Ids(batch), Added(s.letters, left).ids, s.lost + (Ids(left) - Added(s.letters, left).ids))
            && (Ascending(s.letters, left) <==> AllInTurn(s, batch, Ids(batch)))
  {
    forall i | 0 <= i < |batch|
      ensures batch[i].id in {} <==> TakesEffect(s.rows, batch, s.dedup + Ids(batch), i)
    {
      assert batch[i] in batch;
    }
    hide TakesEffect;
    LettersSettle(s, batch, Ids(batch), {});
    assert s.dedup + {} == s.dedup;
  }
}
