/** Every run of key operations, with rotations, invalidations and cleans that fail anywhere.
    The key table is in order in all of them. How far the JWKS file, the PEM files and the
    shared list are from it is told by what the run did, to the key. */
module KeyRuns {
  import opened Wrappers
  import opened KeyLifecycle
  import opened KeyAgreement

  /** One active valid key, inserted last, and no more valid keys than the capacity. */
  ghost predicate TableOk(s: Store, capacity: nat) {
    Ordered(s.table, s.clock) && |Select(Valid, s.table)| <= capacity
  }

  function ValidKids(table: seq<KeyRow>): set<Kid> {
    Kids(Select(Valid, table))
  }

  /** The JWKS file lists the valid keys in rotation order. */
  predicate Listed(s: Store) {
    s.jwks == Entries(Select(Valid, s.table))
  }

  // --------------------------------------------------------------------------- the table

  /** Stores in agreement over the same table. */
  lemma Reference(s: Store, capacity: nat)
    requires TableOk(s, capacity)
    ensures var r := Boot(s.table, s.clock, true);
            && FilesAgree(r, capacity) && r.table == s.table && r.clock == s.clock
            && r.jwks == Entries(Select(Valid, s.table)) && JwksKids(r.jwks) == ValidKids(s.table)
            && ValidKids(s.table) <= Kids(s.table)
  {
    BootAgrees(s.table, s.clock, capacity);
    ValidEntries(s.table);
  }

  /** The key that a rotation expires, if any. */
  function ExpiredBy(s: Store, capacity: nat, kid: Kid, pem: Pem): set<Kid> {
    match RotateTable(s.table, capacity, kid, pem, s.clock + 1)
    case None => {}
    case Some((_, expired)) => if expired.Some? then {expired.value} else {}
  }

  lemma RotatedTable(s: Store, capacity: nat, kid: Kid, pem: Pem)
    requires capacity >= 1 && TableOk(s, capacity) && kid !in Kids(s.table)
    ensures var r := RotateTable(s.table, capacity, kid, pem, s.clock + 1);
            && r.Some? && Ordered(r.value.0, s.clock + 1) && |Select(Valid, r.value.0)| <= capacity
            && Entries(Select(Valid, r.value.0)) == KeepLast(Entries(Select(Valid, s.table)) + [Jwk(kid, pem)], capacity)
            && ValidKids(r.value.0) == ValidKids(s.table) + {kid} - ExpiredBy(s, capacity, kid, pem)
  {
    hide Boot;
    hide Ordered;
    hide Select;
    hide PemsMatch;
    hide MarkExpired;
    hide Drop;
    hide RotateTable;
    hide KeepLast;
    var reference := Boot(s.table, s.clock, true);
    Reference(s, capacity);
    RotateAgrees(reference, capacity, kid, pem);
    hide FilesAgree;
    var table := RotateTable(s.table, capacity, kid, pem, s.clock + 1).value.0;
    DistinctWhenOrdered(table, s.clock + 1);
    ValidEntries(table);
  }

  /** The expired key was valid, and the new one is not expired at once. */
  lemma ExpiredWasValid(s: Store, capacity: nat, kid: Kid, pem: Pem)
    requires capacity >= 1 && TableOk(s, capacity) && kid !in Kids(s.table)
    ensures ExpiredBy(s, capacity, kid, pem) <= ValidKids(s.table) && kid !in ExpiredBy(s, capacity, kid, pem)
  {
    hide Boot;
    hide Ordered;
    hide Select;
    hide PemsMatch;
    hide MarkExpired;
    hide Drop;
    var reference := Boot(s.table, s.clock, true);
    Reference(s, capacity);
    RotateResult(reference, capacity, kid, pem);
    var entries := reference.jwks;
    hide RotateTable;
    if |entries + [Jwk(kid, pem)]| > capacity {
      assert (entries + [Jwk(kid, pem)])[0] == entries[0] && entries[0] in entries;
    }
  }

  lemma InvalidatedTable(s: Store, capacity: nat, kid: Kid)
    requires TableOk(s, capacity) && Row(s.table, kid).Some? && Inactive(Row(s.table, kid).value)
    ensures var table := MarkExpired(s.table, {kid}, s.clock + 1);
            && Ordered(table, s.clock + 1) && |Select(Valid, table)| <= capacity
            && Entries(Select(Valid, table)) == Drop(Entries(Select(Valid, s.table)), {kid})
            && kid in ValidKids(s.table) && ValidKids(table) == ValidKids(s.table) - {kid}
            && Kids(table) == Kids(s.table)
  {
    hide Boot;
    hide Ordered;
    hide Select;
    hide PemsMatch;
    hide MarkExpired;
    hide Drop;
    hide Row;
    var reference := Boot(s.table, s.clock, true);
    Reference(s, capacity);
    InactiveIsListed(reference, capacity, kid);
    Shrink(reference, capacity, {kid});
    ShrunkKids(s, capacity, {kid});
  }

  lemma CleanedTable(s: Store, capacity: nat)
    requires TableOk(s, capacity)
    ensures var kids, last := InactiveSet(s.table), s.table[|s.table| - 1];
            var table := MarkExpired(s.table, kids, s.clock + 1);
            && Active(s.table) == Some(last)
            && Ordered(table, s.clock + 1) && |Select(Valid, table)| <= capacity
            && Entries(Select(Valid, table)) == [Jwk(last.kid, last.pem)]
            && kids <= ValidKids(s.table) && last.kid in ValidKids(s.table) && last.kid !in kids
            && ValidKids(table) == ValidKids(s.table) - kids == {last.kid}
            && Kids(table) == Kids(s.table)
  {
    hide Boot;
    hide Ordered;
    hide Select;
    hide PemsMatch;
    hide MarkExpired;
    hide Drop;
    hide InactiveSet;
    var reference := Boot(s.table, s.clock, true);
    var kids := InactiveSet(s.table);
    Reference(s, capacity);
    InactiveKidsAreListed(reference, capacity);
    Shrink(reference, capacity, kids);
    ShrunkKids(s, capacity, kids);
    ActiveIsLast(s.table, s.clock);
    LastIsValid(s, capacity);
    var last := s.table[|s.table| - 1];
    OneListed(Jwk(last.kid, last.pem));
  }

  lemma ValidExist(s: Store, capacity: nat)
    requires TableOk(s, capacity)
    ensures ValidKids(s.table) <= Kids(s.table)
  {
    Reference(s, capacity);
  }

  lemma OneListed(e: Jwk)
    ensures JwksKids([e]) == {e.kid}
  {
    assert e in [e];
  }

  lemma LastIsValid(s: Store, capacity: nat)
    requires TableOk(s, capacity)
    ensures s.table[|s.table| - 1].kid in ValidKids(s.table)
  {
    SelectHolds(Valid, s.table);
    assert s.table[|s.table| - 1] in Select(Valid, s.table);
  }

  lemma ShrunkKids(s: Store, capacity: nat, kids: set<Kid>)
    requires TableOk(s, capacity) && s.table[|s.table| - 1].kid !in kids
    ensures var table := MarkExpired(s.table, kids, s.clock + 1);
            ValidKids(table) == ValidKids(s.table) - kids && Kids(table) == Kids(s.table)
  {
    hide Boot;
    hide Ordered;
    hide Select;
    hide PemsMatch;
    hide MarkExpired;
    hide Drop;
    var reference := Boot(s.table, s.clock, true);
    Reference(s, capacity);
    Shrink(reference, capacity, kids);
    hide FilesAgree;
    var table := MarkExpired(s.table, kids, s.clock + 1);
    DistinctWhenOrdered(table, s.clock + 1);
    ValidEntries(table);
    ExpiredKids(s.table, kids, s.clock + 1);
  }

  // ------------------------------------------------------------- table and list over runs

  /** A rotation that commits has a new key. */
  lemma CommitIsNew(s: Store, capacity: nat, kid: Kid, pem: Pem, fault: RotateFault)
    requires RotateCommits(s, capacity, kid, pem, fault)
    ensures kid !in Kids(s.table)
  {
  }

  lemma RotateShapes(s: Store, capacity: nat, kid: Kid, pem: Pem, fault: RotateFault)
    ensures var t, commits := Rotate(s, capacity, kid, pem, fault), RotateCommits(s, capacity, kid, pem, fault);
            && t.clock == s.clock + 1
            && (!commits ==> t == s.(clock := s.clock + 1))
            && (commits ==>
                  && t.table == RotateTable(s.table, capacity, kid, pem, s.clock + 1).value.0
                  && t.jwks == if fault == AtJwksFile then s.jwks else KeepLast(s.jwks + [Jwk(kid, pem)], capacity))
  {
    hide RotateTable;
    hide KeepLast;
    hide SharedFrom;
    hide Reverse;
    hide RemoveOne;
  }

  lemma LaterIsOk(s: Store, capacity: nat)
    requires TableOk(s, capacity)
    ensures TableOk(s.(clock := s.clock + 1), capacity)
  {
  }

  lemma RotateKeepsTable(s: Store, capacity: nat, kid: Kid, pem: Pem, fault: RotateFault)
    requires capacity >= 1 && TableOk(s, capacity)
    ensures TableOk(Rotate(s, capacity, kid, pem, fault), capacity)
  {
    RotateShapes(s, capacity, kid, pem, fault);
    hide Rotate;
    if RotateCommits(s, capacity, kid, pem, fault) {
      CommitIsNew(s, capacity, kid, pem, fault);
      RotatedTable(s, capacity, kid, pem);
    } else {
      LaterIsOk(s, capacity);
    }
  }

  lemma InvalidateShapes(s: Store, kid: Kid, fault: InvalidateFault, signing: Kid)
    ensures var t, reply := Invalidate(s, kid, fault, signing), InvalidateReply(s.table, kid, fault, signing);
            && t.clock == s.clock + 1
            && (reply in {Done, Interrupted} ==> t.table == MarkExpired(s.table, {kid}, s.clock + 1) && t.jwks == Drop(s.jwks, {kid}))
            && (reply !in {Done, Interrupted} ==> t.table == s.table && t.jwks == s.jwks)
            && (reply in {Done, Interrupted} || (reply == Failed && fault != AtSelect) ==>
                  Row(s.table, kid).Some? && Inactive(Row(s.table, kid).value))
  {
    hide MarkExpired;
    hide Drop;
    hide Row;
    hide SharedFrom;
    hide Reverse;
    hide RemoveOne;
  }

  lemma InvalidateKeepsTable(s: Store, capacity: nat, kid: Kid, fault: InvalidateFault, signing: Kid)
    requires TableOk(s, capacity)
    ensures TableOk(Invalidate(s, kid, fault, signing), capacity)
  {
    InvalidateShapes(s, kid, fault, signing);
    hide Invalidate;
    hide InvalidateReply;
    if InvalidateReply(s.table, kid, fault, signing) in {Done, Interrupted} {
      InvalidatedTable(s, capacity, kid);
    } else {
      LaterIsOk(s, capacity);
    }
  }

  lemma CleanShapes(s: Store, fault: CleanFault)
    ensures var t, reply := Clean(s, fault), CleanReply(s, fault);
            && t.clock == s.clock + 1 && reply in {Done, Interrupted, Failed}
            && (reply == Failed ==> t.table == s.table && t.jwks == s.jwks && t.shared == s.shared)
            && (reply != Failed ==>
                  && Active(s.table).Some?
                  && t.table == MarkExpired(s.table, InactiveSet(s.table), s.clock + 1)
                  && t.jwks == [Jwk(Active(s.table).value.kid, Active(s.table).value.pem)]
                  && t.pems == s.pems - InactiveSet(s.table))
  {
    hide MarkExpired;
    hide InactiveSet;
    hide Active;
  }

  lemma CleanKeepsTable(s: Store, capacity: nat, fault: CleanFault)
    requires TableOk(s, capacity)
    ensures TableOk(Clean(s, fault), capacity)
  {
    CleanShapes(s, fault);
    hide Clean;
    hide CleanReply;
    if CleanReply(s, fault) == Failed {
      LaterIsOk(s, capacity);
    } else {
      CleanedTable(s, capacity);
    }
  }

  lemma OperationKeepsTable(s: Store, capacity: nat, op: Op)
    requires capacity >= 1 && TableOk(s, capacity)
    ensures TableOk(Apply(s, capacity, op), capacity)
  {
    hide TableOk;
    match op {
      case RotateOp(kid, pem, fault) => RotateKeepsTable(s, capacity, kid, pem, fault);
      case InvalidateOp(kid, fault, signing) => InvalidateKeepsTable(s, capacity, kid, fault, signing);
      case CleanOp(fault) => CleanKeepsTable(s, capacity, fault);
    }
  }

  /** Main result on the table: in every run whatsoever there is one active valid key, the last
      one inserted, and at most the capacity of valid keys. */
  lemma {:induction false} TableAlwaysOk(s: Store, capacity: nat, ops: seq<Op>)
    requires capacity >= 1 && TableOk(s, capacity)
    ensures TableOk(After(s, capacity, ops), capacity)
  {
    if ops != [] {
      hide TableOk;
      hide Apply;
      TableAlwaysOk(s, capacity, ops[..|ops| - 1]);
      OperationKeepsTable(After(s, capacity, ops[..|ops| - 1]), capacity, ops[|ops| - 1]);
    }
  }

  /** A rotation whose commit goes through and whose JWKS write does not. */
  predicate MissesList(s: Store, capacity: nat, op: Op) {
    op.RotateOp? && op.rotateFault == AtJwksFile && RotateCommits(s, capacity, op.kid, op.pem, op.rotateFault)
  }

  lemma NewKeyIsNotListed(s: Store, capacity: nat, kid: Kid, pem: Pem)
    requires capacity >= 1 && TableOk(s, capacity) && kid !in Kids(s.table)
    ensures KeepLast(Entries(Select(Valid, s.table)) + [Jwk(kid, pem)], capacity) != Entries(Select(Valid, s.table))
  {
    Reference(s, capacity);
    var entries := Entries(Select(Valid, s.table));
    var trimmed := KeepLast(entries + [Jwk(kid, pem)], capacity);
    hide Boot;
    hide Select;
    assert trimmed[|trimmed| - 1] == Jwk(kid, pem);
    assert forall e | e in entries :: e.kid in JwksKids(entries);
  }

  /** A step from a right list leads to a right list unless it is such a rotation. */
  lemma OperationKeepsListIff(s: Store, capacity: nat, op: Op)
    requires capacity >= 1 && TableOk(s, capacity) && Listed(s)
    ensures Listed(Apply(s, capacity, op)) <==> !MissesList(s, capacity, op)
  {
    match op {
      case RotateOp(kid, pem, fault) =>
        RotateShapes(s, capacity, kid, pem, fault);
        if RotateCommits(s, capacity, kid, pem, fault) {
          CommitIsNew(s, capacity, kid, pem, fault);
          RotatedTable(s, capacity, kid, pem);
          NewKeyIsNotListed(s, capacity, kid, pem);
        }
        hide Rotate;
        hide RotateCommits;
        hide KeepLast;
        hide TableOk;
      case InvalidateOp(kid, fault, signing) =>
        InvalidateShapes(s, kid, fault, signing);
        if InvalidateReply(s.table, kid, fault, signing) in {Done, Interrupted} {
          InvalidatedTable(s, capacity, kid);
        }
        hide Invalidate;
        hide InvalidateReply;
        hide TableOk;
      case CleanOp(fault) =>
        CleanShapes(s, fault);
        CleanedTable(s, capacity);
        hide Clean;
        hide CleanReply;
        hide TableOk;
    }
  }

  ghost predicate ListedAllAlong(s: Store, capacity: nat, ops: seq<Op>) {
    forall i | 0 <= i <= |ops| :: Listed(After(s, capacity, ops[..i]))
  }

  ghost predicate NeverMissesList(s: Store, capacity: nat, ops: seq<Op>) {
    forall i | 0 <= i < |ops| :: !MissesList(After(s, capacity, ops[..i]), capacity, ops[i])
  }

  lemma ListedSplits(s: Store, capacity: nat, ops: seq<Op>)
    requires ops != []
    ensures var init := ops[..|ops| - 1];
            && (ListedAllAlong(s, capacity, ops) <==> ListedAllAlong(s, capacity, init) && Listed(After(s, capacity, ops)))
            && (NeverMissesList(s, capacity, ops)
                <==> NeverMissesList(s, capacity, init) && !MissesList(After(s, capacity, init), capacity, ops[|ops| - 1]))
            && (ListedAllAlong(s, capacity, init) ==> Listed(After(s, capacity, init)))
  {
    hide After;
    hide Listed;
    hide MissesList;
    var init := ops[..|ops| - 1];
    assert ops[..|ops|] == ops && init[..|init|] == init;
    assert forall i | 0 <= i <= |init| :: ops[..i] == init[..i];
  }

  /** Main result on the JWKS file: all along a run it is exactly the unexpired keys in rotation
      order if and only if no rotation of the run commits and then fails to write it. */
  lemma {:induction false} ListedAllAlongIff(s: Store, capacity: nat, ops: seq<Op>)
    requires capacity >= 1 && TableOk(s, capacity) && Listed(s)
    ensures ListedAllAlong(s, capacity, ops) <==> NeverMissesList(s, capacity, ops)
  {
    if ops == [] {
      assert ops[..0] == ops;
    } else {
      hide TableOk;
      hide Apply;
      hide Listed;
      hide MissesList;
      hide ListedAllAlong;
      hide NeverMissesList;
      var init := ops[..|ops| - 1];
      ListedAllAlongIff(s, capacity, init);
      ListedSplits(s, capacity, ops);
      TableAlwaysOk(s, capacity, init);
      if Listed(After(s, capacity, init)) {
        OperationKeepsListIff(After(s, capacity, init), capacity, ops[|ops| - 1]);
      }
    }
  }

  // --------------------------------------------------------------------- rows are not lost

  /** What any key operation does to the table, known rows
      keep their content, and the unrotated key is the same or a new one. */
  ghost predicate Extends(table: seq<KeyRow>, table': seq<KeyRow>) {
    && (forall k | Row(table, k).Some? :: Row(table', k).Some? && Row(table', k).value.pem == Row(table, k).value.pem)
    && table != [] && table' != []
    && (table'[|table'| - 1].kid == table[|table| - 1].kid || table'[|table'| - 1].kid !in Kids(table))
  }

  lemma {:induction false} MarkedRow(table: seq<KeyRow>, kid: Kid, k: Kid, kids: set<Kid>, now: int)
    ensures Row(table, k).Some? ==>
              && Row(MarkRotated(table, kid, now), k).Some? && Row(MarkExpired(table, kids, now), k).Some?
              && Row(MarkRotated(table, kid, now), k).value.pem == Row(table, k).value.pem
              && Row(MarkExpired(table, kids, now), k).value.pem == Row(table, k).value.pem
  {
    if table != [] {
      MarkedRow(table[..|table| - 1], kid, k, kids, now);
      assert MarkRotated(table, kid, now)[..|table| - 1] == MarkRotated(table[..|table| - 1], kid, now);
      assert MarkExpired(table, kids, now)[..|table| - 1] == MarkExpired(table[..|table| - 1], kids, now);
    }
  }

  lemma ExpiringExtends(table: seq<KeyRow>, kids: set<Kid>, now: int)
    requires table != []
    ensures Extends(table, MarkExpired(table, kids, now))
  {
    forall k
      ensures Row(table, k).Some?
              ==> Row(MarkExpired(table, kids, now), k).Some? && Row(MarkExpired(table, kids, now), k).value.pem == Row(table, k).value.pem
    {
      MarkedRow(table, 0, k, kids, now);
    }
  }

  lemma RotatingExtends(table: seq<KeyRow>, previous: Kid, kid: Kid, pem: Pem, now: int)
    requires table != [] && kid !in Kids(table)
    ensures Extends(table, MarkRotated(table, previous, now) + [KeyRow(kid, pem, None, None)])
  {
    var rotated := MarkRotated(table, previous, now);
    var table' := rotated + [KeyRow(kid, pem, None, None)];
    assert table'[..|table'| - 1] == rotated;
    forall k
      ensures Row(table, k).Some?
              ==> Row(table', k).Some? && Row(table', k).value.pem == Row(table, k).value.pem
    {
      MarkedRow(table, previous, k, {}, now);
      RowHolds(table, k);
    }
  }

  lemma ExtendsTransitive(a: seq<KeyRow>, b: seq<KeyRow>, c: seq<KeyRow>)
    requires Extends(a, b) && Extends(b, c) && c[|c| - 1].kid == b[|b| - 1].kid
    ensures Extends(a, c)
  {
  }

  lemma RotateTableExtends(table: seq<KeyRow>, capacity: nat, kid: Kid, pem: Pem, now: int)
    requires table != []
    ensures match RotateTable(table, capacity, kid, pem, now)
            case None => true
            case Some((table', _)) => Extends(table, table')
  {
    if RotateTable(table, capacity, kid, pem, now).Some? {
      var previous := Active(table).value.kid;
      var table' := MarkRotated(table, previous, now) + [KeyRow(kid, pem, None, None)];
      RotatingExtends(table, previous, kid, pem, now);
      SelectHolds(Inactive, table');
      if |Select(Valid, table')| > capacity {
        var expired := {Oldest(Select(Inactive, table')).kid};
        ExpiringExtends(table', expired, now);
        ExtendsTransitive(table, table', MarkExpired(table', expired, now));
      }
    }
  }

  lemma ApplyExtends(s: Store, capacity: nat, op: Op)
    requires s.table != []
    ensures Extends(s.table, Apply(s, capacity, op).table)
  {
    match op {
      case RotateOp(kid, pem, databaseFails) =>
        RotateTableExtends(s.table, capacity, kid, pem, s.clock + 1);
      case InvalidateOp(kid, _, _) =>
        ExpiringExtends(s.table, {kid}, s.clock + 1);
      case CleanOp(fault) =>
        ExpiringExtends(s.table, InactiveSet(s.table), s.clock + 1);
    }
  }

  lemma ExtendsKids(table: seq<KeyRow>, table': seq<KeyRow>)
    requires Extends(table, table')
    ensures Kids(table) <= Kids(table')
  {
    forall k | k in Kids(table)
      ensures k in Kids(table')
    {
      RowHolds(table, k);
      RowHolds(table', k);
    }
  }

  lemma NewRow(table: seq<KeyRow>, capacity: nat, kid: Kid, pem: Pem, now: int)
    requires RotateTable(table, capacity, kid, pem, now).Some?
    ensures var row := Row(RotateTable(table, capacity, kid, pem, now).value.0, kid); row.Some? && row.value.pem == pem
  {
    var table' := MarkRotated(table, Active(table).value.kid, now) + [KeyRow(kid, pem, None, None)];
    SelectHolds(Inactive, table');
    if |Select(Valid, table')| > capacity {
      MarkedRow(table', 0, kid, {Oldest(Select(Inactive, table')).kid}, now);
    }
  }

  // ------------------------------------------------------------------------- the PEM files

  /** The valid keys without PEM file, and the PEM files of keys that are not valid. */
  datatype PemMarks = PemMarks(missing: set<Kid>, extra: set<Kid>)

  ghost predicate PemsTrue(pems: map<Kid, Pem>, table: seq<KeyRow>) {
    forall k | k in pems :: Row(table, k).Some? && Row(table, k).value.pem == pems[k]
  }

  ghost predicate PemsHold(s: Store, m: PemMarks) {
    var valid := ValidKids(s.table);
    && s.pems.Keys == (valid - m.missing) + m.extra && m.missing <= valid && m.extra !! valid
    && PemsTrue(s.pems, s.table)
  }

  /** What an operation does to the marks. A rotation that fails before its PEM write leaves the
      new key without file, one that fails before its unlinking leaves the old file; a failed
      invalidation writes the file of its key again, a failed clean loses unlisted ones. */
  function PemsMarked(s: Store, capacity: nat, op: Op, m: PemMarks): PemMarks {
    match op
    case RotateOp(kid, pem, fault) =>
      if !RotateCommits(s, capacity, kid, pem, fault) then m
      else
        var gone := ExpiredBy(s, capacity, kid, pem);
        PemMarks(m.missing - gone + (if fault in {AtJwksFile, AtPemWrite} then {kid} else {}),
                 m.extra + if fault in {AtJwksFile, AtPemWrite, AtPemUnlink} then gone - m.missing else {})
    case InvalidateOp(kid, fault, signing) =>
      var reply := InvalidateReply(s.table, kid, fault, signing);
      if reply in {Done, Interrupted} || (reply == Failed && fault != AtSelect) then m.(missing := m.missing - {kid}) else m
    case CleanOp(fault) =>
      if CleanReply(s, fault) != Failed then m.(missing := m.missing - InactiveSet(s.table))
      else if CleanRefused(s) then m
      else m.(missing := m.missing + (Unlinked(s.table, fault) - JwksKids(s.jwks)))
  }

  lemma RotatePemSets(pems: set<Kid>, valid: set<Kid>, m: PemMarks, kid: Kid, gone: set<Kid>)
    requires pems == (valid - m.missing) + m.extra && m.missing <= valid && m.extra !! valid
    requires gone <= valid && kid !in valid && kid !in pems
    ensures var valid' := valid + {kid} - gone;
            && pems == (valid' - (m.missing - gone + {kid})) + (m.extra + (gone - m.missing))
            && pems + {kid} == (valid' - (m.missing - gone)) + (m.extra + (gone - m.missing))
            && (pems + {kid}) - gone == (valid' - (m.missing - gone)) + m.extra
            && m.missing - gone + {kid} <= valid' && m.missing - gone <= valid'
            && (m.extra + (gone - m.missing)) !! valid' && m.extra !! valid'
  {
  }

  lemma RotatePems(s: Store, capacity: nat, kid: Kid, pem: Pem, fault: RotateFault)
    requires RotateCommits(s, capacity, kid, pem, fault)
    ensures Rotate(s, capacity, kid, pem, fault).pems
            == if fault in {AtJwksFile, AtPemWrite} then s.pems
               else if fault == AtPemUnlink then s.pems[kid := pem]
               else s.pems[kid := pem] - ExpiredBy(s, capacity, kid, pem)
  {
    hide RotateTable;
    hide KeepLast;
    hide SharedFrom;
    hide Reverse;
    hide RemoveOne;
  }

  lemma TrueStays(pems: map<Kid, Pem>, table: seq<KeyRow>, table': seq<KeyRow>)
    requires PemsTrue(pems, table) && Extends(table, table')
    ensures PemsTrue(pems, table')
  {
  }

  lemma TrueKeys(pems: map<Kid, Pem>, table: seq<KeyRow>)
    requires PemsTrue(pems, table)
    ensures pems.Keys <= Kids(table)
  {
    forall k | k in pems
      ensures k in Kids(table)
    {
      RowHolds(table, k);
    }
  }

  /** Adding the file of a new row, and removing files, keeps the contents true. */
  lemma TrueWithNew(pems: map<Kid, Pem>, table: seq<KeyRow>, kid: Kid, pem: Pem, gone: set<Kid>)
    requires PemsTrue(pems, table) && Row(table, kid).Some? && Row(table, kid).value.pem == pem
    ensures PemsTrue(pems[kid := pem], table) && PemsTrue(pems[kid := pem] - gone, table)
  {
    hide Row;
  }

  lemma CommittedRotation(s: Store, capacity: nat, kid: Kid, pem: Pem)
    requires capacity >= 1 && TableOk(s, capacity) && kid !in Kids(s.table)
    requires RotateTable(s.table, capacity, kid, pem, s.clock + 1).Some?
    ensures var table' := RotateTable(s.table, capacity, kid, pem, s.clock + 1).value.0;
            && ValidKids(table') == ValidKids(s.table) + {kid} - ExpiredBy(s, capacity, kid, pem)
            && ExpiredBy(s, capacity, kid, pem) <= ValidKids(s.table) <= Kids(s.table)
            && Extends(s.table, table') && Row(table', kid).Some? && Row(table', kid).value.pem == pem
  {
    RotatedTable(s, capacity, kid, pem);
    ExpiredWasValid(s, capacity, kid, pem);
    Reference(s, capacity);
    RotateTableExtends(s.table, capacity, kid, pem, s.clock + 1);
    NewRow(s.table, capacity, kid, pem, s.clock + 1);
  }

  lemma RotateHoldsPems(s: Store, capacity: nat, kid: Kid, pem: Pem, fault: RotateFault, m: PemMarks)
    requires capacity >= 1 && TableOk(s, capacity) && PemsHold(s, m)
    ensures PemsHold(Rotate(s, capacity, kid, pem, fault), PemsMarked(s, capacity, RotateOp(kid, pem, fault), m))
  {
    hide Select;
    hide Row;
    hide RotateTable;
    RotateShapes(s, capacity, kid, pem, fault);
    if RotateCommits(s, capacity, kid, pem, fault) {
      assert kid !in Kids(s.table) by { CommitIsNew(s, capacity, kid, pem, fault); }
      RotatePems(s, capacity, kid, pem, fault);
      CommittedPems(s, capacity, kid, pem, m);
      hide TableOk;
      hide ValidKids;
      hide PemsTrue;
      hide ExpiredBy;
    }
    hide Rotate;
    hide Kids;
    hide RotateCommits;
  }

  /** Where the PEM files stand after a rotation that commits, stopped before its write, before
      its unlinking, or not at all. */
  lemma CommittedPems(s: Store, capacity: nat, kid: Kid, pem: Pem, m: PemMarks)
    requires capacity >= 1 && TableOk(s, capacity) && PemsHold(s, m) && kid !in Kids(s.table)
    requires RotateTable(s.table, capacity, kid, pem, s.clock + 1).Some?
    ensures var table', gone := RotateTable(s.table, capacity, kid, pem, s.clock + 1).value.0, ExpiredBy(s, capacity, kid, pem);
            var valid', pems' := ValidKids(table'), s.pems[kid := pem];
            var left := m.extra + (gone - m.missing);
            && s.pems.Keys == (valid' - (m.missing - gone + {kid})) + left && PemsTrue(s.pems, table')
            && pems'.Keys == (valid' - (m.missing - gone)) + left && PemsTrue(pems', table')
            && (pems' - gone).Keys == (valid' - (m.missing - gone)) + m.extra && PemsTrue(pems' - gone, table')
            && m.missing - gone + {kid} <= valid' && m.missing - gone <= valid' && left !! valid' && m.extra !! valid'
  {
    hide Select;
    hide Row;
    hide RotateTable;
    CommittedRotation(s, capacity, kid, pem);
    TrueKeys(s.pems, s.table);
    hide TableOk;
    hide ValidKids;
    hide Kids;
    hide Extends;
    hide ExpiredBy;
    var table', gone := RotateTable(s.table, capacity, kid, pem, s.clock + 1).value.0, ExpiredBy(s, capacity, kid, pem);
    RotatePemSets(s.pems.Keys, ValidKids(s.table), m, kid, gone);
    TrueStays(s.pems, s.table, table');
    TrueWithNew(s.pems, table', kid, pem, gone);
  }

  lemma InvalidatePems(s: Store, kid: Kid, fault: InvalidateFault, signing: Kid)
    ensures var t, reply := Invalidate(s, kid, fault, signing), InvalidateReply(s.table, kid, fault, signing);
            if reply in {Done, Interrupted} then t.pems == s.pems - {kid}
            else if reply == Failed && fault != AtSelect then
              Row(s.table, kid).Some?
              && t.pems == if kid in s.pems && fault != AtCommit then s.pems else s.pems[kid := Row(s.table, kid).value.pem]
            else t.pems == s.pems
  {
    hide MarkExpired;
    hide Drop;
    hide Row;
    hide SharedFrom;
    hide Reverse;
    hide RemoveOne;
  }

  lemma InvalidateHoldsPems(s: Store, capacity: nat, kid: Kid, fault: InvalidateFault, signing: Kid, m: PemMarks)
    requires TableOk(s, capacity) && PemsHold(s, m)
    ensures PemsHold(Invalidate(s, kid, fault, signing), PemsMarked(s, capacity, InvalidateOp(kid, fault, signing), m))
  {
    hide Select;
    hide Row;
    InvalidateShapes(s, kid, fault, signing);
    InvalidatePems(s, kid, fault, signing);
    var reply := InvalidateReply(s.table, kid, fault, signing);
    if reply in {Done, Interrupted} || (reply == Failed && fault != AtSelect) {
      InvalidatedTable(s, capacity, kid);
      ExpiringExtends(s.table, {kid}, s.clock + 1);
      TrueStays(s.pems, s.table, MarkExpired(s.table, {kid}, s.clock + 1));
    }
    hide Invalidate;
    hide InvalidateReply;
    hide MarkExpired;
    hide TableOk;
    hide ValidKids;
    hide Kids;
  }

  lemma CleanPems(s: Store, fault: CleanFault)
    requires Active(s.table).Some? && CleanReply(s, fault) == Failed
    ensures Clean(s, fault).pems == if CleanRefused(s) then s.pems else s.pems - (Unlinked(s.table, fault) - JwksKids(s.jwks))
  {
    hide MarkExpired;
    hide InactiveSet;
    hide Unlinked;
  }

  lemma CleanHoldsPems(s: Store, capacity: nat, fault: CleanFault, m: PemMarks)
    requires TableOk(s, capacity) && PemsHold(s, m)
    ensures PemsHold(Clean(s, fault), PemsMarked(s, capacity, CleanOp(fault), m))
  {
    hide Select;
    hide Row;
    CleanShapes(s, fault);
    CleanedTable(s, capacity);
    UnlinkedAreInactive(s.table, fault);
    if CleanReply(s, fault) == Failed {
      CleanPems(s, fault);
    }
    ExpiringExtends(s.table, InactiveSet(s.table), s.clock + 1);
    TrueStays(s.pems, s.table, MarkExpired(s.table, InactiveSet(s.table), s.clock + 1));
    hide Clean;
    hide CleanReply;
    hide CleanRefused;
    hide Unlinked;
    hide MarkExpired;
    hide InactiveSet;
    hide TableOk;
    hide ValidKids;
    hide Kids;
  }

  // ----------------------------------------------------------------------- the shared list

  /** The valid keys that are not on the list, and the listed keys that are not valid. */
  datatype SharedMarks = SharedMarks(absent: set<Kid>, stale: set<Kid>)

  function Elements(shared: seq<Kid>): set<Kid> {
    set k | k in shared
  }

  ghost predicate SharedHold(s: Store, m: SharedMarks) {
    var valid := ValidKids(s.table);
    && NoRepeats(s.shared) && Elements(s.shared) == (valid - m.absent) + m.stale
    && m.absent <= valid && m.stale !! valid && m.stale <= Kids(s.table)
  }

  /** What an operation does to the marks. A rotation or clean that goes through repairs the
      list, and so does an invalidation of a key that is missing from it, which has it drawn up
      anew; a fault after the commit leaves the list behind the table. */
  function SharedMarked(s: Store, capacity: nat, op: Op, m: SharedMarks): SharedMarks {
    match op
    case RotateOp(kid, pem, fault) =>
      if !RotateCommits(s, capacity, kid, pem, fault) then m
      else if fault == Smooth then SharedMarks({}, {})
      else
        var gone := ExpiredBy(s, capacity, kid, pem);
        SharedMarks(m.absent - gone + {kid}, m.stale + (gone - m.absent))
    case InvalidateOp(kid, fault, signing) =>
      var reply := InvalidateReply(s.table, kid, fault, signing);
      if reply == Done then if kid in m.absent then SharedMarks({}, {}) else m
      else if reply == Interrupted then SharedMarks(m.absent - {kid}, m.stale + ({kid} - m.absent))
      else m
    case CleanOp(fault) =>
      match CleanReply(s, fault)
      case Done => SharedMarks({}, {})
      case Interrupted =>
        var gone := InactiveSet(s.table);
        SharedMarks(m.absent - gone, m.stale + (gone - m.absent))
      case _ => m
  }

  /** The list stays while keys come and go in the table. */
  lemma StayingList(shared: set<Kid>, valid: set<Kid>, m: SharedMarks, added: set<Kid>, gone: set<Kid>)
    requires shared == (valid - m.absent) + m.stale && m.absent <= valid && m.stale !! valid
    requires gone <= valid && added !! valid && added !! shared
    ensures var valid', m' := valid + added - gone, SharedMarks(m.absent - gone + added, m.stale + (gone - m.absent));
            shared == (valid' - m'.absent) + m'.stale && m'.absent <= valid' && m'.stale !! valid'
  {
  }

  lemma RotateShared(s: Store, capacity: nat, kid: Kid, pem: Pem, fault: RotateFault)
    requires RotateCommits(s, capacity, kid, pem, fault)
    ensures var t := Rotate(s, capacity, kid, pem, fault);
            && (fault != Smooth ==> t.shared == s.shared)
            && (fault == Smooth && kid !in s.shared ==> t.shared == SharedFrom(t.table))
  {
    hide RotateTable;
    hide KeepLast;
    hide SharedFrom;
    hide Reverse;
    hide RemoveOne;
  }

  /** A list drawn up from the table names exactly the valid keys. */
  lemma DrawnUp(table: seq<KeyRow>, clock: int)
    requires Ordered(table, clock)
    ensures NoRepeats(SharedFrom(table)) && Elements(SharedFrom(table)) == ValidKids(table)
  {
    SharedIsValid(table);
    ValidEntries(table);
    hide Select;
    hide SharedFrom;
  }

  lemma RotateHoldsShared(s: Store, capacity: nat, kid: Kid, pem: Pem, fault: RotateFault, m: SharedMarks)
    requires capacity >= 1 && TableOk(s, capacity) && SharedHold(s, m)
    ensures SharedHold(Rotate(s, capacity, kid, pem, fault), SharedMarked(s, capacity, RotateOp(kid, pem, fault), m))
  {
    hide Select;
    hide Row;
    hide RotateTable;
    RotateShapes(s, capacity, kid, pem, fault);
    if RotateCommits(s, capacity, kid, pem, fault) {
      assert kid !in Kids(s.table) by { CommitIsNew(s, capacity, kid, pem, fault); }
      RotateShared(s, capacity, kid, pem, fault);
      CommittedRotation(s, capacity, kid, pem);
      RotatedTable(s, capacity, kid, pem);
      hide Rotate;
      hide TableOk;
      hide ValidKids;
      hide ExpiredBy;
      var table', gone := RotateTable(s.table, capacity, kid, pem, s.clock + 1).value.0, ExpiredBy(s, capacity, kid, pem);
      ExtendsKids(s.table, table');
      hide Extends;
      hide Kids;
      assert kid !in s.shared by { assert kid !in Elements(s.shared); }
      if fault == Smooth {
        DrawnUp(table', s.clock + 1);
      } else {
        StayingList(Elements(s.shared), ValidKids(s.table), m, {kid}, gone);
      }
      hide Ordered;
    } else {
      hide Kids;
    }
  }

  lemma InvalidateShared(s: Store, kid: Kid, fault: InvalidateFault, signing: Kid)
    ensures var t, reply := Invalidate(s, kid, fault, signing), InvalidateReply(s.table, kid, fault, signing);
            t.shared == if reply != Done then s.shared
                        else if kid in s.shared then Reverse(RemoveOne(s.shared, kid))
                        else SharedFrom(MarkExpired(s.table, {kid}, s.clock + 1))
  {
    hide MarkExpired;
    hide Drop;
    hide Row;
    hide SharedFrom;
    hide Reverse;
    hide RemoveOne;
  }

  lemma WithoutOne(shared: seq<Kid>, kid: Kid)
    requires NoRepeats(shared)
    ensures NoRepeats(Reverse(RemoveOne(shared, kid))) && Elements(Reverse(RemoveOne(shared, kid))) == Elements(shared) - {kid}
  {
    RemoveOneHolds(shared, kid);
    ReverseHolds(RemoveOne(shared, kid));
  }

  lemma InvalidateHoldsShared(s: Store, capacity: nat, kid: Kid, fault: InvalidateFault, signing: Kid, m: SharedMarks)
    requires TableOk(s, capacity) && SharedHold(s, m)
    ensures SharedHold(Invalidate(s, kid, fault, signing), SharedMarked(s, capacity, InvalidateOp(kid, fault, signing), m))
  {
    hide Select;
    hide Row;
    InvalidateShapes(s, kid, fault, signing);
    InvalidateShared(s, kid, fault, signing);
    var reply := InvalidateReply(s.table, kid, fault, signing);
    if reply in {Done, Interrupted} {
      InvalidatedTable(s, capacity, kid);
      ValidExist(s, capacity);
      assert kid in s.shared <==> kid in Elements(s.shared);
      hide Invalidate;
      hide InvalidateReply;
      hide TableOk;
      hide ValidKids;
      hide Kids;
      if reply == Interrupted {
        StayingList(Elements(s.shared), ValidKids(s.table), m, {}, {kid});
        assert m.absent - {kid} + {} == m.absent - {kid};
      } else if kid in s.shared {
        WithoutOne(s.shared, kid);
      } else {
        DrawnUp(MarkExpired(s.table, {kid}, s.clock + 1), s.clock + 1);
      }
      hide Elements;
      hide MarkExpired;
    } else {
      hide Invalidate;
      hide Kids;
    }
  }

  lemma CleanShared(s: Store, fault: CleanFault)
    requires Active(s.table).Some?
    ensures Clean(s, fault).shared == if CleanReply(s, fault) == Done then [Active(s.table).value.kid] else s.shared
  {
    hide MarkExpired;
    hide InactiveSet;
    hide Unlinked;
  }

  lemma CleanHoldsShared(s: Store, capacity: nat, fault: CleanFault, m: SharedMarks)
    requires TableOk(s, capacity) && SharedHold(s, m)
    ensures SharedHold(Clean(s, fault), SharedMarked(s, capacity, CleanOp(fault), m))
  {
    hide Select;
    hide Row;
    CleanShapes(s, fault);
    CleanedTable(s, capacity);
    CleanShared(s, fault);
    ValidExist(s, capacity);
    var last := s.table[|s.table| - 1].kid;
    assert Elements([last]) == {last};
    hide Clean;
    hide CleanReply;
    hide TableOk;
    hide ValidKids;
    hide Kids;
    hide MarkExpired;
    hide InactiveSet;
    var gone := InactiveSet(s.table);
    StayingList(Elements(s.shared), ValidKids(s.table), m, {}, gone);
    assert m.absent - gone + {} == m.absent - gone;
  }

  // ------------------------------------------------------------------------- over all runs

  /** The marks that a run leaves. */
  function PemsAfter(s: Store, capacity: nat, ops: seq<Op>): PemMarks {
    if ops == [] then PemMarks({}, {})
    else
      var init := ops[..|ops| - 1];
      PemsMarked(After(s, capacity, init), capacity, ops[|ops| - 1], PemsAfter(s, capacity, init))
  }

  function SharedAfter(s: Store, capacity: nat, ops: seq<Op>): SharedMarks {
    if ops == [] then SharedMarks({}, {})
    else
      var init := ops[..|ops| - 1];
      SharedMarked(After(s, capacity, init), capacity, ops[|ops| - 1], SharedAfter(s, capacity, init))
  }

  lemma OperationHolds(s: Store, capacity: nat, op: Op, p: PemMarks, m: SharedMarks)
    requires capacity >= 1 && TableOk(s, capacity) && PemsHold(s, p) && SharedHold(s, m)
    ensures PemsHold(Apply(s, capacity, op), PemsMarked(s, capacity, op, p))
    ensures SharedHold(Apply(s, capacity, op), SharedMarked(s, capacity, op, m))
  {
    hide TableOk;
    hide PemsHold;
    hide SharedHold;
    hide PemsMarked;
    hide SharedMarked;
    match op {
      case RotateOp(kid, pem, fault) =>
        RotateHoldsPems(s, capacity, kid, pem, fault, p);
        RotateHoldsShared(s, capacity, kid, pem, fault, m);
      case InvalidateOp(kid, fault, signing) =>
        InvalidateHoldsPems(s, capacity, kid, fault, signing, p);
        InvalidateHoldsShared(s, capacity, kid, fault, signing, m);
      case CleanOp(fault) =>
        CleanHoldsPems(s, capacity, fault, p);
        CleanHoldsShared(s, capacity, fault, m);
    }
  }

  lemma ConsistentHolds(s: Store, capacity: nat)
    requires Consistent(s, capacity)
    ensures TableOk(s, capacity) && Listed(s) && PemsHold(s, PemMarks({}, {})) && SharedHold(s, SharedMarks({}, {}))
  {
    var rows := Select(Valid, s.table);
    ValidEntries(s.table);
    assert JwksKids(s.jwks) == ValidKids(s.table);
    forall k | k in s.pems
      ensures Row(s.table, k).Some? && Row(s.table, k).value.pem == s.pems[k]
    {
      var e :| e in s.jwks && e.kid == k;
      ListedRow(s.table, s.clock, e);
    }
  }

  lemma ListedRow(table: seq<KeyRow>, clock: int, e: Jwk)
    requires Ordered(table, clock) && e in Entries(Select(Valid, table))
    ensures Row(table, e.kid).Some? && Row(table, e.kid).value.pem == e.pem
  {
    var rows := Select(Valid, table);
    var i :| 0 <= i < |rows| && Entries(rows)[i] == e;
    SelectHolds(Valid, table);
    assert rows[i] in rows && rows[i] in table;
    var j :| 0 <= j < |table| && table[j] == rows[i];
    RowFound(table, j);
  }

  lemma {:induction false} RunsHold(s: Store, capacity: nat, ops: seq<Op>)
    requires capacity >= 1 && Consistent(s, capacity)
    ensures var s' := After(s, capacity, ops);
            TableOk(s', capacity) && PemsHold(s', PemsAfter(s, capacity, ops)) && SharedHold(s', SharedAfter(s, capacity, ops))
  {
    ConsistentHolds(s, capacity);
    hide Consistent;
    hide TableOk;
    hide PemsHold;
    hide SharedHold;
    hide Apply;
    if ops != [] {
      var init := ops[..|ops| - 1];
      RunsHold(s, capacity, init);
      TableAlwaysOk(s, capacity, ops);
      OperationHolds(After(s, capacity, init), capacity, ops[|ops| - 1], PemsAfter(s, capacity, init), SharedAfter(s, capacity, init));
    }
  }

  /** Main result on PEM files and shared list: in every run whatsoever they are the valid keys
      but for the marks that the run leaves, so they agree with the table exactly when it
      leaves none; and if no rotation missed the JWKS file all four stores then agree. */
  lemma RunsAgreeIff(s: Store, capacity: nat, ops: seq<Op>)
    requires capacity >= 1 && Consistent(s, capacity)
    ensures var s', p, m := After(s, capacity, ops), PemsAfter(s, capacity, ops), SharedAfter(s, capacity, ops);
            var valid := ValidKids(s'.table);
            && s'.pems.Keys == (valid - p.missing) + p.extra && PemsTrue(s'.pems, s'.table)
            && Elements(s'.shared) == (valid - m.absent) + m.stale
            && (s'.pems.Keys == valid <==> p == PemMarks({}, {}))
            && (Elements(s'.shared) == valid <==> m == SharedMarks({}, {}))
            && (NeverMissesList(s, capacity, ops) ==>
                  (Consistent(s', capacity) <==> p == PemMarks({}, {}) && m == SharedMarks({}, {})))
  {
    RunsHold(s, capacity, ops);
    ConsistentHolds(s, capacity);
    var s' := After(s, capacity, ops);
    if NeverMissesList(s, capacity, ops) {
      ListedAllAlongIff(s, capacity, ops);
      assert ops[..|ops|] == ops;
      AgreementIs(s', capacity);
    }
  }

  /** Agreement of the four stores, said by the table. */
  lemma AgreementIs(s: Store, capacity: nat)
    requires TableOk(s, capacity) && Listed(s) && PemsTrue(s.pems, s.table) && NoRepeats(s.shared)
    ensures Consistent(s, capacity) <==> s.pems.Keys == ValidKids(s.table) && Elements(s.shared) == ValidKids(s.table)
  {
    ValidEntries(s.table);
    assert JwksKids(s.jwks) == ValidKids(s.table);
    if s.pems.Keys == ValidKids(s.table) {
      forall e | e in s.jwks
        ensures e.kid in s.pems && s.pems[e.kid] == e.pem
      {
        assert e.kid in JwksKids(s.jwks);
        ListedRow(s.table, s.clock, e);
      }
    }
  }

  lemma WholeMark(s: Store, capacity: nat, op: Op, stale: set<Kid>)
    requires FilesAgree(s, capacity) && Whole(op)
    ensures PemsMarked(s, capacity, op, PemMarks({}, {})) == PemMarks({}, {})
    ensures SharedMarked(s, capacity, op, SharedMarks({}, stale)).absent == {}
  {
    if op.CleanOp? {
      InactiveKidsAreListed(s, capacity);
      UnlinkedAreInactive(s.table, op.cleanFault);
    }
    hide FilesAgree;
    hide InactiveSet;
    hide Unlinked;
    hide JwksKids;
    hide RotateCommits;
    hide ExpiredBy;
    hide InvalidateReply;
    hide CleanReply;
  }

  /** Runs in which no rotation fails after its commit leave only stale keys on the shared list,
      those that KeyAgreement.RunsAgree speaks of. */
  lemma {:induction false} WholeRunsMark(s: Store, capacity: nat, ops: seq<Op>)
    requires capacity >= 1 && Consistent(s, capacity) && forall i | 0 <= i < |ops| :: Whole(ops[i])
    ensures PemsAfter(s, capacity, ops) == PemMarks({}, {})
    ensures SharedAfter(s, capacity, ops) == SharedMarks({}, Unrepaired(s, capacity, ops))
  {
    if ops != [] {
      var init, op := ops[..|ops| - 1], ops[|ops| - 1];
      WholeRunsMark(s, capacity, init);
      RunsTrack(s, capacity, init);
      hide Consistent;
      hide Shares;
      WholeMark(After(s, capacity, init), capacity, op, Unrepaired(s, capacity, init));
      WholeStale(After(s, capacity, init), capacity, op, Unrepaired(s, capacity, init));
      hide FilesAgree;
      hide PemsMarked;
      hide SharedMarked;
    }
  }

  lemma WholeStale(s: Store, capacity: nat, op: Op, stale: set<Kid>)
    requires Whole(op)
    ensures SharedMarked(s, capacity, op, SharedMarks({}, stale)).stale
            == match op
               case RotateOp(kid, pem, fault) => if RotateCommits(s, capacity, kid, pem, fault) then {} else stale
               case InvalidateOp(kid, fault, signing) =>
                 if InvalidateReply(s.table, kid, fault, signing) == Interrupted then stale + {kid} else stale
               case CleanOp(fault) => StaleAfterClean(s, fault, stale)
  {
    hide InactiveSet;
    hide ExpiredBy;
    hide InvalidateReply;
    hide CleanReply;
    assert op.RotateOp? && RotateCommits(s, capacity, op.kid, op.pem, op.rotateFault) ==> op.rotateFault == Smooth;
    hide RotateCommits;
    assert forall gone: set<Kid> :: gone - {} == gone;
  }

  // ------------------------------------------------------------------------ the signing key

  function ActiveKid(table: seq<KeyRow>): Option<Kid> {
    match Active(table)
    case None => None
    case Some(row) => Some(row.kid)
  }

  /** The unrotated key is off the shared list: a rotation committed and then failed, and since
      then no rotation, no clean and no invalidation of a missing key repaired the list. */
  predicate SigningUnlisted(s: Store, capacity: nat, ops: seq<Op>) {
    ops != [] &&
    var init := ops[..|ops| - 1];
    var before, was := After(s, capacity, init), SigningUnlisted(s, capacity, init);
    match ops[|ops| - 1]
    case RotateOp(kid, pem, fault) => if RotateCommits(before, capacity, kid, pem, fault) then fault != Smooth else was
    case InvalidateOp(kid, fault, signing) =>
      was && !(InvalidateReply(before.table, kid, fault, signing) == Done && kid in SharedAfter(s, capacity, init).absent)
    case CleanOp(fault) => was && CleanReply(before, fault) != Done
  }

  lemma ActiveIs(s: Store, capacity: nat)
    requires TableOk(s, capacity)
    ensures ActiveKid(s.table) == Some(s.table[|s.table| - 1].kid)
  {
    ActiveIsLast(s.table, s.clock);
  }

  /** The unrotated key after an operation: the new key of a rotation that commits, otherwise
      the same. */
  lemma ActiveAfter(s: Store, capacity: nat, op: Op)
    requires capacity >= 1 && TableOk(s, capacity)
    ensures ActiveKid(Apply(s, capacity, op).table)
            == if op.RotateOp? && RotateCommits(s, capacity, op.kid, op.pem, op.rotateFault) then Some(op.kid)
               else ActiveKid(s.table)
  {
    OperationKeepsTable(s, capacity, op);
    ActiveIs(s, capacity);
    ActiveIs(Apply(s, capacity, op), capacity);
    hide TableOk;
    hide ActiveKid;
    match op {
      case RotateOp(kid, pem, fault) =>
        RotateShapes(s, capacity, kid, pem, fault);
        if RotateCommits(s, capacity, kid, pem, fault) {
          LastIsNew(s.table, capacity, kid, pem, s.clock + 1);
        }
        hide Rotate;
        hide RotateCommits;
      case InvalidateOp(kid, fault, signing) =>
        InvalidateShapes(s, kid, fault, signing);
        hide Invalidate;
      case CleanOp(fault) =>
        CleanShapes(s, fault);
        hide Clean;
    }
  }

  lemma LastIsNew(table: seq<KeyRow>, capacity: nat, kid: Kid, pem: Pem, now: int)
    requires RotateTable(table, capacity, kid, pem, now).Some?
    ensures var table' := RotateTable(table, capacity, kid, pem, now).value.0; |table'| > 0 && table'[|table'| - 1].kid == kid
  {
    SelectHolds(Inactive, MarkRotated(table, Active(table).value.kid, now) + [KeyRow(kid, pem, None, None)]);
  }

  lemma {:induction false} UnlistedIsAbsent(s: Store, capacity: nat, ops: seq<Op>)
    requires capacity >= 1 && Consistent(s, capacity)
    ensures var active := ActiveKid(After(s, capacity, ops).table);
            active.Some? && (SigningUnlisted(s, capacity, ops) <==> active.value in SharedAfter(s, capacity, ops).absent)
  {
    ConsistentHolds(s, capacity);
    hide Consistent;
    if ops == [] {
      ActiveIs(s, capacity);
    } else {
      var init, op := ops[..|ops| - 1], ops[|ops| - 1];
      var before := After(s, capacity, init);
      UnlistedIsAbsent(s, capacity, init);
      TableAlwaysOk(s, capacity, init);
      ActiveAfter(before, capacity, op);
      ActiveStays(before, capacity, op);
      hide TableOk;
      hide ActiveKid;
      hide RotateCommits;
      hide InvalidateReply;
      hide CleanReply;
      hide ExpiredBy;
      hide InactiveSet;
      hide Apply;
    }
  }

  /** Neither an invalidation nor a clean touches the unrotated key, nor does a rotation expire
      the key that it adds. */
  lemma ActiveStays(s: Store, capacity: nat, op: Op)
    requires capacity >= 1 && TableOk(s, capacity)
    ensures var active := ActiveKid(s.table);
            && active.Some? && active.value !in InactiveSet(s.table)
            && (op.InvalidateOp? && InvalidateReply(s.table, op.kid, op.invalidateFault, op.signing) in {Done, Interrupted} ==>
                  op.kid != active.value)
  {
    ActiveIs(s, capacity);
    CleanedTable(s, capacity);
    if op.InvalidateOp? {
      InvalidateShapes(s, op.kid, op.invalidateFault, op.signing);
      hide InvalidateReply;
      if Row(s.table, op.kid).Some? && Inactive(Row(s.table, op.kid).value) {
        InactiveIsNotLast(s, capacity, op.kid);
      }
    }
  }

  lemma InactiveIsNotLast(s: Store, capacity: nat, kid: Kid)
    requires TableOk(s, capacity) && Row(s.table, kid).Some? && Inactive(Row(s.table, kid).value)
    ensures kid != s.table[|s.table| - 1].kid
  {
    Reference(s, capacity);
    InactiveIsListed(Boot(s.table, s.clock, true), capacity, kid);
  }

  /** Main result on the signing key: after any run the shared list lacks the unrotated key if
      and only if a rotation committed and then failed and nothing repaired the list since. */
  lemma SigningUnlistedIff(s: Store, capacity: nat, ops: seq<Op>)
    requires capacity >= 1 && Consistent(s, capacity)
    ensures var s' := After(s, capacity, ops);
            ActiveKid(s'.table).Some? && (ActiveKid(s'.table).value !in s'.shared <==> SigningUnlisted(s, capacity, ops))
  {
    RunsHold(s, capacity, ops);
    UnlistedIsAbsent(s, capacity, ops);
    var s' := After(s, capacity, ops);
    ActiveIs(s', capacity);
    LastIsValid(s', capacity);
    var active := ActiveKid(s'.table).value;
    assert active in s'.shared <==> active in Elements(s'.shared);
  }
}
