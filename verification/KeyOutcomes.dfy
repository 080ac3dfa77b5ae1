/** What each key operation replies and leaves behind when it starts in agreement, said of
    rows, entries, files and listings one by one. */
module KeyOutcomes {
  import opened Wrappers
  import opened KeyLifecycle
  import opened KeyAgreement

  // ------------------------------------------------------------------------- the replies

  ghost predicate NoRow(table: seq<KeyRow>, kid: Kid) {
    forall i | 0 <= i < |table| :: table[i].kid != kid
  }

  ghost predicate ActiveRow(table: seq<KeyRow>, kid: Kid) {
    exists i :: 0 <= i < |table| && table[i].kid == kid && table[i].rotatedAt == None
  }

  ghost predicate ExpiredRow(table: seq<KeyRow>, kid: Kid) {
    exists i :: 0 <= i < |table| && table[i].kid == kid && table[i].rotatedAt.Some? && table[i].expiredAt.Some?
  }

  /** Rotated out and not expired: the keys that may be invalidated. */
  ghost predicate InactiveRow(table: seq<KeyRow>, kid: Kid) {
    exists i :: 0 <= i < |table| && table[i].kid == kid && table[i].rotatedAt.Some? && table[i].expiredAt == None
  }

  /** When an invalidation ends in which way. */
  ghost predicate InvalidateReplies(s: Store, kid: Kid, fault: InvalidateFault, signing: Kid, reply: Reply) {
    && (reply == Done <==> InactiveRow(s.table, kid) && fault == NoFault && signing != kid)
    && (reply == Interrupted <==> InactiveRow(s.table, kid) && (fault == AtList || (fault == NoFault && signing == kid)))
    && (reply == NotFound <==> fault != AtSelect && NoRow(s.table, kid))
    && (reply == StillActive <==> fault != AtSelect && ActiveRow(s.table, kid))
    && (reply == AlreadyExpired <==> fault != AtSelect && ExpiredRow(s.table, kid))
    && (reply == Failed <==>
          fault == AtSelect || (InactiveRow(s.table, kid) && fault in {AtUpdate, AtJwksWrite, AtUnlink, AtCommit}))
  }

  /** When a rotation ends in which way. */
  ghost predicate RotateReplies(s: Store, kid: Kid, fault: RotateFault, reply: Reply) {
    && (reply == Done <==> NoRow(s.table, kid) && fault == Smooth)
    && (reply == Failed <==> fault == AtDatabase || !NoRow(s.table, kid))
    && reply in {Done, Failed, Interrupted}
  }

  /** When a clean ends in which way; it has all keys but the active one to unlink. */
  ghost predicate CleanReplies(s: Store, fault: CleanFault, reply: Reply) {
    && (reply == Done <==> |s.jwks| >= 2 && (fault == CleanFine || (fault.BeforeUnlink? && fault.n >= |s.jwks| - 1)))
    && (reply == Interrupted <==> |s.jwks| >= 2 && fault == AtListUpdate)
    && reply in {Done, Failed, Interrupted}
  }

  // -------------------------------------------------------------------------- the stores

  /** The first list without the entry at `j`. */
  ghost predicate Without<T>(list: seq<T>, j: nat, list': seq<T>)
    requires j < |list|
  {
    && |list'| == |list| - 1
    && forall i | 0 <= i < |list'| :: list'[i] == if i < j then list[i] else list[i + 1]
  }

  ghost predicate Backwards<T>(list: seq<T>, list': seq<T>) {
    && |list'| == |list|
    && forall i | 0 <= i < |list| :: list'[i] == list[|list| - 1 - i]
  }

  /** The row of the key is expired now, its entry, its file and its listing are gone, and
      everything of every other key is as before; pushing the list turns it round. */
  ghost predicate Purged(s: Store, t: Store, kid: Kid, shared: bool) {
    && t.clock == s.clock + 1
    && |t.table| == |s.table|
    && (forall i | 0 <= i < |s.table| ::
          t.table[i] == if s.table[i].kid == kid then s.table[i].(expiredAt := Some(t.clock)) else s.table[i])
    && (exists j :: 0 <= j < |s.jwks| && s.jwks[j].kid == kid && Without(s.jwks, j, t.jwks))
    && (forall e | e in t.jwks :: e.kid != kid)
    && kid in s.pems && kid !in t.pems
    && (forall k | k != kid :: (k in t.pems <==> k in s.pems) && (k in s.pems ==> t.pems[k] == s.pems[k]))
    && if shared
       then kid !in t.shared && exists j, rest :: 0 <= j < |s.shared| && s.shared[j] == kid && Without(s.shared, j, rest) && Backwards(rest, t.shared)
       else t.shared == s.shared
  }

  ghost predicate InvalidateOutcome(s: Store, t: Store, kid: Kid, reply: Reply) {
    if reply in {Done, Interrupted} then Purged(s, t, kid, reply == Done) else t == s.(clock := s.clock + 1)
  }

  /** The first key on the list is dropped from a full list. */
  predicate Drops(s: Store, capacity: nat, kid: Kid) {
    |s.jwks| >= capacity && |s.jwks| > 0 && s.jwks[0].kid == kid
  }

  /** The active row is rotated out now, the first key on a full list is expired now, and the
      new key is the last row. */
  ghost predicate RowsRotated(s: Store, table: seq<KeyRow>, now: int, capacity: nat, kid: Kid, pem: Pem) {
    var n := |s.table|;
    && |table| == n + 1 && table[n] == KeyRow(kid, pem, None, None)
    && forall i | 0 <= i < n ::
         && table[i].kid == s.table[i].kid && table[i].pem == s.table[i].pem
         && table[i].rotatedAt == (if i == n - 1 then Some(now) else s.table[i].rotatedAt)
         && table[i].expiredAt == (if Drops(s, capacity, s.table[i].kid) then Some(now) else s.table[i].expiredAt)
  }

  /** The new key's file joins, and the dropped key's file goes after it. */
  ghost predicate FilesRotated(s: Store, pems: map<Kid, Pem>, capacity: nat, kid: Kid, pem: Pem, fault: RotateFault) {
    if fault in {AtJwksFile, AtPemWrite} then pems == s.pems
    else
      && kid in pems && pems[kid] == pem
      && forall k | k != kid ::
           && (k in pems <==> k in s.pems && (fault == AtPemUnlink || !Drops(s, capacity, k)))
           && (k in pems ==> pems[k] == s.pems[k])
  }

  ghost predicate Lists(jwks: seq<Jwk>, shared: seq<Kid>) {
    |shared| == |jwks| && forall i | 0 <= i < |jwks| :: shared[i] == jwks[i].kid
  }

  /** The rows are rotated, and the other writes are done up to the failing one: the new entry
      joins the list for the dropped one, the files follow, and the shared list becomes the
      valid keys, oldest first. */
  ghost predicate RotateOutcome(s: Store, t: Store, capacity: nat, kid: Kid, pem: Pem, fault: RotateFault)
    requires capacity >= 1
  {
    && t.clock == s.clock + 1
    && RowsRotated(s, t.table, t.clock, capacity, kid, pem)
    && (t.jwks == if fault == AtJwksFile then s.jwks
                  else (if |s.jwks| < capacity then s.jwks else s.jwks[1..]) + [Jwk(kid, pem)])
    && FilesRotated(s, t.pems, capacity, kid, pem, fault)
    && if fault == Smooth then Lists(t.jwks, t.shared) else t.shared == s.shared
  }

  /** Every valid row but the last is expired now; list, files and, unless interrupted, shared
      list hold the last key alone. */
  ghost predicate CleanOutcome(s: Store, t: Store, reply: Reply)
    requires s.table != []
  {
    var last := s.table[|s.table| - 1];
    if reply == Failed then t == s.(clock := s.clock + 1)
    else
      && t.clock == s.clock + 1
      && |t.table| == |s.table|
      && (forall i | 0 <= i < |s.table| ::
            t.table[i] == if i < |s.table| - 1 && s.table[i].expiredAt == None
                          then s.table[i].(expiredAt := Some(t.clock)) else s.table[i])
      && t.jwks == [Jwk(last.kid, last.pem)] && t.pems == map[last.kid := last.pem]
      && t.shared == if reply == Done then [last.kid] else s.shared
  }

  // ------------------------------------------------------------------------ invalidation

  lemma RowDecides(table: seq<KeyRow>, kid: Kid)
    requires DistinctRows(table)
    ensures var row := Row(table, kid);
            && (NoRow(table, kid) <==> row == None)
            && (ActiveRow(table, kid) <==> row.Some? && row.value.rotatedAt == None)
            && (ExpiredRow(table, kid) <==> row.Some? && row.value.rotatedAt.Some? && row.value.expiredAt.Some?)
            && (InactiveRow(table, kid) <==> row.Some? && row.value.rotatedAt.Some? && row.value.expiredAt == None)
  {
    RowHolds(table, kid);
    forall i | 0 <= i < |table| && table[i].kid == kid
      ensures Row(table, kid) == Some(table[i])
    {
      RowFound(table, i);
    }
    hide Row;
    if Row(table, kid).Some? {
      var i :| 0 <= i < |table| && table[i] == Row(table, kid).value;
      assert table[i].kid == kid;
    }
  }

  /** From agreement, how an invalidation ends is decided by the row of its key, the fault and
      the signing key alone. */
  lemma InvalidateRepliesIff(s: Store, capacity: nat, kid: Kid, fault: InvalidateFault, signing: Kid)
    requires FilesAgree(s, capacity)
    ensures InvalidateReplies(s, kid, fault, signing, InvalidateReply(s.table, kid, fault, signing))
  {
    RowDecides(s.table, kid);
    hide Row;
    hide FilesAgree;
    hide NoRow;
    hide ActiveRow;
    hide ExpiredRow;
    hide InactiveRow;
  }

  lemma DropOne(e: Jwk)
    ensures Drop([e], {e.kid}) == []
  {
    assert [e][..0] == [];
  }

  lemma DropSplit(a: seq<Jwk>, e: Jwk, b: seq<Jwk>)
    requires forall x | x in a + b :: x.kid != e.kid
    ensures Drop(a + ([e] + b), {e.kid}) == a + b
  {
    hide Drop;
    DropConcat(a, [e] + b, {e.kid});
    DropConcat([e], b, {e.kid});
    DropOne(e);
    DropNone(a, {e.kid});
    DropNone(b, {e.kid});
  }

  lemma GapClosed<T>(list: seq<T>, j: nat)
    requires j < |list|
    ensures Without(list, j, list[..j] + list[j + 1..])
    ensures list == list[..j] + ([list[j]] + list[j + 1..])
  {
  }

  /** Dropping the one entry of a key closes the gap. */
  lemma DropIsWithout(jwks: seq<Jwk>, j: nat)
    requires DistinctEntries(jwks) && j < |jwks|
    ensures Without(jwks, j, Drop(jwks, {jwks[j].kid}))
  {
    hide Drop;
    hide Without;
    GapClosed(jwks, j);
    forall x | x in jwks[..j] + jwks[j + 1..]
      ensures x.kid != jwks[j].kid
    {
    }
    DropSplit(jwks[..j], jwks[j], jwks[j + 1..]);
  }

  lemma {:induction false} RemoveIsWithout(s: seq<Kid>, kid: Kid) returns (j: nat)
    requires kid in s
    ensures j < |s| && s[j] == kid && Without(s, j, RemoveOne(s, kid))
  {
    if s[0] == kid {
      j := 0;
    } else {
      j := RemoveIsWithout(s[1..], kid);
      j := j + 1;
    }
  }

  lemma {:induction false} ReverseIsBackwards(s: seq<Kid>)
    ensures Backwards(s, Reverse(s))
  {
    if s != [] {
      ReverseIsBackwards(s[1..]);
    }
  }

  lemma ExpiredOne(table: seq<KeyRow>, kid: Kid, now: int)
    ensures var t := MarkExpired(table, {kid}, now);
            && |t| == |table|
            && forall i | 0 <= i < |table| :: t[i] == if table[i].kid == kid then table[i].(expiredAt := Some(now)) else table[i]
  {
  }

  lemma InvalidateStores(s: Store, kid: Kid, fault: InvalidateFault, signing: Kid)
    requires InvalidateReply(s.table, kid, fault, signing) in {Done, Interrupted} && kid in s.shared
    ensures Invalidate(s, kid, fault, signing)
            == Store(MarkExpired(s.table, {kid}, s.clock + 1), Drop(s.jwks, {kid}), s.pems - {kid},
                     if InvalidateReply(s.table, kid, fault, signing) == Done then Reverse(RemoveOne(s.shared, kid)) else s.shared,
                     s.clock + 1)
  {
  }

  /** From agreement, an invalidation that gets past its commit purges its key and touches
      nothing of any other; any other outcome changes nothing. */
  lemma InvalidatePurges(s: Store, capacity: nat, kid: Kid, fault: InvalidateFault, signing: Kid)
    requires Consistent(s, capacity)
    ensures InvalidateOutcome(s, Invalidate(s, kid, fault, signing), kid, InvalidateReply(s.table, kid, fault, signing))
  {
    hide Select;
    hide MarkExpired;
    hide Drop;
    hide Reverse;
    hide RemoveOne;
    hide Without;
    hide Backwards;
    var reply := InvalidateReply(s.table, kid, fault, signing);
    if reply in {Done, Interrupted} {
      PurgeParts(s, capacity, kid);
      InvalidateStores(s, kid, fault, signing);
      ExpiredOne(s.table, kid, s.clock + 1);
      hide Invalidate;
      hide InvalidateReply;
      hide Consistent;
      var t := Invalidate(s, kid, fault, signing);
      assert Purged(s, t, kid, reply == Done);
    } else {
      InvalidateUndone(s, capacity, kid, fault, signing);
    }
  }

  lemma PurgeParts(s: Store, capacity: nat, kid: Kid)
    requires Consistent(s, capacity) && Row(s.table, kid).Some? && Inactive(Row(s.table, kid).value)
    ensures kid in s.shared && kid in s.pems
    ensures exists j :: 0 <= j < |s.jwks| && s.jwks[j].kid == kid && Without(s.jwks, j, Drop(s.jwks, {kid}))
    ensures forall e | e in Drop(s.jwks, {kid}) :: e.kid != kid
    ensures kid !in Reverse(RemoveOne(s.shared, kid))
    ensures exists j, rest :: 0 <= j < |s.shared| && s.shared[j] == kid && Without(s.shared, j, rest)
                              && Backwards(rest, Reverse(RemoveOne(s.shared, kid)))
  {
    hide Without;
    hide Backwards;
    hide Reverse;
    hide RemoveOne;
    hide Drop;
    hide Row;
    hide Select;
    hide Ordered;
    InactiveIsListed(s, capacity, kid);
    assert kid in s.shared by { assert kid in set k | k in s.shared; }
    DistinctWhenOrdered(s.table, s.clock);
    ValidEntries(s.table);
    var j :| 0 <= j < |s.jwks| && s.jwks[j].kid == kid;
    DropIsWithout(s.jwks, j);
    DropHolds(s.jwks, {kid});
    var i := RemoveIsWithout(s.shared, kid);
    ReverseIsBackwards(RemoveOne(s.shared, kid));
    RemoveOneHolds(s.shared, kid);
    ReverseHolds(RemoveOne(s.shared, kid));
  }

  // ---------------------------------------------------------------------------- rotation

  lemma NoRowIff(table: seq<KeyRow>, kid: Kid)
    ensures NoRow(table, kid) <==> kid !in Kids(table)
  {
    if kid in Kids(table) {
      var r :| r in table && r.kid == kid;
    } else {
      assert forall i | 0 <= i < |table| :: table[i] in table;
    }
  }

  /** From agreement, the database part of a rotation goes through exactly when nothing fails
      there and the key is new. */
  lemma RotateCommitsIff(s: Store, capacity: nat, kid: Kid, pem: Pem, fault: RotateFault)
    requires capacity >= 1 && FilesAgree(s, capacity)
    ensures RotateCommits(s, capacity, kid, pem, fault) <==> fault != AtDatabase && NoRow(s.table, kid)
    ensures fault == AtDatabase || !NoRow(s.table, kid) ==> Rotate(s, capacity, kid, pem, fault) == s.(clock := s.clock + 1)
  {
    NoRowIff(s.table, kid);
    hide RotateTable;
    hide FilesAgree;
    if fault == AtDatabase || kid in Kids(s.table) {
      RotateRefused(s, capacity, kid, pem, fault);
    } else {
      RotateResult(s, capacity, kid, pem);
    }
  }

  /** The table after a rotation, row by row. */
  lemma RotatedRows(s: Store, capacity: nat, kid: Kid, pem: Pem)
    requires capacity >= 1 && FilesAgree(s, capacity) && kid !in Kids(s.table)
    ensures var now := s.clock + 1;
            var r := RotateTable(s.table, capacity, kid, pem, now);
            && r.Some?
            && r.value.1 == (if |s.jwks| < capacity then None else Some(s.jwks[0].kid))
            && RowsRotated(s, r.value.0, now, capacity, kid, pem)
  {
    hide Select;
    hide RotateTable;
    RotateResult(s, capacity, kid, pem);
    ListedKeysExist(s, capacity);
    var n := |s.table|;
    var rows := Rotated(s.table, kid, pem, s.clock + 1);
    MarkedRows(s.table, s.clock + 1);
    if |s.jwks| >= capacity {
      assert (s.jwks + [Jwk(kid, pem)])[0] == s.jwks[0];
      assert s.jwks[0] in s.jwks;
      assert s.jwks[0].kid != kid;
      ExpiredOne(rows, s.jwks[0].kid, s.clock + 1);
    }
  }

  lemma MarkedRows(table: seq<KeyRow>, now: int)
    requires table != [] && DistinctRows(table)
    ensures var t := MarkRotated(table, table[|table| - 1].kid, now);
            && |t| == |table|
            && forall i | 0 <= i < |table| :: t[i] == if i == |table| - 1 then table[i].(rotatedAt := Some(now)) else table[i]
  {
  }

  lemma TrimIsDrop(jwks: seq<Jwk>, e: Jwk, capacity: nat)
    requires 1 <= capacity && |jwks| <= capacity
    ensures KeepLast(jwks + [e], capacity) == (if |jwks| < capacity then jwks else jwks[1..]) + [e]
  {
  }

  lemma SharedRows(table: seq<KeyRow>, jwks: seq<Jwk>)
    requires jwks == Entries(Select(Valid, table))
    ensures Lists(jwks, SharedFrom(table))
  {
  }

  lemma RotateFields(s: Store, capacity: nat, kid: Kid, pem: Pem, fault: RotateFault)
    requires RotateTable(s.table, capacity, kid, pem, s.clock + 1).Some? && fault != AtDatabase && kid !in s.shared
    ensures var t, table := Rotate(s, capacity, kid, pem, fault), RotateTable(s.table, capacity, kid, pem, s.clock + 1).value.0;
            && t.table == table && t.clock == s.clock + 1
            && t.jwks == (if fault == AtJwksFile then s.jwks else KeepLast(s.jwks + [Jwk(kid, pem)], capacity))
            && t.shared == (if fault != Smooth then s.shared else SharedFrom(table))
  {
    hide RotateTable;
    hide KeepLast;
    hide SharedFrom;
  }

  /** From agreement, a rotation that commits rotates the active key out, expires the first key
      of a full list and writes the stores one after the other up to the failure. */
  lemma RotateWrites(s: Store, capacity: nat, kid: Kid, pem: Pem, fault: RotateFault, stale: set<Kid>)
    requires capacity >= 1 && Tracks(s, capacity, stale) && NoRow(s.table, kid) && fault != AtDatabase
    ensures RotateOutcome(s, Rotate(s, capacity, kid, pem, fault), capacity, kid, pem, fault)
  {
    hide Shares;
    hide Select;
    hide Ordered;
    hide Rotate;
    hide RotateTable;
    hide SharedFrom;
    hide KeepLast;
    hide RowsRotated;
    hide FilesRotated;
    hide Lists;
    NoRowIff(s.table, kid);
    hide NoRow;
    RotatedRows(s, capacity, kid, pem);
    RotateAgrees(s, capacity, kid, pem);
    NotShared(s, capacity, kid, stale);
    RotateFields(s, capacity, kid, pem, fault);
    var table := RotateTable(s.table, capacity, kid, pem, s.clock + 1).value.0;
    TrimIsDrop(s.jwks, Jwk(kid, pem), capacity);
    SharedRows(table, KeepLast(s.jwks + [Jwk(kid, pem)], capacity));
    RotatedPems(s, capacity, kid, pem, fault);
  }

  lemma RotatePems(s: Store, capacity: nat, kid: Kid, pem: Pem, fault: RotateFault)
    requires RotateTable(s.table, capacity, kid, pem, s.clock + 1).Some? && fault != AtDatabase
    ensures var expired, written := RotateTable(s.table, capacity, kid, pem, s.clock + 1).value.1, s.pems[kid := pem];
            Rotate(s, capacity, kid, pem, fault).pems
            == if fault in {AtJwksFile, AtPemWrite} then s.pems
               else if fault == AtPemUnlink || expired == None then written else written - {expired.value}
  {
    hide RotateTable;
    hide KeepLast;
    hide SharedFrom;
    assert s.pems[kid := pem] - {} == s.pems[kid := pem];
  }

  lemma RotatedPems(s: Store, capacity: nat, kid: Kid, pem: Pem, fault: RotateFault)
    requires capacity >= 1 && FilesAgree(s, capacity) && kid !in Kids(s.table) && fault != AtDatabase
    ensures FilesRotated(s, Rotate(s, capacity, kid, pem, fault).pems, capacity, kid, pem, fault)
  {
    hide RotateTable;
    hide Rotate;
    hide RowsRotated;
    hide Select;
    hide Ordered;
    RotatedRows(s, capacity, kid, pem);
    RotatePems(s, capacity, kid, pem, fault);
    if |s.jwks| >= capacity {
      ListedKeysExist(s, capacity);
      assert s.jwks[0] in s.jwks;
    }
    hide FilesAgree;
    hide Kids;
  }

  // ------------------------------------------------------------------------------- clean

  /** From agreement, a clean goes through exactly when there is something to clean and
      nothing fails on the way. */
  lemma CleanRepliesIff(s: Store, capacity: nat, fault: CleanFault)
    requires capacity >= 1 && FilesAgree(s, capacity)
    ensures CleanReplies(s, fault, CleanReply(s, fault))
  {
    ActiveIsLast(s.table, s.clock);
    InactiveCount(s, capacity);
    hide Select;
    hide InactiveKids;
    hide Active;
  }

  lemma InactiveCount(s: Store, capacity: nat)
    requires FilesAgree(s, capacity)
    ensures |InactiveKids(s.table)| == |s.jwks| - 1
  {
    var init := s.table[..|s.table| - 1];
    SelectSame(Inactive, Valid, init);
    SelectLast(Inactive, s.table);
    SelectLast(Valid, s.table);
  }

  lemma InactiveRows(s: Store, capacity: nat)
    requires FilesAgree(s, capacity)
    ensures forall i | 0 <= i < |s.table| - 1 ::
              s.table[i].kid in InactiveSet(s.table) <==> s.table[i].expiredAt == None
    ensures s.table[|s.table| - 1].kid !in InactiveSet(s.table)
    ensures InactiveSet(s.table) <= JwksKids(s.jwks)
  {
    InactiveKidsAreListed(s, capacity);
    SelectHolds(Inactive, s.table);
    var rows := Select(Inactive, s.table);
    forall i | 0 <= i < |s.table| - 1
      ensures s.table[i].kid in InactiveSet(s.table) <==> s.table[i].expiredAt == None
    {
      if s.table[i].expiredAt == None {
        assert s.table[i] in rows;
        var j :| 0 <= j < |rows| && rows[j] == s.table[i];
        assert InactiveKids(s.table)[j] == s.table[i].kid;
      }
      if s.table[i].kid in InactiveSet(s.table) {
        var j :| 0 <= j < |rows| && InactiveKids(s.table)[j] == s.table[i].kid;
        assert rows[j] in s.table && Inactive(rows[j]);
        var k :| 0 <= k < |s.table| && s.table[k] == rows[j];
        assert k == i;
      }
    }
  }

  /** From agreement, a clean expires every valid key but the active one, which alone stays on
      the list, among the files and on the shared list; a failed one changes nothing. */
  lemma CleanLeaves(s: Store, capacity: nat, fault: CleanFault)
    requires capacity >= 1 && FilesAgree(s, capacity)
    ensures CleanOutcome(s, Clean(s, fault), CleanReply(s, fault))
  {
    if CleanReply(s, fault) == Failed {
      CleanUndone(s, capacity, fault);
    } else {
      assert CleanReply(s, fault) in {Done, Interrupted} && s.table != [];
      hide Clean;
      hide CleanReply;
      hide FilesAgree;
      hide InactiveSet;
      hide MarkExpired;
      CleanShape(s, capacity, fault);
      InactiveRows(s, capacity);
      OnlyLastFile(s, capacity);
      ExpiredRows(s.table, InactiveSet(s.table), s.clock + 1);
    }
  }

  lemma ExpiredRows(table: seq<KeyRow>, kids: set<Kid>, now: int)
    ensures var t := MarkExpired(table, kids, now);
            && |t| == |table|
            && forall i | 0 <= i < |table| :: t[i] == if table[i].kid in kids then table[i].(expiredAt := Some(now)) else table[i]
  {
  }

  lemma OnlyLastFile(s: Store, capacity: nat)
    requires FilesAgree(s, capacity)
    ensures var last := s.table[|s.table| - 1];
            s.pems - InactiveSet(s.table) == map[last.kid := last.pem]
  {
    hide Select;
    hide InactiveSet;
    hide MarkExpired;
    hide PemsMatch;
    hide Drop;
    var kids, last := InactiveSet(s.table), s.table[|s.table| - 1];
    InactiveKidsAreListed(s, capacity);
    Shrink(s, capacity, kids);
    OneFile(s.pems - kids, Jwk(last.kid, last.pem));
  }

  lemma OneFile(pems: map<Kid, Pem>, e: Jwk)
    requires PemsMatch(pems, [e])
    ensures pems == map[e.kid := e.pem]
  {
    assert [e][0] in [e];
    assert JwksKids([e]) == {e.kid};
  }
}
