/** Every run of key operations keeps the key table, the JWKS file, the PEM files and the
    shared list in agreement, and failed operations are compensated. */
module KeyAgreement {
  import opened Wrappers
  import opened KeyLifecycle

  /** One unrotated key, inserted last; the others were rotated out in insertion order. */
  ghost predicate Ordered(table: seq<KeyRow>, clock: int) {
    && table != []
    && DistinctRows(table)
    && table[|table| - 1].rotatedAt == None && table[|table| - 1].expiredAt == None
    && AllRotated(table[..|table| - 1], clock)
  }

  ghost predicate DistinctRows(table: seq<KeyRow>) {
    forall i, j | 0 <= i < j < |table| :: table[i].kid != table[j].kid
  }

  ghost predicate AllRotated(rows: seq<KeyRow>, clock: int) {
    && (forall i | 0 <= i < |rows| :: rows[i].rotatedAt.Some? && rows[i].rotatedAt.value <= clock)
    && (forall i, j | 0 <= i < j < |rows| :: rows[i].rotatedAt.value < rows[j].rotatedAt.value)
  }

  ghost predicate NoRepeats(s: seq<Kid>) {
    forall i, j | 0 <= i < j < |s| :: s[i] != s[j]
  }

  /** Table, JWKS file and PEM files agree on the valid keys, and the JWKS lists them in
      rotation order. */
  ghost predicate FilesAgree(s: Store, capacity: nat) {
    var valid := Select(Valid, s.table);
    && Ordered(s.table, s.clock)
    && |valid| <= capacity
    && s.jwks == Entries(valid)
    && PemsMatch(s.pems, s.jwks)
  }

  /** The shared list holds the valid keys and the stale ones: keys of the table that are no
      longer valid. */
  ghost predicate Shares(s: Store, stale: set<Kid>) {
    && NoRepeats(s.shared) && (set k | k in s.shared) == JwksKids(s.jwks) + stale
    && stale !! JwksKids(s.jwks) && stale <= Kids(s.table)
  }

  ghost predicate Tracks(s: Store, capacity: nat, stale: set<Kid>) {
    FilesAgree(s, capacity) && Shares(s, stale)
  }

  /** All four stores agree. */
  ghost predicate Consistent(s: Store, capacity: nat) {
    FilesAgree(s, capacity) && NoRepeats(s.shared) && (set k | k in s.shared) == JwksKids(s.jwks)
  }

  lemma ConsistentIffNothingStale(s: Store, capacity: nat, stale: set<Kid>)
    requires Tracks(s, capacity, stale)
    ensures Consistent(s, capacity) <==> stale == {}
  {
  }

  lemma ConsistentTracks(s: Store, capacity: nat)
    ensures Consistent(s, capacity) <==> Tracks(s, capacity, {})
  {
  }

  ghost predicate PemsMatch(pems: map<Kid, Pem>, jwks: seq<Jwk>) {
    pems.Keys == JwksKids(jwks) && forall e | e in jwks :: pems[e.kid] == e.pem
  }

  // ------------------------------------------------------------------- filtering lemmas

  lemma EntriesOfLast(table: seq<KeyRow>)
    requires table != []
    ensures var last := table[|table| - 1];
            Entries(Select(Valid, table))
            == Entries(Select(Valid, table[..|table| - 1])) + if Valid(last) then [Jwk(last.kid, last.pem)] else []
  {
  }

  /** Expiring keys in the table is dropping their entries from the list. */
  lemma {:induction false} ExpireIsDrop(table: seq<KeyRow>, kids: set<Kid>, now: int)
    ensures Entries(Select(Valid, MarkExpired(table, kids, now))) == Drop(Entries(Select(Valid, table)), kids)
  {
    if table != [] {
      var init, last := table[..|table| - 1], table[|table| - 1];
      ExpireIsDrop(init, kids, now);
      EntriesOfLast(table);
      EntriesOfLast(MarkExpired(table, kids, now));
      assert MarkExpired(table, kids, now)[..|table| - 1] == MarkExpired(init, kids, now);
      var es, e := Entries(Select(Valid, init)), Jwk(last.kid, last.pem);
      DropConcat(es, [e], kids);
      assert Drop([e], kids) == if e.kid in kids then [] else [e];
      assert Entries(Select(Valid, table)) == if Valid(last) then es + [e] else es;
    }
  }

  /** Rotating a key out changes no entry. */
  lemma {:induction false} RotatedKeepsEntries(table: seq<KeyRow>, kid: Kid, now: int)
    ensures Entries(Select(Valid, MarkRotated(table, kid, now))) == Entries(Select(Valid, table))
  {
    if table != [] {
      RotatedKeepsEntries(table[..|table| - 1], kid, now);
      EntriesOfLast(table);
      EntriesOfLast(MarkRotated(table, kid, now));
      assert MarkRotated(table, kid, now)[..|table| - 1] == MarkRotated(table[..|table| - 1], kid, now);
    }
  }

  lemma {:induction false} SelectSame(p: KeyRow -> bool, q: KeyRow -> bool, table: seq<KeyRow>)
    requires forall r | r in table :: p(r) == q(r)
    ensures Select(p, table) == Select(q, table)
  {
    if table != [] {
      SelectSame(p, q, table[..|table| - 1]);
    }
  }

  lemma SelectLast(p: KeyRow -> bool, table: seq<KeyRow>)
    requires table != []
    ensures Select(p, table)
            == Select(p, table[..|table| - 1]) + if p(table[|table| - 1]) then [table[|table| - 1]] else []
  {
  }

  lemma {:induction false} SelectNone(p: KeyRow -> bool, table: seq<KeyRow>)
    requires forall r | r in table :: !p(r)
    ensures Select(p, table) == []
  {
    if table != [] {
      SelectNone(p, table[..|table| - 1]);
    }
  }

  lemma {:induction false} SelectDistinct(p: KeyRow -> bool, rows: seq<KeyRow>)
    requires DistinctRows(rows)
    ensures DistinctRows(Select(p, rows))
  {
    if rows != [] {
      var init, last := rows[..|rows| - 1], rows[|rows| - 1];
      SelectDistinct(p, init);
      SelectHolds(p, init);
      forall i | 0 <= i < |Select(p, init)|
        ensures Select(p, init)[i].kid != last.kid
      {
        assert Select(p, init)[i] in init;
      }
    }
  }

  /** Selected rows keep their order. */
  lemma {:induction false} SelectOrdered(p: KeyRow -> bool, rows: seq<KeyRow>, clock: int)
    requires AllRotated(rows, clock)
    ensures AllRotated(Select(p, rows), clock)
  {
    if rows != [] {
      var init, last := rows[..|rows| - 1], rows[|rows| - 1];
      SelectOrdered(p, init, clock);
      SelectHolds(p, init);
      forall i | 0 <= i < |Select(p, init)|
        ensures Select(p, init)[i].rotatedAt.value < last.rotatedAt.value
      {
        assert Select(p, init)[i] in init;
      }
    }
  }

  /** Among rows in rotation order the oldest one is the first. */
  lemma {:induction false} OldestIsFirst(rows: seq<KeyRow>, clock: int)
    requires rows != [] && AllRotated(rows, clock)
    ensures Oldest(rows) == rows[0]
  {
    if |rows| > 1 {
      OldestIsFirst(rows[..|rows| - 1], clock);
    }
  }

  lemma {:induction false} DropNone(jwks: seq<Jwk>, kids: set<Kid>)
    requires forall e | e in jwks :: e.kid !in kids
    ensures Drop(jwks, kids) == jwks
  {
    if jwks != [] {
      var init, last := jwks[..|jwks| - 1], jwks[|jwks| - 1];
      assert jwks == init + [last];
      DropNone(init, kids);
      assert Drop(jwks, kids) == Drop(init, kids) + [last];
      hide Drop;
    }
  }

  lemma {:induction false} DropConcat(a: seq<Jwk>, b: seq<Jwk>, kids: set<Kid>)
    ensures Drop(a + b, kids) == Drop(a, kids) + Drop(b, kids)
  {
    if b == [] {
      assert a + b == a;
    } else {
      DropConcat(a, b[..|b| - 1], kids);
      assert (a + b)[..|a + b| - 1] == a + b[..|b| - 1];
    }
  }

  lemma {:induction false} DropHolds(jwks: seq<Jwk>, kids: set<Kid>)
    ensures forall e :: e in Drop(jwks, kids) <==> e in jwks && e.kid !in kids
  {
    if jwks != [] {
      DropHolds(jwks[..|jwks| - 1], kids);
      assert jwks == jwks[..|jwks| - 1] + [jwks[|jwks| - 1]];
    }
  }

  lemma DropKids(jwks: seq<Jwk>, kids: set<Kid>)
    ensures JwksKids(Drop(jwks, kids)) == JwksKids(jwks) - kids
  {
    DropHolds(jwks, kids);
  }

  ghost predicate DistinctEntries(jwks: seq<Jwk>) {
    forall i, j | 0 <= i < j < |jwks| :: jwks[i].kid != jwks[j].kid
  }

  lemma DropFirst(jwks: seq<Jwk>)
    requires jwks != [] && DistinctEntries(jwks)
    ensures Drop(jwks, {jwks[0].kid}) == jwks[1..]
  {
    assert jwks == [jwks[0]] + jwks[1..];
    DropConcat([jwks[0]], jwks[1..], {jwks[0].kid});
    DropNone(jwks[1..], {jwks[0].kid});
  }

  // --------------------------------------------------------------------- the operations

  lemma ActiveIsLast(table: seq<KeyRow>, clock: int)
    requires Ordered(table, clock)
    ensures Active(table) == Some(table[|table| - 1])
  {
    SelectNone(Unrotated, table[..|table| - 1]);
    SelectLast(Unrotated, table);
  }

  lemma RowFound(table: seq<KeyRow>, i: nat)
    requires DistinctRows(table) && i < |table|
    ensures Row(table, table[i].kid) == Some(table[i])
  {
    if i < |table| - 1 {
      RowFound(table[..|table| - 1], i);
    }
  }

  lemma {:induction false} RowHolds(table: seq<KeyRow>, kid: Kid)
    ensures Row(table, kid).Some? ==> Row(table, kid).value in table && Row(table, kid).value.kid == kid
    ensures Row(table, kid) == None <==> kid !in Kids(table)
  {
    if table != [] {
      RowHolds(table[..|table| - 1], kid);
      assert table == table[..|table| - 1] + [table[|table| - 1]];
    }
  }

  lemma ValidEntries(table: seq<KeyRow>)
    requires DistinctRows(table)
    ensures DistinctEntries(Entries(Select(Valid, table)))
    ensures JwksKids(Entries(Select(Valid, table))) == Kids(Select(Valid, table))
    ensures Kids(Select(Valid, table)) <= Kids(table)
  {
    var rows := Select(Valid, table);
    SelectDistinct(Valid, table);
    SelectHolds(Valid, table);
    forall r | r in rows
      ensures r.kid in JwksKids(Entries(rows))
    {
      var i :| 0 <= i < |rows| && rows[i] == r;
      assert Entries(rows)[i] in Entries(rows);
    }
  }

  lemma SharedIsValid(table: seq<KeyRow>)
    requires DistinctRows(table)
    ensures NoRepeats(SharedFrom(table))
    ensures (set k | k in SharedFrom(table)) == JwksKids(Entries(Select(Valid, table)))
  {
    var rows := Select(Valid, table);
    SelectDistinct(Valid, table);
    ValidEntries(table);
    forall r | r in rows
      ensures r.kid in SharedFrom(table)
    {
      var i :| 0 <= i < |rows| && rows[i] == r;
      assert SharedFrom(table)[i] == r.kid;
    }
  }

  lemma ExpireKeepsOrder(table: seq<KeyRow>, kids: set<Kid>, clock: int, now: int)
    requires Ordered(table, clock) && table[|table| - 1].kid !in kids && clock <= now
    ensures Ordered(MarkExpired(table, kids, now), now)
  {
  }

  lemma RotateKeepsOrder(table: seq<KeyRow>, kid: Kid, pem: Pem, clock: int, now: int)
    requires Ordered(table, clock) && kid !in Kids(table) && clock < now
    ensures Ordered(MarkRotated(table, table[|table| - 1].kid, now) + [KeyRow(kid, pem, None, None)], now)
  {
    forall i | 0 <= i < |table|
      ensures table[i].kid != kid
    {
      assert table[i] in table;
    }
  }

  /** The candidates for expiry after a rotation are the previously valid keys, in order. */
  lemma RotateCandidates(table: seq<KeyRow>, kid: Kid, pem: Pem, clock: int, now: int)
    requires Ordered(table, clock) && kid !in Kids(table) && clock < now
    ensures var marked := MarkRotated(table, table[|table| - 1].kid, now);
            var table' := marked + [KeyRow(kid, pem, None, None)];
            && Select(Inactive, table') == Select(Valid, marked)
            && AllRotated(Select(Valid, marked), now)
            && Entries(Select(Valid, marked)) == Entries(Select(Valid, table))
            && Entries(Select(Valid, table')) == Entries(Select(Valid, table)) + [Jwk(kid, pem)]
  {
    var marked := MarkRotated(table, table[|table| - 1].kid, now);
    var table' := marked + [KeyRow(kid, pem, None, None)];
    RotateKeepsOrder(table, kid, pem, clock, now);
    assert table'[..|table'| - 1] == marked;
    SelectLast(Inactive, table');
    SelectSame(Inactive, Valid, marked);
    SelectOrdered(Valid, marked, now);
    RotatedKeepsEntries(table, table[|table| - 1].kid, now);
    EntriesOfLast(table');
  }

  function Rotated(table: seq<KeyRow>, kid: Kid, pem: Pem, now: int): seq<KeyRow>
    requires table != []
  {
    MarkRotated(table, table[|table| - 1].kid, now) + [KeyRow(kid, pem, None, None)]
  }

  /** The key that a rotation expires is the first one on the list. */
  lemma RotateResult(s: Store, capacity: nat, kid: Kid, pem: Pem)
    requires capacity >= 1 && FilesAgree(s, capacity) && kid !in Kids(s.table)
    ensures var now, entries := s.clock + 1, s.jwks + [Jwk(kid, pem)];
            RotateTable(s.table, capacity, kid, pem, now)
            == Some(if |entries| <= capacity then (Rotated(s.table, kid, pem, now), None)
                    else (MarkExpired(Rotated(s.table, kid, pem, now), {entries[0].kid}, now), Some(entries[0].kid)))
  {
    var now := s.clock + 1;
    ActiveIsLast(s.table, s.clock);
    RotateCandidates(s.table, kid, pem, s.clock, now);
    var candidates := Select(Inactive, Rotated(s.table, kid, pem, now));
    assert |Select(Valid, Rotated(s.table, kid, pem, now))| == |s.jwks| + 1;
    if |s.jwks| + 1 > capacity {
      SelectHolds(Inactive, Rotated(s.table, kid, pem, now));
      OldestIsFirst(candidates, now);
      assert Entries(candidates) == s.jwks;
      assert candidates[0].kid == s.jwks[0].kid;
    }
  }

  lemma Trimmed(table: seq<KeyRow>, entries: seq<Jwk>, capacity: nat, clock: int, now: int)
    requires Ordered(table, clock) && clock <= now && entries == Entries(Select(Valid, table))
    requires 1 <= capacity && |entries| == capacity + 1
    requires entries[0].kid != table[|table| - 1].kid
    ensures var expired := {entries[0].kid};
            && Ordered(MarkExpired(table, expired, now), now)
            && Entries(Select(Valid, MarkExpired(table, expired, now))) == KeepLast(entries, capacity)
            && JwksKids(KeepLast(entries, capacity)) == JwksKids(entries) - expired
  {
    ValidEntries(table);
    ExpireIsDrop(table, {entries[0].kid}, now);
    DropFirst(entries);
    DropKids(entries, {entries[0].kid});
    ExpireKeepsOrder(table, {entries[0].kid}, clock, now);
  }

  /** What a rotation that goes through does to the table and the list: trimming the file
      drops precisely the key that the database expires. */
  lemma RotateAgrees(s: Store, capacity: nat, kid: Kid, pem: Pem)
    requires capacity >= 1 && FilesAgree(s, capacity) && kid !in Kids(s.table)
    ensures var r := RotateTable(s.table, capacity, kid, pem, s.clock + 1);
            var trimmed := KeepLast(s.jwks + [Jwk(kid, pem)], capacity);
            && r.Some?
            && Ordered(r.value.0, s.clock + 1)
            && Entries(Select(Valid, r.value.0)) == trimmed && |trimmed| <= capacity
            && JwksKids(trimmed) == JwksKids(s.jwks) + {kid} - (if r.value.1.Some? then {r.value.1.value} else {})
  {
    hide RotateTable;
    hide Select;
    hide MarkRotated;
    hide MarkExpired;
    var now, entries := s.clock + 1, s.jwks + [Jwk(kid, pem)];
    RotateResult(s, capacity, kid, pem);
    RotateKeepsOrder(s.table, kid, pem, s.clock, now);
    RotateCandidates(s.table, kid, pem, s.clock, now);
    assert JwksKids(entries) == JwksKids(s.jwks) + {kid} by {
      assert forall e :: e in entries <==> e in s.jwks || e == Jwk(kid, pem);
      assert Jwk(kid, pem) in entries;
    }
    if |entries| > capacity {
      ListedKeysExist(s, capacity);
      assert entries[0] == s.jwks[0] && s.jwks[0] in s.jwks;
      Trimmed(Rotated(s.table, kid, pem, now), entries, capacity, now, now);
    }
  }

  lemma ListedKeysExist(s: Store, capacity: nat)
    requires FilesAgree(s, capacity)
    ensures JwksKids(s.jwks) <= Kids(s.table)
    ensures forall e | e in s.jwks :: e.kid in Kids(s.table)
  {
    ValidEntries(s.table);
    assert forall e | e in s.jwks :: e.kid in JwksKids(s.jwks);
  }

  lemma PemsAfterRotation(pems: map<Kid, Pem>, jwks: seq<Jwk>, e: Jwk, trimmed: seq<Jwk>, expired: set<Kid>)
    requires PemsMatch(pems, jwks) && e.kid !in JwksKids(jwks)
    requires forall x | x in trimmed :: x in jwks || x == e
    requires JwksKids(trimmed) == JwksKids(jwks) + {e.kid} - expired
    ensures PemsMatch(pems[e.kid := e.pem] - expired, trimmed)
  {
    forall x | x in trimmed
      ensures x.kid in JwksKids(trimmed) && (pems[e.kid := e.pem] - expired)[x.kid] == x.pem
    {
      assert x.kid in JwksKids(trimmed);
      if x in jwks {
        assert x.kid in JwksKids(jwks);
      }
    }
  }

  /** An operation that changes nothing, at a later time. */
  lemma Unchanged(s: Store, capacity: nat, stale: set<Kid>)
    requires Tracks(s, capacity, stale)
    ensures Tracks(s.(clock := s.clock + 1), capacity, stale)
  {
  }

  lemma RotateRefused(s: Store, capacity: nat, kid: Kid, pem: Pem, fault: RotateFault)
    requires fault == AtDatabase || kid in Kids(s.table)
    ensures Rotate(s, capacity, kid, pem, fault) == s.(clock := s.clock + 1) && !RotateCommits(s, capacity, kid, pem, fault)
  {
  }

  /** A rotation that does not fail after its commit keeps the files in agreement and makes
      the shared list the valid keys, whatever was stale on it. */
  lemma RotateKeeps(s: Store, capacity: nat, kid: Kid, pem: Pem, fault: RotateFault, stale: set<Kid>)
    requires capacity >= 1 && Tracks(s, capacity, stale) && fault in {Smooth, AtDatabase}
    ensures Tracks(Rotate(s, capacity, kid, pem, fault), capacity,
                   if RotateCommits(s, capacity, kid, pem, fault) then {} else stale)
  {
    hide RotateTable;
    hide RotateFiles;
    hide KeepLast;
    hide Shares;
    if fault == AtDatabase || kid in Kids(s.table) {
      RotateRefused(s, capacity, kid, pem, fault);
      Unchanged(s, capacity, stale);
    } else {
      RotateAgrees(s, capacity, kid, pem);
      var (table, expired) := RotateTable(s.table, capacity, kid, pem, s.clock + 1).value;
      RotateParts(s, capacity, kid, pem, table, expired, stale);
    }
  }

  lemma RotateParts(
      s: Store, capacity: nat, kid: Kid, pem: Pem, table: seq<KeyRow>, expired: Option<Kid>, stale: set<Kid>)
    requires Tracks(s, capacity, stale) && kid !in Kids(s.table)
    requires var trimmed := KeepLast(s.jwks + [Jwk(kid, pem)], capacity);
             && Ordered(table, s.clock + 1) && Entries(Select(Valid, table)) == trimmed && |trimmed| <= capacity
             && JwksKids(trimmed) == JwksKids(s.jwks) + {kid} - (if expired.Some? then {expired.value} else {})
    ensures Tracks(RotateFiles(s, capacity, kid, pem, Smooth, Some((table, expired))), capacity, {})
  {
    hide Select;
    hide Ordered;
    hide PemsMatch;
    var trimmed := KeepLast(s.jwks + [Jwk(kid, pem)], capacity);
    var gone := if expired.Some? then {expired.value} else {};
    DistinctWhenOrdered(table, s.clock + 1);
    SharedIsValid(table);
    NotShared(s, capacity, kid, stale);
    PemsAfterRotation(s.pems, s.jwks, Jwk(kid, pem), trimmed, gone);
    hide Shares;
    hide DistinctRows;
    var t := RotateFiles(s, capacity, kid, pem, Smooth, Some((table, expired)));
    assert t == Store(table, trimmed, s.pems[kid := pem] - gone, SharedFrom(table), s.clock + 1);
    hide RotateFiles;
    hide KeepLast;
    Assembled(table, trimmed, s.pems[kid := pem] - gone, SharedFrom(table), s.clock + 1, capacity, {});
  }

  lemma DistinctWhenOrdered(table: seq<KeyRow>, clock: int)
    requires Ordered(table, clock)
    ensures DistinctRows(table)
  {
  }

  lemma NotShared(s: Store, capacity: nat, kid: Kid, stale: set<Kid>)
    requires Tracks(s, capacity, stale) && kid !in Kids(s.table)
    ensures kid !in s.shared && kid !in JwksKids(s.jwks)
  {
    ListedKeysExist(s, capacity);
    assert kid in s.shared ==> kid in set k | k in s.shared;
  }

  /** From agreement, a rotation leads to agreement exactly when it does not fail between its
      commit and the end: the new key is then missing from the shared list at least. */
  lemma RotateAgreesIff(s: Store, capacity: nat, kid: Kid, pem: Pem, fault: RotateFault)
    requires capacity >= 1 && Consistent(s, capacity)
    ensures Consistent(Rotate(s, capacity, kid, pem, fault), capacity)
            <==> fault in {Smooth, AtDatabase} || kid in Kids(s.table)
  {
    ConsistentTracks(s, capacity);
    ConsistentTracks(Rotate(s, capacity, kid, pem, fault), capacity);
    hide Consistent;
    hide Tracks;
    if fault in {Smooth, AtDatabase} {
      RotateKeeps(s, capacity, kid, pem, fault, {});
    } else if kid in Kids(s.table) {
      RotateRefused(s, capacity, kid, pem, fault);
      Unchanged(s, capacity, {});
    } else {
      RotateBroken(s, capacity, kid, pem, fault);
    }
  }

  lemma RotateShape(s: Store, capacity: nat, kid: Kid, pem: Pem, fault: RotateFault)
    requires fault !in {Smooth, AtDatabase} && RotateTable(s.table, capacity, kid, pem, s.clock + 1).Some?
    ensures var t := Rotate(s, capacity, kid, pem, fault);
            t.shared == s.shared && t.table == RotateTable(s.table, capacity, kid, pem, s.clock + 1).value.0
  {
    hide RotateTable;
    hide KeepLast;
  }

  lemma RotateBroken(s: Store, capacity: nat, kid: Kid, pem: Pem, fault: RotateFault)
    requires capacity >= 1 && Tracks(s, capacity, {}) && kid !in Kids(s.table) && fault !in {Smooth, AtDatabase}
    ensures !Tracks(Rotate(s, capacity, kid, pem, fault), capacity, {})
  {
    RotateAgrees(s, capacity, kid, pem);
    NewKeyIsListed(s, capacity, kid, pem);
    NotShared(s, capacity, kid, {});
    RotateShape(s, capacity, kid, pem, fault);
    hide Rotate;
    hide RotateTable;
    hide KeepLast;
    hide Select;
    hide Ordered;
    hide PemsMatch;
    hide Entries;
    var t := Rotate(s, capacity, kid, pem, fault);
    assert kid !in set k | k in t.shared;
  }

  lemma NewKeyIsListed(s: Store, capacity: nat, kid: Kid, pem: Pem)
    requires capacity >= 1
    ensures kid in JwksKids(KeepLast(s.jwks + [Jwk(kid, pem)], capacity))
  {
    var trimmed := KeepLast(s.jwks + [Jwk(kid, pem)], capacity);
    assert trimmed[|trimmed| - 1] == Jwk(kid, pem);
  }

  lemma Assembled(
      table: seq<KeyRow>, jwks: seq<Jwk>, pems: map<Kid, Pem>, shared: seq<Kid>, clock: int, capacity: nat, stale: set<Kid>)
    requires Ordered(table, clock) && jwks == Entries(Select(Valid, table)) && |jwks| <= capacity
    requires PemsMatch(pems, jwks) && NoRepeats(shared) && (set k | k in shared) == JwksKids(jwks) + stale
    requires stale !! JwksKids(jwks) && stale <= Kids(table)
    ensures Tracks(Store(table, jwks, pems, shared, clock), capacity, stale)
  {
  }

  lemma Prepend(kid: Kid, s: seq<Kid>)
    requires NoRepeats(s) && kid !in s
    ensures NoRepeats([kid] + s) && NoRepeats(s + [kid])
  {
  }

  lemma {:induction false} RemoveOneHolds(s: seq<Kid>, kid: Kid)
    requires NoRepeats(s)
    ensures NoRepeats(RemoveOne(s, kid))
    ensures forall k :: k in RemoveOne(s, kid) <==> k in s && k != kid
  {
    if s != [] {
      RemoveOneHolds(s[1..], kid);
      assert s == [s[0]] + s[1..] && s[0] !in s[1..];
      if s[0] != kid {
        Prepend(s[0], RemoveOne(s[1..], kid));
      }
    }
  }

  lemma {:induction false} ReverseHolds(s: seq<Kid>)
    ensures forall k :: k in Reverse(s) <==> k in s
    ensures NoRepeats(s) ==> NoRepeats(Reverse(s))
  {
    if s != [] {
      ReverseHolds(s[1..]);
      assert s == [s[0]] + s[1..];
      if NoRepeats(s) {
        assert s[0] !in s[1..];
        Prepend(s[0], Reverse(s[1..]));
      }
    }
  }

  /** A failed invalidation restores everything, except that a PEM file which was missing or
      different beforehand ends up as the table has it once it had to be written. */
  lemma InvalidateCompensates(s: Store, kid: Kid, fault: InvalidateFault, signing: Kid)
    requires InvalidateReply(s.table, kid, fault, signing) == Failed
    ensures var s' := Invalidate(s, kid, fault, signing);
            && s'.table == s.table && s'.jwks == s.jwks && s'.shared == s.shared
            && (s'.pems == s.pems <==>
                  || fault == AtSelect
                  || (kid in s.pems && (fault == AtCommit ==> Some(s.pems[kid]) == PemOf(Row(s.table, kid)))))
  {
  }

  /** In agreement that is always so: an invalidation that does not get past its commit leaves
      every store as it was. */
  lemma InvalidateUndone(s: Store, capacity: nat, kid: Kid, fault: InvalidateFault, signing: Kid)
    requires FilesAgree(s, capacity) && InvalidateReply(s.table, kid, fault, signing) !in {Done, Interrupted}
    ensures Invalidate(s, kid, fault, signing) == s.(clock := s.clock + 1)
  {
    if InvalidateReply(s.table, kid, fault, signing) == Failed && fault != AtSelect {
      InactiveIsListed(s, capacity, kid);
      assert s.pems[kid := s.pems[kid]] == s.pems;
    }
  }

  function PemOf(row: Option<KeyRow>): Option<Pem> {
    match row
    case None => None
    case Some(r) => Some(r.pem)
  }

  /** An inactive row is not the last one, and its key is listed. */
  lemma InactiveIsListed(s: Store, capacity: nat, kid: Kid)
    requires FilesAgree(s, capacity) && Row(s.table, kid).Some? && Inactive(Row(s.table, kid).value)
    ensures kid != s.table[|s.table| - 1].kid
    ensures kid in JwksKids(s.jwks) && s.pems[kid] == Row(s.table, kid).value.pem
  {
    var row := Row(s.table, kid).value;
    RowHolds(s.table, kid);
    var i :| 0 <= i < |s.table| && s.table[i] == row;
    SelectHolds(Valid, s.table);
    var valid := Select(Valid, s.table);
    assert row in valid;
    var j :| 0 <= j < |valid| && valid[j] == row;
    assert s.jwks[j] == Jwk(kid, row.pem) && s.jwks[j] in s.jwks;
  }

  /** Any outcome keeps the files in agreement; an interrupted one leaves its key on the
      shared list. */
  lemma InvalidateKeeps(s: Store, capacity: nat, kid: Kid, fault: InvalidateFault, signing: Kid, stale: set<Kid>)
    requires Tracks(s, capacity, stale)
    ensures Tracks(Invalidate(s, kid, fault, signing), capacity,
                   if InvalidateReply(s.table, kid, fault, signing) == Interrupted then stale + {kid} else stale)
  {
    if InvalidateReply(s.table, kid, fault, signing) in {Done, Interrupted} {
      InvalidateDone(s, capacity, kid, fault, signing, stale);
    } else {
      InvalidateUndone(s, capacity, kid, fault, signing);
      Unchanged(s, capacity, stale);
    }
  }

  /** From agreement, an invalidation leads to agreement exactly when it is not interrupted
      after its commit, as it is when the serving worker still signs with the key. */
  lemma InvalidateAgreesIff(s: Store, capacity: nat, kid: Kid, fault: InvalidateFault, signing: Kid)
    requires Consistent(s, capacity)
    ensures Consistent(Invalidate(s, kid, fault, signing), capacity)
            <==> InvalidateReply(s.table, kid, fault, signing) != Interrupted
    ensures InvalidateReply(s.table, kid, fault, signing) == Interrupted
            <==> (Row(s.table, kid).Some? && Inactive(Row(s.table, kid).value)
                  && (fault == AtList || (fault == NoFault && signing == kid)))
  {
    ConsistentTracks(s, capacity);
    InvalidateKeeps(s, capacity, kid, fault, signing, {});
    var stale := if InvalidateReply(s.table, kid, fault, signing) == Interrupted then {kid} else {};
    assert {} + {kid} == {kid};
    ConsistentIffNothingStale(Invalidate(s, kid, fault, signing), capacity, stale);
  }

  /** Expiring inactive keys in the table, the list and the files alike keeps them in step. */
  lemma Shrink(s: Store, capacity: nat, kids: set<Kid>)
    requires FilesAgree(s, capacity) && s.table[|s.table| - 1].kid !in kids
    ensures var table := MarkExpired(s.table, kids, s.clock + 1);
            && Ordered(table, s.clock + 1)
            && Entries(Select(Valid, table)) == Drop(s.jwks, kids) && |Drop(s.jwks, kids)| <= capacity
            && JwksKids(Drop(s.jwks, kids)) == JwksKids(s.jwks) - kids
            && PemsMatch(s.pems - kids, Drop(s.jwks, kids))
  {
    ExpireKeepsOrder(s.table, kids, s.clock, s.clock + 1);
    ExpireIsDrop(s.table, kids, s.clock + 1);
    DropKids(s.jwks, kids);
    DropHolds(s.jwks, kids);
    DropShorter(s.jwks, kids);
  }

  lemma ExpiredKids(table: seq<KeyRow>, kids: set<Kid>, now: int)
    ensures Kids(MarkExpired(table, kids, now)) == Kids(table)
  {
    var marked := MarkExpired(table, kids, now);
    forall r | r in table
      ensures r.kid in Kids(marked)
    {
      var i :| 0 <= i < |table| && table[i] == r;
      assert marked[i] in marked;
    }
  }

  lemma InvalidateDone(s: Store, capacity: nat, kid: Kid, fault: InvalidateFault, signing: Kid, stale: set<Kid>)
    requires Tracks(s, capacity, stale) && InvalidateReply(s.table, kid, fault, signing) in {Done, Interrupted}
    ensures Tracks(Invalidate(s, kid, fault, signing), capacity,
                   if InvalidateReply(s.table, kid, fault, signing) == Interrupted then stale + {kid} else stale)
  {
    hide Select;
    hide Ordered;
    hide PemsMatch;
    hide MarkExpired;
    hide Drop;
    var reply := InvalidateReply(s.table, kid, fault, signing);
    InactiveIsListed(s, capacity, kid);
    ListedKeysExist(s, capacity);
    Shrink(s, capacity, {kid});
    ExpiredKids(s.table, {kid}, s.clock + 1);
    assert kid in s.shared by { assert kid in set k | k in s.shared; }
    RemoveOneHolds(s.shared, kid);
    ReverseHolds(RemoveOne(s.shared, kid));
    var shared := if reply == Done then Reverse(RemoveOne(s.shared, kid)) else s.shared;
    assert Invalidate(s, kid, fault, signing)
        == Store(MarkExpired(s.table, {kid}, s.clock + 1), Drop(s.jwks, {kid}), s.pems - {kid}, shared, s.clock + 1);
    assert (set k | k in shared) == (set k | k in s.shared) - if reply == Done then {kid} else {};
    hide InvalidateReply;
    hide Invalidate;
    Assembled(MarkExpired(s.table, {kid}, s.clock + 1), Drop(s.jwks, {kid}), s.pems - {kid}, shared,
              s.clock + 1, capacity, if reply == Interrupted then stale + {kid} else stale);
  }

  lemma {:induction false} DropShorter(jwks: seq<Jwk>, kids: set<Kid>)
    ensures |Drop(jwks, kids)| <= |jwks|
  {
    if jwks != [] {
      DropShorter(jwks[..|jwks| - 1], kids);
    }
  }

  /** A failed clean restores everything exactly when every file that it had already deleted
      belongs to a key on the JWKS list: the restore writes back only listed keys. */
  lemma CleanCompensates(s: Store, fault: CleanFault)
    requires !CleanRefused(s) && CleanFails(s, fault)
    ensures var s' := Clean(s, fault);
            && s'.table == s.table && s'.jwks == s.jwks && s'.shared == s.shared
            && (s'.pems == s.pems <==>
                  Active(s.table) == None || Unlinked(s.table, fault) * s.pems.Keys <= JwksKids(s.jwks))
  {
    var s' := Clean(s, fault);
    if s'.pems == s.pems && Active(s.table).Some? {
      forall k | k in Unlinked(s.table, fault) * s.pems.Keys
        ensures k in JwksKids(s.jwks)
      {
        assert k in s'.pems;
      }
    }
  }

  /** In agreement, the inactive valid keys are all listed ones but the last. */
  lemma InactiveKidsAreListed(s: Store, capacity: nat)
    requires FilesAgree(s, capacity)
    ensures var kids := InactiveSet(s.table);
            var last := s.table[|s.table| - 1];
            && kids <= JwksKids(s.jwks) && last.kid !in kids
            && Drop(s.jwks, kids) == [Jwk(last.kid, last.pem)]
  {
    var init, last := s.table[..|s.table| - 1], s.table[|s.table| - 1];
    var kids := InactiveSet(s.table);
    SelectSame(Inactive, Valid, init);
    SelectLast(Inactive, s.table);
    var rows := Select(Inactive, s.table);
    assert rows == Select(Valid, init);
    EntriesOfLast(s.table);
    var head := Entries(rows);
    assert s.jwks == head + [Jwk(last.kid, last.pem)];
    forall e | e in head
      ensures e.kid in kids
    {
      var i :| 0 <= i < |head| && head[i] == e;
      assert InactiveKids(s.table)[i] == e.kid;
    }
    forall k | k in kids
      ensures k in JwksKids(s.jwks) && k != last.kid
    {
      var i :| 0 <= i < |rows| && InactiveKids(s.table)[i] == k;
      assert s.jwks[i] == head[i] && s.jwks[i] in s.jwks;
      SelectHolds(Valid, init);
      assert rows[i] in init;
    }
    DropConcat(head, [Jwk(last.kid, last.pem)], kids);
    DropAll(head, kids);
    assert [Jwk(last.kid, last.pem)][..0] == [];
  }

  lemma {:induction false} DropAll(jwks: seq<Jwk>, kids: set<Kid>)
    requires forall e | e in jwks :: e.kid in kids
    ensures Drop(jwks, kids) == []
  {
    if jwks != [] {
      DropAll(jwks[..|jwks| - 1], kids);
    }
  }

  lemma UnlinkedAreInactive(table: seq<KeyRow>, fault: CleanFault)
    ensures Unlinked(table, fault) <= InactiveSet(table)
  {
  }

  /** In agreement, a clean that does not get past its commit leaves every store as it was,
      wherever in the deletion loop it fails. */
  lemma CleanUndone(s: Store, capacity: nat, fault: CleanFault)
    requires FilesAgree(s, capacity) && CleanReply(s, fault) == Failed
    ensures Clean(s, fault) == s.(clock := s.clock + 1)
  {
    if !CleanRefused(s) {
      InactiveKidsAreListed(s, capacity);
      UnlinkedAreInactive(s.table, fault);
      CleanCompensates(s, fault);
    }
  }

  /** The keys that stay on the shared list although they are no longer valid. */
  function StaleAfterClean(s: Store, fault: CleanFault, stale: set<Kid>): set<Kid> {
    match CleanReply(s, fault)
    case Done => {}
    case Interrupted => stale + InactiveSet(s.table)
    case _ => stale
  }

  lemma CleanKeeps(s: Store, capacity: nat, fault: CleanFault, stale: set<Kid>)
    requires capacity >= 1 && Tracks(s, capacity, stale)
    ensures Tracks(Clean(s, fault), capacity, StaleAfterClean(s, fault, stale))
  {
    if CleanReply(s, fault) == Failed {
      CleanUndone(s, capacity, fault);
      Unchanged(s, capacity, stale);
    } else {
      CleanDone(s, capacity, fault, stale);
    }
  }

  lemma CleanShape(s: Store, capacity: nat, fault: CleanFault)
    requires FilesAgree(s, capacity) && CleanReply(s, fault) != Failed
    ensures var kids, last := InactiveSet(s.table), s.table[|s.table| - 1];
            Clean(s, fault) == Store(MarkExpired(s.table, kids, s.clock + 1), [Jwk(last.kid, last.pem)], s.pems - kids,
                                     if CleanReply(s, fault) == Interrupted then s.shared else [last.kid], s.clock + 1)
  {
    ActiveIsLast(s.table, s.clock);
  }

  lemma StaleKids(listed: set<Kid>, kids: set<Kid>, last: Kid, stale: set<Kid>)
    requires listed - kids == {last} && kids <= listed && stale !! listed
    ensures listed + stale == {last} + (stale + kids) && (stale + kids) !! {last}
  {
  }

  lemma CleanAssembled(s: Store, capacity: nat, kids: set<Kid>, last: KeyRow, interrupted: bool, stale: set<Kid>)
    requires capacity >= 1 && Tracks(s, capacity, stale) && last == s.table[|s.table| - 1]
    requires kids <= JwksKids(s.jwks) && last.kid !in kids && Drop(s.jwks, kids) == [Jwk(last.kid, last.pem)]
    ensures Tracks(Store(MarkExpired(s.table, kids, s.clock + 1), [Jwk(last.kid, last.pem)], s.pems - kids,
                         if interrupted then s.shared else [last.kid], s.clock + 1),
                   capacity, if interrupted then stale + kids else {})
  {
    hide *;
    CleanFacts(s, capacity, kids, last, stale);
    OneShared(last.kid);
    var table, only := MarkExpired(s.table, kids, s.clock + 1), [Jwk(last.kid, last.pem)];
    if interrupted {
      Assembled(table, only, s.pems - kids, s.shared, s.clock + 1, capacity, stale + kids);
    } else {
      Assembled(table, only, s.pems - kids, [last.kid], s.clock + 1, capacity, {});
    }
  }

  lemma OneShared(kid: Kid)
    ensures NoRepeats([kid]) && (set k | k in [kid]) == {kid} + {}
  {
  }

  /** What a clean leaves behind, part by part. */
  lemma CleanFacts(s: Store, capacity: nat, kids: set<Kid>, last: KeyRow, stale: set<Kid>)
    requires capacity >= 1 && Tracks(s, capacity, stale) && last == s.table[|s.table| - 1]
    requires kids <= JwksKids(s.jwks) && last.kid !in kids && Drop(s.jwks, kids) == [Jwk(last.kid, last.pem)]
    ensures var table, only := MarkExpired(s.table, kids, s.clock + 1), [Jwk(last.kid, last.pem)];
            && Ordered(table, s.clock + 1) && Entries(Select(Valid, table)) == only && PemsMatch(s.pems - kids, only)
            && JwksKids(only) == {last.kid} && Kids(table) == Kids(s.table)
            && (set k | k in s.shared) == {last.kid} + (stale + kids) && (stale + kids) !! {last.kid}
            && stale + kids <= Kids(s.table) && NoRepeats(s.shared)
  {
    ListedKeysExist(s, capacity);
    Shrink(s, capacity, kids);
    hide Select;
    hide Ordered;
    hide MarkExpired;
    hide PemsMatch;
    hide Drop;
    ExpiredKids(s.table, kids, s.clock + 1);
    assert Jwk(last.kid, last.pem) in [Jwk(last.kid, last.pem)];
    StaleKids(JwksKids(s.jwks), kids, last.kid, stale);
  }

  lemma CleanDone(s: Store, capacity: nat, fault: CleanFault, stale: set<Kid>)
    requires capacity >= 1 && Tracks(s, capacity, stale) && CleanReply(s, fault) != Failed
    ensures Tracks(Clean(s, fault), capacity, StaleAfterClean(s, fault, stale))
  {
    CleanShape(s, capacity, fault);
    InactiveKidsAreListed(s, capacity);
    assert CleanReply(s, fault) in {Done, Interrupted};
    hide Clean;
    hide CleanReply;
    hide InactiveSet;
    hide Tracks;
    CleanAssembled(s, capacity, InactiveSet(s.table), s.table[|s.table| - 1], CleanReply(s, fault) == Interrupted, stale);
  }

  // --------------------------------------------------------------------------- the runs

  datatype Op =
    | RotateOp(kid: Kid, pem: Pem, rotateFault: RotateFault)
    | InvalidateOp(kid: Kid, invalidateFault: InvalidateFault, signing: Kid)
    | CleanOp(cleanFault: CleanFault)

  /** No rotation fails between its commit and its end. */
  predicate Whole(op: Op) {
    op.RotateOp? ==> op.rotateFault in {Smooth, AtDatabase}
  }

  function Apply(s: Store, capacity: nat, op: Op): Store {
    match op
    case RotateOp(kid, pem, fault) => Rotate(s, capacity, kid, pem, fault)
    case InvalidateOp(kid, fault, signing) => Invalidate(s, kid, fault, signing)
    case CleanOp(fault) => Clean(s, fault)
  }

  function After(s: Store, capacity: nat, ops: seq<Op>): Store {
    if ops == [] then s else Apply(After(s, capacity, ops[..|ops| - 1]), capacity, ops[|ops| - 1])
  }

  /** The stores as bootup leaves them for a given table, with the JWKS list in rotation
      order or, as the repository's query would feed it, newest first. */
  function Boot(table: seq<KeyRow>, clock: int, oldestFirst: bool): Store {
    var valid := Entries(Select(Valid, table));
    Store(table, if oldestFirst then valid else Backwards(valid),
          map e | e in valid :: e.kid := PemIn(valid, e.kid), SharedFrom(table), clock)
  }

  function Backwards(jwks: seq<Jwk>): (r: seq<Jwk>)
    ensures |r| == |jwks|
  {
    if jwks == [] then [] else Backwards(jwks[1..]) + [jwks[0]]
  }

  function PemIn(jwks: seq<Jwk>, kid: Kid): Pem
    requires kid in JwksKids(jwks)
  {
    if jwks[|jwks| - 1].kid == kid then jwks[|jwks| - 1].pem
    else
      assert forall e | e in jwks :: e in jwks[..|jwks| - 1] || e == jwks[|jwks| - 1];
      PemIn(jwks[..|jwks| - 1], kid)
  }

  lemma {:induction false} PemInHolds(jwks: seq<Jwk>)
    requires DistinctEntries(jwks)
    ensures forall e | e in jwks :: e.kid in JwksKids(jwks) && PemIn(jwks, e.kid) == e.pem
  {
    if jwks != [] {
      PemInHolds(jwks[..|jwks| - 1]);
      forall e | e in jwks
        ensures e.kid in JwksKids(jwks) && PemIn(jwks, e.kid) == e.pem
      {
        if e != jwks[|jwks| - 1] {
          assert e in jwks[..|jwks| - 1];
          assert e.kid in JwksKids(jwks[..|jwks| - 1]);
        }
      }
    }
  }

  lemma BootAgrees(table: seq<KeyRow>, clock: int, capacity: nat)
    requires Ordered(table, clock) && |Select(Valid, table)| <= capacity
    ensures Consistent(Boot(table, clock, true), capacity)
  {
    ValidEntries(table);
    PemInHolds(Entries(Select(Valid, table)));
    SharedIsValid(table);
  }

  /** The keys that interrupted invalidations and cleans left on the shared list, since the
      last rotation or clean that went through and so repaired it. */
  function Unrepaired(s: Store, capacity: nat, ops: seq<Op>): set<Kid> {
    if ops == [] then {}
    else
      var before, stale := After(s, capacity, ops[..|ops| - 1]), Unrepaired(s, capacity, ops[..|ops| - 1]);
      match ops[|ops| - 1]
      case RotateOp(kid, pem, fault) => if RotateCommits(before, capacity, kid, pem, fault) then {} else stale
      case InvalidateOp(kid, fault, signing) =>
        if InvalidateReply(before.table, kid, fault, signing) == Interrupted then stale + {kid} else stale
      case CleanOp(fault) => StaleAfterClean(before, fault, stale)
  }

  lemma {:induction false} RunsTrack(s: Store, capacity: nat, ops: seq<Op>)
    requires capacity >= 1 && Consistent(s, capacity) && forall i | 0 <= i < |ops| :: Whole(ops[i])
    ensures Tracks(After(s, capacity, ops), capacity, Unrepaired(s, capacity, ops))
  {
    if ops == [] {
      ConsistentTracks(s, capacity);
    } else {
      hide Tracks;
      hide Apply;
      var init := ops[..|ops| - 1];
      RunsTrack(s, capacity, init);
      OperationTracks(After(s, capacity, init), capacity, ops[|ops| - 1], Unrepaired(s, capacity, init));
    }
  }

  lemma OperationTracks(s: Store, capacity: nat, op: Op, stale: set<Kid>)
    requires capacity >= 1 && Tracks(s, capacity, stale) && Whole(op)
    ensures Tracks(Apply(s, capacity, op), capacity,
                   match op
                   case RotateOp(kid, pem, fault) => if RotateCommits(s, capacity, kid, pem, fault) then {} else stale
                   case InvalidateOp(kid, fault, signing) =>
                     if InvalidateReply(s.table, kid, fault, signing) == Interrupted then stale + {kid} else stale
                   case CleanOp(fault) => StaleAfterClean(s, fault, stale))
  {
    hide Tracks;
    match op {
      case RotateOp(kid, pem, fault) => RotateKeeps(s, capacity, kid, pem, fault, stale);
      case InvalidateOp(kid, fault, signing) => InvalidateKeeps(s, capacity, kid, fault, signing, stale);
      case CleanOp(fault) => CleanKeeps(s, capacity, fault, stale);
    }
  }

  /** Main result: every run of rotations, invalidations and cleans, failing ones included,
      keeps table, JWKS file and PEM files in agreement, with one active valid key and no
      more valid keys than the capacity, listed in rotation order. The shared list holds the
      valid keys and those that interrupted operations left on it, so it agrees exactly when
      there are none. */
  lemma RunsAgree(s: Store, capacity: nat, ops: seq<Op>)
    requires capacity >= 1 && Consistent(s, capacity) && forall i | 0 <= i < |ops| :: Whole(ops[i])
    ensures var s', stale := After(s, capacity, ops), Unrepaired(s, capacity, ops);
            && FilesAgree(s', capacity)
            && Active(s'.table).Some? && Valid(Active(s'.table).value)
            && 1 <= |Select(Valid, s'.table)| <= capacity
            && (set k | k in s'.shared) == JwksKids(s'.jwks) + stale && stale !! JwksKids(s'.jwks)
            && (Consistent(s', capacity) <==> stale == {})
  {
    RunsTrack(s, capacity, ops);
    var s' := After(s, capacity, ops);
    ConsistentIffNothingStale(s', capacity, Unrepaired(s, capacity, ops));
    ActiveIsLast(s'.table, s'.clock);
  }

  lemma {:induction false} BackwardsHolds(jwks: seq<Jwk>)
    ensures forall e :: e in Backwards(jwks) <==> e in jwks
    ensures jwks != [] ==> Backwards(jwks) != [] && Backwards(jwks)[0] == jwks[|jwks| - 1]
  {
    if jwks != [] {
      BackwardsHolds(jwks[1..]);
      assert jwks == [jwks[0]] + jwks[1..];
    }
  }

  /** Fed newest first, the stores agree after bootup exactly when there is a single valid key. */
  lemma NewestFirstAgreesIff(table: seq<KeyRow>, clock: int, capacity: nat)
    requires Ordered(table, clock) && |Select(Valid, table)| <= capacity
    ensures Consistent(Boot(table, clock, false), capacity) <==> |Select(Valid, table)| <= 1
  {
    var valid := Entries(Select(Valid, table));
    BootAgrees(table, clock, capacity);
    ValidEntries(table);
    BackwardsHolds(valid);
    if |valid| <= 1 {
      assert Backwards(valid) == valid;
    } else {
      assert Backwards(valid)[0] == valid[|valid| - 1] && valid[0].kid != valid[|valid| - 1].kid;
    }
  }

  /** Trimming a full list drops its first entry. */
  lemma TrimDropsFirst(jwks: seq<Jwk>, capacity: nat, e: Jwk)
    requires capacity >= 2 && |jwks| == capacity && DistinctEntries(jwks) && e.kid !in JwksKids(jwks)
    ensures var trimmed := KeepLast(jwks + [e], capacity);
            jwks[0] !in trimmed && jwks[|jwks| - 1] in trimmed
  {
    var trimmed := KeepLast(jwks + [e], capacity);
    assert trimmed == jwks[1..] + [e];
    assert jwks[0] in jwks;
    assert trimmed[|jwks| - 2] == jwks[|jwks| - 1];
  }

  /** Turned round, it drops its last one. */
  lemma TrimmedBackwards(valid: seq<Jwk>, capacity: nat, e: Jwk)
    requires capacity >= 2 && |valid| == capacity && DistinctEntries(valid) && e.kid !in JwksKids(valid)
    ensures var fed := KeepLast(Backwards(valid) + [e], capacity);
            valid[|valid| - 1] !in fed && valid[0] in fed
  {
    BackwardsHolds(valid);
    DistinctBackwards(valid);
    assert JwksKids(Backwards(valid)) == JwksKids(valid);
    assert Backwards(valid)[|valid| - 1] == valid[0];
    TrimDropsFirst(Backwards(valid), capacity, e);
  }

  /** Fed newest first, a full list loses the wrong key at the first rotation: the file drops
      the key that was active until then, which stays valid in the database, and keeps the
      one that the database expires. */
  lemma NewestFirstDisagrees(table: seq<KeyRow>, clock: int, capacity: nat, kid: Kid, pem: Pem)
    requires capacity >= 2 && Ordered(table, clock) && |Select(Valid, table)| == capacity && kid !in Kids(table)
    ensures var s := Rotate(Boot(table, clock, false), capacity, kid, pem, Smooth);
            var valid, last := Entries(Select(Valid, table)), table[|table| - 1];
            && Jwk(last.kid, last.pem) !in s.jwks && Jwk(last.kid, last.pem) in Entries(Select(Valid, s.table))
            && valid[0] in s.jwks && valid[0] !in Entries(Select(Valid, s.table))
  {
    hide RotateTable;
    hide Select;
    hide Backwards;
    hide KeepLast;
    hide PemsMatch;
    var valid := Entries(Select(Valid, table));
    BootAgrees(table, clock, capacity);
    RotateAgrees(Boot(table, clock, true), capacity, kid, pem);
    hide Consistent;
    hide FilesAgree;
    ValidEntries(table);
    EntriesOfLast(table);
    TrimDropsFirst(valid, capacity, Jwk(kid, pem));
    TrimmedBackwards(valid, capacity, Jwk(kid, pem));
  }

  lemma {:induction false} DistinctBackwards(jwks: seq<Jwk>)
    requires DistinctEntries(jwks)
    ensures DistinctEntries(Backwards(jwks))
  {
    if jwks != [] {
      DistinctBackwards(jwks[1..]);
      BackwardsHolds(jwks[1..]);
      var rest := Backwards(jwks[1..]);
      forall i | 0 <= i < |rest|
        ensures rest[i].kid != jwks[0].kid
      {
        assert rest[i] in jwks[1..];
      }
    }
  }
}
