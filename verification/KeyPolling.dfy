/** A worker's own copy of the keys and the background poll that brings it up to date
    (security/token_manager.py). */
module KeyPolling {
  import opened Wrappers
  import opened KeyLifecycle
  import opened KeyAgreement
  import opened KeyRuns

  /** KeyMetadata; an absent rotation time marks the signing key. */
  datatype Metadata = Metadata(pem: Pem, rotatedAt: Option<int>)

  datatype Local = Local(keys: map<Kid, Metadata>, active: Kid)

  /** What a worker may rely on however far it lags behind: it can sign, it knows no invented
      keys, and if it knows the cluster's unrotated key it signs with that one. */
  ghost predicate Lagging(local: Local, table: seq<KeyRow>) {
    && local.active in local.keys
    && (forall k | k in local.keys :: Row(table, k).Some? && Row(table, k).value.pem == local.keys[k].pem)
    && (Active(table).Some? && Active(table).value.kid in local.keys ==> local.active == Active(table).value.kid)
  }

  /** fetch_unexpired_key: keys announced as invalid and unknown keys give None. */
  function FetchUnexpiredKey(table: seq<KeyRow>, announced: set<Kid>, kid: Kid): Option<Metadata> {
    if kid in announced then None
    else
      match Row(table, kid)
      case None => None
      case Some(row) => Some(Metadata(row.pem, row.rotatedAt))
  }

  class TokenManager {
    var keys: map<Kid, Metadata>
    var active: Kid

    constructor (local: Local)
      ensures View() == local
    {
      keys, active := local.keys, local.active;
    }

    function View(): Local
      reads this
    {
      Local(keys, active)
    }

    /** update_keydata. */
    method UpdateKeydata(kid: Kid, metadata: Metadata, isActive: bool)
      modifies this
      ensures keys == old(keys)[kid := metadata]
      ensures active == if isActive then kid else old(active)
    {
      if isActive {
        active := kid;
      }
      keys := keys[kid := metadata];
    }

    /** invalidate_key; refusing the signing key is the RuntimeError. */
    method InvalidateKey(kid: Kid) returns (ok: bool)
      modifies this`keys
      ensures ok <==> kid != active
      ensures keys == if ok then old(keys) - {kid} else old(keys)
    {
      if active == kid {
        return false;
      }
      keys := keys - {kid};
      return true;
    }

    /** Adds the new keys, in any order; `failAt` is the fetch that raises. */
    method AddNewKeys(table: seq<KeyRow>, announced: set<Kid>, newKeys: set<Kid>, failAt: Option<nat>)
      returns (ok: bool)
      requires active in keys && newKeys !! keys.Keys
      requires exists clock :: Ordered(table, clock)
      modifies this
      ensures active in keys && old(keys.Keys) <= keys.Keys
      ensures Lagging(old(View()), table) ==> Lagging(View(), table)
      ensures active == old(active) || (active in newKeys && Some(active) == ActiveKid(table))
      ensures ok <==> failAt == None || failAt.value >= |newKeys|
      ensures ok ==> keys.Keys == old(keys.Keys) + set k | k in newKeys && FetchUnexpiredKey(table, announced, k).Some?
      ensures forall k | k in old(keys) :: keys[k] == old(keys)[k]
      ensures forall k | k in keys && k !in old(keys) :: k in newKeys && FetchUnexpiredKey(table, announced, k) == Some(keys[k])
    {
      hide Lagging;
      hide Ordered;
      hide FetchUnexpiredKey;
      ghost var usable := set k | k in newKeys && FetchUnexpiredKey(table, announced, k).Some?;
      var rest, fetched := newKeys, 0;
      while rest != {}
        invariant rest <= newKeys && fetched == |newKeys| - |rest|
        invariant failAt == None || failAt.value >= fetched
        invariant keys.Keys == old(keys.Keys) + (usable - rest)
        invariant forall k | k in old(keys) :: keys[k] == old(keys)[k]
        invariant forall k | k in keys && k !in old(keys) :: FetchUnexpiredKey(table, announced, k) == Some(keys[k])
        invariant active in keys && (Lagging(old(View()), table) ==> Lagging(View(), table))
        invariant active == old(active) || (active in newKeys && Some(active) == ActiveKid(table))
        decreases rest
      {
        var k :| k in rest;
        if failAt == Some(fetched) {
          return false;
        }
        rest, fetched := rest - {k}, fetched + 1;
        var result := FetchUnexpiredKey(table, announced, k);
        if result.Some? {
          NewKeyKeepsLagging(View(), table, announced, k);
          OnlyOneUnrotated(table, announced, k);
          UpdateKeydata(k, result.value, result.value.rotatedAt == None);
        }
      }
      return true;
    }

    /** Drops the keys that are no longer valid, in any order. */
    method DropExpired(expired: set<Kid>) returns (ok: bool)
      requires active in keys
      modifies this`keys
      ensures active in keys && old(keys.Keys) - expired <= keys.Keys <= old(keys.Keys)
      ensures forall k | k in keys :: keys[k] == old(keys)[k]
      ensures ok <==> active !in expired
      ensures ok ==> keys.Keys == old(keys.Keys) - expired
    {
      var rest := expired;
      while rest != {}
        invariant rest <= expired && active in keys && active !in expired - rest
        invariant keys == old(keys) - (expired - rest)
        decreases rest
      {
        var k :| k in rest;
        var done := InvalidateKey(k);
        if !done {
          return false;
        }
        rest := rest - {k};
      }
      return true;
    }

    /** One round of poll_store. The signing key stays in the local map throughout, finished
        or not. When the shared list names keys of the table, none of them announced as
        invalid, and no fetch fails, a round finishes exactly when the list names the
        unrotated key or the one that the worker signs with: otherwise it refuses to drop the
        latter. A finished round leaves exactly the listed keys, and signs with the unrotated
        key exactly when that one is listed. */
    method Poll(shared: seq<Kid>, table: seq<KeyRow>, announced: set<Kid>, failAt: Option<nat>) returns (finished: bool)
      requires Lagging(View(), table) && exists clock :: Ordered(table, clock)
      modifies this
      ensures Lagging(View(), table)
      ensures finished ==> keys.Keys <= Elements(shared)
      ensures shared == [] ==> !finished && View() == old(View())
      ensures forall k | k in old(keys) && k in shared :: k in keys
      ensures forall k | k in keys ::
                if k in old(keys) then keys[k] == old(keys)[k]
                else k in shared && k !in announced && RowGives(table, k, keys[k])
      ensures active == old(active) || Some(active) == ActiveKid(table)
      ensures Fetchable(shared, table, announced) ==>
                var unrotated := ActiveKid(table);
                && unrotated.Some?
                && (finished <==> && (failAt == None || failAt.value >= |Elements(shared) - old(keys.Keys)|)
                                  && (unrotated.value in shared || old(active) in shared))
                && (finished ==> keys.Keys == Elements(shared) && (active == unrotated.value <==> unrotated.value in shared))
    {
      hide Lagging;
      hide Ordered;
      hide FetchUnexpiredKey;
      LaggingSigns(View(), table);
      ActiveIsValid(table);
      hide Select;
      if shared == [] {
        return false;
      }
      var global, local := Elements(shared), keys.Keys;
      var added := AddNewKeys(table, announced, global - local, failAt);
      forall k | k in keys && k !in old(keys)
        ensures k !in announced && RowGives(table, k, keys[k])
      {
        FetchedFromRow(table, announced, k);
      }
      if !added {
        return false;
      }
      ListedAreFetched(shared, table, announced);
      UnrotatedSigns(View(), table);
      ghost var before := View();
      finished := DropExpired(local - global);
      FewerKeysKeepLagging(before, View(), table);
    }
  }

  /** Some row of the key has this PEM and this rotation time. */
  ghost predicate RowGives(table: seq<KeyRow>, kid: Kid, metadata: Metadata) {
    exists i :: 0 <= i < |table| && table[i].kid == kid && metadata == Metadata(table[i].pem, table[i].rotatedAt)
  }

  lemma FetchedFromRow(table: seq<KeyRow>, announced: set<Kid>, kid: Kid)
    requires FetchUnexpiredKey(table, announced, kid).Some?
    ensures kid !in announced && RowGives(table, kid, FetchUnexpiredKey(table, announced, kid).value)
  {
    RowHolds(table, kid);
    var i :| 0 <= i < |table| && table[i] == Row(table, kid).value;
    hide Row;
  }

  /** Every listed key is a key of the table, and none was announced as invalid. */
  ghost predicate Fetchable(shared: seq<Kid>, table: seq<KeyRow>, announced: set<Kid>) {
    forall k | k in shared :: k in Kids(table) && k !in announced
  }

  lemma ActiveIsValid(table: seq<KeyRow>)
    requires exists clock :: Ordered(table, clock)
    ensures Active(table) == Some(table[|table| - 1])
    ensures table[|table| - 1].kid in Kids(Select(Valid, table))
    ensures Row(table, table[|table| - 1].kid) == Active(table)
  {
    var clock :| Ordered(table, clock);
    ActiveIsLast(table, clock);
    SelectHolds(Valid, table);
    assert table[|table| - 1] in Select(Valid, table);
    RowFound(table, |table| - 1);
  }

  /** A fetched key without rotation time is the unrotated one. */
  lemma OnlyOneUnrotated(table: seq<KeyRow>, announced: set<Kid>, kid: Kid)
    requires exists clock :: Ordered(table, clock)
    requires FetchUnexpiredKey(table, announced, kid).Some?
    ensures FetchUnexpiredKey(table, announced, kid).value.rotatedAt == None ==> Some(kid) == ActiveKid(table)
  {
    ActiveIsValid(table);
    RowHolds(table, kid);
    SelectHolds(Unrotated, table);
    assert Row(table, kid).value.rotatedAt == None ==> Row(table, kid).value in Select(Unrotated, table);
  }

  lemma ListedAreFetched(shared: seq<Kid>, table: seq<KeyRow>, announced: set<Kid>)
    ensures Fetchable(shared, table, announced) ==> forall k | k in shared :: FetchUnexpiredKey(table, announced, k).Some?
  {
    if Fetchable(shared, table, announced) {
      forall k | k in shared
        ensures FetchUnexpiredKey(table, announced, k).Some?
      {
        RowHolds(table, k);
      }
    }
  }

  lemma UnrotatedSigns(local: Local, table: seq<KeyRow>)
    requires Lagging(local, table)
    ensures ActiveKid(table).Some? && ActiveKid(table).value in local.keys ==> local.active == ActiveKid(table).value
  {
  }

  lemma NewKeyKeepsLagging(local: Local, table: seq<KeyRow>, announced: set<Kid>, kid: Kid)
    requires exists clock :: Ordered(table, clock)
    requires FetchUnexpiredKey(table, announced, kid).Some?
    ensures var metadata := FetchUnexpiredKey(table, announced, kid).value;
            Lagging(local, table)
            ==> Lagging(Local(local.keys[kid := metadata], if metadata.rotatedAt == None then kid else local.active), table)
  {
    ActiveIsValid(table);
    RowHolds(table, kid);
    SelectHolds(Unrotated, table);
    assert Row(table, kid).value.rotatedAt == None ==> Row(table, kid).value in Select(Unrotated, table);
  }

  lemma LaggingSigns(local: Local, table: seq<KeyRow>)
    requires Lagging(local, table)
    ensures local.active in local.keys
  {
  }

  lemma FewerKeysKeepLagging(local: Local, fewer: Local, table: seq<KeyRow>)
    requires Lagging(local, table)
    requires fewer.active == local.active && fewer.active in fewer.keys
    requires fewer.keys.Keys <= local.keys.Keys && forall k | k in fewer.keys :: fewer.keys[k] == local.keys[k]
    ensures Lagging(fewer, table)
  {
  }

  // ------------------------------------------------------------------- missed operations

  lemma ExtendsKeepsLagging(local: Local, table: seq<KeyRow>, table': seq<KeyRow>)
    requires Lagging(local, table) && Extends(table, table')
    requires exists clock :: Ordered(table, clock)
    requires exists clock :: Ordered(table', clock)
    ensures Lagging(local, table')
  {
    ActiveIsValid(table);
    ActiveIsValid(table');
    RowHolds(table, table'[|table'| - 1].kid);
  }

  /** However many operations a worker misses, failing anywhere, it only lags behind. */
  lemma {:induction false} MissedOperations(local: Local, s: Store, capacity: nat, ops: seq<Op>)
    requires capacity >= 1 && TableOk(s, capacity) && Lagging(local, s.table)
    ensures Lagging(local, After(s, capacity, ops).table)
  {
    if ops != [] {
      var init, op := ops[..|ops| - 1], ops[|ops| - 1];
      MissedOperations(local, s, capacity, init);
      TableAlwaysOk(s, capacity, init);
      TableAlwaysOk(s, capacity, ops);
      hide Lagging;
      hide Extends;
      hide Apply;
      var before := After(s, capacity, init);
      ApplyExtends(before, capacity, op);
      ExtendsKeepsLagging(local, before.table, Apply(before, capacity, op).table);
    }
  }

  /** And whatever it missed, its next round finds a list of keys of the table. */
  lemma SharedStaysFetchable(s: Store, capacity: nat, ops: seq<Op>, announced: set<Kid>)
    requires capacity >= 1 && Consistent(s, capacity)
    ensures var s' := After(s, capacity, ops);
            && (exists clock :: Ordered(s'.table, clock))
            && ((forall k | k in s'.shared :: k !in announced) ==> Fetchable(s'.shared, s'.table, announced))
  {
    RunsHold(s, capacity, ops);
    var s' := After(s, capacity, ops);
    ValidExist(s', capacity);
    assert forall k | k in s'.shared :: k in Elements(s'.shared);
  }

  /** Poll convergence over all runs: a worker that agreed with the cluster at some point and
      then missed any operations takes one round whose fetches succeed. It then holds the
      shared list's keys and signs with the unrotated key exactly when that key is not left
      off the list by a rotation that failed after its commit; and it holds the valid keys
      exactly when the run leaves no marks on the list. If the unrotated key is off the list,
      the round finishes only if the worker's own signing key is still on it. */
  method CatchUp(worker: TokenManager, s: Store, capacity: nat, ghost ops: seq<Op>, now: Store, announced: set<Kid>)
    returns (finished: bool)
    requires capacity >= 1 && Consistent(s, capacity) && Lagging(worker.View(), s.table)
    requires now == After(s, capacity, ops) && forall k | k in now.shared :: k !in announced
    modifies worker
    ensures worker.active == old(worker.active) || Some(worker.active) == ActiveKid(now.table)
    ensures finished <==> !SigningUnlisted(s, capacity, ops) || old(worker.active) in now.shared
    ensures finished ==> worker.keys.Keys == Elements(now.shared)
    ensures finished ==> (Some(worker.active) == ActiveKid(now.table) <==> !SigningUnlisted(s, capacity, ops))
    ensures finished ==> (worker.keys.Keys == ValidKids(now.table) <==> SharedAfter(s, capacity, ops) == SharedMarks({}, {}))
    ensures (forall i | 0 <= i < |ops| :: Whole(ops[i])) ==>
              && finished && Some(worker.active) == ActiveKid(now.table)
              && (worker.keys.Keys == ValidKids(now.table) <==> Unrepaired(s, capacity, ops) == {})
  {
    ConsistentHolds(s, capacity);
    MissedOperations(worker.View(), s, capacity, ops);
    SharedStaysFetchable(s, capacity, ops, announced);
    SigningUnlistedIff(s, capacity, ops);
    RunsAgreeIff(s, capacity, ops);
    if forall i | 0 <= i < |ops| :: Whole(ops[i]) {
      WholeRunsMark(s, capacity, ops);
      UnlistedIsAbsent(s, capacity, ops);
    }
    hide *;
    finished := worker.Poll(now.shared, now.table, announced, None);
  }

  /** The input at which convergence fails: a cluster in agreement, a worker in step with it, and
      a rotation that fails between its commit and its end. The worker's round finishes and
      it goes on signing with the key that was rotated out. */
  method SignsWithRotatedKey(
      worker: TokenManager, s: Store, capacity: nat, kid: Kid, pem: Pem, fault: RotateFault, now: Store)
    returns (finished: bool)
    requires capacity >= 1 && Consistent(s, capacity) && Lagging(worker.View(), s.table)
    requires Some(worker.active) == ActiveKid(s.table) && kid !in Kids(s.table) && fault !in {Smooth, AtDatabase}
    requires now == After(s, capacity, [RotateOp(kid, pem, fault)])
    modifies worker
    ensures finished && worker.active == old(worker.active) && Some(worker.active) != ActiveKid(now.table)
  {
    OneFailedRotation(s, capacity, kid, pem, fault);
    finished := CatchUp(worker, s, capacity, [RotateOp(kid, pem, fault)], now, {});
  }

  lemma OneStep(s: Store, capacity: nat, op: Op)
    ensures After(s, capacity, [op]) == Apply(s, capacity, op)
    ensures op.RotateOp? && RotateCommits(s, capacity, op.kid, op.pem, op.rotateFault) ==>
              SigningUnlisted(s, capacity, [op]) == (op.rotateFault != Smooth)
  {
    assert [op][..0] == [];
    assert After(s, capacity, [op][..0]) == s;
    hide Apply;
    hide RotateCommits;
  }

  lemma OneFailedRotation(s: Store, capacity: nat, kid: Kid, pem: Pem, fault: RotateFault)
    requires capacity >= 1 && Consistent(s, capacity) && kid !in Kids(s.table) && fault !in {Smooth, AtDatabase}
    ensures var ops := [RotateOp(kid, pem, fault)];
            && SigningUnlisted(s, capacity, ops) && After(s, capacity, ops).shared == s.shared
            && ActiveKid(s.table).Some? && ActiveKid(s.table).value in s.shared
  {
    hide RotateTable;
    hide Kids;
    hide SigningUnlisted;
    hide After;
    ConsistentHolds(s, capacity);
    hide Consistent;
    RotatedTable(s, capacity, kid, pem);
    assert RotateCommits(s, capacity, kid, pem, fault);
    RotateShared(s, capacity, kid, pem, fault);
    OneStep(s, capacity, RotateOp(kid, pem, fault));
    SigningIsShared(s, capacity);
  }

  lemma SigningIsShared(s: Store, capacity: nat)
    requires TableOk(s, capacity) && SharedHold(s, SharedMarks({}, {}))
    ensures ActiveKid(s.table).Some? && ActiveKid(s.table).value in s.shared
  {
    ActiveIs(s, capacity);
    LastIsValid(s, capacity);
    assert s.table[|s.table| - 1].kid in Elements(s.shared);
  }

  /** Only a worker that lags behind interrupts an invalidation: one that signs with the
      unrotated key never refuses to drop a key that the table lets go. */
  lemma UpToDateNeverInterrupts(local: Local, table: seq<KeyRow>, kid: Kid)
    requires (exists clock :: Ordered(table, clock)) && ActiveKid(table) == Some(local.active)
    ensures InvalidateReply(table, kid, NoFault, local.active) != Interrupted
  {
    ActiveIsValid(table);
  }

  /** For every rotated key that is still valid there is a lagging worker, the one that knows
      only this key, that commits its invalidation and then refuses to drop it: the key is
      expired and stays on the shared list. */
  lemma LaggingWorkerInterrupts(s: Store, capacity: nat, kid: Kid)
    requires Consistent(s, capacity) && Row(s.table, kid).Some? && Inactive(Row(s.table, kid).value)
    ensures var local := Local(map[kid := Metadata(Row(s.table, kid).value.pem, None)], kid);
            var t := Invalidate(s, kid, NoFault, local.active);
            && Lagging(local, s.table)
            && kid in t.shared && kid !in Kids(Select(Valid, t.table)) && !Consistent(t, capacity)
  {
    ActiveIsValid(s.table);
    InactiveIsListed(s, capacity, kid);
    InvalidateAgreesIff(s, capacity, kid, NoFault, kid);
    ConsistentTracks(s, capacity);
    InvalidateKeeps(s, capacity, kid, NoFault, kid, {});
    var t := Invalidate(s, kid, NoFault, kid);
    assert {} + {kid} == {kid};
    ValidEntries(t.table);
    assert kid in set k | k in t.shared;
  }
}
