/** The key operations as the routes perform them (routers/keys.py), store by store and with
    their hand-written rollbacks, proved against the functions of KeyLifecycle. The database
    transaction is the local table `tx` until it is committed. */
module KeyStore {
  import opened Wrappers
  import opened KeyLifecycle
  import opened KeyAgreement
  import opened KeyOutcomes

  lemma {:induction false} ExpiryKeepsUnrotated(table: seq<KeyRow>, kids: set<Kid>, now: int)
    ensures Entries(Select(Unrotated, MarkExpired(table, kids, now))) == Entries(Select(Unrotated, table))
  {
    if table != [] {
      var init := table[..|table| - 1];
      ExpiryKeepsUnrotated(init, kids, now);
      assert MarkExpired(table, kids, now)[..|table| - 1] == MarkExpired(init, kids, now);
      assert Entries(Select(Unrotated, table)) == Entries(Select(Unrotated, init))
          + if Unrotated(table[|table| - 1]) then [Jwk(table[|table| - 1].kid, table[|table| - 1].pem)] else [];
    }
  }

  /** The active key read after the expiry is the one there was before. */
  lemma ActiveAfterExpiry(table: seq<KeyRow>, kids: set<Kid>, now: int)
    ensures var before, after := Active(table), Active(MarkExpired(table, kids, now));
            && (before == None <==> after == None)
            && (before.Some? ==> before.value.kid == after.value.kid && before.value.pem == after.value.pem)
  {
    ExpiryKeepsUnrotated(table, kids, now);
    var a, b := Select(Unrotated, table), Select(Unrotated, MarkExpired(table, kids, now));
    if |a| == 1 {
      assert Entries(a)[0] == Entries(b)[0];
    }
  }

  /** Writing back the saved files undoes the deletion of listed keys, and of no others. */
  lemma RestoresListed(saved: map<Kid, Pem>, pems: map<Kid, Pem>, jwks: seq<Jwk>, gone: set<Kid>)
    requires JwksKids(jwks) <= pems.Keys && saved == map k | k in JwksKids(jwks) :: pems[k]
    ensures saved + (pems - gone) == pems - (gone - JwksKids(jwks))
  {
  }

  class KeyServer {
    var table: seq<KeyRow>
    var jwks: seq<Jwk>
    var pems: map<Kid, Pem>
    var shared: seq<Kid>
    var clock: int
    const capacity: nat

    constructor (s: Store, capacity: nat)
      ensures View() == s && this.capacity == capacity
    {
      table, jwks, pems, shared, clock := s.table, s.jwks, s.pems, s.shared, s.clock;
      this.capacity := capacity;
    }

    function View(): Store
      reads this
    {
      Store(table, jwks, pems, shared, clock)
    }

    /** update_jwks. */
    method UpdateJwks(kid: Kid, pem: Pem)
      modifies this`jwks
      ensures jwks == KeepLast(old(jwks) + [Jwk(kid, pem)], capacity)
      ensures capacity >= 1 ==> Jwk(kid, pem) in jwks
      ensures old(|jwks|) <= capacity ==> |jwks| <= capacity
      ensures capacity >= 1 && old(|jwks|) <= capacity ==> forall i | 1 <= i < old(|jwks|) :: old(jwks)[i] in jwks
    {
      jwks := jwks + [Jwk(kid, pem)];
      if |jwks| > capacity {
        jwks := jwks[|jwks| - capacity..];
      }
      ghost var dropped := old(|jwks|) + 1 - |jwks|;
      assert forall i | dropped <= i < old(|jwks|) :: jwks[i - dropped] == old(jwks)[i];
      assert capacity >= 1 ==> jwks[|jwks| - 1] == Jwk(kid, pem);
    }

    /** The database part of rotate_keys, up to the commit. */
    method RotateInDatabase(kid: Kid, pem: Pem) returns (outcome: Option<(seq<KeyRow>, Option<Kid>)>)
      ensures outcome == RotateTable(table, capacity, kid, pem, clock)
    {
      var previous := Active(table);
      if previous == None || kid in Kids(table) {
        return None;
      }
      var tx := MarkRotated(table, previous.value.kid, clock);
      tx := tx + [KeyRow(kid, pem, None, None)];
      if |Select(Valid, tx)| <= capacity {
        return Some((tx, None));
      }
      var candidates := Select(Inactive, tx);
      SelectHolds(Inactive, tx);
      if candidates == [] {
        return None;
      }
      var oldest := Oldest(candidates).kid;
      return Some((MarkExpired(tx, {oldest}, clock), Some(oldest)));
    }

    /** rotate_keys. An error after the commit ends the route where it strikes. */
    method RotateKeys(kid: Kid, pem: Pem, fault: RotateFault) returns (reply: Reply)
      modifies this
      ensures capacity >= 1 && Consistent(old(View()), capacity) ==>
                && RotateReplies(old(View()), kid, fault, reply)
                && (if reply == Failed then View() == old(View()).(clock := old(clock) + 1)
                    else RotateOutcome(old(View()), View(), capacity, kid, pem, fault))
      ensures View() == Rotate(old(View()), capacity, kid, pem, fault)
      ensures reply == if !RotateCommits(old(View()), capacity, kid, pem, fault) then Failed
                       else if fault == Smooth then Done else Interrupted
    {
      hide FilesAgree;
      hide Consistent;
      hide NoRow;
      hide RotateOutcome;
      if capacity >= 1 && Consistent(View(), capacity) {
        ConsistentTracks(View(), capacity);
        RotateCommitsIff(View(), capacity, kid, pem, fault);
        if fault != AtDatabase && NoRow(table, kid) {
          RotateWrites(View(), capacity, kid, pem, fault, {});
        }
      }
      reply := RotateInStores(kid, pem, fault);
    }

    method RotateInStores(kid: Kid, pem: Pem, fault: RotateFault) returns (reply: Reply)
      modifies this
      ensures View() == Rotate(old(View()), capacity, kid, pem, fault)
      ensures reply == if !RotateCommits(old(View()), capacity, kid, pem, fault) then Failed
                       else if fault == Smooth then Done else Interrupted
    {
      hide RotateTable;
      hide KeepLast;
      hide SharedFrom;
      hide Reverse;
      hide RemoveOne;
      clock := clock + 1;
      if fault == AtDatabase {
        return Failed;
      }
      var outcome := RotateInDatabase(kid, pem);
      if outcome == None {
        return Failed;
      }
      var (tx, expired) := outcome.value;
      table := tx;
      if fault == AtJwksFile {
        return Interrupted;
      }
      UpdateJwks(kid, pem);
      if fault == AtPemWrite {
        return Interrupted;
      }
      pems := pems[kid := pem];
      if fault == AtPemUnlink {
        return Interrupted;
      }
      if expired.Some? {
        pems := pems - {expired.value};
      }
      if fault == AtSharedList {
        return Interrupted;
      }
      if kid in shared {
        shared := Reverse(if expired.Some? then RemoveOne(shared, expired.value) else shared);
      } else {
        shared := SharedFrom(table);
      }
      return Done;
    }

    /** invalidate_key. From agreement, every reply but the first two means that nothing has
        changed, and agreement is kept unless the reply is an interruption. */
    method InvalidateKey(kid: Kid, fault: InvalidateFault, signing: Kid) returns (reply: Reply)
      modifies this
      ensures View() == Invalidate(old(View()), kid, fault, signing)
      ensures reply == InvalidateReply(old(table), kid, fault, signing)
      ensures FilesAgree(old(View()), capacity) && reply !in {Done, Interrupted} ==>
                View() == old(View()).(clock := old(clock) + 1)
      ensures Consistent(old(View()), capacity) ==> (Consistent(View(), capacity) <==> reply != Interrupted)
      ensures Consistent(old(View()), capacity) ==>
                InvalidateReplies(old(View()), kid, fault, signing, reply) && InvalidateOutcome(old(View()), View(), kid, reply)
    {
      hide InvalidateReplies;
      hide InvalidateOutcome;
      hide Invalidate;
      hide InvalidateReply;
      hide FilesAgree;
      hide Consistent;
      ghost var before := View();
      reply := InvalidateInStores(kid, fault, signing);
      if FilesAgree(before, capacity) && reply !in {Done, Interrupted} {
        InvalidateUndone(before, capacity, kid, fault, signing);
      }
      if Consistent(before, capacity) {
        InvalidateAgreesIff(before, capacity, kid, fault, signing);
        ConsistentTracks(before, capacity);
        InvalidateRepliesIff(before, capacity, kid, fault, signing);
        InvalidatePurges(before, capacity, kid, fault, signing);
      }
    }

    /** The database row, the JWKS file and the PEM file in turn, undone in the except branch;
        after the commit the serving worker, which signs with `signing`, drops the key or
        refuses. */
    method InvalidateInStores(kid: Kid, fault: InvalidateFault, signing: Kid) returns (reply: Reply)
      modifies this
      ensures View() == Invalidate(old(View()), kid, fault, signing)
      ensures reply == InvalidateReply(old(table), kid, fault, signing)
    {
      hide Drop;
      hide MarkExpired;
      hide Row;
      hide SharedFrom;
      hide Reverse;
      hide RemoveOne;
      clock := clock + 1;
      var original := jwks;
      if fault == AtSelect {
        return Failed;
      }
      var tx, target := table, Row(table, kid);
      if target == None {
        return NotFound;
      }
      if target.value.rotatedAt == None {
        return StillActive;
      }
      if target.value.expiredAt.Some? {
        return AlreadyExpired;
      }
      if fault != AtUpdate {
        tx := MarkExpired(tx, {kid}, clock);
        jwks := if fault == AtJwksWrite then [] else Drop(original, {kid});
        if fault != AtJwksWrite && fault != AtUnlink {
          pems := pems - {kid};
        }
      }
      if fault != NoFault && fault != AtList {
        jwks := original;
        if kid !in pems {
          pems := pems[kid := target.value.pem];
        }
        return Failed;
      }
      table := tx;
      if kid == signing || fault == AtList {
        return Interrupted;
      }
      if kid in shared {
        shared := Reverse(RemoveOne(shared, kid));
      } else {
        shared := SharedFrom(table);
      }
      return Done;
    }

    /** The except branch of clean_keystore: the list back as it was, and each saved PEM file
        that is missing. */
    method Restore(original: seq<Jwk>, saved: map<Kid, Pem>)
      modifies this`jwks, this`pems
      ensures jwks == original && pems == saved + old(pems)
    {
      jwks := original;
      var rest := saved.Keys;
      while rest != {}
        invariant rest <= saved.Keys && jwks == original
        invariant pems == (map k | k in saved.Keys - rest :: saved[k]) + old(pems)
        decreases rest
      {
        var k :| k in rest;
        if k !in pems {
          pems := pems[k := saved[k]];
        }
        rest := rest - {k};
      }
      assert (map k | k in saved.Keys - rest :: saved[k]) == saved;
    }

    /** Unlinks the PEM files one by one and stops where the fault says. */
    method UnlinkAll(kids: seq<Kid>, fault: CleanFault) returns (finished: bool)
      modifies this`pems
      ensures finished <==> !(fault.BeforeUnlink? && fault.n < |kids|)
      ensures pems == old(pems) - if finished then set k | k in kids else set i | 0 <= i < |kids| && i < fault.n :: kids[i]
    {
      for i := 0 to |kids|
        invariant fault.BeforeUnlink? ==> i <= fault.n
        invariant pems == old(pems) - set j | 0 <= j < i :: kids[j]
      {
        if fault == BeforeUnlink(i) {
          return false;
        }
        pems := pems - {kids[i]};
      }
      assert (set j | 0 <= j < |kids| :: kids[j]) == set k | k in kids;
      return true;
    }

    /** Reads the PEM file of every listed key; None is the error for a missing one. */
    method ReadPems(entries: seq<Jwk>) returns (saved: Option<map<Kid, Pem>>)
      ensures saved.Some? <==> JwksKids(entries) <= pems.Keys
      ensures saved.Some? ==> saved.value == map k | k in JwksKids(entries) :: pems[k]
    {
      var m: map<Kid, Pem> := map[];
      for i := 0 to |entries|
        invariant JwksKids(entries[..i]) <= pems.Keys && m == map k | k in JwksKids(entries[..i]) :: pems[k]
      {
        assert entries[i] in entries && entries[i].kid in JwksKids(entries);
        if entries[i].kid !in pems {
          return None;
        }
        assert entries[..i + 1] == entries[..i] + [entries[i]];
        assert JwksKids(entries[..i + 1]) == JwksKids(entries[..i]) + {entries[i].kid};
        m := m[entries[i].kid := pems[entries[i].kid]];
      }
      assert entries[..|entries|] == entries;
      return Some(m);
    }

    /** The part of clean_keystore that can fail half-way: the JWKS file, the unlinking and the
        commit, with the except branch. */
    method CleanFiles(original: seq<Jwk>, saved: map<Kid, Pem>, active: Jwk, fault: CleanFault) returns (ok: bool)
      requires original == jwks && JwksKids(jwks) <= pems.Keys && saved == map k | k in JwksKids(jwks) :: pems[k]
      modifies this`jwks, this`pems
      ensures ok <==> fault !in {AtFileWrite, AtFinalCommit} && !(fault.BeforeUnlink? && fault.n < |InactiveKids(table)|)
      ensures ok ==> jwks == [active] && pems == old(pems) - InactiveSet(table)
      ensures !ok ==> jwks == original && pems == old(pems) - (Unlinked(table, fault) - JwksKids(original))
    {
      hide InactiveKids;
      hide JwksKids;
      jwks := if fault == AtFileWrite then [] else [active];
      ok := fault != AtFileWrite;
      if ok {
        ok := UnlinkAll(InactiveKids(table), fault);
      }
      if !ok || fault == AtFinalCommit {
        Restore(original, saved);
        RestoresListed(saved, old(pems), original, Unlinked(table, fault));
        return false;
      }
    }

    /** clean_keystore. From agreement, failing means that nothing has changed. */
    method CleanKeystore(fault: CleanFault) returns (reply: Reply)
      modifies this
      ensures View() == Clean(old(View()), fault)
      ensures reply == CleanReply(old(View()), fault)
      ensures FilesAgree(old(View()), capacity) && reply == Failed ==> View() == old(View()).(clock := old(clock) + 1)
      ensures capacity >= 1 && FilesAgree(old(View()), capacity) ==>
                |old(table)| > 0 && CleanReplies(old(View()), fault, reply) && CleanOutcome(old(View()), View(), reply)
    {
      hide FilesAgree;
      hide Clean;
      hide CleanReply;
      hide CleanOutcome;
      hide CleanReplies;
      if FilesAgree(View(), capacity) && CleanReply(View(), fault) == Failed {
        CleanUndone(View(), capacity, fault);
      }
      if capacity >= 1 && FilesAgree(View(), capacity) {
        TableInUse(View(), capacity);
        CleanRepliesIff(View(), capacity, fault);
        CleanLeaves(View(), capacity, fault);
      }
      reply := CleanInStores(fault);
    }

    method CleanInStores(fault: CleanFault) returns (reply: Reply)
      modifies this
      ensures View() == Clean(old(View()), fault)
      ensures reply == CleanReply(old(View()), fault)
    {
      hide Select;
      hide Active;
      hide MarkExpired;
      hide InactiveKids;
      hide Unlinked;
      clock := clock + 1;
      var original := jwks;
      if |original| == 1 {
        return Failed;
      }
      var read := ReadPems(original);
      if read == None {
        return Failed;
      }
      var saved := read.value;
      var tx := MarkExpired(table, InactiveSet(table), clock);
      var active := Active(tx);
      ActiveAfterExpiry(table, InactiveSet(table), clock);
      if fault == AtQuery || active == None {
        NothingUnlinked(table);
        Restore(original, saved);
        RestoresListed(saved, old(pems), original, {});
        return Failed;
      }
      var ok := CleanFiles(original, saved, Jwk(active.value.kid, active.value.pem), fault);
      if !ok {
        return Failed;
      }
      table := tx;
      if fault == AtListUpdate {
        return Interrupted;
      }
      shared := [active.value.kid];
      return Done;
    }
  }

  lemma TableInUse(s: Store, capacity: nat)
    requires FilesAgree(s, capacity)
    ensures s.table != []
  {
  }

  lemma NothingUnlinked(table: seq<KeyRow>)
    ensures Unlinked(table, AtQuery) == {}
  {
  }
}
