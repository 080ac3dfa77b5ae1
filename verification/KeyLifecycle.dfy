/** Signing keys: rotate_keys, invalidate_key and clean_keystore (routers/keys.py) over the
    key table, the JWKS file (section 5 of RFC 7517), the public PEM files and the shared
    list of valid key ids. Each operation is one function on all of them, failure points
    included; KeyStore.dfy proves the imperative operations against these functions. */
module KeyLifecycle {
  import opened Wrappers

  type Kid = nat
  type Pem = nat

  /** A row of the key table; rows are kept in the order of their insertion. */
  datatype KeyRow = KeyRow(kid: Kid, pem: Pem, rotatedAt: Option<int>, expiredAt: Option<int>)

  /** A JWKS entry: the key id and the public point, which is the content of the PEM. */
  datatype Jwk = Jwk(kid: Kid, pem: Pem)

  datatype Store = Store(table: seq<KeyRow>, jwks: seq<Jwk>, pems: map<Kid, Pem>, shared: seq<Kid>, clock: int)

  // ---------------------------------------------------------------- queries and updates

  predicate Valid(r: KeyRow) {
    r.expiredAt == None
  }

  predicate Inactive(r: KeyRow) {
    r.expiredAt == None && r.rotatedAt.Some?
  }

  predicate Unrotated(r: KeyRow) {
    r.rotatedAt == None
  }

  function Select(p: KeyRow -> bool, table: seq<KeyRow>): seq<KeyRow> {
    if table == [] then []
    else Select(p, table[..|table| - 1]) + if p(table[|table| - 1]) then [table[|table| - 1]] else []
  }

  lemma {:induction false} SelectHolds(p: KeyRow -> bool, table: seq<KeyRow>)
    ensures forall r :: r in Select(p, table) <==> r in table && p(r)
  {
    if table != [] {
      SelectHolds(p, table[..|table| - 1]);
      assert table == table[..|table| - 1] + [table[|table| - 1]];
    }
  }

  function Entries(rows: seq<KeyRow>): (r: seq<Jwk>)
    ensures |r| == |rows|
  {
    seq(|rows|, i requires 0 <= i < |rows| => Jwk(rows[i].kid, rows[i].pem))
  }

  function Kids(rows: seq<KeyRow>): set<Kid> {
    set r | r in rows :: r.kid
  }

  function JwksKids(jwks: seq<Jwk>): set<Kid> {
    set e | e in jwks :: e.kid
  }

  /** `scalar_one` of the rows that were never rotated out. */
  function Active(table: seq<KeyRow>): Option<KeyRow> {
    var rows := Select(Unrotated, table);
    if |rows| == 1 then Some(rows[0]) else None
  }

  /** ORDER BY rotated_out_at ASC LIMIT 1. */
  function Oldest(rows: seq<KeyRow>): (r: KeyRow)
    requires rows != [] && forall r | r in rows :: r.rotatedAt.Some?
    ensures r in rows
  {
    if |rows| == 1 then rows[0]
    else
      var o, last := Oldest(rows[..|rows| - 1]), rows[|rows| - 1];
      if last.rotatedAt.value < o.rotatedAt.value then last else o
  }

  function MarkRotated(table: seq<KeyRow>, kid: Kid, now: int): (t: seq<KeyRow>)
    ensures |t| == |table|
  {
    seq(|table|, i requires 0 <= i < |table| =>
      if table[i].kid == kid then table[i].(rotatedAt := Some(now)) else table[i])
  }

  function MarkExpired(table: seq<KeyRow>, kids: set<Kid>, now: int): (t: seq<KeyRow>)
    ensures |t| == |table|
  {
    seq(|table|, i requires 0 <= i < |table| =>
      if table[i].kid in kids then table[i].(expiredAt := Some(now)) else table[i])
  }

  function Row(table: seq<KeyRow>, kid: Kid): Option<KeyRow> {
    if table == [] then None
    else if table[|table| - 1].kid == kid then Some(table[|table| - 1])
    else Row(table[..|table| - 1], kid)
  }

  function KeepLast(jwks: seq<Jwk>, capacity: nat): seq<Jwk> {
    if |jwks| > capacity then jwks[|jwks| - capacity..] else jwks
  }

  function Drop(jwks: seq<Jwk>, kids: set<Kid>): seq<Jwk> {
    if jwks == [] then []
    else Drop(jwks[..|jwks| - 1], kids) + if jwks[|jwks| - 1].kid in kids then [] else [jwks[|jwks| - 1]]
  }

  function Reverse(s: seq<Kid>): seq<Kid> {
    if s == [] then [] else Reverse(s[1..]) + [s[0]]
  }

  /** `list.remove`: the first occurrence only. */
  function RemoveOne(s: seq<Kid>, kid: Kid): seq<Kid> {
    if s == [] then [] else if s[0] == kid then s[1..] else [s[0]] + RemoveOne(s[1..], kid)
  }

  /** get_relevant_keydata lists valid keys newest first, LPUSH turns the list round. */
  function SharedFrom(table: seq<KeyRow>): seq<Kid> {
    var rows := Select(Valid, table);
    seq(|rows|, i requires 0 <= i < |rows| => rows[i].kid)
  }

  // ------------------------------------------------------------------------- operations

  /** The table after a rotation, with the key it expired; None when the database refuses. */
  function RotateTable(table: seq<KeyRow>, capacity: nat, kid: Kid, pem: Pem, now: int)
    : Option<(seq<KeyRow>, Option<Kid>)>
  {
    match Active(table)
    case None => None
    case Some(previous) =>
      if kid in Kids(table) then None
      else
        var table' := MarkRotated(table, previous.kid, now) + [KeyRow(kid, pem, None, None)];
        var candidates := Select(Inactive, table');
        SelectHolds(Inactive, table');
        if |Select(Valid, table')| <= capacity then Some((table', None))
        else if candidates == [] then None
        else
          var expired := Oldest(candidates).kid;
          Some((MarkExpired(table', {expired}, now), Some(expired)))
  }

  /** Where a rotation fails: in the database, or after its commit in one of the writes that
      follow, none of which is undone. */
  datatype RotateFault = Smooth | AtDatabase | AtJwksFile | AtPemWrite | AtPemUnlink | AtSharedList

  /** What follows the database part: its outcome decides files and shared list. */
  function RotateFiles(
      s: Store, capacity: nat, kid: Kid, pem: Pem, fault: RotateFault, outcome: Option<(seq<KeyRow>, Option<Kid>)>): Store
  {
    match outcome
    case None => s.(clock := s.clock + 1)
    case Some((table, expired)) =>
      var written, gone := s.pems[kid := pem], if expired.Some? then {expired.value} else {};
      Store(table,
            if fault == AtJwksFile then s.jwks else KeepLast(s.jwks + [Jwk(kid, pem)], capacity),
            if fault in {AtJwksFile, AtPemWrite} then s.pems else if fault == AtPemUnlink then written else written - gone,
            if fault != Smooth then s.shared
            else if kid in s.shared then Reverse(if expired.Some? then RemoveOne(s.shared, expired.value) else s.shared)
            else SharedFrom(table),
            s.clock + 1)
  }

  /** The database part goes through. */
  predicate RotateCommits(s: Store, capacity: nat, kid: Kid, pem: Pem, fault: RotateFault) {
    fault != AtDatabase && RotateTable(s.table, capacity, kid, pem, s.clock + 1).Some?
  }

  function Rotate(s: Store, capacity: nat, kid: Kid, pem: Pem, fault: RotateFault): Store {
    RotateFiles(s, capacity, kid, pem, fault,
                if fault == AtDatabase then None else RotateTable(s.table, capacity, kid, pem, s.clock + 1))
  }

  /** Where an invalidation fails; AtList is after the commit, in the shared list. */
  datatype InvalidateFault = NoFault | AtSelect | AtUpdate | AtJwksWrite | AtUnlink | AtCommit | AtList

  /** Interrupted: an error after the commit, which leaves the shared list as it was. */
  datatype Reply = Done | Interrupted | NotFound | StillActive | AlreadyExpired | Failed

  /** `signing` is the key that the serving worker signs with. A worker that missed a rotation
      still signs with a rotated key, and refuses to drop it after the commit. */
  function InvalidateReply(table: seq<KeyRow>, kid: Kid, fault: InvalidateFault, signing: Kid): Reply {
    if fault == AtSelect then Failed
    else
      match Row(table, kid)
      case None => NotFound
      case Some(row) =>
        if row.rotatedAt == None then StillActive
        else if row.expiredAt.Some? then AlreadyExpired
        else if fault != NoFault && fault != AtList then Failed
        else if fault == AtList || signing == kid then Interrupted
        else Done
  }

  function Invalidate(s: Store, kid: Kid, fault: InvalidateFault, signing: Kid): Store {
    var now := s.clock + 1;
    match InvalidateReply(s.table, kid, fault, signing)
    case Interrupted => Store(MarkExpired(s.table, {kid}, now), Drop(s.jwks, {kid}), s.pems - {kid}, s.shared, now)
    case Done =>
      var table := MarkExpired(s.table, {kid}, now);
      Store(table, Drop(s.jwks, {kid}), s.pems - {kid},
            if kid in s.shared then Reverse(RemoveOne(s.shared, kid)) else SharedFrom(table), now)
    case Failed =>
      // the PEM file is written again when it is missing, from the row
      if fault == AtSelect || Row(s.table, kid) == None then s.(clock := now)
      else if kid in s.pems && fault != AtCommit then s.(clock := now)
      else s.(pems := s.pems[kid := Row(s.table, kid).value.pem], clock := now)
    case _ => s.(clock := now)
  }

  /** Where a clean fails: in its queries, in the JWKS write, before the n-th unlink, in the
      commit, or after it in the shared list. */
  datatype CleanFault = CleanFine | AtQuery | AtFileWrite | BeforeUnlink(n: nat) | AtFinalCommit | AtListUpdate

  function InactiveKids(table: seq<KeyRow>): (r: seq<Kid>)
  {
    var rows := Select(Inactive, table);
    seq(|rows|, i requires 0 <= i < |rows| => rows[i].kid)
  }

  function InactiveSet(table: seq<KeyRow>): set<Kid> {
    set k | k in InactiveKids(table)
  }

  /** The keys whose PEM files are gone when the failure strikes. */
  function Unlinked(table: seq<KeyRow>, fault: CleanFault): set<Kid> {
    var kids := InactiveKids(table);
    match fault
    case AtFinalCommit => InactiveSet(table)
    case BeforeUnlink(n) => set i | 0 <= i < |kids| && i < n :: kids[i]
    case _ => {}
  }

  /** Refused before anything is touched: a single key, or a listed key without PEM file. */
  predicate CleanRefused(s: Store) {
    |s.jwks| == 1 || !(JwksKids(s.jwks) <= s.pems.Keys)
  }

  predicate CleanFails(s: Store, fault: CleanFault) {
    || fault in {AtQuery, AtFileWrite, AtFinalCommit}
    || (fault.BeforeUnlink? && fault.n < |InactiveKids(s.table)|)
    || Active(s.table) == None
  }

  function CleanReply(s: Store, fault: CleanFault): Reply {
    if CleanRefused(s) || CleanFails(s, fault) then Failed else if fault == AtListUpdate then Interrupted else Done
  }

  function Clean(s: Store, fault: CleanFault): Store {
    var now := s.clock + 1;
    if CleanRefused(s) then s.(clock := now)
    else if CleanFails(s, fault) then
      var gone := if Active(s.table) == None then {} else Unlinked(s.table, fault);
      s.(pems := s.pems - (gone - JwksKids(s.jwks)), clock := now)
    else
      var active := Active(s.table).value;
      var kids := InactiveSet(s.table);
      Store(MarkExpired(s.table, kids, now), [Jwk(active.kid, active.pem)], s.pems - kids,
            if fault == AtListUpdate then s.shared else [active.kid], now)
  }
}
