/** Key operations whose spans overlap. The locks are one per invalidated key, one for cleaning
    and one for rotating (routers/keys.py), so an operation may read the JWKS file, and write
    it after another one has written it too. */
module KeyOverlap {
  import opened KeyLifecycle
  import opened KeyAgreement

  /** What an operation does to the list that it read. PutBack is the except branch of a failed
      operation, which writes the list back as it was. */
  datatype Edit = Remove(kid: Kid) | Append(jwk: Jwk, capacity: nat) | Only(jwk: Jwk) | PutBack

  function Edited(jwks: seq<Jwk>, edit: Edit): seq<Jwk> {
    match edit
    case Remove(kid) => Drop(jwks, {kid})
    case Append(jwk, capacity) => KeepLast(jwks + [jwk], capacity)
    case Only(jwk) => [jwk]
    case PutBack => jwks
  }

  /** The edits are what the operations of KeyLifecycle do to the list: from agreement, an
      invalidation that gets past its commit takes its key out, a rotation adds its key and
      trims the list, a clean keeps the last key alone, and a failed one puts the list back. */
  lemma EditsOfOperations(s: Store, capacity: nat, kid: Kid, pem: Pem)
    requires capacity >= 1 && FilesAgree(s, capacity)
    ensures forall fault, signing ::
              Invalidate(s, kid, fault, signing).jwks
              == Edited(s.jwks, if InvalidateReply(s.table, kid, fault, signing) in {Done, Interrupted} then Remove(kid) else PutBack)
    ensures forall fault | fault != AtJwksFile ::
              Rotate(s, capacity, kid, pem, fault).jwks
              == Edited(s.jwks, if RotateCommits(s, capacity, kid, pem, fault) then Append(Jwk(kid, pem), capacity) else PutBack)
    ensures var last := s.table[|s.table| - 1];
            forall fault ::
              Clean(s, fault).jwks == Edited(s.jwks, if CleanReply(s, fault) == Failed then PutBack else Only(Jwk(last.kid, last.pem)))
  {
    hide RotateTable;
    hide KeepLast;
    hide Drop;
    hide MarkExpired;
    ActiveIsLast(s.table, s.clock);
  }

  /** Operation `i` reads the file, or writes back its edit of what it read. */
  datatype Step = Read(i: nat) | Write(i: nat)

  /** The file, what each operation has read, and how many writes there were by then. */
  datatype State = State(file: seq<Jwk>, copies: map<nat, seq<Jwk>>, writes: seq<nat>, seen: map<nat, nat>)

  function Exec(s: State, edits: seq<Edit>, step: Step): State {
    match step
    case Read(i) =>
      if i < |edits| && i !in s.copies then s.(copies := s.copies[i := s.file], seen := s.seen[i := |s.writes|]) else s
    case Write(i) =>
      if i < |edits| && i in s.copies && i !in s.writes
      then s.(file := Edited(s.copies[i], edits[i]), writes := s.writes + [i])
      else s
  }

  function After(file: seq<Jwk>, edits: seq<Edit>, run: seq<Step>): State {
    if run == [] then State(file, map[], [], map[])
    else Exec(After(file, edits, run[..|run| - 1]), edits, run[|run| - 1])
  }

  /** The edits one after the other in the order of the writes. */
  function Serial(file: seq<Jwk>, edits: seq<Edit>, writes: seq<nat>): seq<Jwk> {
    if writes == [] then file
    else
      var before, i := Serial(file, edits, writes[..|writes| - 1]), writes[|writes| - 1];
      if i < |edits| then Edited(before, edits[i]) else before
  }

  /** The n-th write comes from an operation that has seen all writes before it: no other
      operation wrote between its reading and its writing. */
  predicate Alone(s: State, n: nat)
    requires n < |s.writes|
  {
    s.writes[n] in s.seen && s.seen[s.writes[n]] == n
  }

  predicate NoOverlap(s: State) {
    forall n | 0 <= n < |s.writes| :: Alone(s, n)
  }

  // -------------------------------------------------------------------------- sufficiency

  ghost predicate Sane(file: seq<Jwk>, edits: seq<Edit>, s: State) {
    && (forall i | i in s.writes :: i < |edits| && i in s.copies)
    && s.seen.Keys == s.copies.Keys && (forall i | i in s.seen :: s.seen[i] <= |s.writes|)
    && (forall m, n | 0 <= m < n < |s.writes| :: s.writes[m] != s.writes[n])
    && (forall n | 0 <= n < |s.writes| :: s.seen[s.writes[n]] <= n)
  }

  lemma {:induction false} RunsSane(file: seq<Jwk>, edits: seq<Edit>, run: seq<Step>)
    ensures Sane(file, edits, After(file, edits, run))
  {
    if run != [] {
      RunsSane(file, edits, run[..|run| - 1]);
    }
  }

  /** The first n writes add up: the last of them had seen earlier writes that add up, and since
      then only failed operations wrote, which put back what they had read. */
  ghost predicate Intact(edits: seq<Edit>, s: State, n: nat)
    requires n <= |s.writes|
    decreases n
  {
    n == 0 ||
    var i := s.writes[n - 1];
    i in s.seen && s.seen[i] < n && Intact(edits, s, s.seen[i]) && OnlyPutBack(edits, s.writes, s.seen[i], n - 1)
  }

  predicate OnlyPutBack(edits: seq<Edit>, writes: seq<nat>, lo: nat, hi: nat)
    requires hi <= |writes|
  {
    forall k | lo <= k < hi :: writes[k] < |edits| ==> edits[writes[k]].PutBack?
  }

  /** Writes that put back do not count. */
  lemma {:induction false} SerialSkips(file: seq<Jwk>, edits: seq<Edit>, writes: seq<nat>, lo: nat, hi: nat)
    requires lo <= hi <= |writes| && OnlyPutBack(edits, writes, lo, hi)
    ensures Serial(file, edits, writes[..hi]) == Serial(file, edits, writes[..lo])
  {
    if lo < hi {
      SerialSkips(file, edits, writes, lo, hi - 1);
      assert writes[..hi][..hi - 1] == writes[..hi - 1];
    }
  }

  /** Earlier writes stay as they are. */
  lemma {:induction false} IntactStays(file: seq<Jwk>, edits: seq<Edit>, s: State, step: Step, n: nat)
    requires Sane(file, edits, s) && n <= |s.writes|
    ensures var t := Exec(s, edits, step);
            && |s.writes| <= |t.writes| && t.writes[..n] == s.writes[..n]
            && (Intact(edits, t, n) <==> Intact(edits, s, n))
  {
    var t := Exec(s, edits, step);
    assert forall m | 0 <= m < |s.writes| :: t.writes[m] == s.writes[m];
    if n > 0 {
      var i := s.writes[n - 1];
      assert i in s.writes && t.seen[i] == s.seen[i];
      hide Exec;
      IntactStays(file, edits, s, step, s.seen[i]);
      assert OnlyPutBack(edits, t.writes, s.seen[i], n - 1) <==> OnlyPutBack(edits, s.writes, s.seen[i], n - 1);
    }
  }

  /** The file, and what operation `j` has read, are serial if the writes so far add up. */
  ghost predicate FileSerial(file: seq<Jwk>, edits: seq<Edit>, s: State) {
    Intact(edits, s, |s.writes|) ==> s.file == Serial(file, edits, s.writes)
  }

  ghost predicate CopySerial(file: seq<Jwk>, edits: seq<Edit>, s: State, j: nat)
    requires j in s.seen && j in s.copies && s.seen[j] <= |s.writes|
  {
    Intact(edits, s, s.seen[j]) ==> s.copies[j] == Serial(file, edits, s.writes[..s.seen[j]])
  }

  ghost predicate SerialSoFar(file: seq<Jwk>, edits: seq<Edit>, s: State)
    requires Sane(file, edits, s)
  {
    FileSerial(file, edits, s) && forall j | j in s.seen :: CopySerial(file, edits, s, j)
  }

  lemma CopyStaysSerial(file: seq<Jwk>, edits: seq<Edit>, s: State, step: Step, j: nat)
    requires Sane(file, edits, s) && j in s.seen && CopySerial(file, edits, s, j) && Sane(file, edits, Exec(s, edits, step))
    ensures j in Exec(s, edits, step).seen && CopySerial(file, edits, Exec(s, edits, step), j)
  {
    IntactStays(file, edits, s, step, s.seen[j]);
    hide Serial;
    hide Edited;
    hide Intact;
  }

  lemma NewCopySerial(file: seq<Jwk>, edits: seq<Edit>, s: State, i: nat)
    requires Sane(file, edits, s) && FileSerial(file, edits, s) && Sane(file, edits, Exec(s, edits, Read(i)))
    ensures FileSerial(file, edits, Exec(s, edits, Read(i)))
    ensures i < |edits| && i !in s.copies ==> CopySerial(file, edits, Exec(s, edits, Read(i)), i)
  {
    IntactStays(file, edits, s, Read(i), |s.writes|);
    assert s.writes[..|s.writes|] == s.writes;
    hide Serial;
    hide Intact;
  }

  lemma ReadKeepsSerial(file: seq<Jwk>, edits: seq<Edit>, s: State, i: nat)
    requires Sane(file, edits, s) && SerialSoFar(file, edits, s) && Sane(file, edits, Exec(s, edits, Read(i)))
    ensures SerialSoFar(file, edits, Exec(s, edits, Read(i)))
  {
    var t := Exec(s, edits, Read(i));
    NewCopySerial(file, edits, s, i);
    forall j | j in t.seen
      ensures CopySerial(file, edits, t, j)
    {
      if j in s.seen {
        CopyStaysSerial(file, edits, s, Read(i), j);
      }
    }
  }

  lemma WriteKeepsSerial(file: seq<Jwk>, edits: seq<Edit>, s: State, i: nat)
    requires Sane(file, edits, s) && SerialSoFar(file, edits, s) && Sane(file, edits, Exec(s, edits, Write(i)))
    ensures SerialSoFar(file, edits, Exec(s, edits, Write(i)))
  {
    var t := Exec(s, edits, Write(i));
    forall j | j in t.seen
      ensures CopySerial(file, edits, t, j)
    {
      CopyStaysSerial(file, edits, s, Write(i), j);
    }
    NewWriteSerial(file, edits, s, i);
  }

  /** A write adds up exactly when the writer had seen what adds up and missed only put-backs. */
  lemma NewWriteIntact(file: seq<Jwk>, edits: seq<Edit>, s: State, i: nat)
    requires Sane(file, edits, s) && i < |edits| && i in s.copies && i !in s.writes
    ensures var t := Exec(s, edits, Write(i));
            && t.writes == s.writes + [i] && t.file == Edited(s.copies[i], edits[i])
            && (Intact(edits, t, |t.writes|)
                <==> Intact(edits, s, s.seen[i]) && OnlyPutBack(edits, s.writes, s.seen[i], |s.writes|))
  {
    var t := Exec(s, edits, Write(i));
    IntactStays(file, edits, s, Write(i), s.seen[i]);
    assert forall m | 0 <= m < |s.writes| :: t.writes[m] == s.writes[m];
  }

  lemma NewWriteSerial(file: seq<Jwk>, edits: seq<Edit>, s: State, i: nat)
    requires Sane(file, edits, s) && SerialSoFar(file, edits, s)
    ensures FileSerial(file, edits, Exec(s, edits, Write(i)))
  {
    var t := Exec(s, edits, Write(i));
    if i < |edits| && i in s.copies && i !in s.writes {
      NewWriteIntact(file, edits, s, i);
      assert t.writes[..|t.writes| - 1] == s.writes && s.writes[..|s.writes|] == s.writes;
      if Intact(edits, t, |t.writes|) {
        assert CopySerial(file, edits, s, i);
        SerialSkips(file, edits, s.writes, s.seen[i], |s.writes|);
      }
      hide Exec;
      hide Intact;
    }
  }

  lemma {:induction false} RunsSerial(file: seq<Jwk>, edits: seq<Edit>, run: seq<Step>)
    ensures Sane(file, edits, After(file, edits, run)) && SerialSoFar(file, edits, After(file, edits, run))
  {
    RunsSane(file, edits, run);
    if run != [] {
      RunsSerial(file, edits, run[..|run| - 1]);
      var s := After(file, edits, run[..|run| - 1]);
      match run[|run| - 1] {
        case Read(i) => ReadKeepsSerial(file, edits, s, i);
        case Write(i) => WriteKeepsSerial(file, edits, s, i);
      }
    }
  }

  lemma {:induction false} AloneIsIntact(file: seq<Jwk>, edits: seq<Edit>, s: State, n: nat)
    requires Sane(file, edits, s) && n <= |s.writes| && forall m | 0 <= m < n :: Alone(s, m)
    ensures Intact(edits, s, n)
  {
    if n > 0 {
      assert Alone(s, n - 1);
      AloneIsIntact(file, edits, s, n - 1);
    }
  }

  /** Whatever the operations are: as long as no write falls between the reading and the
      writing of another operation, the file ends as if they had run one after the other. */
  lemma AloneMeansSerial(file: seq<Jwk>, edits: seq<Edit>, run: seq<Step>)
    ensures var s := After(file, edits, run);
            && (forall i | i in s.writes :: i < |edits|)
            && (NoOverlap(s) ==> s.file == Serial(file, edits, s.writes))
  {
    RunsSerial(file, edits, run);
    var s := After(file, edits, run);
    if NoOverlap(s) {
      AloneIsIntact(file, edits, s, |s.writes|);
    }
  }

  // ---------------------------------------------------------------------------- necessity

  /** Invalidations of different keys that are on the list, and failed operations. */
  ghost predicate Mixed(file: seq<Jwk>, edits: seq<Edit>) {
    && (forall i | 0 <= i < |edits| :: edits[i].PutBack? || (edits[i].Remove? && edits[i].kid in JwksKids(file)))
    && (forall i, j | 0 <= i < j < |edits| && edits[i].Remove? && edits[j].Remove? :: edits[i].kid != edits[j].kid)
  }

  /** Invalidations alone. */
  ghost predicate Removals(file: seq<Jwk>, edits: seq<Edit>) {
    Mixed(file, edits) && forall i | 0 <= i < |edits| :: edits[i].Remove?
  }

  predicate Gone(edits: seq<Edit>, jwks: seq<Jwk>, i: nat) {
    i < |edits| && edits[i].Remove? ==> edits[i].kid !in JwksKids(jwks)
  }

  /** The keys of all these invalidations are off the list. */
  ghost predicate AllGone(edits: seq<Edit>, jwks: seq<Jwk>, writes: seq<nat>) {
    forall i | i in writes :: Gone(edits, jwks, i)
  }

  /** Only these writers took keys off the list, and if it lacks all their keys, they add up. */
  ghost predicate Tells(edits: seq<Edit>, s: State, jwks: seq<Jwk>, n: nat)
    requires n <= |s.writes|
  {
    && (forall i | 0 <= i < |edits| && edits[i].Remove? && Gone(edits, jwks, i) :: i in s.writes[..n])
    && (AllGone(edits, jwks, s.writes[..n]) ==> Intact(edits, s, n))
  }

  ghost predicate Telling(file: seq<Jwk>, edits: seq<Edit>, s: State)
    requires Sane(file, edits, s)
  {
    && Tells(edits, s, s.file, |s.writes|)
    && forall j | j in s.seen :: Tells(edits, s, s.copies[j], s.seen[j])
  }

  lemma TellsStays(file: seq<Jwk>, edits: seq<Edit>, s: State, step: Step, jwks: seq<Jwk>, n: nat)
    requires Sane(file, edits, s) && n <= |s.writes| && Tells(edits, s, jwks, n)
    ensures |s.writes| <= |Exec(s, edits, step).writes| && Tells(edits, Exec(s, edits, step), jwks, n)
  {
    IntactStays(file, edits, s, step, n);
    hide Intact;
    hide Gone;
    hide Exec;
  }

  lemma ReadKeepsTelling(file: seq<Jwk>, edits: seq<Edit>, s: State, i: nat)
    requires Sane(file, edits, s) && Telling(file, edits, s) && Sane(file, edits, Exec(s, edits, Read(i)))
    ensures Telling(file, edits, Exec(s, edits, Read(i)))
  {
    var t := Exec(s, edits, Read(i));
    TellsStays(file, edits, s, Read(i), s.file, |s.writes|);
    hide Tells;
    forall j | j in t.seen
      ensures Tells(edits, t, t.copies[j], t.seen[j])
    {
      if j in s.seen {
        TellsStays(file, edits, s, Read(i), s.copies[j], s.seen[j]);
      }
    }
  }

  lemma WriteKeepsTelling(file: seq<Jwk>, edits: seq<Edit>, s: State, i: nat)
    requires Mixed(file, edits) && Sane(file, edits, s) && Telling(file, edits, s)
    requires Sane(file, edits, Exec(s, edits, Write(i)))
    ensures Telling(file, edits, Exec(s, edits, Write(i)))
  {
    var t := Exec(s, edits, Write(i));
    forall j | j in t.seen
      ensures Tells(edits, t, t.copies[j], t.seen[j])
    {
      TellsStays(file, edits, s, Write(i), s.copies[j], s.seen[j]);
    }
    if i < |edits| && i in s.copies && i !in s.writes {
      NewWriteTells(file, edits, s, i);
    } else {
      TellsStays(file, edits, s, Write(i), s.file, |s.writes|);
    }
  }

  lemma GoneAfterEdit(file: seq<Jwk>, edits: seq<Edit>, jwks: seq<Jwk>, i: nat, j: nat)
    requires Mixed(file, edits) && i < |edits| && j < |edits| && i != j
    ensures Gone(edits, Edited(jwks, edits[i]), j) <==> Gone(edits, jwks, j)
  {
    if edits[i].Remove? {
      DropKids(jwks, {edits[i].kid});
    }
  }

  lemma TellsAll(edits: seq<Edit>, s: State)
    requires forall j | 0 <= j < |edits| && edits[j].Remove? && Gone(edits, s.file, j) :: j in s.writes
    requires AllGone(edits, s.file, s.writes) ==> Intact(edits, s, |s.writes|)
    ensures Tells(edits, s, s.file, |s.writes|)
  {
    hide Gone;
    hide Intact;
    assert s.writes[..|s.writes|] == s.writes;
  }

  lemma NewWriteTells(file: seq<Jwk>, edits: seq<Edit>, s: State, i: nat)
    requires Mixed(file, edits) && Sane(file, edits, s) && Telling(file, edits, s)
    requires i < |edits| && i in s.copies && i !in s.writes
    ensures var t := Exec(s, edits, Write(i)); Tells(edits, t, t.file, |t.writes|)
  {
    hide *;
    var t := Exec(s, edits, Write(i));
    NewWriteIntact(file, edits, s, i);
    OnlyWritersRemove(file, edits, s, i);
    if AllGone(edits, t.file, t.writes) {
      MissedOnlyPutBacks(file, edits, s, i);
    }
    TellsAll(edits, t);
  }

  lemma OnlyWritersRemove(file: seq<Jwk>, edits: seq<Edit>, s: State, i: nat)
    requires Mixed(file, edits) && Sane(file, edits, s) && Telling(file, edits, s)
    requires i < |edits| && i in s.copies && i !in s.writes
    ensures forall j | 0 <= j < |edits| && edits[j].Remove? && Gone(edits, Edited(s.copies[i], edits[i]), j) :: j in s.writes + [i]
  {
    assert Tells(edits, s, s.copies[i], s.seen[i]);
    hide Intact;
    hide Edited;
    forall j | 0 <= j < |edits| && edits[j].Remove? && Gone(edits, Edited(s.copies[i], edits[i]), j)
      ensures j in s.writes + [i]
    {
      if j != i {
        GoneAfterEdit(file, edits, s.copies[i], i, j);
        assert j in s.writes[..s.seen[i]];
      }
    }
  }

  lemma GoneFromCopy(file: seq<Jwk>, edits: seq<Edit>, s: State, i: nat)
    requires Mixed(file, edits) && Sane(file, edits, s) && i < |edits| && i in s.copies && i !in s.writes
    requires AllGone(edits, Edited(s.copies[i], edits[i]), s.writes + [i])
    ensures AllGone(edits, s.copies[i], s.writes)
  {
    hide Edited;
    hide Gone;
    forall j | j in s.writes
      ensures Gone(edits, s.copies[i], j)
    {
      assert j in s.writes + [i] && j != i && j < |edits|;
      GoneAfterEdit(file, edits, s.copies[i], i, j);
    }
  }

  lemma LaterIsPutBack(edits: seq<Edit>, s: State, jwks: seq<Jwk>, n: nat, k: nat)
    requires n <= k < |s.writes| && Tells(edits, s, jwks, n) && Gone(edits, jwks, s.writes[k])
    requires s.writes[k] !in s.writes[..n] && s.writes[k] < |edits|
    requires forall i | 0 <= i < |edits| :: edits[i].PutBack? || edits[i].Remove?
    ensures edits[s.writes[k]].PutBack?
  {
    hide Gone;
    hide AllGone;
    hide Intact;
  }

  lemma CopyTells(file: seq<Jwk>, edits: seq<Edit>, s: State, i: nat)
    requires Sane(file, edits, s) && Telling(file, edits, s) && i in s.copies
    ensures Tells(edits, s, s.copies[i], s.seen[i])
    ensures AllGone(edits, s.copies[i], s.writes) ==> Intact(edits, s, s.seen[i])
  {
    hide Gone;
    hide Intact;
    assert Tells(edits, s, s.copies[i], s.seen[i]);
    assert forall j | j in s.writes[..s.seen[i]] :: j in s.writes;
  }

  lemma MissedOne(file: seq<Jwk>, edits: seq<Edit>, s: State, i: nat, k: nat)
    requires Mixed(file, edits) && Sane(file, edits, s) && i in s.copies && s.seen[i] <= k < |s.writes|
    requires Tells(edits, s, s.copies[i], s.seen[i]) && AllGone(edits, s.copies[i], s.writes)
    ensures s.writes[k] < |edits| && edits[s.writes[k]].PutBack?
  {
    hide Tells;
    hide Gone;
    assert s.writes[k] in s.writes;
    NotBefore(s.writes, s.seen[i], k);
    LaterIsPutBack(edits, s, s.copies[i], s.seen[i], k);
  }

  /** If no key of a writer is on the list after a write, the writer had seen every removal. */
  lemma MissedOnlyPutBacks(file: seq<Jwk>, edits: seq<Edit>, s: State, i: nat)
    requires Mixed(file, edits) && Sane(file, edits, s) && Telling(file, edits, s)
    requires i < |edits| && i in s.copies && i !in s.writes
    requires AllGone(edits, Edited(s.copies[i], edits[i]), s.writes + [i])
    ensures Intact(edits, s, s.seen[i]) && OnlyPutBack(edits, s.writes, s.seen[i], |s.writes|)
  {
    SeenIsEarlier(file, edits, s, i);
    hide Sane;
    hide Mixed;
    hide Telling;
    hide Tells;
    hide Intact;
    hide AllGone;
    GoneFromCopy(file, edits, s, i);
    CopyTells(file, edits, s, i);
    forall k | s.seen[i] <= k < |s.writes|
      ensures s.writes[k] < |edits| && edits[s.writes[k]].PutBack?
    {
      MissedOne(file, edits, s, i, k);
    }
  }

  lemma SeenIsEarlier(file: seq<Jwk>, edits: seq<Edit>, s: State, i: nat)
    requires Sane(file, edits, s) && i in s.copies
    ensures i in s.seen && s.seen[i] <= |s.writes|
  {
  }

  lemma NotBefore(writes: seq<nat>, n: nat, k: nat)
    requires n <= k < |writes| && forall m, l | 0 <= m < l < |writes| :: writes[m] != writes[l]
    ensures writes[k] !in writes[..n]
  {
  }

  lemma {:induction false} RunsTelling(file: seq<Jwk>, edits: seq<Edit>, run: seq<Step>)
    requires Mixed(file, edits)
    ensures Sane(file, edits, After(file, edits, run)) && Telling(file, edits, After(file, edits, run))
  {
    RunsSane(file, edits, run);
    if run != [] {
      RunsTelling(file, edits, run[..|run| - 1]);
      var s := After(file, edits, run[..|run| - 1]);
      match run[|run| - 1] {
        case Read(i) => ReadKeepsTelling(file, edits, s, i);
        case Write(i) => WriteKeepsTelling(file, edits, s, i);
      }
    }
  }

  lemma {:induction false} SerialRemovesAll(file: seq<Jwk>, edits: seq<Edit>, writes: seq<nat>)
    requires Mixed(file, edits)
    ensures AllGone(edits, Serial(file, edits, writes), writes)
  {
    if writes != [] {
      var init, last := writes[..|writes| - 1], writes[|writes| - 1];
      assert writes == init + [last];
      SerialRemovesAll(file, edits, init);
      if last < |edits| && edits[last].Remove? {
        DropKids(Serial(file, edits, init), {edits[last].kid});
      }
    }
  }

  /** Main result: invalidations of different listed keys among failed operations, however they
      interleave, leave the file as if they had run one after the other exactly when the
      writes add up: the last writer missed no removal, nor did the last of the writers it had
      seen, and so on. Exactly then no invalidated key stays listed. */
  lemma SerialIffIntact(file: seq<Jwk>, edits: seq<Edit>, run: seq<Step>)
    requires Mixed(file, edits)
    ensures var s := After(file, edits, run);
            && (s.file == Serial(file, edits, s.writes) <==> Intact(edits, s, |s.writes|))
            && (AllGone(edits, s.file, s.writes) <==> Intact(edits, s, |s.writes|))
  {
    RunsTelling(file, edits, run);
    RunsSerial(file, edits, run);
    var s := After(file, edits, run);
    SerialRemovesAll(file, edits, s.writes);
    assert s.writes[..|s.writes|] == s.writes;
  }

  lemma RemovalsPutNothingBack(file: seq<Jwk>, edits: seq<Edit>, s: State, lo: nat, hi: nat)
    requires Removals(file, edits) && Sane(file, edits, s) && hi <= |s.writes|
    ensures lo < hi ==> !OnlyPutBack(edits, s.writes, lo, hi)
  {
    if lo < hi {
      assert s.writes[lo] in s.writes && edits[s.writes[lo]].Remove?;
    }
  }

  /** Without put-backs, writes add up when each was alone. */
  lemma {:induction false} IntactIsAlone(file: seq<Jwk>, edits: seq<Edit>, s: State, n: nat)
    requires Removals(file, edits) && Sane(file, edits, s) && n <= |s.writes| && Intact(edits, s, n)
    ensures forall m | 0 <= m < n :: Alone(s, m)
  {
    if n > 0 {
      var i := s.writes[n - 1];
      RemovalsPutNothingBack(file, edits, s, s.seen[i], n - 1);
      IntactIsAlone(file, edits, s, n - 1);
    }
  }

  /** For invalidations alone: exactly when none of them writes between the reading and the
      writing of another. */
  lemma LostUpdateIff(file: seq<Jwk>, edits: seq<Edit>, run: seq<Step>)
    requires Removals(file, edits)
    ensures var s := After(file, edits, run);
            && (forall i | i in s.writes :: i < |edits|)
            && (s.file == Serial(file, edits, s.writes) <==> NoOverlap(s))
            && ((forall i | i in s.writes :: edits[i].kid !in JwksKids(s.file)) <==> NoOverlap(s))
  {
    SerialIffIntact(file, edits, run);
    AloneMeansSerial(file, edits, run);
    RunsSane(file, edits, run);
    var s := After(file, edits, run);
    if Intact(edits, s, |s.writes|) {
      IntactIsAlone(file, edits, s, |s.writes|);
    }
    assert AllGone(edits, s.file, s.writes) <==> forall i | i in s.writes :: Gone(edits, s.file, i);
  }

  /** Two overlapping invalidations: the one that writes last brings the other key back. */
  lemma LostUpdate(file: seq<Jwk>, edits: seq<Edit>, run: seq<Step>)
    requires Removals(file, edits) && |edits| == 2
    requires run == [Read(0)] + [Read(1)] + [Write(0)] + [Write(1)]
    ensures edits[0].kid in JwksKids(After(file, edits, run).file)
  {
    var s1 := AfterStep(file, edits, [], Read(0));
    var s2 := AfterStep(file, edits, [Read(0)], Read(1));
    var s3 := AfterStep(file, edits, [Read(0)] + [Read(1)], Write(0));
    hide Drop;
    assert s2.copies == map[0 := file, 1 := file] && s2.writes == [];
    assert s3.copies == s2.copies && s3.writes == [0];
    var s4 := AfterStep(file, edits, [Read(0)] + [Read(1)] + [Write(0)], Write(1));
    assert s4.file == Drop(file, {edits[1].kid});
    DropKids(file, {edits[1].kid});
  }

  /** A failed operation that overlaps an invalidation brings the key back as well. */
  lemma LostToPutBack(file: seq<Jwk>, edits: seq<Edit>, run: seq<Step>)
    requires Mixed(file, edits) && |edits| == 2 && edits[0].Remove? && edits[1] == PutBack
    requires run == [Read(1)] + [Read(0)] + [Write(0)] + [Write(1)]
    ensures var s := After(file, edits, run);
            s.file == file && s.file != Serial(file, edits, s.writes)
  {
    hide After;
    hide Drop;
    hide Serial;
    hide Intact;
    hide OnlyPutBack;
    var s0 := State(file, map[], [], map[]);
    assert After(file, edits, []) == s0 by { NoSteps(file, edits); }
    var s1 := AfterStep(file, edits, [], Read(1));
    var s2 := AfterStep(file, edits, [Read(1)], Read(0));
    assert [] + [Read(1)] == [Read(1)];
    assert s2.copies == map[0 := file, 1 := file] && s2.writes == [];
    var s3 := AfterStep(file, edits, [Read(1)] + [Read(0)], Write(0));
    assert s3.copies == s2.copies && s3.writes == [0];
    var s4 := AfterStep(file, edits, [Read(1)] + [Read(0)] + [Write(0)], Write(1));
    assert s4.file == file && s4.writes == [0, 1];
    SerialRemovesAll(file, edits, s4.writes);
    assert 0 in s4.writes && Gone(edits, Serial(file, edits, s4.writes), 0);
  }

  lemma NoSteps(file: seq<Jwk>, edits: seq<Edit>)
    ensures After(file, edits, []) == State(file, map[], [], map[])
  {
  }

  lemma AfterStep(file: seq<Jwk>, edits: seq<Edit>, run: seq<Step>, step: Step) returns (s: State)
    ensures s == After(file, edits, run + [step]) == Exec(After(file, edits, run), edits, step)
  {
    s := After(file, edits, run + [step]);
    assert (run + [step])[..|run + [step]| - 1] == run;
  }
}
