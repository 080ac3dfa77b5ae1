/** Refresh-token rotation (security/token_manager.py): each family is a Redis list with its
    newest token at the head; presenting anything else destroys the family. The scheme is
    section 4.14.2 of RFC 9700. */
module RefreshFamilies {
  import opened Wrappers

  /** What a list entry `jti:exp` holds. Identifiers are unique, so they stand for tokens. */
  datatype Token = Token(jti: nat, exp: int)
  type FamilyId = nat
  type Families = map<FamilyId, seq<Token>>

  /** A key that does not exist reads as an empty list. */
  function Family(families: Families, fid: FamilyId): seq<Token> {
    if fid in families then families[fid] else []
  }

  /** How decoding a presented token ends: it is valid, it raises one of the errors that give
      its family away, or it is refused without touching the store. */
  datatype Decoding = Valid | GivesFamilyAway | Refused

  /** One request against the store, with the token it would issue. Expire is the store's own
      time to live running out. */
  datatype Op =
    | Issue(fid: FamilyId, drawn: Token)
    | Present(fid: FamilyId, token: Token, decoding: Decoding, drawn: Token)
    | Purge(fid: FamilyId)
    | Expire(fid: FamilyId)

  predicate Accepts(families: Families, op: Op) {
    && op.Present? && op.decoding == Valid
    && Family(families, op.fid) != [] && Family(families, op.fid)[0] == op.token
  }

  function Max(a: int, b: int): int {
    if a >= b then a else b
  }

  /** shift_token_window: drop from the tail when the list has reached its capacity. */
  function Shifted(tokens: seq<Token>, capacity: nat): seq<Token> {
    if tokens == [] || |tokens| < capacity then tokens
    else tokens[..Max(0, |tokens| - Max(1, |tokens| - capacity))]
  }

  function Step(families: Families, capacity: nat, op: Op): Families {
    match op
    case Issue(fid, drawn) => families[fid := [drawn]]
    case Present(fid, token, decoding, drawn) =>
      if decoding == Refused then families
      else if Accepts(families, op) then families[fid := Shifted([drawn] + families[fid], capacity)]
      else families - {fid}
    case Purge(fid) => families - {fid}
    case Expire(fid) => families - {fid}
  }

  class TokenManager {
    var families: Families
    const capacity: nat

    constructor (capacity: nat)
      ensures families == map[] && this.capacity == capacity
    {
      families, this.capacity := map[], capacity;
    }

    method InvalidateFamily(fid: FamilyId)
      modifies this
      ensures Family(families, fid) == []
      ensures families - {fid} == old(families) - {fid}
      ensures old(Family(families, fid)) == [] ==> families == old(families)
    {
      if Family(families, fid) != [] {
        families := families - {fid};
      }
    }

    /** issue_refresh_token: `claim` is the presented token, None for a first issue. */
    method IssueRefreshToken(fid: FamilyId, claim: Option<Token>, drawn: Token) returns (issued: bool)
      modifies this
      ensures issued <==> claim == None || (old(Family(families, fid)) != [] && old(Family(families, fid))[0] == claim.value)
      ensures families - {fid} == old(families) - {fid}
      ensures Family(families, fid) == if !issued then [] else if claim == None then [drawn]
                                       else [drawn] + old(Family(families, fid))
    {
      if claim.Some? {
        var tokens := Family(families, fid);
        if tokens == [] {
          InvalidateFamily(fid);
          return false;
        }
        if tokens[0].jti != claim.value.jti || tokens[0].exp != claim.value.exp {
          InvalidateFamily(fid);
          return false;
        }
      } else if Family(families, fid) != [] {
        InvalidateFamily(fid);
      }
      families := families[fid := [drawn] + Family(families, fid)];
      return true;
    }

    method ShiftTokenWindow(fid: FamilyId)
      modifies this
      ensures Family(families, fid) == Shifted(old(Family(families, fid)), capacity)
      ensures families - {fid} == old(families) - {fid}
    {
      var tokens := Family(families, fid);
      if |tokens| == 0 {
        return;
      }
      if |tokens| >= capacity {
        families := families[fid := tokens[..Max(0, |tokens| - Max(1, |tokens| - capacity))]];
      }
    }

    /** reissue_token_pair: accepted exactly when the presented token is its family's head.
        Then the new token is put in front of the list; below capacity that is all, otherwise
        so many of the oldest tokens are dropped as the list is over its capacity, but at
        least one. Any other presentation that is decoded destroys the family. */
    method ReissueTokenPair(fid: FamilyId, token: Token, decoding: Decoding, drawn: Token) returns (accepted: bool)
      requires capacity >= 1
      modifies this
      ensures accepted <==> decoding == Valid && old(Family(families, fid)) != [] && old(Family(families, fid))[0] == token
      ensures accepted ==>
                var all := [drawn] + old(Family(families, fid));
                && Family(families, fid) <= all
                && |Family(families, fid)| == if |all| < capacity then |all| else |all| - Max(1, |all| - capacity)
      ensures !accepted ==> Family(families, fid) == if decoding == Refused then old(Family(families, fid)) else []
      ensures families - {fid} == old(families) - {fid}
      ensures SameLists(families, Step(old(families), capacity, Present(fid, token, decoding, drawn)))
      ensures accepted ==> Family(families, fid) != [] && Family(families, fid)[0] == drawn
      ensures accepted && old(|Family(families, fid)|) <= Max(1, capacity - 1)
              ==> |Family(families, fid)| <= Max(1, capacity - 1)
    {
      if decoding == Refused {
        return false;
      }
      if decoding == GivesFamilyAway {
        InvalidateFamily(fid);
        SameOutsideMeansSame(families, Step(old(families), capacity, Present(fid, token, decoding, drawn)), fid);
        return false;
      }
      accepted := IssueRefreshToken(fid, Some(token), drawn);
      if accepted {
        ShiftTokenWindow(fid);
      }
      SameOutsideMeansSame(families, Step(old(families), capacity, Present(fid, token, decoding, drawn)), fid);
    }
  }

  /** Redis does not tell an empty list from an absent key. */
  ghost predicate SameLists(a: Families, b: Families) {
    forall fid :: Family(a, fid) == Family(b, fid)
  }

  lemma SameOutsideMeansSame(a: Families, b: Families, fid: FamilyId)
    requires a - {fid} == b - {fid} && Family(a, fid) == Family(b, fid)
    ensures SameLists(a, b)
  {
    forall f
      ensures Family(a, f) == Family(b, f)
    {
      if f != fid {
        assert f in a <==> f in a - {fid};
        assert f in b <==> f in b - {fid};
      }
    }
  }

  /** The store after a run that starts empty. */
  function After(capacity: nat, ops: seq<Op>): Families {
    if ops == [] then map[] else Step(After(capacity, ops[..|ops| - 1]), capacity, ops[|ops| - 1])
  }

  /** The one token per family that may be accepted, kept without any list. */
  function Newest(ops: seq<Op>): map<FamilyId, Token> {
    if ops == [] then map[]
    else
      var newest, op := Newest(ops[..|ops| - 1]), ops[|ops| - 1];
      match op
      case Issue(fid, drawn) => newest[fid := drawn]
      case Present(fid, token, decoding, drawn) =>
        if decoding == Refused then newest
        else if decoding == Valid && fid in newest && newest[fid] == token then newest[fid := drawn]
        else newest - {fid}
      case Purge(fid) => newest - {fid}
      case Expire(fid) => newest - {fid}
  }

  /** The lists behave as one acceptable token per family: heads are exactly the newest
      tokens, and no list outgrows its window. */
  lemma {:induction false} ListsRefineNewest(capacity: nat, ops: seq<Op>)
    requires capacity >= 1
    ensures var families := After(capacity, ops);
            && families.Keys == Newest(ops).Keys
            && forall fid | fid in families ::
                 && families[fid] != [] && families[fid][0] == Newest(ops)[fid]
                 && |families[fid]| <= Max(1, capacity - 1)
  {
    if ops != [] {
      ListsRefineNewest(capacity, ops[..|ops| - 1]);
    }
  }

  /** Identifiers are drawn fresh: no two operations of a run would issue the same one. */
  predicate FreshRun(ops: seq<Op>) {
    forall i, j | 0 <= i < j < |ops| && Issues(ops[i]) && Issues(ops[j]) :: ops[i].drawn.jti != ops[j].drawn.jti
  }

  predicate Issues(op: Op) {
    op.Issue? || op.Present?
  }

  /** Tokens that earlier operations may have handed out. */
  function Drawn(ops: seq<Op>): set<Token> {
    set i | 0 <= i < |ops| && Issues(ops[i]) :: ops[i].drawn
  }

  lemma {:induction false} NewestIsDrawn(ops: seq<Op>)
    ensures forall fid | fid in Newest(ops) :: Newest(ops)[fid] in Drawn(ops)
  {
    if ops != [] {
      var init := ops[..|ops| - 1];
      NewestIsDrawn(init);
      assert forall t | t in Drawn(init) :: t in Drawn(ops);
    }
  }

  /** A token that was drawn and is not the newest of a family never becomes it again. */
  lemma {:induction false} NeverAgain(ops: seq<Op>, n: nat, m: nat, fid: FamilyId, token: Token)
    requires FreshRun(ops) && n <= m <= |ops| && token in Drawn(ops[..n])
    requires !(fid in Newest(ops[..n]) && Newest(ops[..n])[fid] == token)
    ensures !(fid in Newest(ops[..m]) && Newest(ops[..m])[fid] == token)
    decreases m
  {
    if n < m {
      NeverAgain(ops, n, m - 1, fid, token);
      assert ops[..m][..m - 1] == ops[..m - 1] && ops[..m][m - 1] == ops[m - 1];
      var i :| 0 <= i < n && Issues(ops[..n][i]) && ops[..n][i].drawn == token;
      assert ops[i].drawn == token;
      assert Issues(ops[m - 1]) ==> ops[m - 1].drawn != token;
    }
  }

  predicate AcceptedAt(capacity: nat, ops: seq<Op>, i: nat)
    requires i < |ops|
  {
    Accepts(After(capacity, ops[..i]), ops[i])
  }

  /** Acceptance by the lists is presentation of the family's newest token, in every run. */
  lemma AcceptedMeansNewest(capacity: nat, ops: seq<Op>, i: nat)
    requires capacity >= 1 && i < |ops|
    ensures AcceptedAt(capacity, ops, i) <==>
              && ops[i].Present? && ops[i].decoding == Valid
              && ops[i].fid in Newest(ops[..i]) && Newest(ops[..i])[ops[i].fid] == ops[i].token
  {
    ListsRefineNewest(capacity, ops[..i]);
  }

  lemma NewestStep(ops: seq<Op>, i: nat)
    requires i < |ops|
    ensures ops[..i + 1][..i] == ops[..i] && ops[..i + 1][i] == ops[i]
    ensures Drawn(ops[..i]) <= Drawn(ops[..i + 1])
    ensures Issues(ops[i]) ==> ops[i].drawn in Drawn(ops[..i + 1])
  {
    var longer := ops[..i + 1];
    assert longer[i] == ops[i];
    forall t | t in Drawn(ops[..i])
      ensures t in Drawn(longer)
    {
      var k :| 0 <= k < i && Issues(ops[..i][k]) && ops[..i][k].drawn == t;
      assert longer[k] == ops[..i][k];
    }
  }

  /** In every run no token is accepted twice. */
  lemma AcceptedAtMostOnce(capacity: nat, ops: seq<Op>, i: nat, j: nat)
    requires capacity >= 1 && FreshRun(ops) && i < j < |ops|
    requires AcceptedAt(capacity, ops, i) && AcceptedAt(capacity, ops, j)
    ensures ops[i].fid != ops[j].fid || ops[i].token != ops[j].token
  {
    var fid, token := ops[i].fid, ops[i].token;
    AcceptedMeansNewest(capacity, ops, i);
    AcceptedMeansNewest(capacity, ops, j);
    NewestIsDrawn(ops[..i]);
    NewestStep(ops, i);
    var k :| 0 <= k < i && Issues(ops[..i][k]) && ops[..i][k].drawn == token;
    assert ops[k].drawn == token && ops[i].drawn != token;
    NeverAgain(ops, i + 1, j, fid, token);
  }

  /** After a presentation that the store rejects, no token handed out before it is ever
      accepted in that family again. */
  lemma RejectionIsFinal(capacity: nat, ops: seq<Op>, i: nat, j: nat)
    requires capacity >= 1 && FreshRun(ops) && i < j < |ops|
    requires ops[i].Present? && ops[i].decoding != Refused && !AcceptedAt(capacity, ops, i)
    requires AcceptedAt(capacity, ops, j) && ops[j].fid == ops[i].fid
    ensures ops[j].token !in Drawn(ops[..i + 1])
  {
    AcceptedMeansNewest(capacity, ops, i);
    AcceptedMeansNewest(capacity, ops, j);
    NewestStep(ops, i);
    assert ops[i].fid !in Newest(ops[..i + 1]);
    if ops[j].token in Drawn(ops[..i + 1]) {
      NeverAgain(ops, i + 1, j, ops[i].fid, ops[j].token);
    }
  }

  // ------------------------------------------------------------------------- whole windows

  /** The tokens that a family was given since it was last issued, the newest first, kept
      without any capacity: a first issue starts over, an accepted presentation gives one more,
      and a rejected one, a purge or an expiry leaves none. */
  function Given(ops: seq<Op>, fid: FamilyId): seq<Token> {
    if ops == [] then []
    else
      var given, op := Given(ops[..|ops| - 1], fid), ops[|ops| - 1];
      if op.fid != fid then given
      else
        match op
        case Issue(_, drawn) => [drawn]
        case Present(_, token, decoding, drawn) =>
          if decoding == Refused then given
          else if decoding == Valid && given != [] && given[0] == token then [drawn] + given
          else []
        case Purge(_) => []
        case Expire(_) => []
  }

  function Min(a: nat, b: nat): nat {
    if a <= b then a else b
  }

  /** What shift_token_window leaves of a list that fitted before. */
  lemma ShiftedWindow(given: seq<Token>, drawn: Token, capacity: nat)
    requires capacity >= 1 && given != []
    ensures var window := Max(1, capacity - 1);
            Shifted([drawn] + given[..Min(|given|, window)], capacity) == ([drawn] + given)[..Min(|given| + 1, window)]
  {
    var window := Max(1, capacity - 1);
    var tokens := [drawn] + given[..Min(|given|, window)];
    assert tokens == ([drawn] + given)[..|tokens|];
  }

  /** In every run a family's list is the newest tokens that the family was given, as many as
      its window holds: one less than its capacity, but at least one. */
  lemma {:induction false} ListIsWindow(capacity: nat, ops: seq<Op>, fid: FamilyId)
    requires capacity >= 1
    ensures var given := Given(ops, fid);
            Family(After(capacity, ops), fid) == given[..Min(|given|, Max(1, capacity - 1))]
  {
    if ops != [] {
      var init, op := ops[..|ops| - 1], ops[|ops| - 1];
      ListIsWindow(capacity, init, fid);
      var given := Given(init, fid);
      if op.Present? && op.fid == fid && Accepts(After(capacity, init), op) {
        ShiftedWindow(given, op.drawn, capacity);
      }
    }
  }
}
