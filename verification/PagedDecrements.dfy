/** queue_downstream_decrement_consumer (tasks/consumer.py): the counters of everything that
    a deletion took with it are decremented page by page, with retries around the paging. */
module PagedDecrements {
  import opened Wrappers

  datatype Delta = Delta(key: string, amount: int)
  type Hash = map<string, int>

  function Get(h: Hash, key: string): int {
    if key in h then h[key] else 0
  }

  /** HINCRBY by the negated amount, for each delta in order. */
  function Decrease(h: Hash, deltas: seq<Delta>): Hash {
    if deltas == [] then h
    else
      var d := deltas[|deltas| - 1];
      var h' := Decrease(h, deltas[..|deltas| - 1]);
      h'[d.key := Get(h', d.key) - d.amount]
  }

  predicate DistinctKeys(deltas: seq<Delta>) {
    forall i, j | 0 <= i < j < |deltas| :: deltas[i].key != deltas[j].key
  }

  lemma {:induction false} DecreaseConcat(h: Hash, a: seq<Delta>, b: seq<Delta>)
    ensures Decrease(Decrease(h, a), b) == Decrease(h, a + b)
  {
    if b == [] {
      assert a + b == a;
    } else {
      DecreaseConcat(h, a, b[..|b| - 1]);
      assert (a + b)[..|a + b| - 1] == a + b[..|b| - 1];
    }
  }

  /** What a sequence of deltas takes from one key. */
  function Amount(deltas: seq<Delta>, key: string): int {
    if deltas == [] then 0
    else
      Amount(deltas[..|deltas| - 1], key) + if deltas[|deltas| - 1].key == key then deltas[|deltas| - 1].amount else 0
  }

  lemma {:induction false} DecreaseAmount(h: Hash, deltas: seq<Delta>, key: string)
    ensures Get(Decrease(h, deltas), key) == Get(h, key) - Amount(deltas, key)
  {
    if deltas != [] {
      DecreaseAmount(h, deltas[..|deltas| - 1], key);
    }
  }

  lemma {:induction false} AmountConcat(a: seq<Delta>, b: seq<Delta>, key: string)
    ensures Amount(a + b, key) == Amount(a, key) + Amount(b, key)
  {
    if b == [] {
      assert a + b == a;
    } else {
      AmountConcat(a, b[..|b| - 1], key);
      assert (a + b)[..|a + b| - 1] == a + b[..|b| - 1];
    }
  }

  /** With one row per key, some rows take from a key what its row says if it is among them. */
  lemma {:induction false} AmountOfRow(rows: seq<Delta>, lo: nat, hi: nat, i: nat)
    requires DistinctKeys(rows) && lo <= hi <= |rows| && i < |rows|
    ensures Amount(rows[lo..hi], rows[i].key) == if lo <= i < hi then rows[i].amount else 0
  {
    if lo < hi {
      AmountOfRow(rows, lo, hi - 1, i);
      assert rows[lo..hi][..hi - lo - 1] == rows[lo..hi - 1];
    }
  }

  // --------------------------------------------------------------------------- environment

  /** What happens to one turn of the paging loop: the emission of the page goes through,
      after executions whose replies were lost; it fails for good, or the process dies, after
      so many executions; or the selection fails, with an error that counts as transient or
      with another one. */
  datatype Turn =
    | Emitted(repeats: nat)
    | EmissionFailed(executions: nat)
    | Dies(executions: nat)
    | SelectTransient
    | SelectFatal

  /** The environment's choices; turns beyond the list go well. */
  function At(turns: seq<Turn>, i: nat): Turn {
    if i < |turns| then turns[i] else Emitted(0)
  }

  /** How often each emitted page was executed, in order. */
  function PagesOf(turns: seq<Turn>, n: nat): seq<nat> {
    if n == 0 then []
    else
      PagesOf(turns, n - 1)
      + match At(turns, n - 1)
        case Emitted(repeats) => [repeats + 1]
        case EmissionFailed(executions) => [executions]
        case Dies(executions) => [executions]
        case _ => []
  }

  function Transients(turns: seq<Turn>, n: nat): nat {
    if n == 0 then 0 else Transients(turns, n - 1) + if At(turns, n - 1) == SelectTransient then 1 else 0
  }

  predicate AllFine(turns: seq<Turn>, n: nat) {
    forall i | 0 <= i < n :: At(turns, i).Emitted?
  }

  predicate AllMild(turns: seq<Turn>, n: nat) {
    forall i | 0 <= i < n :: At(turns, i).Emitted? || At(turns, i) == SelectTransient
  }

  lemma {:induction false} PagesWhenFine(turns: seq<Turn>, n: nat)
    requires AllFine(turns, n)
    ensures |PagesOf(turns, n)| == n && forall p | 0 <= p < n :: PagesOf(turns, n)[p] == At(turns, p).repeats + 1
  {
    if n > 0 {
      PagesWhenFine(turns, n - 1);
    }
  }

  // --------------------------------------------------------------------------------- pages

  /** SELECT ... LIMIT limit OFFSET offset over a result that does not change. */
  function Page(rows: seq<Delta>, limit: nat, offset: nat): seq<Delta> {
    rows[Clip(rows, offset)..Clip(rows, offset + limit)]
  }

  function Clip(rows: seq<Delta>, n: nat): (m: nat)
    ensures m <= n && m <= |rows|
  {
    if n <= |rows| then n else |rows|
  }

  function Again(deltas: seq<Delta>, n: nat): seq<Delta> {
    if n == 0 then [] else Again(deltas, n - 1) + deltas
  }

  lemma {:induction false} AmountAgain(deltas: seq<Delta>, n: nat, key: string)
    ensures Amount(Again(deltas, n), key) == n * Amount(deltas, key)
  {
    if n > 0 {
      AmountAgain(deltas, n - 1, key);
      AmountConcat(Again(deltas, n - 1), deltas, key);
      var once := Amount(deltas, key);
      hide Amount;
      assert (n - 1) * once + once == n * once;
    }
  }

  /** Where the p-th page begins: p times the limit. */
  function Offset(p: nat, limit: nat): nat {
    if p == 0 then 0 else Offset(p - 1, limit) + limit
  }

  lemma {:induction false} OffsetIsProduct(p: nat, limit: nat)
    ensures Offset(p, limit) == p * limit
  {
    if p > 0 {
      OffsetIsProduct(p - 1, limit);
      assert (p - 1) * limit + limit == p * limit;
    }
  }

  lemma {:induction false} OffsetGrows(p: nat, q: nat, limit: nat)
    requires p <= q
    ensures Offset(p, limit) <= Offset(q, limit)
  {
    if p < q {
      OffsetGrows(p, q - 1, limit);
    }
  }

  predicate OnPage(i: nat, p: nat, limit: nat) {
    Offset(p, limit) <= i < Offset(p + 1, limit)
  }

  /** All decrements executed when the p-th page is executed pages[p] times. */
  function Emissions(rows: seq<Delta>, limit: nat, pages: seq<nat>): seq<Delta> {
    if pages == [] then []
    else
      var p := |pages| - 1;
      Emissions(rows, limit, pages[..p]) + Again(Page(rows, limit, Offset(p, limit)), pages[p])
  }

  /** How often the i-th row was decremented. */
  function TimesOf(pages: seq<nat>, limit: nat, i: nat): nat {
    if pages == [] then 0
    else if OnPage(i, |pages| - 1, limit) then pages[|pages| - 1]
    else TimesOf(pages[..|pages| - 1], limit, i)
  }

  /** That is how often its page was executed. */
  lemma {:induction false} TimesOnPage(pages: seq<nat>, limit: nat, i: nat, p: nat)
    requires OnPage(i, p, limit)
    ensures TimesOf(pages, limit, i) == if p < |pages| then pages[p] else 0
  {
    if pages != [] {
      var last := |pages| - 1;
      if p < last {
        OffsetGrows(p + 1, last, limit);
      } else if last < p {
        OffsetGrows(last + 1, p, limit);
      }
      TimesOnPage(pages[..last], limit, i, p);
    }
  }

  lemma {:induction false} NotYetPaged(pages: seq<nat>, limit: nat, i: nat)
    requires i >= Offset(|pages|, limit)
    ensures TimesOf(pages, limit, i) == 0
  {
    if pages != [] {
      OffsetGrows(|pages| - 1, |pages|, limit);
      NotYetPaged(pages[..|pages| - 1], limit, i);
    }
  }

  /** With one row per key, each row is decremented as often as its page was executed, by its
      own amount each time. */
  lemma {:induction false} EachRowTimes(h: Hash, rows: seq<Delta>, limit: nat, pages: seq<nat>, i: nat)
    requires DistinctKeys(rows) && i < |rows|
    ensures Get(Decrease(h, Emissions(rows, limit, pages)), rows[i].key)
            == Get(h, rows[i].key) - TimesOf(pages, limit, i) * rows[i].amount
  {
    EmissionsAmount(rows, limit, pages, i);
    DecreaseAmount(h, Emissions(rows, limit, pages), rows[i].key);
  }

  lemma PageAmount(rows: seq<Delta>, limit: nat, p: nat, n: nat, i: nat)
    requires DistinctKeys(rows) && i < |rows|
    ensures Amount(Again(Page(rows, limit, Offset(p, limit)), n), rows[i].key)
            == if OnPage(i, p, limit) then n * rows[i].amount else 0
  {
    AmountAgain(Page(rows, limit, Offset(p, limit)), n, rows[i].key);
    AmountOfRow(rows, Clip(rows, Offset(p, limit)), Clip(rows, Offset(p, limit) + limit), i);
    Nothing(n);
  }

  lemma Nothing(n: int)
    ensures n * 0 == 0 && 0 * n == 0
  {
  }

  lemma {:induction false} EmissionsAmount(rows: seq<Delta>, limit: nat, pages: seq<nat>, i: nat)
    requires DistinctKeys(rows) && i < |rows|
    ensures Amount(Emissions(rows, limit, pages), rows[i].key) == TimesOf(pages, limit, i) * rows[i].amount
  {
    Nothing(rows[i].amount);
    if pages != [] {
      var p, key := |pages| - 1, rows[i].key;
      EmissionsAmount(rows, limit, pages[..p], i);
      AmountConcat(Emissions(rows, limit, pages[..p]), Again(Page(rows, limit, Offset(p, limit)), pages[p]), key);
      PageAmount(rows, limit, p, pages[p], i);
      if OnPage(i, p, limit) {
        NotYetPaged(pages[..p], limit, i);
      }
      hide Amount;
    }
  }

  /** Keys without a row are left alone. */
  lemma OtherKeysStay(h: Hash, rows: seq<Delta>, limit: nat, pages: seq<nat>, key: string)
    requires forall i | 0 <= i < |rows| :: rows[i].key != key
    ensures Get(Decrease(h, Emissions(rows, limit, pages)), key) == Get(h, key)
  {
    NothingForOthers(rows, limit, pages, key);
    DecreaseAmount(h, Emissions(rows, limit, pages), key);
  }

  lemma {:induction false} NothingForOthers(rows: seq<Delta>, limit: nat, pages: seq<nat>, key: string)
    requires forall i | 0 <= i < |rows| :: rows[i].key != key
    ensures Amount(Emissions(rows, limit, pages), key) == 0
  {
    if pages != [] {
      var p := |pages| - 1;
      var page := Page(rows, limit, Offset(p, limit));
      NothingForOthers(rows, limit, pages[..p], key);
      AmountConcat(Emissions(rows, limit, pages[..p]), Again(page, pages[p]), key);
      AmountAgain(page, pages[p], key);
      NoAmount(page, key);
      Nothing(pages[p]);
      hide Amount;
    }
  }

  lemma {:induction false} NoAmount(deltas: seq<Delta>, key: string)
    requires forall i | 0 <= i < |deltas| :: deltas[i].key != key
    ensures Amount(deltas, key) == 0
  {
    if deltas != [] {
      NoAmount(deltas[..|deltas| - 1], key);
    }
  }

  // --------------------------------------------------------------------------- the consumer

  datatype Outcome = Acknowledged | DeclaredDead | Died

  /** The turn still finds rows on its page. */
  predicate RowsLeft(rows: seq<Delta>, limit: nat, turns: seq<Turn>, i: nat) {
    Offset(|PagesOf(turns, i)|, limit) < |rows|
  }

  class Downstream {
    var hash: Hash
    var dedup: set<nat>

    constructor (hash: Hash)
      ensures this.hash == hash && dedup == {}
    {
      this.hash, dedup := hash, {};
    }

    /** HINCRBY by the negated amounts, the whole page n times over. */
    method EmitPage(page: seq<Delta>, n: nat)
      modifies this`hash
      ensures hash == Decrease(old(hash), Again(page, n))
    {
      for k := 0 to n
        invariant hash == Decrease(old(hash), Again(page, k))
      {
        DecreaseConcat(old(hash), Again(page, k), page);
        hash := Decrease(hash, page);
      }
    }

    /** One attempt: page on from `offset` until an empty page or a failing turn. */
    method PageThrough(rows: seq<Delta>, limit: nat, turns: seq<Turn>, offset: nat, used: nat, ghost start: Hash)
      returns (turn: Turn, offset': nat, used': nat)
      requires limit >= 1 && offset == Offset(|PagesOf(turns, used)|, limit)
      requires hash == Decrease(start, Emissions(rows, limit, PagesOf(turns, used)))
      modifies this`hash
      ensures used < used' && turn == At(turns, used' - 1) && offset' == Offset(|PagesOf(turns, used')|, limit)
      ensures forall i | used <= i < used' - 1 :: At(turns, i).Emitted?
      ensures Transients(turns, used') == Transients(turns, used) + if turn == SelectTransient then 1 else 0
      ensures hash == Decrease(start, Emissions(rows, limit, PagesOf(turns, used')))
      ensures offset <= offset' && (turn.Emitted? ==> |rows| <= offset')
      ensures forall i | used <= i < used' - 1 :: RowsLeft(rows, limit, turns, i)
      ensures turn.Emitted? ==> !RowsLeft(rows, limit, turns, used' - 1)
    {
      hide Decrease;
      hide Emissions;
      hide Again;
      hide PagesOf;
      hide Offset;
      offset', used', turn := offset, used, Emitted(0);
      var more := true;
      while more
        invariant used <= used' && offset <= offset' == Offset(|PagesOf(turns, used')|, limit)
        invariant forall i | used <= i < used' :: At(turns, i).Emitted?
        invariant Transients(turns, used') == Transients(turns, used)
        invariant hash == Decrease(start, Emissions(rows, limit, PagesOf(turns, used')))
        invariant !more ==> used < used' && turn == At(turns, used' - 1) && |rows| <= offset'
        invariant forall i | used <= i < (if more then used' else used' - 1) :: RowsLeft(rows, limit, turns, i)
        invariant !more ==> !RowsLeft(rows, limit, turns, used' - 1)
        decreases |rows| - Clip(rows, offset'), more
      {
        turn := At(turns, used');
        ghost var pages := PagesOf(turns, used');
        used' := used' + 1;
        PagesStep(turns, used' - 1);
        OffsetStep(|pages|, limit);
        if turn == SelectTransient || turn == SelectFatal {
          assert PagesOf(turns, used') == pages;
          return;
        }
        var results := Page(rows, limit, offset');
        var executions := if turn.Emitted? then turn.repeats + 1 else turn.executions;
        ghost var before := hash;
        EmitPage(results, executions);
        OneMorePage(start, rows, limit, pages, executions);
        if !turn.Emitted? {
          offset' := offset' + limit;
          return;
        }
        more := results != [];
        offset' := offset' + limit;
      }
    }

    /** The paging with its retries. Whatever happens, the hash ends up decreased by the pages
        that were emitted, each as often as it was executed. The event is acknowledged exactly
        when no turn failed; then, given at least one attempt, every row was decremented, by
        once plus the number of lost replies to its page. All rows were decremented also when
        fewer turns than attempts failed and all of them transiently, although the event is
        then declared dead. Without any attempt it is acknowledged and nothing happens. */
    method Consume(rows: seq<Delta>, limit: nat, maxRetries: nat, turns: seq<Turn>)
      returns (outcome: Outcome, used: nat)
      requires limit >= 1
      modifies this`hash
      ensures hash == Decrease(old(hash), Emissions(rows, limit, PagesOf(turns, used)))
      ensures DistinctKeys(rows) ==> DecrementedByTurns(old(hash), hash, rows, limit, turns, used)
      ensures outcome == Acknowledged <==> AllFine(turns, used)
      ensures outcome == Died <==> used > 0 && At(turns, used - 1).Dies?
      ensures outcome == Acknowledged && maxRetries >= 1 ==>
                EachRowRepeated(turns, used, rows, limit)
      ensures AllMild(turns, used) && Transients(turns, used) < maxRetries ==>
                |rows| <= Offset(|PagesOf(turns, used)|, limit)
      ensures maxRetries == 0 ==> used == 0
      ensures forall i | 0 <= i < used - 1 :: At(turns, i).Emitted? || At(turns, i) == SelectTransient
      ensures Transients(turns, used) <= maxRetries
    {
      NothingEmitted(hash, rows, limit, turns);
      hide Decrease;
      hide Emissions;
      hide PagesOf;
      hide Offset;
      hide DistinctKeys;
      hide DecrementedByTurns;
      var offset, attempt := 0, 0;
      outcome, used := Acknowledged, 0;
      while attempt < maxRetries
        invariant offset == Offset(|PagesOf(turns, used)|, limit)
        invariant hash == Decrease(old(hash), Emissions(rows, limit, PagesOf(turns, used)))
        invariant (outcome == Acknowledged <==> AllFine(turns, used)) && outcome != Died && AllMild(turns, used)
        invariant attempt <= maxRetries
        invariant |rows| <= offset || Transients(turns, used) == attempt
        invariant outcome == Acknowledged && attempt > 0 ==> |rows| <= offset
        invariant attempt == 0 ==> outcome == Acknowledged && used == 0
        invariant Transients(turns, used) <= attempt
      {
        attempt := attempt + 1;
        var turn, offset', used' := PageThrough(rows, limit, turns, offset, used, old(hash));
        offset, used := offset', used';
        if !turn.Emitted? {
          outcome := if turn.Dies? then Died else DeclaredDead;
          if turn != SelectTransient {
            if DistinctKeys(rows) {
              EmissionsDecrement(old(hash), rows, limit, turns, used);
            }
            return;
          }
        }
      }
      if outcome == Acknowledged && maxRetries >= 1 {
        RowsRepeated(turns, used, rows, limit);
      }
      if DistinctKeys(rows) {
        EmissionsDecrement(old(hash), rows, limit, turns, used);
      }
    }

    /** queue_downstream_decrement_consumer on one delivery of an event: an event whose dedup
        row exists is acknowledged and nothing else, and the row is committed first. */
    method Deliver(id: nat, rows: seq<Delta>, limit: nat, maxRetries: nat, turns: seq<Turn>)
      returns (outcome: Outcome, used: nat)
      requires limit >= 1
      modifies this
      ensures dedup == old(dedup) + {id}
      ensures hash == Decrease(old(hash), Emissions(rows, limit, PagesOf(turns, used)))
      ensures id in old(dedup) ==> outcome == Acknowledged && used == 0 && hash == old(hash)
      ensures id !in old(dedup) && DistinctKeys(rows) ==> DecrementedByTurns(old(hash), hash, rows, limit, turns, used)
      ensures id !in old(dedup) ==> (outcome == Acknowledged <==> AllFine(turns, used))
      ensures id !in old(dedup) && outcome == Acknowledged && maxRetries >= 1 ==>
                EachRowRepeated(turns, used, rows, limit)
    {
      if id in dedup {
        return Acknowledged, 0;
      }
      dedup := dedup + {id};
      outcome, used := Consume(rows, limit, maxRetries, turns);
    }

    /** A second delivery, whatever became of the first, is acknowledged without a decrement:
        the rows that a crash left out stay as they are. So over both deliveries each row is
        decremented exactly once if and only if the first delivery did so. */
    method DeliverTwice(id: nat, rows: seq<Delta>, limit: nat, maxRetries: nat, first: seq<Turn>, second: seq<Turn>)
      returns (outcome: Outcome, ghost used: nat)
      requires limit >= 1 && DistinctKeys(rows) && id !in dedup
      modifies this
      ensures outcome == Acknowledged
      ensures hash == Decrease(old(hash), Emissions(rows, limit, PagesOf(first, used)))
      ensures forall i | 0 <= i < |rows| && rows[i].amount != 0 ::
                Get(hash, rows[i].key) == Get(old(hash), rows[i].key) - rows[i].amount
                <==> TimesOf(PagesOf(first, used), limit, i) == 1
    {
      hide Decrease;
      hide Emissions;
      hide PagesOf;
      hide TimesOf;
      hide EachRowRepeated;
      hide AllFine;
      hide Get;
      var one, n := Deliver(id, rows, limit, maxRetries, first);
      NothingEmitted(hash, rows, limit, second);
      var two, m := Deliver(id, rows, limit, maxRetries, second);
      outcome, used := two, n;
      forall i | 0 <= i < |rows| && rows[i].amount != 0
        ensures Get(hash, rows[i].key) == Get(old(hash), rows[i].key) - rows[i].amount
                <==> TimesOf(PagesOf(first, used), limit, i) == 1
      {
        EachRowTimes(old(hash), rows, limit, PagesOf(first, used), i);
        OnlyOnce(TimesOf(PagesOf(first, used), limit, i), rows[i].amount);
      }
    }
  }

  lemma OnlyOnce(n: nat, d: int)
    ensures d != 0 && n * d == d ==> n == 1
  {
    if n * d == d {
      assert (n - 1) * d == 0;
    }
  }

  lemma NothingEmitted(h: Hash, rows: seq<Delta>, limit: nat, turns: seq<Turn>)
    ensures PagesOf(turns, 0) == [] && Offset(|PagesOf(turns, 0)|, limit) == 0
    ensures Decrease(h, Emissions(rows, limit, PagesOf(turns, 0))) == h
  {
  }

  lemma PagesStep(turns: seq<Turn>, n: nat)
    ensures PagesOf(turns, n + 1) == PagesOf(turns, n)
                                     + match At(turns, n)
                                       case Emitted(repeats) => [repeats + 1]
                                       case EmissionFailed(executions) => [executions]
                                       case Dies(executions) => [executions]
                                       case _ => []
  {
  }

  lemma OffsetStep(p: nat, limit: nat)
    ensures Offset(p + 1, limit) == Offset(p, limit) + limit
  {
  }

  lemma OneMorePage(start: Hash, rows: seq<Delta>, limit: nat, pages: seq<nat>, executions: nat)
    ensures Decrease(Decrease(start, Emissions(rows, limit, pages)), Again(Page(rows, limit, Offset(|pages|, limit)), executions))
            == Decrease(start, Emissions(rows, limit, pages + [executions]))
  {
    DecreaseConcat(start, Emissions(rows, limit, pages), Again(Page(rows, limit, Offset(|pages|, limit)), executions));
    assert (pages + [executions])[..|pages|] == pages;
  }

  /** Each row lies on the page of one of the turns and was decremented once, and once more
      for each lost reply of that turn. */
  ghost predicate EachRowRepeated(turns: seq<Turn>, used: nat, rows: seq<Delta>, limit: nat) {
    && AllFine(turns, used) && |rows| <= Offset(used, limit)
    && forall i, p | 0 <= i < |rows| && 0 <= p < used && OnPage(i, p, limit) ::
         TimesOf(PagesOf(turns, used), limit, i) == At(turns, p).repeats + 1
  }

  lemma RowsRepeated(turns: seq<Turn>, used: nat, rows: seq<Delta>, limit: nat)
    requires AllFine(turns, used) && |rows| <= Offset(|PagesOf(turns, used)|, limit)
    ensures EachRowRepeated(turns, used, rows, limit)
  {
    PagesWhenFine(turns, used);
    forall i, p | 0 <= i < |rows| && 0 <= p < used && OnPage(i, p, limit)
      ensures TimesOf(PagesOf(turns, used), limit, i) == At(turns, p).repeats + 1
    {
      TimesOnPage(PagesOf(turns, used), limit, i, p);
    }
  }

  // ------------------------------------------------------------------------- row by row

  /** How often the page of a turn was executed; None when the turn got no page. */
  function Executions(turn: Turn): Option<nat> {
    match turn
    case Emitted(repeats) => Some(repeats + 1)
    case EmissionFailed(executions) => Some(executions)
    case Dies(executions) => Some(executions)
    case _ => None
  }

  /** How many of the first n turns got a page. */
  function PagesBefore(turns: seq<Turn>, n: nat): nat {
    if n == 0 then 0 else PagesBefore(turns, n - 1) + if Executions(At(turns, n - 1)).Some? then 1 else 0
  }

  /** Every row of the page that a turn got is decremented as often as the turn executed it,
      and rows of pages that no turn got are left alone. */
  ghost predicate DecrementedByTurns(h: Hash, h': Hash, rows: seq<Delta>, limit: nat, turns: seq<Turn>, used: nat) {
    && (forall i, n | 0 <= i < |rows| && 0 <= n < used && Executions(At(turns, n)).Some? && OnPage(i, PagesBefore(turns, n), limit) ::
          Get(h', rows[i].key) == Get(h, rows[i].key) - Executions(At(turns, n)).value * rows[i].amount)
    && (forall i | 0 <= i < |rows| && i >= Offset(PagesBefore(turns, used), limit) :: Get(h', rows[i].key) == Get(h, rows[i].key))
    && (forall key | (forall i | 0 <= i < |rows| :: rows[i].key != key) :: Get(h', key) == Get(h, key))
  }

  lemma {:induction false} PageOfTurn(turns: seq<Turn>, used: nat)
    ensures |PagesOf(turns, used)| == PagesBefore(turns, used)
    ensures forall n | 0 <= n < used && Executions(At(turns, n)).Some? ::
              PagesBefore(turns, n) < PagesBefore(turns, used)
              && PagesOf(turns, used)[PagesBefore(turns, n)] == Executions(At(turns, n)).value
  {
    if used > 0 {
      PageOfTurn(turns, used - 1);
    }
  }

  lemma EmissionsDecrement(h: Hash, rows: seq<Delta>, limit: nat, turns: seq<Turn>, used: nat)
    requires DistinctKeys(rows)
    ensures DecrementedByTurns(h, Decrease(h, Emissions(rows, limit, PagesOf(turns, used))), rows, limit, turns, used)
  {
    var pages := PagesOf(turns, used);
    PageOfTurn(turns, used);
    var h' := Decrease(h, Emissions(rows, limit, pages));
    hide PagesOf;
    hide Decrease;
    hide Emissions;
    hide Get;
    hide Executions;
    hide PagesBefore;
    hide Offset;
    forall i, n | 0 <= i < |rows| && 0 <= n < used && Executions(At(turns, n)).Some? && OnPage(i, PagesBefore(turns, n), limit)
      ensures Get(h', rows[i].key) == Get(h, rows[i].key) - Executions(At(turns, n)).value * rows[i].amount
    {
      EachRowTimes(h, rows, limit, pages, i);
      TimesOnPage(pages, limit, i, PagesBefore(turns, n));
    }
    forall i | 0 <= i < |rows| && i >= Offset(PagesBefore(turns, used), limit)
      ensures Get(h', rows[i].key) == Get(h, rows[i].key)
    {
      EachRowTimes(h, rows, limit, pages, i);
      NotYetPaged(pages, limit, i);
      Nothing(rows[i].amount);
    }
    forall key | forall i | 0 <= i < |rows| :: rows[i].key != key
      ensures Get(h', key) == Get(h, key)
    {
      OtherKeysStay(h, rows, limit, pages, key);
    }
  }

  /** Every row is on exactly one page. */
  lemma {:induction false} PageOfRow(i: nat, n: nat, limit: nat) returns (p: nat)
    requires i < Offset(n, limit)
    ensures p < n && OnPage(i, p, limit)
  {
    if i >= Offset(n - 1, limit) {
      p := n - 1;
    } else {
      p := PageOfRow(i, n - 1, limit);
    }
  }

  ghost predicate AllOnce(turns: seq<Turn>, used: nat, rows: seq<Delta>, limit: nat) {
    forall i | 0 <= i < |rows| :: TimesOf(PagesOf(turns, used), limit, i) == 1
  }

  /** No reply to the emission of a page with rows on it was lost. */
  ghost predicate NoReplyLost(turns: seq<Turn>, used: nat, rows: seq<Delta>, limit: nat)
    requires AllFine(turns, used)
  {
    forall i, p | 0 <= i < |rows| && 0 <= p < used && OnPage(i, p, limit) :: At(turns, p).repeats == 0
  }

  /** So an acknowledged event decremented every row exactly once if and only if no reply to
      an emission of one of its pages was lost. */
  lemma OnceIffNoReplyLost(turns: seq<Turn>, used: nat, rows: seq<Delta>, limit: nat)
    requires EachRowRepeated(turns, used, rows, limit)
    ensures AllOnce(turns, used, rows, limit) <==> NoReplyLost(turns, used, rows, limit)
  {
    if NoReplyLost(turns, used, rows, limit) {
      forall i | 0 <= i < |rows|
        ensures TimesOf(PagesOf(turns, used), limit, i) == 1
      {
        var p := PageOfRow(i, used, limit);
        assert At(turns, p).repeats == 0;
      }
    }
    if AllOnce(turns, used, rows, limit) {
      forall i, p | 0 <= i < |rows| && 0 <= p < used && OnPage(i, p, limit)
        ensures At(turns, p).repeats == 0
      {
        assert TimesOf(PagesOf(turns, used), limit, i) == At(turns, p).repeats + 1;
      }
    }
  }
}
