/** batch_insert_with_isolation (tasks/insertions.py): try the whole batch in one
    transaction and, when a constraint rejects it, bisect it to isolate the culprits. The
    insertion of one event is any function of the table and the event, so an event may be
    rejected because of an earlier event of its own batch. A slice of the batch is named by
    its bounds `lo` and `hi`. */
module BisectInsert {
  datatype Outcome<T> = Rejected | Accepted(table: T, returned: seq<nat>)
  type Insertion<!T, !E> = (T, E) -> Outcome<T>

  /** The table and the caller's list of accepted ids, which insertions extend. */
  datatype Progress<T> = Progress(table: T, inserted: seq<nat>)

  /** The reference: events one at a time in order, each rejected one skipped. */
  function Sequential<T, E>(insert: Insertion<T, E>, p: Progress<T>, events: seq<E>, lo: nat, hi: nat): Progress<T>
    requires lo <= hi <= |events|
    decreases hi
  {
    if lo == hi then p
    else
      var q := Sequential(insert, p, events, lo, hi - 1);
      match insert(q.table, events[hi - 1])
      case Rejected => q
      case Accepted(t, ids) => Progress(t, q.inserted + ids)
  }

  /** How many events the reference skips. */
  function Rejections<T, E>(insert: Insertion<T, E>, p: Progress<T>, events: seq<E>, lo: nat, hi: nat): (k: nat)
    requires lo <= hi <= |events|
    ensures k <= hi - lo
    decreases hi
  {
    if lo == hi then 0
    else
      var q := Sequential(insert, p, events, lo, hi - 1);
      Rejections(insert, p, events, lo, hi - 1) + if insert(q.table, events[hi - 1]).Rejected? then 1 else 0
  }

  class Connection<T, E> {
    const insert: Insertion<T, E>
    var table: T
    var inserted: seq<nat>
    var transactions: nat

    constructor (insert: Insertion<T, E>, table: T)
      ensures this.insert == insert && this.table == table && inserted == [] && transactions == 0
    {
      this.insert, this.table, inserted, transactions := insert, table, [], 0;
    }

    function Now(): Progress<T>
      reads this
    {
      Progress(table, inserted)
    }

    /** One transaction around a batch: all of it or, on an IntegrityError, none of it. */
    method Attempt(events: seq<E>, lo: nat, hi: nat) returns (ok: bool)
      requires lo <= hi <= |events|
      modifies this
      ensures transactions == old(transactions) + 1
      ensures ok <==> Rejections(insert, old(Now()), events, lo, hi) == 0
      ensures Now() == if ok then Sequential(insert, old(Now()), events, lo, hi) else old(Now())
    {
      transactions := transactions + 1;
      ghost var start := Now();
      var t, ids := table, inserted;
      for i := lo to hi
        invariant transactions == old(transactions) + 1 && Now() == start
        invariant Sequential(insert, start, events, lo, i) == Progress(t, ids)
        invariant Rejections(insert, start, events, lo, i) == 0
      {
        match insert(t, events[i]) {
          case Rejected =>
            SequentialConcat(insert, start, events, lo, i + 1, hi);
            return false;
          case Accepted(t', returned) =>
            t, ids := t', ids + returned;
        }
      }
      table, inserted := t, ids;
      return true;
    }

    /** The bisecting insert leaves the table and the accepted ids of the reference. For n
        events it opens at most 2n - 1 transactions, all of them when every event is
        rejected, and at most 1 + 2k log2(n) when k are: isolating a culprit costs two
        transactions per halving. */
    method InsertWithIsolation(events: seq<E>, lo: nat, hi: nat)
      requires lo < hi <= |events|
      modifies this
      ensures Now() == Sequential(insert, old(Now()), events, lo, hi)
      ensures WithinCost(transactions - old(transactions), Rejections(insert, old(Now()), events, lo, hi), hi - lo)
      decreases hi - lo, 1
    {
      ghost var k := Rejections(insert, Now(), events, lo, hi);
      var ok := Attempt(events, lo, hi);
      if ok || hi - lo == 1 {
        CostOfOne(k, hi - lo);
      } else {
        InsertHalves(events, lo, lo + (hi - lo) / 2, hi);
      }
    }

    method InsertHalves(events: seq<E>, lo: nat, mid: nat, hi: nat)
      requires lo < mid < hi <= |events| && mid - lo == (hi - lo) / 2
      requires Rejections(insert, Now(), events, lo, hi) > 0
      modifies this
      ensures Now() == Sequential(insert, old(Now()), events, lo, hi)
      ensures WithinCost(1 + transactions - old(transactions), Rejections(insert, old(Now()), events, lo, hi), hi - lo)
      decreases hi - lo, 0
    {
      hide Budget;
      hide WithinCost;
      SequentialConcat(insert, Now(), events, lo, mid, hi);
      ghost var k, u := Rejections(insert, Now(), events, lo, mid), transactions;
      InsertWithIsolation(events, lo, mid);
      ghost var l, v := Rejections(insert, Now(), events, mid, hi), transactions;
      InsertWithIsolation(events, mid, hi);
      CostSplit(v - u, k, transactions - v, l, hi - lo);
    }
  }

  /** The reference runs a batch as its first part followed by its second. */
  lemma {:induction false} SequentialConcat<T, E>(
      insert: Insertion<T, E>, p: Progress<T>, events: seq<E>, lo: nat, mid: nat, hi: nat)
    requires lo <= mid <= hi <= |events|
    ensures var q := Sequential(insert, p, events, lo, mid);
            && Sequential(insert, p, events, lo, hi) == Sequential(insert, q, events, mid, hi)
            && Rejections(insert, p, events, lo, hi)
               == Rejections(insert, p, events, lo, mid) + Rejections(insert, q, events, mid, hi)
    decreases hi
  {
    if mid < hi {
      SequentialConcat(insert, p, events, lo, mid, hi - 1);
    }
  }

  function Pow2(n: nat): (p: nat)
    ensures p > 0
  {
    if n == 0 then 1 else 2 * Pow2(n - 1)
  }

  function CeilLog2(n: nat): nat {
    if n <= 1 then 0 else 1 + CeilLog2((n + 1) / 2)
  }

  /** CeilLog2 is the base-two logarithm rounded up. */
  lemma {:induction false} CeilLog2Correct(n: nat)
    requires n >= 1
    ensures n <= Pow2(CeilLog2(n))
    ensures n >= 2 ==> Pow2(CeilLog2(n) - 1) < n
  {
    if n >= 2 {
      var h := (n + 1) / 2;
      CeilLog2Correct(h);
      assert Pow2(CeilLog2(n)) == 2 * Pow2(CeilLog2(h));
      if h >= 2 {
        assert Pow2(CeilLog2(h)) == 2 * Pow2(CeilLog2(h) - 1);
      }
    }
  }

  lemma {:induction false} CeilLog2Monotone(m: nat, n: nat)
    requires m <= n
    ensures CeilLog2(m) <= CeilLog2(n)
  {
    if m >= 2 {
      CeilLog2Monotone((m + 1) / 2, (n + 1) / 2);
    }
  }

  /** Transactions allowed for n events of which k are rejected. */
  function Budget(k: nat, n: nat): nat {
    1 + 2 * (k * CeilLog2(n))
  }

  predicate WithinCost(used: int, k: nat, n: nat) {
    && 0 < used <= 2 * n - 1
    && (k == n ==> used == 2 * n - 1)
    && used <= Budget(k, n)
  }

  lemma CostOfOne(k: nat, n: nat)
    requires 1 <= n && k <= n && (k == 0 || n == 1)
    ensures WithinCost(1, k, n)
  {
  }

  /** One failed attempt and the costs of both halves stay within the cost of the whole. */
  lemma CostSplit(u: int, k: nat, v: int, l: nat, n: nat)
    requires n >= 2 && 0 < k + l && k <= n / 2 && l <= n - n / 2
    requires WithinCost(u, k, n / 2) && WithinCost(v, l, n - n / 2)
    ensures WithinCost(1 + u + v, k + l, n)
  {
    BudgetSplit(k, l, n);
  }

  lemma BudgetSplit(l: nat, r: nat, n: nat)
    requires n >= 2 && l + r > 0
    ensures 1 + Budget(l, n / 2) + Budget(r, n - n / 2) <= Budget(l + r, n)
  {
    var depth := CeilLog2(n) - 1;
    assert n - n / 2 == (n + 1) / 2;
    CeilLog2Monotone(n / 2, n - n / 2);
    Scale(l, CeilLog2(n / 2), depth);
    Scale(r, CeilLog2(n - n / 2), depth);
    assert (l + r) * (depth + 1) == l * depth + r * depth + (l + r);
  }

  lemma Scale(k: nat, a: nat, b: nat)
    requires a <= b
    ensures k * a <= k * b
  {
  }
}
