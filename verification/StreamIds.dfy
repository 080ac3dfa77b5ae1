/** Stream ids `ms-seq` and the integer that StreamedEvent.construct_from_stream_record
    flattens them to (events.py). Deduplication keys on this integer and last-writer-wins
    orders by it. */
module StreamIds {
  import opened Wrappers
  import opened Text

  datatype StreamId = StreamId(ms: nat, counter: nat)

  /** The order in which Redis keeps stream entries. */
  predicate Before(a: StreamId, b: StreamId) {
    a.ms < b.ms || (a.ms == b.ms && a.counter < b.counter)
  }

  function Print(id: StreamId): string {
    Join([Dec(id.ms), Dec(id.counter)], '-')
  }

  /** `s.replace(c, "")`. */
  function Remove(s: string, c: char): string {
    if s == [] then [] else (if s[0] == c then [] else [s[0]]) + Remove(s[1..], c)
  }

  /** `int(stream_id.replace("-", ""))`. */
  function FlattenText(s: string): Option<nat> {
    ParseNat(Remove(s, '-'))
  }

  function Width(n: nat): nat {
    |Dec(n)|
  }

  /** The flattened id as arithmetic: the counter's digits written after the milliseconds. */
  function Flatten(id: StreamId): nat {
    id.ms * Pow10(Width(id.counter)) + id.counter
  }

  lemma {:induction false} RemoveFree(s: string, c: char)
    requires Free(s, c)
    ensures Remove(s, c) == s
  {
    if s != [] {
      assert s[0] in s;
      RemoveFree(s[1..], c);
    }
  }

  lemma {:induction false} RemoveConcat(s: string, t: string, c: char)
    ensures Remove(s + t, c) == Remove(s, c) + Remove(t, c)
  {
    if s == [] {
      assert s + t == t;
    } else {
      assert (s + t)[1..] == s[1..] + t;
      RemoveConcat(s[1..], t, c);
    }
  }

  /** Flatten is what the text conversion computes on every stream id. */
  lemma FlattenTextIsFlatten(id: StreamId)
    ensures FlattenText(Print(id)) == Some(Flatten(id))
  {
    var m, q := Dec(id.ms), Dec(id.counter);
    DecRoundTrip(id.ms);
    DecRoundTrip(id.counter);
    DigitsHoldNoDash(m);
    DigitsHoldNoDash(q);
    hide Dec;
    hide Remove;
    hide Join;
    RemoveDash(m, q);
    ValueConcat(m, q);
    hide Value;
    hide IsDigits;
  }

  lemma DigitsHoldNoDash(s: string)
    requires IsDigits(s)
    ensures Free(s, '-')
  {
  }

  lemma {:induction false} RemoveDash(m: string, q: string)
    requires Free(m, '-') && Free(q, '-')
    ensures Remove(Join([m, q], '-'), '-') == m + q
  {
    var tail := "-" + q;
    assert Join([m, q], '-') == m + tail by {
      assert [m, q][1..] == [q] && Join([q], '-') == q;
    }
    assert Remove(tail, '-') == q by {
      RemoveFree(q, '-');
      assert tail[1..] == q;
    }
    RemoveConcat(m, tail, '-');
    RemoveFree(m, '-');
  }

  lemma {:induction false} Pow10Add(m: nat, n: nat)
    ensures Pow10(m + n) == Pow10(m) * Pow10(n)
  {
    if m > 0 {
      Pow10Add(m - 1, n);
    }
  }

  lemma MulMonotone(a: nat, b: nat, p: nat)
    requires a <= b
    ensures a * p <= b * p
  {
  }

  /** A quotient one larger outweighs any remainder. */
  lemma QuotientDominates(a: nat, b: nat, p: nat, r: nat)
    requires a < b && r < p
    ensures a * p + r < b * p
  {
    MulMonotone(a + 1, b, p);
    assert (a + 1) * p == a * p + p;
  }

  /** The flattened id has as many digits as both parts together. */
  lemma FlattenBounds(id: StreamId)
    requires id.ms > 0
    ensures Width(id.ms) + Width(id.counter) >= 1
    ensures Pow10(Width(id.ms) + Width(id.counter) - 1) <= Flatten(id) < Pow10(Width(id.ms) + Width(id.counter))
  {
    var w, u := Width(id.ms), Width(id.counter);
    assert w >= 1 && Pow10(w - 1) <= id.ms < Pow10(w) by { DecBounds(id.ms); }
    assert id.counter < Pow10(u) by { DecBounds(id.counter); }
    LeadingDigits(id.ms, id.counter, w, u);
  }

  lemma LeadingDigits(m: nat, q: nat, w: nat, u: nat)
    requires w >= 1 && Pow10(w - 1) <= m < Pow10(w) && q < Pow10(u)
    ensures Pow10(w + u - 1) <= m * Pow10(u) + q < Pow10(w + u)
  {
    Pow10Add(w - 1, u);
    Pow10Add(w, u);
    MulMonotone(Pow10(w - 1), m, Pow10(u));
    QuotientDominates(m, Pow10(w), Pow10(u), q);
  }

  /** A shorter counter always flattens to a smaller integer, whatever the ids' order. */
  lemma ShorterCounterIsSmaller(a: StreamId, b: StreamId)
    requires a.ms > 0 && b.ms > 0 && Width(a.ms) == Width(b.ms)
    requires Width(a.counter) < Width(b.counter)
    ensures Flatten(a) < Flatten(b)
  {
    FlattenBounds(a);
    FlattenBounds(b);
    Pow10Monotone(Width(a.ms) + Width(a.counter), Width(b.ms) + Width(b.counter) - 1);
  }

  lemma SameWidthOrder(a: StreamId, b: StreamId)
    requires Width(a.counter) == Width(b.counter)
    ensures Before(a, b) ==> Flatten(a) < Flatten(b)
  {
    if a.ms < b.ms {
      assert a.counter < Pow10(Width(a.counter)) by { DecBounds(a.counter); }
      QuotientDominates(a.ms, b.ms, Pow10(Width(a.counter)), a.counter);
    }
  }

  /** Flattening is injective on ids whose millisecond parts have one width. */
  lemma FlattenInjective(a: StreamId, b: StreamId)
    requires a.ms > 0 && b.ms > 0 && Width(a.ms) == Width(b.ms)
    ensures Flatten(a) == Flatten(b) <==> a == b
  {
    if Width(a.counter) < Width(b.counter) {
      ShorterCounterIsSmaller(a, b);
    } else if Width(b.counter) < Width(a.counter) {
      ShorterCounterIsSmaller(b, a);
    } else {
      SameWidthOrder(a, b);
      SameWidthOrder(b, a);
    }
  }

  /** Flattening keeps the order of two ids exactly when the later one's counter has at
      least as many digits. */
  lemma FlattenOrder(a: StreamId, b: StreamId)
    requires a.ms > 0 && b.ms > 0 && Width(a.ms) == Width(b.ms) && Before(a, b)
    ensures Flatten(a) < Flatten(b) <==> Width(a.counter) <= Width(b.counter)
  {
    if Width(a.counter) < Width(b.counter) {
      ShorterCounterIsSmaller(a, b);
    } else if Width(b.counter) < Width(a.counter) {
      ShorterCounterIsSmaller(b, a);
    } else {
      SameWidthOrder(a, b);
    }
  }

  /** With equal widths in both parts the integers sort as the stream does. */
  lemma EqualWidthsSortAlike(a: StreamId, b: StreamId)
    requires a.ms > 0 && b.ms > 0 && Width(a.ms) == Width(b.ms) && Width(a.counter) == Width(b.counter)
    ensures Before(a, b) <==> Flatten(a) < Flatten(b)
  {
    SameWidthOrder(a, b);
    SameWidthOrder(b, a);
  }

  /** Two ids one millisecond apart whose integers sort the other way round. */
  lemma OrderFailureWitness()
    ensures exists a: StreamId, b: StreamId ::
              a.ms > 0 && Width(a.ms) == Width(b.ms) && Before(a, b) && Flatten(b) < Flatten(a)
  {
    var a, b := StreamId(15, 10), StreamId(16, 0);
    assert Dec(15) == Dec(1) + "5" && Dec(16) == Dec(1) + "6" && Dec(10) == Dec(1) + "0";
    assert Pow10(0) == 1 && Pow10(1) == 10 && Pow10(2) == 100;
    assert Flatten(a) == 1510 && Flatten(b) == 160;
  }

  /** Two ids of different widths that flatten to one integer. */
  lemma CollisionWitness()
    ensures exists a: StreamId, b: StreamId :: a.ms > 0 && b.ms > 0 && a != b && Flatten(a) == Flatten(b)
  {
    var a, b := StreamId(1, 23), StreamId(12, 3);
    assert Dec(23) == Dec(2) + "3";
    assert Pow10(0) == 1 && Pow10(1) == 10 && Pow10(2) == 100;
    assert Flatten(a) == 123 && Flatten(b) == 123;
  }

  /** Redis reads a bare integer N as the id N-0. */
  function ReadAsId(n: nat): StreamId {
    StreamId(n, 0)
  }

  /** Acknowledging by the flattened integer names the entry itself only for id 0-0, which
      no stream holds. */
  lemma FlattenedIdNamesAnotherEntry(id: StreamId)
    ensures ReadAsId(Flatten(id)) == id <==> id == StreamId(0, 0)
  {
    if id.ms > 0 {
      assert Flatten(id) >= 10 * id.ms by {
        assert Width(id.counter) >= 1 by { DecBounds(id.counter); }
        assert Pow10(Width(id.counter)) == 10 * Pow10(Width(id.counter) - 1);
        TenTimes(id.ms, Pow10(Width(id.counter)));
      }
    }
  }

  lemma TenTimes(m: nat, p: nat)
    requires p >= 10
    ensures m * p >= 10 * m
  {
    MulMonotone(10, p, m);
  }
}
