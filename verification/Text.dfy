/** Decimal numerals, splitting and joining: what Python's `str`, `int`, `str.split`
    and `str.join` do on the strings that names and ids are built from. */
module Text {
  import opened Wrappers

  function Pow10(n: nat): (p: nat)
    ensures p > 0
  {
    if n == 0 then 1 else 10 * Pow10(n - 1)
  }

  /** `str(n)` of a natural number. */
  function Dec(n: nat): string {
    if n < 10 then [DigitChar(n)] else Dec(n / 10) + [DigitChar(n % 10)]
  }

  function DigitChar(d: nat): char
    requires d < 10
  {
    ('0' as int + d) as char
  }

  predicate IsDigits(s: string) {
    forall i | 0 <= i < |s| :: '0' <= s[i] <= '9'
  }

  function Value(s: string): nat
    requires IsDigits(s)
  {
    if s == [] then 0 else 10 * Value(s[..|s| - 1]) + (s[|s| - 1] as int - '0' as int)
  }

  /** `int(s)` on unsigned numerals; None is the ValueError. */
  function ParseNat(s: string): Option<nat> {
    if s != [] && IsDigits(s) then Some(Value(s)) else None
  }

  lemma {:induction false} DecRoundTrip(n: nat)
    ensures Dec(n) != [] && IsDigits(Dec(n)) && Value(Dec(n)) == n
  {
    if n >= 10 {
      DecRoundTrip(n / 10);
      assert Dec(n)[..|Dec(n)| - 1] == Dec(n / 10);
    } else {
      assert Dec(n)[..0] == [];
    }
  }

  lemma {:induction false} DecBounds(n: nat)
    ensures Dec(n) != []
    ensures n < Pow10(|Dec(n)|)
    ensures n > 0 ==> Pow10(|Dec(n)| - 1) <= n
  {
    if n >= 10 {
      DecBounds(n / 10);
      assert Pow10(|Dec(n)|) == 10 * Pow10(|Dec(n / 10)|);
    } else {
      assert Pow10(1) == 10 * Pow10(0);
    }
  }

  lemma {:induction false} ValueConcat(a: string, b: string)
    requires IsDigits(a) && IsDigits(b)
    ensures IsDigits(a + b) && Value(a + b) == Value(a) * Pow10(|b|) + Value(b)
  {
    if b == [] {
      assert a + b == a;
    } else {
      var b' := b[..|b| - 1];
      ValueConcat(a, b');
      assert (a + b)[..|a + b| - 1] == a + b';
      assert Value(a) * Pow10(|b|) == 10 * (Value(a) * Pow10(|b'|));
    }
  }

  lemma {:induction false} Pow10Monotone(m: nat, n: nat)
    requires m <= n
    ensures Pow10(m) <= Pow10(n)
    decreases n
  {
    if m < n {
      Pow10Monotone(m, n - 1);
    }
  }

  /** `s.split(c)` for a one-character separator. */
  function Split(s: string, c: char): (parts: seq<string>)
    ensures parts != []
  {
    if s == [] then [[]]
    else
      var rest := Split(s[1..], c);
      if s[0] == c then [[]] + rest else [[s[0]] + rest[0]] + rest[1..]
  }

  /** `c.join(parts)`. */
  function Join(parts: seq<string>, c: char): string
    requires parts != []
  {
    if |parts| == 1 then parts[0] else parts[0] + [c] + Join(parts[1..], c)
  }

  predicate Free(s: string, c: char) {
    c !in s
  }

  /** Splitting never leaves the separator inside a part. */
  lemma {:induction false} SplitFree(s: string, c: char)
    ensures forall i | 0 <= i < |Split(s, c)| :: Free(Split(s, c)[i], c)
  {
    if s != [] {
      SplitFree(s[1..], c);
      var rest := Split(s[1..], c);
      assert Free(rest[0], c);
    }
  }

  lemma {:induction false} SplitPrefix(p: string, rest: string, c: char)
    requires Free(p, c)
    ensures Split(p + [c] + rest, c) == [p] + Split(rest, c)
  {
    var s := p + [c] + rest;
    if p == [] {
      assert s[1..] == rest;
    } else {
      assert s[0] == p[0] && p[0] in p && s[1..] == p[1..] + [c] + rest;
      SplitPrefix(p[1..], rest, c);
      assert [p[0]] + p[1..] == p;
    }
  }

  lemma {:induction false} SplitWhole(p: string, c: char)
    requires Free(p, c)
    ensures Split(p, c) == [p]
  {
    if p != [] {
      assert p[0] in p;
      SplitWhole(p[1..], c);
      assert [p[0]] + p[1..] == p;
    }
  }

  /** Split inverts Join on exactly the lists of separator-free parts. */
  lemma {:induction false} SplitJoin(parts: seq<string>, c: char)
    requires parts != []
    ensures Split(Join(parts, c), c) == parts <==> forall i | 0 <= i < |parts| :: Free(parts[i], c)
  {
    if forall i | 0 <= i < |parts| :: Free(parts[i], c) {
      SplitJoinFree(parts, c);
    } else if Split(Join(parts, c), c) == parts {
      SplitFree(Join(parts, c), c);
    }
  }

  lemma {:induction false} SplitJoinFree(parts: seq<string>, c: char)
    requires parts != []
    requires forall i | 0 <= i < |parts| :: Free(parts[i], c)
    ensures Split(Join(parts, c), c) == parts
  {
    if |parts| == 1 {
      SplitWhole(parts[0], c);
    } else {
      SplitPrefix(parts[0], Join(parts[1..], c), c);
      SplitJoinFree(parts[1..], c);
    }
  }
}
