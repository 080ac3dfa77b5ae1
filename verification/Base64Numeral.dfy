/** The unpadded text of an integer, read as a number in base 64 over the literal alphabet of
    section 5 of RFC 4648: which symbols it has, and in which order, with no reference to how
    the groups are built. */
module Base64Numeral {
  import opened Wrappers
  import opened Base64Url

  const UPPER := "ABCDEFGHIJKLMNOPQRSTUVWXYZ"
  const LOWER := "abcdefghijklmnopqrstuvwxyz"
  const DIGITS := "0123456789"
  const ALPHABET := UPPER + LOWER + DIGITS + "-_"

  function Power(base: nat, n: nat): nat {
    if n == 0 then 1 else base * Power(base, n - 1)
  }

  /** The number that digits stand for, the most significant first. */
  function Value(digits: seq<nat>, base: nat): nat {
    if digits == [] then 0 else base * Value(digits[..|digits| - 1], base) + digits[|digits| - 1]
  }

  ghost predicate Spells(text: string, digits: seq<Sextet>) {
    |text| == |digits| && forall i | 0 <= i < |text| :: text[i] == ALPHABET[digits[i]]
  }

  /** The bits that fill up the last symbol are zero: they multiply by a power of two. */
  function Fill(length: nat): (k: nat)
    ensures k > 0
  {
    if length % 3 == 0 then 1 else if length % 3 == 1 then 16 else 4
  }

  lemma UpperLetter(x: nat)
    requires x < 26
    ensures |UPPER| == 26 && UPPER[x] == ('A' as int + x) as char
  {
    assert x in {0, 1, 2, 3, 4, 5, 6, 7, 8, 9, 10, 11, 12, 13, 14, 15, 16, 17, 18, 19, 20, 21, 22, 23, 24, 25};
  }

  lemma LowerLetter(x: nat)
    requires x < 26
    ensures |LOWER| == 26 && LOWER[x] == ('a' as int + x) as char
  {
    assert x in {0, 1, 2, 3, 4, 5, 6, 7, 8, 9, 10, 11, 12, 13, 14, 15, 16, 17, 18, 19, 20, 21, 22, 23, 24, 25};
  }

  lemma DigitLetter(x: nat)
    requires x < 10
    ensures |DIGITS| == 10 && DIGITS[x] == ('0' as int + x) as char
  {
    assert x in {0, 1, 2, 3, 4, 5, 6, 7, 8, 9};
  }

  lemma SymbolIsLetter(x: Sextet)
    ensures |ALPHABET| == 64 && Symbol(x) == ALPHABET[x]
  {
    UpperLetter(0);
    LowerLetter(0);
    DigitLetter(0);
    var upper, lower, digits := UPPER, LOWER, DIGITS;
    assert |upper| == 26 && |lower| == 26 && |digits| == 10;
    if x < 26 {
      UpperLetter(x);
    } else if x < 52 {
      LowerLetter(x - 26);
    } else if x < 62 {
      DigitLetter(x - 52);
    }
  }

  lemma {:induction false} ValueConcat(a: seq<nat>, b: seq<nat>, base: nat)
    ensures Value(a + b, base) == Value(a, base) * Power(base, |b|) + Value(b, base)
  {
    if b == [] {
      assert a + b == a;
    } else {
      var init := b[..|b| - 1];
      ValueConcat(a, init, base);
      assert (a + b)[..|a + b| - 1] == a + init;
      Distribute(base, Value(a, base), Power(base, |init|), Value(init, base));
    }
  }

  lemma Distribute(k: int, x: int, y: int, z: int)
    ensures k * (x * y + z) == x * (k * y) + k * z
  {
  }

  lemma {:induction false} PowerSum(base: nat, m: nat, n: nat)
    ensures Power(base, m + n) == Power(base, m) * Power(base, n)
  {
    if m > 0 {
      PowerSum(base, m - 1, n);
      Associate(base, Power(base, m - 1), Power(base, n));
    }
  }

  lemma SmallPowers()
    ensures Power(64, 0) == 1 && Power(64, 2) == 4096 && Power(64, 3) == 262144 && Power(64, 4) == 16777216
    ensures Power(256, 0) == 1 && Power(256, 1) == 256 && Power(256, 2) == 65536 && Power(256, 3) == 16777216
  {
    assert Power(64, 1) == 64;
  }

  lemma ValueAppended(digits: seq<nat>, d: nat, base: nat)
    ensures Value(digits + [d], base) == base * Value(digits, base) + d
  {
    assert (digits + [d])[..|digits + [d]| - 1] == digits;
  }

  lemma NoDigits()
    ensures Value([], 64) == 0 && Value([], 256) == 0
  {
  }

  lemma ShortValues(a: nat, b: nat, c: nat, d: nat, base: nat)
    ensures Value([a], base) == a
    ensures Value([a, b], base) == base * a + b
    ensures Value([a, b, c], base) == base * (base * a + b) + c
    ensures Value([a, b, c, d], base) == base * (base * (base * a + b) + c) + d
  {
    assert Value([], base) == 0;
    hide Value;
    ValueAppended([], a, base);
    ValueAppended([a], b, base);
    ValueAppended([a, b], c, base);
    ValueAppended([a, b, c], d, base);
    assert [] + [a] == [a] && [a] + [b] == [a, b] && [a, b] + [c] == [a, b, c] && [a, b, c] + [d] == [a, b, c, d];
  }

  /** Three bytes and their four symbols are one number. */
  lemma GroupValue(x: Byte, y: Byte, z: Byte) returns (digits: seq<Sextet>)
    ensures digits == [x / 4, x % 4 * 16 + y / 16, y % 16 * 4 + z / 64, z % 64]
    ensures Value(digits, 64) == Value([x, y, z], 256)
  {
    var a, b, c, d := x / 4, x % 4 * 16 + y / 16, y % 16 * 4 + z / 64, z % 64;
    digits := [a, b, c, d];
    ShortValues(a, b, c, d, 64);
    ShortValues(x, y, z, 0, 256);
    hide Value;
  }

  /** The text `text` spells `digits`, whose number is that of the bytes times the fill. */
  ghost predicate Numeral(bytes: seq<Byte>, text: string, digits: seq<Sextet>) {
    && Encode(bytes) == text + seq(PaddingOf(|bytes|), _ => PAD)
    && Spells(text, digits)
    && Value(digits, 64) == Value(bytes, 256) * Fill(|bytes|)
    && Power(64, |digits|) == Power(256, |bytes|) * Fill(|bytes|)
  }

  lemma SpelledSymbols(digits: seq<Sextet>) returns (text: string)
    ensures Spells(text, digits) && |text| == |digits|
    ensures forall i | 0 <= i < |digits| :: text[i] == Symbol(digits[i])
  {
    text := seq(|digits|, i requires 0 <= i < |digits| => Symbol(digits[i]));
    forall i | 0 <= i < |digits|
      ensures text[i] == ALPHABET[digits[i]]
    {
      SymbolIsLetter(digits[i]);
    }
  }

  lemma LastNumeral(bytes: seq<Byte>) returns (text: string, digits: seq<Sextet>)
    requires |bytes| <= 2
    ensures Numeral(bytes, text, digits)
  {
    SmallPowers();
    hide Value;
    hide ALPHABET;
    if bytes == [] {
      assert Value([], 64) == Value([], 256) by { NoDigits(); }
      text, digits := [], [];
    } else if |bytes| == 1 {
      digits := [bytes[0] / 4, bytes[0] % 4 * 16];
      text := SpelledSymbols(digits);
      ShortValues(digits[0], digits[1], 0, 0, 64);
      ShortValues(bytes[0], 0, 0, 0, 256);
      assert digits == [digits[0], digits[1]] && bytes == [bytes[0]];
    } else {
      digits := [bytes[0] / 4, bytes[0] % 4 * 16 + bytes[1] / 16, bytes[1] % 16 * 4];
      text := SpelledSymbols(digits);
      ShortValues(digits[0], digits[1], digits[2], 0, 64);
      ShortValues(bytes[0], bytes[1], 0, 0, 256);
      assert digits == [digits[0], digits[1], digits[2]] && bytes == [bytes[0], bytes[1]];
    }
  }

  lemma SpellsConcat(a: string, b: string, x: seq<Sextet>, y: seq<Sextet>)
    requires Spells(a, x) && Spells(b, y)
    ensures Spells(a + b, x + y)
  {
    hide ALPHABET;
  }

  lemma FillRepeats(n: nat)
    requires n >= 3
    ensures Fill(n) == Fill(n - 3) && PaddingOf(n) == PaddingOf(n - 3)
  {
  }

  lemma ThreeMore(front: nat, rest: nat, p: nat, q: nat, f: nat)
    requires q == p * f
    ensures front * q + rest * f == (front * p + rest) * f
  {
  }

  lemma {:induction false} EncodeIsNumeral(bytes: seq<Byte>) returns (text: string, digits: seq<Sextet>)
    ensures Numeral(bytes, text, digits)
    decreases |bytes|
  {
    hide Spells;
    hide Fill;
    hide PaddingOf;
    hide Power;
    hide Value;
    if |bytes| <= 2 {
      text, digits := LastNumeral(bytes);
    } else {
      var m := |bytes| - 3;
      var tail, rest := EncodeIsNumeral(bytes[3..]);
      var group := GroupValue(bytes[0], bytes[1], bytes[2]);
      var front := SpelledSymbols(group);
      text, digits := front + tail, group + rest;
      assert bytes == [bytes[0], bytes[1], bytes[2]] + bytes[3..];
      NumeralGrows(bytes[0], bytes[1], bytes[2], bytes[3..], front, tail, group, rest);
    }
  }

  lemma NumeralGrows(
      x: Byte, y: Byte, z: Byte, bytes: seq<Byte>, front: string, tail: string, group: seq<Sextet>, rest: seq<Sextet>)
    requires Numeral(bytes, tail, rest) && Spells(front, group) && |front| == 4
    requires group == [x / 4, x % 4 * 16 + y / 16, y % 16 * 4 + z / 64, z % 64] && Value(group, 64) == Value([x, y, z], 256)
    requires forall i | 0 <= i < 4 :: front[i] == Symbol(group[i])
    ensures Numeral([x, y, z] + bytes, front + tail, group + rest)
  {
    hide Spells;
    hide Fill;
    hide PaddingOf;
    hide Power;
    hide Value;
    hide Symbol;
    var m := |bytes|;
    FillRepeats(m + 3);
    SpellsConcat(front, tail, group, rest);
    assert Encode([x, y, z] + bytes) == front + tail + seq(PaddingOf(m), _ => PAD) by {
      assert ([x, y, z] + bytes)[3..] == bytes;
      assert front == [front[0], front[1], front[2], front[3]];
      assert Encode([x, y, z] + bytes) == front + Encode(bytes);
    }
    hide Encode;
    ValueGrows(group, rest, [x, y, z], bytes);
  }

  lemma ValueGrows(group: seq<nat>, rest: seq<nat>, front: seq<nat>, bytes: seq<nat>)
    requires |group| == 4 && |front| == 3 && Value(group, 64) == Value(front, 256)
    requires Value(rest, 64) == Value(bytes, 256) * Fill(|bytes|) && Power(64, |rest|) == Power(256, |bytes|) * Fill(|bytes|)
    ensures Value(group + rest, 64) == Value(front + bytes, 256) * Fill(|bytes|)
    ensures Power(64, |group + rest|) == Power(256, |front + bytes|) * Fill(|bytes|)
  {
    hide Fill;
    hide Power;
    hide Value;
    var m, f := |bytes|, Fill(|bytes|);
    ValueConcat(group, rest, 64);
    ValueConcat(front, bytes, 256);
    ThreeMore(Value(group, 64), Value(bytes, 256), Power(256, m), Power(64, |rest|), f);
    PowerGrows(m, |rest|, f);
  }

  lemma PowerGrows(m: nat, n: nat, f: nat)
    requires Power(64, n) == Power(256, m) * f
    ensures Power(64, 4 + n) == Power(256, 3 + m) * f
  {
    SmallPowers();
    hide Power;
    PowerSum(64, 4, n);
    PowerSum(256, 3, m);
    Associate(16777216, Power(256, m), f);
  }

  lemma Associate(a: nat, b: nat, c: nat)
    ensures a * (b * c) == (a * b) * c
  {
  }

  lemma {:induction false} BytesValue(bytes: seq<Byte>)
    ensures FromBytes(bytes) == Value(bytes, 256)
  {
    if bytes != [] {
      BytesValue(bytes[..|bytes| - 1]);
    }
  }

  lemma SpelledIsUnpadded(text: string, digits: seq<Sextet>)
    requires Spells(text, digits)
    ensures PAD !in text
  {
    SymbolsAreNotPads();
    forall i | 0 <= i < |text|
      ensures text[i] != PAD
    {
      SymbolIsLetter(digits[i]);
    }
  }

  /** The text of an integer is its numeral in base 64, filled up with zero bits: `length`
      bytes take (4 * length + 2) / 3 symbols. */
  lemma TextIsNumeral(n: nat, length: nat) returns (digits: seq<Sextet>)
    requires ToBase64Url(n, length).Some?
    ensures Spells(ToBase64Url(n, length).value, digits)
    ensures Value(digits, 64) == n * Fill(length)
    ensures |digits| == (4 * length + 2) / 3
  {
    RoundTrip(n, length);
    var bytes := BigEndian(n, length);
    var text;
    text, digits := EncodeIsNumeral(bytes);
    SpelledIsUnpadded(text, digits);
    StripBody(text, PaddingOf(length));
    BytesRoundTrip(n, length);
    BytesValue(bytes);
    EncodedLength(bytes);
    hide Spells;
    hide Fill;
  }

  lemma LetterIsInjective(x: Sextet, y: Sextet)
    requires ALPHABET[x] == ALPHABET[y]
    ensures x == y
  {
    SymbolIsLetter(x);
    SymbolIsLetter(y);
    SymbolRoundTrip(x);
    SymbolRoundTrip(y);
  }

  lemma {:induction false} DigitsOfValue(x: seq<Sextet>, y: seq<Sextet>)
    requires |x| == |y| && Value(x, 64) == Value(y, 64)
    ensures x == y
  {
    if x != [] {
      var n := |x| - 1;
      assert x[n] == y[n] && Value(x[..n], 64) == Value(y[..n], 64);
      DigitsOfValue(x[..n], y[..n]);
      assert x == x[..n] + [x[n]] && y == y[..n] + [y[n]];
    }
  }

  /** That is one text only: any text of so many letters with that value is the encoding. */
  lemma NumeralIsUnique(n: nat, length: nat, text: string, digits: seq<Sextet>)
    requires ToBase64Url(n, length).Some?
    requires Spells(text, digits) && |digits| == (4 * length + 2) / 3 && Value(digits, 64) == n * Fill(length)
    ensures text == ToBase64Url(n, length).value
  {
    var others := TextIsNumeral(n, length);
    hide ToBase64Url;
    hide Value;
    hide ALPHABET;
    DigitsOfValue(digits, others);
  }

  // ----------------------------------------------------------------------------- decoding

  /** What four letters more in front of a text do to its bytes. */
  function Spare(letters: nat): (k: nat)
    ensures k > 0
  {
    if letters % 4 == 2 then 16 else if letters % 4 == 3 then 4 else 1
  }

  function Pads(letters: nat): string {
    seq((4 - letters % 4) % 4, _ => PAD)
  }

  /** The padded text decodes to the number of its letters without the spare bits; a single
      letter in the last group is refused. */
  ghost predicate Reads(digits: seq<Sextet>, bytes: Option<seq<Byte>>) {
    if |digits| % 4 == 1 then bytes == None
    else
      && bytes.Some? && Value(bytes.value, 256) == Value(digits, 64) / Spare(|digits|)
      && Power(64, |digits|) == Power(256, |bytes.value|) * Spare(|digits|)
  }

  lemma LetterValue(c: char, x: Sextet)
    requires c == ALPHABET[x]
    ensures SymbolValue(c) == Some(x) && c != PAD
  {
    SymbolIsLetter(x);
    SymbolRoundTrip(x);
  }

  lemma LetterValues(text: string, digits: seq<Sextet>)
    requires Spells(text, digits)
    ensures forall i | 0 <= i < |text| :: SymbolValue(text[i]) == Some(digits[i]) && text[i] != PAD
  {
    hide ALPHABET;
    hide SymbolValue;
    forall i | 0 <= i < |text|
      ensures SymbolValue(text[i]) == Some(digits[i]) && text[i] != PAD
    {
      LetterValue(text[i], digits[i]);
    }
  }

  lemma DecodeOne(a: char)
    ensures Decode([a, PAD, PAD, PAD]) == None
  {
  }

  lemma DecodeTwo(x: char, y: char, a: Sextet, b: Sextet)
    requires SymbolValue(x) == Some(a) && SymbolValue(y) == Some(b)
    ensures a * 4 + b / 16 < 256 && Decode([x, y, PAD, PAD]) == Some([a * 4 + b / 16])
  {
    hide SymbolValue;
  }

  lemma DecodeThree(x: char, y: char, z: char, a: Sextet, b: Sextet, c: Sextet)
    requires SymbolValue(x) == Some(a) && SymbolValue(y) == Some(b) && SymbolValue(z) == Some(c) && z != PAD
    ensures a * 4 + b / 16 < 256 && b % 16 * 16 + c / 4 < 256
    ensures Decode([x, y, z, PAD]) == Some([a * 4 + b / 16, b % 16 * 16 + c / 4])
  {
    hide SymbolValue;
  }

  lemma ReadsNothing()
    ensures Reads([], Decode([]))
  {
  }

  lemma ReadsOne(a: Sextet)
    ensures Reads([a], None)
  {
  }

  lemma ReadsTwo(a: Sextet, b: Sextet)
    requires a * 4 + b / 16 < 256
    ensures Reads([a, b], Some([a * 4 + b / 16]))
  {
    SmallPowers();
    ShortValues(a, b, 0, 0, 64);
    ShortValues(a * 4 + b / 16, 0, 0, 0, 256);
    hide Value;
    hide Power;
    assert (64 * a + b) / 16 == 4 * a + b / 16;
  }

  lemma ReadsThree(a: Sextet, b: Sextet, c: Sextet)
    requires a * 4 + b / 16 < 256 && b % 16 * 16 + c / 4 < 256
    ensures Reads([a, b, c], Some([a * 4 + b / 16, b % 16 * 16 + c / 4]))
  {
    SmallPowers();
    ShortValues(a, b, c, 0, 64);
    ShortValues(a * 4 + b / 16, b % 16 * 16 + c / 4, 0, 0, 256);
    hide Value;
    hide Power;
    TwoBytes(a, b, c);
    assert Value([a, b, c], 64) / 4 == Value([a * 4 + b / 16, b % 16 * 16 + c / 4], 256);
  }

  lemma ReadsShort(text: string, digits: seq<Sextet>)
    requires Spells(text, digits) && |text| <= 3
    ensures Reads(digits, Decode(text + Pads(|text|)))
  {
    hide Value;
    hide ALPHABET;
    hide Decode;
    hide SymbolValue;
    hide Reads;
    LetterValues(text, digits);
    if |text| == 1 {
      assert text + Pads(1) == [text[0], PAD, PAD, PAD];
      DecodeOne(text[0]);
      ReadsOne(digits[0]);
      assert digits == [digits[0]];
    } else if |text| == 2 {
      assert text + Pads(2) == [text[0], text[1], PAD, PAD] && digits == [digits[0], digits[1]];
      DecodeTwo(text[0], text[1], digits[0], digits[1]);
      ReadsTwo(digits[0], digits[1]);
    } else if |text| == 3 {
      assert text + Pads(3) == [text[0], text[1], text[2], PAD] && digits == [digits[0], digits[1], digits[2]];
      DecodeThree(text[0], text[1], text[2], digits[0], digits[1], digits[2]);
      ReadsThree(digits[0], digits[1], digits[2]);
    } else {
      assert text + Pads(0) == [] && digits == [];
      ReadsNothing();
    }
  }

  lemma TwoBytes(a: Sextet, b: Sextet, c: Sextet)
    ensures (64 * (64 * a + b) + c) / 4 == 256 * (a * 4 + b / 16) + (b % 16 * 16 + c / 4)
  {
    assert b == 16 * (b / 16) + b % 16;
  }

  lemma ThreeBytes(a: Sextet, b: Sextet, c: Sextet, d: Sextet)
    ensures Value([a, b, c, d], 64) == Value(Group(a, b, c, d), 256)
  {
    hide Value;
    var p, q, r, t := b / 16, b % 16, c / 4, c % 4;
    GroupIs(a, b, c, d, p, q, r, t);
    FourDigits(a, b, c, d, 64);
    FourDigits(0, a * 4 + p, q * 16 + r, t * 64 + d, 256);
    hide Group;
    Regrouped(a, b, c, d, p, q, r, t);
  }

  lemma GroupIs(a: Sextet, b: Sextet, c: Sextet, d: Sextet, p: nat, q: nat, r: nat, t: nat)
    requires p == b / 16 && q == b % 16 && r == c / 4 && t == c % 4
    ensures Group(a, b, c, d) == [a * 4 + p, q * 16 + r, t * 64 + d]
    ensures b == 16 * p + q && c == 4 * r + t
  {
    GroupFits(a, b, c, d);
  }

  lemma FourDigits(a: nat, b: nat, c: nat, d: nat, base: nat)
    ensures Value([a, b, c, d], base) == base * (base * (base * a + b) + c) + d
    ensures Value([b, c, d], base) == base * (base * b + c) + d
  {
    hide Value;
    ShortValues(a, b, c, d, base);
    ShortValues(b, c, d, 0, base);
  }

  lemma Regrouped(a: nat, b: nat, c: nat, d: nat, p: nat, q: nat, r: nat, t: nat)
    requires b == 16 * p + q && c == 4 * r + t
    ensures 64 * (64 * (64 * a + b) + c) + d == 256 * (256 * (a * 4 + p) + (q * 16 + r)) + (t * 64 + d)
  {
  }

  lemma DecodeFourFails(text: string)
    requires |text| >= 4 && text[2] != PAD && text[3] != PAD && Decode(text[4..]) == None
    ensures Decode(text) == None
  {
    hide SymbolValue;
  }

  lemma SparesCut(front: nat, p: nat, q: nat, f: nat, rest: nat, tail: nat)
    requires f > 0 && q == p * f && tail == rest / f
    ensures (front * q + rest) / f == front * p + tail
  {
    ThreeMore(front, 0, p, q, f);
    DivideShifted(front * p, rest, f);
  }

  lemma DivideShifted(a: nat, rest: nat, f: nat)
    requires f > 0
    ensures (a * f + rest) / f == a + rest / f
  {
    var q, r := rest / f, rest % f;
    assert rest == q * f + r;
    assert a * f + rest == (a + q) * f + r;
    Quotient(a + q, f, r);
  }

  lemma Quotient(q: nat, f: nat, r: nat)
    requires r < f
    ensures (q * f + r) / f == q
  {
    var x := q * f + r;
    assert x == (x / f) * f + x % f;
    NextMultiple(x / f, q, f);
    NextMultiple(q, x / f, f);
  }

  lemma {:induction false} NextMultiple(a: nat, b: nat, f: nat)
    ensures a > b ==> a * f >= b * f + f
  {
    if a > b {
      NextMultiple(a - 1, b, f);
      assert a * f == (a - 1) * f + f;
    }
  }

  lemma ReadsGroup(front: seq<Sextet>, digits: seq<Sextet>, group: seq<Byte>, bytes: Option<seq<Byte>>)
    requires |front| == 4 && |group| == 3 && Value(front, 64) == Value(group, 256) && Reads(digits, bytes)
    ensures Reads(front + digits, if bytes.Some? then Some(group + bytes.value) else None)
  {
    hide Value;
    hide Power;
    assert |front + digits| % 4 == |digits| % 4;
    if bytes.Some? {
      var f, m := Spare(|digits|), |bytes.value|;
      assert Spare(|front + digits|) == f;
      hide Spare;
      ValueConcat(front, digits, 64);
      ValueConcat(group, bytes.value, 256);
      SparesCut(Value(front, 64), Power(256, m), Power(64, |digits|), f, Value(digits, 64), Value(bytes.value, 256));
      PowerGrows(m, |digits|, f);
    }
  }

  lemma {:induction false} DecodeReads(text: string, digits: seq<Sextet>)
    requires Spells(text, digits)
    ensures Reads(digits, Decode(text + Pads(|text|)))
    decreases |text|
  {
    hide Reads;
    hide Decode;
    hide Value;
    hide SymbolValue;
    if |text| <= 3 {
      ReadsShort(text, digits);
    } else {
      var whole := text + Pads(|text|);
      var front, rest := digits[..4], digits[4..];
      LetterValues(text, digits);
      hide ALPHABET;
      DecodeReads(text[4..], rest);
      assert whole[4..] == text[4..] + Pads(|text[4..]|);
      var bytes := Decode(whole[4..]);
      assert front == [front[0], front[1], front[2], front[3]];
      ThreeBytes(front[0], front[1], front[2], front[3]);
      if bytes == None {
        DecodeFourFails(whole);
      } else {
        DecodeFour(whole, front[0], front[1], front[2], front[3], bytes.value);
      }
      ReadsGroup(front, rest, Group(front[0], front[1], front[2], front[3]), bytes);
      assert digits == front + rest;
    }
  }

  /** Any text of letters, canonical or not, is read as its number in base 64 without the spare
      low bits of the last letter, unless the last group has a single letter. */
  lemma TextIsRead(text: string, digits: seq<Sextet>)
    requires Spells(text, digits)
    ensures FromBase64Url(text) == if |text| % 4 == 1 then None else Some(Value(digits, 64) / Spare(|text|))
  {
    DecodeReads(text, digits);
    hide Decode;
    hide Value;
    hide ALPHABET;
    if |text| % 4 != 1 {
      BytesValue(Decode(RestorePadding(text)).value);
    }
  }
}
