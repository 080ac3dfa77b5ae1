/** to_base64url and from_base64url (auxillary/utils.py): unpadded URL-safe base64 of a
    fixed-width big-endian integer, section 5 of RFC 4648. */
module Base64Url {
  import opened Wrappers

  type Byte = b: nat | b < 256
  type Sextet = x: nat | x < 64

  function Pow256(n: nat): (p: nat)
    ensures p > 0
  {
    if n == 0 then 1 else 256 * Pow256(n - 1)
  }

  /** `n.to_bytes(length, byteorder="big")`; None is the OverflowError. */
  function ToBytes(n: int, length: nat): Option<seq<Byte>> {
    if 0 <= n < Pow256(length) then Some(BigEndian(n, length)) else None
  }

  function BigEndian(n: nat, length: nat): (bytes: seq<Byte>)
    ensures |bytes| == length
  {
    if length == 0 then [] else BigEndian(n / 256, length - 1) + [n % 256]
  }

  /** `int.from_bytes(bytes, byteorder="big")`. */
  function FromBytes(bytes: seq<Byte>): nat {
    if bytes == [] then 0 else 256 * FromBytes(bytes[..|bytes| - 1]) + bytes[|bytes| - 1]
  }

  const PAD := '='

  function Symbol(x: Sextet): char {
    if x < 26 then ('A' as int + x) as char
    else if x < 52 then ('a' as int + x - 26) as char
    else if x < 62 then ('0' as int + x - 52) as char
    else if x == 62 then '-'
    else '_'
  }

  function SymbolValue(c: char): Option<Sextet> {
    if 'A' <= c <= 'Z' then Some(c as int - 'A' as int)
    else if 'a' <= c <= 'z' then Some(c as int - 'a' as int + 26)
    else if '0' <= c <= '9' then Some(c as int - '0' as int + 52)
    else if c == '-' then Some(62)
    else if c == '_' then Some(63)
    else None
  }

  /** base64.urlsafe_b64encode: groups of three bytes, the last one padded to four symbols. */
  function Encode(bytes: seq<Byte>): (text: string)
    ensures |text| % 4 == 0
  {
    if bytes == [] then []
    else if |bytes| == 1 then
      [Symbol(bytes[0] / 4), Symbol(bytes[0] % 4 * 16), PAD, PAD]
    else if |bytes| == 2 then
      [Symbol(bytes[0] / 4), Symbol(bytes[0] % 4 * 16 + bytes[1] / 16), Symbol(bytes[1] % 16 * 4), PAD]
    else
      [Symbol(bytes[0] / 4), Symbol(bytes[0] % 4 * 16 + bytes[1] / 16),
       Symbol(bytes[1] % 16 * 4 + bytes[2] / 64), Symbol(bytes[2] % 64)] + Encode(bytes[3..])
  }

  /** base64.urlsafe_b64decode on padded text; None is the error for wrong length, wrong
      padding or a foreign symbol. */
  function Decode(text: string): Option<seq<Byte>> {
    if text == [] then Some([])
    else if |text| < 4 then None
    else
      var a, b := SymbolValue(text[0]), SymbolValue(text[1]);
      if a == None || b == None then None
      else if text[2] == PAD then
        if text[3] == PAD && |text| == 4 then Some([a.value * 4 + b.value / 16]) else None
      else
        var c := SymbolValue(text[2]);
        if c == None then None
        else if text[3] == PAD then
          if |text| == 4 then Some([a.value * 4 + b.value / 16, b.value % 16 * 16 + c.value / 4]) else None
        else
          var d := SymbolValue(text[3]);
          if d == None then None
          else
            match Decode(text[4..])
            case None => None
            case Some(rest) =>
              Some([a.value * 4 + b.value / 16, b.value % 16 * 16 + c.value / 4, c.value % 4 * 64 + d.value] + rest)
  }

  /** `text.rstrip(b"=")`. */
  function StripPadding(text: string): string {
    if text != [] && text[|text| - 1] == PAD then StripPadding(text[..|text| - 1]) else text
  }

  /** `text + "=" * ((4 - len(text) % 4) % 4)`. */
  function RestorePadding(text: string): string {
    text + seq((4 - |text| % 4) % 4, _ => PAD)
  }

  function ToBase64Url(n: int, length: nat): Option<string> {
    match ToBytes(n, length)
    case None => None
    case Some(bytes) => Some(StripPadding(Encode(bytes)))
  }

  function FromBase64Url(text: string): Option<nat> {
    match Decode(RestorePadding(text))
    case None => None
    case Some(bytes) => Some(FromBytes(bytes))
  }

  lemma {:induction false} BytesRoundTrip(n: nat, length: nat)
    requires n < Pow256(length)
    ensures FromBytes(BigEndian(n, length)) == n
  {
    if length > 0 {
      BytesRoundTrip(n / 256, length - 1);
      var bytes := BigEndian(n, length);
      assert bytes[..length - 1] == BigEndian(n / 256, length - 1);
    }
  }

  lemma SymbolRoundTrip(x: Sextet)
    ensures SymbolValue(Symbol(x)) == Some(x) && Symbol(x) != PAD
  {
  }

  /** The bits of a group survive the move from three bytes to four sextets and back. */
  lemma Regroup(x: Byte, y: Byte, z: Byte)
    ensures x / 4 * 4 + (x % 4 * 16 + y / 16) / 16 == x
    ensures (x % 4 * 16 + y / 16) % 16 * 16 + (y % 16 * 4 + z / 64) / 4 == y
    ensures (y % 16 * 4 + z / 64) % 4 * 64 + z % 64 == z
  {
  }

  lemma GroupFits(a: Sextet, b: Sextet, c: Sextet, d: Sextet)
    ensures a * 4 + b / 16 < 256 && b % 16 * 16 + c / 4 < 256 && c % 4 * 64 + d < 256
  {
  }

  function Group(a: Sextet, b: Sextet, c: Sextet, d: Sextet): seq<Byte> {
    GroupFits(a, b, c, d);
    [a * 4 + b / 16, b % 16 * 16 + c / 4, c % 4 * 64 + d]
  }

  /** One unpadded group in front of a text that decodes. */
  lemma DecodeFour(text: string, a: Sextet, b: Sextet, c: Sextet, d: Sextet, tail: seq<Byte>)
    requires |text| >= 4 && text[2] != PAD && text[3] != PAD
    requires SymbolValue(text[0]) == Some(a) && SymbolValue(text[1]) == Some(b)
    requires SymbolValue(text[2]) == Some(c) && SymbolValue(text[3]) == Some(d)
    requires Decode(text[4..]) == Some(tail)
    ensures Decode(text) == Some(Group(a, b, c, d) + tail)
  {
    hide SymbolValue;
    GroupFits(a, b, c, d);
  }

  lemma DecodeGroup(a: Sextet, b: Sextet, c: Sextet, d: Sextet, rest: string, tail: seq<Byte>)
    requires Decode(rest) == Some(tail)
    ensures Decode([Symbol(a), Symbol(b), Symbol(c), Symbol(d)] + rest) == Some(Group(a, b, c, d) + tail)
  {
    SymbolRoundTrip(a);
    SymbolRoundTrip(b);
    SymbolRoundTrip(c);
    SymbolRoundTrip(d);
    hide Decode;
    hide Symbol;
    hide SymbolValue;
    hide Group;
    var text := [Symbol(a), Symbol(b), Symbol(c), Symbol(d)] + rest;
    assert text[4..] == rest;
    DecodeFour(text, a, b, c, d, tail);
  }

  lemma DecodePaddedTwice(a: Sextet, b: Sextet)
    ensures a * 4 + b / 16 < 256
    ensures Decode([Symbol(a), Symbol(b), PAD, PAD]) == Some([a * 4 + b / 16])
  {
    SymbolRoundTrip(a);
    SymbolRoundTrip(b);
  }

  lemma DecodePaddedOnce(a: Sextet, b: Sextet, c: Sextet)
    ensures a * 4 + b / 16 < 256 && b % 16 * 16 + c / 4 < 256
    ensures Decode([Symbol(a), Symbol(b), Symbol(c), PAD]) == Some([a * 4 + b / 16, b % 16 * 16 + c / 4])
  {
    SymbolRoundTrip(a);
    SymbolRoundTrip(b);
    SymbolRoundTrip(c);
  }

  lemma RoundTripEmpty()
    ensures Decode(Encode([])) == Some([])
  {
  }

  lemma RoundTripOne(x: Byte)
    ensures Decode(Encode([x])) == Some([x])
  {
    DecodePaddedTwice(x / 4, x % 4 * 16);
    Regroup(x, 0, 0);
  }

  lemma RoundTripTwo(x: Byte, y: Byte)
    ensures Decode(Encode([x, y])) == Some([x, y])
  {
    DecodePaddedOnce(x / 4, x % 4 * 16 + y / 16, y % 16 * 4);
    Regroup(x, y, 0);
  }

  lemma EncodeGroup(x: Byte, y: Byte, z: Byte, rest: seq<Byte>)
    returns (a: Sextet, b: Sextet, c: Sextet, d: Sextet)
    ensures Encode([x, y, z] + rest) == [Symbol(a), Symbol(b), Symbol(c), Symbol(d)] + Encode(rest)
    ensures x == a * 4 + b / 16 && y == b % 16 * 16 + c / 4 && z == c % 4 * 64 + d
  {
    a, b, c, d := x / 4, x % 4 * 16 + y / 16, y % 16 * 4 + z / 64, z % 64;
    Regroup(x, y, z);
    assert ([x, y, z] + rest)[3..] == rest;
  }

  lemma RoundTripGroup(x: Byte, y: Byte, z: Byte, rest: seq<Byte>)
    requires Decode(Encode(rest)) == Some(rest)
    ensures Decode(Encode([x, y, z] + rest)) == Some([x, y, z] + rest)
  {
    hide Encode;
    hide Decode;
    var a, b, c, d := EncodeGroup(x, y, z, rest);
    DecodeGroup(a, b, c, d, Encode(rest), rest);
  }

  /** Decoding undoes encoding on every byte sequence. */
  lemma {:induction false} DecodeEncode(bytes: seq<Byte>)
    ensures Decode(Encode(bytes)) == Some(bytes)
    decreases |bytes|
  {
    hide Encode;
    hide Decode;
    if bytes == [] {
      RoundTripEmpty();
    } else if |bytes| == 1 {
      RoundTripOne(bytes[0]);
      assert bytes == [bytes[0]];
    } else if |bytes| == 2 {
      RoundTripTwo(bytes[0], bytes[1]);
      assert bytes == [bytes[0], bytes[1]];
    } else {
      DecodeEncode(bytes[3..]);
      RoundTripGroup(bytes[0], bytes[1], bytes[2], bytes[3..]);
      assert bytes == [bytes[0], bytes[1], bytes[2]] + bytes[3..];
    }
  }

  function PaddingOf(length: nat): nat {
    (3 - length % 3) % 3
  }

  lemma PaddingRepeats(length: nat)
    requires length >= 3
    ensures PaddingOf(length) == PaddingOf(length - 3)
  {
  }

  lemma SymbolsAreNotPads()
    ensures forall x: Sextet :: Symbol(x) != PAD
  {
  }

  /** The encoding is unpadded symbols followed by as many pads as the length calls for. */
  lemma {:induction false} EncodeShape(bytes: seq<Byte>) returns (body: string)
    ensures Encode(bytes) == body + seq(PaddingOf(|bytes|), _ => PAD)
    ensures PAD !in body
    decreases |bytes|
  {
    hide PaddingOf;
    if |bytes| <= 2 {
      body := LastGroupShape(bytes);
    } else {
      var rest := EncodeShape(bytes[3..]);
      var group := Encode(bytes)[..4];
      assert PAD !in group by {
        SymbolsAreNotPads();
      }
      body := group + rest;
      assert Encode(bytes) == group + Encode(bytes[3..]);
      PaddingRepeats(|bytes|);
    }
  }

  lemma LastGroupShape(bytes: seq<Byte>) returns (body: string)
    requires |bytes| <= 2
    ensures Encode(bytes) == body + seq(PaddingOf(|bytes|), _ => PAD)
    ensures PAD !in body
  {
    SymbolsAreNotPads();
    if bytes == [] {
      body := [];
    } else if |bytes| == 1 {
      body := [Symbol(bytes[0] / 4), Symbol(bytes[0] % 4 * 16)];
    } else {
      body := [Symbol(bytes[0] / 4), Symbol(bytes[0] % 4 * 16 + bytes[1] / 16), Symbol(bytes[1] % 16 * 4)];
    }
  }

  lemma {:induction false} StripBody(body: string, pads: nat)
    requires PAD !in body
    ensures StripPadding(body + seq(pads, _ => PAD)) == body
  {
    var text := body + seq(pads, _ => PAD);
    if pads == 0 {
      assert text == body;
    } else {
      assert text[..|text| - 1] == body + seq(pads - 1, _ => PAD);
      StripBody(body, pads - 1);
    }
  }

  /** The padding formula restores exactly the characters that were stripped. */
  lemma RestoreUndoesStrip(bytes: seq<Byte>)
    ensures RestorePadding(StripPadding(Encode(bytes))) == Encode(bytes)
  {
    hide Encode;
    hide StripPadding;
    var body := EncodeShape(bytes);
    StripBody(body, PaddingOf(|bytes|));
  }

  /** Round trip of every representable integer at every width; anything else is refused. */
  lemma RoundTrip(n: int, length: nat)
    ensures ToBase64Url(n, length).Some? <==> 0 <= n < Pow256(length)
    ensures 0 <= n < Pow256(length) ==> FromBase64Url(ToBase64Url(n, length).value) == Some(n)
  {
    if 0 <= n < Pow256(length) {
      var bytes := BigEndian(n, length);
      RestoreUndoesStrip(bytes);
      DecodeEncode(bytes);
      BytesRoundTrip(n, length);
    }
  }

  /** Unpadded length: eight bits per byte, six per symbol, rounded up. */
  lemma {:induction false} EncodedLength(bytes: seq<Byte>)
    ensures |StripPadding(Encode(bytes))| == (4 * |bytes| + 2) / 3
  {
    hide Encode;
    hide StripPadding;
    hide PaddingOf;
    var body := EncodeShape(bytes);
    StripBody(body, PaddingOf(|bytes|));
    PaddedLength(bytes);
    Unpadded(|bytes|);
  }

  lemma Unpadded(n: nat)
    ensures 4 * ((n + 2) / 3) - PaddingOf(n) == (4 * n + 2) / 3
  {
    var q, r := n / 3, n % 3;
    assert n == 3 * q + r;
    assert (n + 2) / 3 == if r == 0 then q else q + 1;
    assert (4 * n + 2) / 3 == 4 * q + (4 * r + 2) / 3;
  }

  lemma {:induction false} PaddedLength(bytes: seq<Byte>)
    ensures |Encode(bytes)| == 4 * ((|bytes| + 2) / 3)
    decreases |bytes|
  {
    if |bytes| > 2 {
      PaddedLength(bytes[3..]);
    }
  }
}
