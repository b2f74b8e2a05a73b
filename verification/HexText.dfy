// Hexadecimal text and the bytes it shows (src/crypto/sha256.cpp), and the network target read from
// its text (src/bitcoin/difficulty.cpp).
module HexText {
  import opened Arith
  import opened ByteNumbers
  import opened WorkUnits
  import HashOrders
  import ShareTargets

  /** hex_digit */
  function DigitValue(c: char): (d: Option<nat>)
    ensures d.Some? ==> d.value < 16
  {
    if '0' <= c <= '9' then Some(c as nat - '0' as nat)
    else if 'a' <= c <= 'f' then Some(c as nat - 'a' as nat + 10)
    else if 'A' <= c <= 'F' then Some(c as nat - 'A' as nat + 10)
    else None
  }

  predicate IsHex(text: string) { forall i :: 0 <= i < |text| ==> DigitValue(text[i]).Some? }

  /** The number a hexadecimal numeral shows, in either case of letters. */
  function Shown(text: string): nat
    requires IsHex(text)
  {
    if text == "" then 0 else 16 * Shown(text[..|text| - 1]) + DigitValue(text[|text| - 1]).value
  }

  datatype Decoded = Bytes(bytes: seq<Byte>) | OddLength | BadCharacter

  /** from_hex */
  method FromHex(text: string) returns (r: Decoded)
    ensures r == OddLength <==> |text| % 2 != 0
    ensures r == BadCharacter <==> |text| % 2 == 0 && !IsHex(text)
    ensures r.Bytes? ==> 2 * |r.bytes| == |text| && BigEndian(r.bytes) == Shown(text)
  {
    hide BigEndian, DigitValue, Shown;
    if |text| % 2 != 0 { return OddLength; }
    var bytes: seq<Byte> := [];
    NothingShown(text);
    for i := 0 to |text| / 2
      invariant |bytes| == i && IsHex(text[..2 * i]) && BigEndian(bytes) == Shown(text[..2 * i])
    {
      var high, low := DigitValue(text[2 * i]), DigitValue(text[2 * i + 1]);
      if high.None? || low.None? { return BadCharacter; }
      var byte := 16 * high.value + low.value;
      BigEndianSnoc(bytes, byte);
      TwoShown(text, i);
      bytes := bytes + [byte];
    }
    assert text[..2 * (|text| / 2)] == text;
    r := Bytes(bytes);
  }

  lemma NothingShown(text: string)
    ensures text[..0] == "" && Shown("") == 0 && BigEndian([]) == 0
  {}

  lemma TwoShown(text: string, i: nat)
    requires 2 * i + 1 < |text| && IsHex(text[..2 * i])
    requires DigitValue(text[2 * i]).Some? && DigitValue(text[2 * i + 1]).Some?
    ensures IsHex(text[..2 * (i + 1)])
    ensures Shown(text[..2 * (i + 1)])
      == 256 * Shown(text[..2 * i]) + 16 * DigitValue(text[2 * i]).value + DigitValue(text[2 * i + 1]).value
  {
    hide DigitValue;
    var s, t, u := text[..2 * i], text[..2 * i + 1], text[..2 * (i + 1)];
    assert t[..|t| - 1] == s && u[..|u| - 1] == t;
  }

  lemma DigitShows(d: nat)
    requires d < 16
    ensures DigitValue(Digit(d)) == Some(d)
  {}

  /** A numeral shows the number it was written for. */
  lemma {:induction false} HexShows(n: nat, width: nat)
    requires n < Pow(16, width)
    ensures |Hex(n, width)| == width && IsHex(Hex(n, width)) && Shown(Hex(n, width)) == n
  {
    hide DigitValue, Digit;
    if width > 0 {
      HexShows(n / 16, width - 1);
      DigitShows(n % 16);
      var text := Hex(n, width);
      assert text[..|text| - 1] == Hex(n / 16, width - 1);
    }
  }

  /** Writing bytes as text and reading the text gives the bytes back. */
  method RoundTrip(bytes: seq<Byte>) returns (r: Decoded)
    ensures r == Bytes(bytes)
  {
    hide BigEndian, IsHex, Shown, Hex;
    var text := HashOrders.ToHex(bytes);
    BigEndianBound(bytes);
    CapacityIsHexRange(|bytes|);
    HexShows(BigEndian(bytes), 2 * |bytes|);
    r := FromHex(text);
    BigEndianInjective(r.bytes, bytes);
  }

  datatype NetworkTarget = NotHex | Answer(outcome: ShareTargets.Outcome)

  /** target_from_nbits on the text of a job: malformed text, then the checks of the decoded bytes. */
  method TargetFromText(text: string) returns (r: NetworkTarget)
    ensures r == NotHex <==> |text| % 2 != 0 || !IsHex(text)
    ensures r.Answer? ==> (r.outcome == ShareTargets.Failure(ShareTargets.WrongLength) <==> |text| != 8)
    ensures r.Answer? && |text| == 8 ==>
      var exponent, mantissa := Shown(text) / Pow(256, 3), Shown(text) % Pow(256, 3);
      if 2 * mantissa >= Pow(256, 3) then r.outcome == ShareTargets.Failure(ShareTargets.Negative)
      else if exponent > 32 then r.outcome == ShareTargets.Failure(ShareTargets.Overflow)
      else r.outcome.Target? && BigEndian(r.outcome.bytes) == ShareTargets.CompactValue(exponent, mantissa)
  {
    hide BigEndian, IsHex, Shown, Pow, ShareTargets.CompactValue;
    var decoded := FromHex(text);
    if !decoded.Bytes? { return NotHex; }
    if |decoded.bytes| == 4 { CompactParts(decoded.bytes); }
    var outcome := ShareTargets.TargetFromNbits(decoded.bytes);
    r := Answer(outcome);
  }

  /** The first byte is the exponent, and the sign is the top bit of the mantissa. */
  lemma CompactParts(b: seq<Byte>)
    requires |b| == 4
    ensures BigEndian(b) / Pow(256, 3) == b[0] && BigEndian(b) % Pow(256, 3) == BigEndian(b[1..])
    ensures 2 * BigEndian(b[1..]) >= Pow(256, 3) <==> b[1] >= 0x80
  {
    BigEndianOf3(b[1..]);
    BigEndianBound(b[1..]);
    hide Pow;
    assert b == [b[0]] + b[1..];
    BigEndianAppend([b[0]], b[1..]);
    OneByte(b[0]);
    DivisionIs(BigEndian(b), Pow(256, 3), b[0], BigEndian(b[1..]));
  }

  lemma OneByte(b: Byte)
    ensures BigEndian([b]) == b
  {
    BigEndianSnoc([], b);
    assert [] + [b] == [b];
  }

  lemma BigEndianOf3(m: seq<Byte>)
    requires |m| == 3
    ensures Pow(256, 3) == 0x1000000 && BigEndian(m) == m[2] as nat + 0x100 * m[1] as nat + 0x10000 * m[0] as nat
  {
    BigEndianSnoc([m[0], m[1]], m[2]);
    BigEndianSnoc([m[0]], m[1]);
    OneByte(m[0]);
    assert m == [m[0], m[1]] + [m[2]] && [m[0], m[1]] == [m[0]] + [m[1]];
    assert Pow(256, 2) == 65536;
  }
}
