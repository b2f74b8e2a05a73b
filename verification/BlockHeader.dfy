// The nonce field of a serialized block header (src/bitcoin/block_header.cpp).
module BlockHeader {
  import opened Arith
  import opened ByteNumbers

  type Header = h: seq<Byte> | |h| == 80 witness seq(80, i => 0)

  /** The four bytes of a nonce, least significant first. */
  function NonceBytes(nonce: nat): seq<Byte> {
    [nonce % 256, nonce / 0x100 % 256, nonce / 0x10000 % 256, nonce / 0x1000000 % 256]
  }

  function WithNonce(h: Header, nonce: nat): Header { h[..76] + NonceBytes(nonce) }

  method SetNonce(header: array<Byte>, nonce: nat)
    requires header.Length == 80
    modifies header
    ensures header[..] == WithNonce(old(header[..]), nonce)
  {
    header[76] := nonce % 256;
    header[77] := nonce / 0x100 % 256;
    header[78] := nonce / 0x10000 % 256;
    header[79] := nonce / 0x1000000 % 256;
  }

  function GetNonce(h: Header): nat {
    var b0: nat, b1: nat, b2: nat, b3: nat := h[76], h[77], h[78], h[79];
    b0 + 0x100 * b1 + 0x10000 * b2 + 0x1000000 * b3
  }

  /** set_nonce and get_nonce undo each other; the other 76 bytes never change. */
  lemma NonceRoundTrip(h: Header, nonce: nat)
    requires nonce < BASE
    ensures GetNonce(WithNonce(h, nonce)) == nonce && WithNonce(h, nonce)[..76] == h[..76]
    ensures GetNonce(h) < BASE && WithNonce(h, GetNonce(h)) == h
  {
    FourDigits(nonce);
    var b0: nat, b1: nat, b2: nat, b3: nat := h[76], h[77], h[78], h[79];
    FieldDigits(b0, b1, b2, b3);
    assert h == h[..76] + [h[76], h[77], h[78], h[79]];
  }

  /** The field holds the nonce least significant byte first. */
  lemma NonceIsLittleEndian(h: Header, nonce: nat)
    requires nonce < BASE
    ensures LittleEndian(WithNonce(h, nonce)[76..]) == nonce
  {
    var b := NonceBytes(nonce);
    assert WithNonce(h, nonce)[76..] == b;
    assert Reversed(b) == [b[3], b[2], b[1], b[0]];
    FourBytes(b[3], b[2], b[1], b[0]);
    FourDigits(nonce);
  }

  lemma FourBytes(p: Byte, q: Byte, r: Byte, s: Byte)
    ensures BigEndian([p, q, r, s]) == 0x1000000 * p + 0x10000 * q + 0x100 * r + s
  {
    assert [p, q, r, s] == [p] + [q] + [r] + [s];
    BigEndianSnoc([p] + [q] + [r], s);
    BigEndianSnoc([p] + [q], r);
    BigEndianSnoc([p], q);
    assert [p][..0] == [] && BigEndian([p]) == p;
  }

  lemma FourDigits(n: nat)
    requires n < BASE
    ensures n % 256 + 0x100 * (n / 0x100 % 256) + 0x10000 * (n / 0x10000 % 256) + 0x1000000 * (n / 0x1000000 % 256) == n
  {
    var low, high := n % 0x10000, n / 0x10000;
    DivisionIs(n, 0x100, low / 0x100 + 0x100 * high, n % 0x100);
    DivisionIs(n / 0x100, 256, high, low / 0x100);
    DivisionIs(n, 0x1000000, high / 0x100, low + 0x10000 * (high % 0x100));
  }

  lemma FieldDigits(b0: nat, b1: nat, b2: nat, b3: nat)
    requires b0 < 256 && b1 < 256 && b2 < 256 && b3 < 256
    ensures var n := b0 + 0x100 * b1 + 0x10000 * b2 + 0x1000000 * b3;
      n < BASE && n % 256 == b0 && n / 0x100 % 256 == b1 && n / 0x10000 % 256 == b2 && n / 0x1000000 % 256 == b3
  {
    var n := b0 + 0x100 * b1 + 0x10000 * b2 + 0x1000000 * b3;
    DivisionIs(n, 0x100, b1 + 0x100 * b2 + 0x10000 * b3, b0);
    DivisionIs(n, 0x10000, b2 + 0x100 * b3, b0 + 0x100 * b1);
    DivisionIs(n, 0x1000000, b3, b0 + 0x100 * b1 + 0x10000 * b2);
    DivisionIs(n / 0x100, 256, b2 + 0x100 * b3, b1);
    DivisionIs(n / 0x10000, 256, b3, b2);
  }
}
