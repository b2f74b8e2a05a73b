// Byte strings as numbers.
module ByteNumbers {
  import opened Arith

  type Byte = b: nat | b < 256

  /** The number whose base-256 digits, most significant first, are the bytes. */
  function BigEndian(s: seq<Byte>): nat {
    if s == [] then 0 else 256 * BigEndian(s[..|s| - 1]) + s[|s| - 1]
  }

  function Reversed<T>(s: seq<T>): (r: seq<T>)
    ensures |r| == |s|
    ensures forall i :: 0 <= i < |s| ==> r[i] == s[|s| - 1 - i]
  {
    seq(|s|, i requires 0 <= i < |s| => s[|s| - 1 - i])
  }

  /** A digest is read as a little-endian number. */
  function LittleEndian(s: seq<Byte>): nat { BigEndian(Reversed(s)) }

  lemma {:induction false} BigEndianBound(s: seq<Byte>)
    ensures BigEndian(s) < Pow(256, |s|)
  {
    if s != [] { BigEndianBound(s[..|s| - 1]); }
  }

  lemma BigEndianSnoc(s: seq<Byte>, b: Byte)
    ensures BigEndian(s + [b]) == 256 * BigEndian(s) + b
  {
    assert (s + [b])[..|s + [b]| - 1] == s;
  }

  lemma {:induction false} BigEndianAppend(s: seq<Byte>, t: seq<Byte>)
    ensures BigEndian(s + t) == BigEndian(s) * Pow(256, |t|) + BigEndian(t)
  {
    if t == [] {
      assert s + t == s;
    } else {
      var r, b := t[..|t| - 1], t[|t| - 1];
      assert (s + t)[..|s + t| - 1] == s + r;
      BigEndianAppend(s, r);
      PullFactor(BigEndian(s), Pow(256, |r|));
    }
  }

  lemma PullFactor(x: nat, p: nat)
    ensures 256 * (x * p) == x * (256 * p)
  {}

  lemma {:induction false} BigEndianZeros(s: seq<Byte>)
    requires forall i :: 0 <= i < |s| ==> s[i] == 0
    ensures BigEndian(s) == 0
  {
    if s != [] { BigEndianZeros(s[..|s| - 1]); }
  }

  lemma {:induction false} BigEndianInjective(s: seq<Byte>, t: seq<Byte>)
    requires |s| == |t| && BigEndian(s) == BigEndian(t)
    ensures s == t
  {
    if s != [] {
      BigEndianInjective(s[..|s| - 1], t[..|t| - 1]);
      assert s == s[..|s| - 1] + [s[|s| - 1]] && t == t[..|t| - 1] + [t[|t| - 1]];
    }
  }

  /** The first differing byte decides the order of two strings of the same length. */
  lemma FirstDifference(s: seq<Byte>, t: seq<Byte>, k: nat)
    requires |s| == |t| && k < |s| && s[..k] == t[..k] && s[k] < t[k]
    ensures BigEndian(s) < BigEndian(t)
  {
    hide BigEndian, Pow;
    var p := |s| - k - 1;
    assert s == s[..k + 1] + s[k + 1..] && t == t[..k + 1] + t[k + 1..];
    BigEndianAppend(s[..k + 1], s[k + 1..]);
    BigEndianAppend(t[..k + 1], t[k + 1..]);
    assert s[..k + 1] == s[..k] + [s[k]] && t[..k + 1] == t[..k] + [t[k]];
    BigEndianSnoc(s[..k], s[k]);
    BigEndianSnoc(t[..k], t[k]);
    BigEndianBound(s[k + 1..]);
    PrefixDecides(BigEndian(s[..k + 1]), BigEndian(t[..k + 1]), Pow(256, p), BigEndian(s[k + 1..]),
      BigEndian(t[k + 1..]));
  }

  lemma PrefixDecides(x: nat, y: nat, p: nat, low: nat, other: nat)
    requires x < y && low < p
    ensures x * p + low < y * p + other
  {
    MulMono(x + 1, y, p);
    MulDistributes(x, 1, p);
  }
}
