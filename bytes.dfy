/**
  Unsigned integers as sequences of bytes.

  A fixed-width unsigned value of n bytes is the same thing as n base-256
  digits. This module gives the two standard encodings of such a value
  (least significant byte first, and most significant byte first), their
  decoders, the reversal of a byte sequence, and the arithmetic meaning of
  "byte i of x". Everything the byte-order conversions promise is stated in
  these terms.
 */
module Bytes {

  type Byte = b: int | 0 <= b < 256

  /** 256^n, the number of distinct n-byte values. */
  function Pow256(n: nat): (p: nat)
    ensures p >= 1
  {
    if n == 0 then 1 else 256 * Pow256(n - 1)
  }

  /** Byte i of x, counting from the least significant one. */
  function ByteAt(x: nat, i: nat): Byte {
    (x / Pow256(i)) % 256
  }

  /** The n low-order bytes of x, least significant first (little-endian). */
  function LittleEndianBytes(x: nat, n: nat): (bs: seq<Byte>)
    ensures |bs| == n
  {
    if n == 0 then [] else [x % 256] + LittleEndianBytes(x / 256, n - 1)
  }

  /** The n low-order bytes of x, most significant first (big-endian, network order). */
  function BigEndianBytes(x: nat, n: nat): (bs: seq<Byte>)
    ensures |bs| == n
  {
    if n == 0 then [] else BigEndianBytes(x / 256, n - 1) + [x % 256]
  }

  /** The value whose little-endian encoding is bs. */
  function FromLittleEndian(bs: seq<Byte>): (x: nat)
    ensures x < Pow256(|bs|)
  {
    if bs == [] then 0
    else
      var rest := FromLittleEndian(bs[1..]);
      assert rest <= Pow256(|bs| - 1) - 1;
      assert 256 * rest <= 256 * Pow256(|bs| - 1) - 256;
      bs[0] + 256 * rest
  }

  /** The value whose big-endian encoding is bs. */
  function FromBigEndian(bs: seq<Byte>): (x: nat)
    ensures x < Pow256(|bs|)
  {
    if bs == [] then 0
    else
      var rest := FromBigEndian(bs[..|bs| - 1]);
      assert rest <= Pow256(|bs| - 1) - 1;
      assert 256 * rest <= 256 * Pow256(|bs| - 1) - 256;
      256 * rest + bs[|bs| - 1]
  }

  /** The bytes of s in the opposite order. */
  function Reverse(s: seq<Byte>): (r: seq<Byte>)
    ensures |r| == |s|
  {
    if s == [] then [] else Reverse(s[1..]) + [s[0]]
  }

  // ---------------------------------------------------------------------------
  // Arithmetic facts about base-256 digits

  lemma DivModUnique(x: nat, d: nat, q: nat, r: nat)
    requires 0 <= r < d && x == d * q + r
    ensures x / d == q && x % d == r
  {
    var q', r' := x / d, x % d;
    assert d * (q' - q) == r - r';
    MulAtLeastMultiplier(d, q' - q);
    MulAtLeastMultiplier(d, q - q');
  }

  lemma MulAtLeastMultiplier(d: nat, k: int)
    ensures k >= 1 ==> d * k >= d
  {
  }

  lemma DivDiv256(x: nat, p: nat)
    requires p >= 1
    ensures x / 256 / p == x / (256 * p)
  {
    var q, r := x / 256, x % 256;
    var q2, r2 := q / p, q % p;
    assert x == 256 * (p * q2 + r2) + r;
    assert x == (256 * p) * q2 + (256 * r2 + r);
    assert 256 * r2 <= 256 * (p - 1);
    DivModUnique(x, 256 * p, q2, 256 * r2 + r);
  }

  // ---------------------------------------------------------------------------
  // The encodings are bijections between n-byte values and n-byte sequences

  /** The k-th byte of the little-endian encoding is byte k of the value. */
  lemma {:induction false} LittleEndianBytesAt(x: nat, n: nat, k: nat)
    requires k < n
    ensures LittleEndianBytes(x, n)[k] == ByteAt(x, k)
  {
    if k > 0 {
      LittleEndianBytesAt(x / 256, n - 1, k - 1);
      DivDiv256(x, Pow256(k - 1));
    }
  }

  /** Decoding the little-endian encoding of an n-byte value gives the value back. */
  lemma {:induction false} LittleEndianRoundTrip(x: nat, n: nat)
    requires x < Pow256(n)
    ensures FromLittleEndian(LittleEndianBytes(x, n)) == x
  {
    if n > 0 {
      var bs := LittleEndianBytes(x, n);
      assert bs[1..] == LittleEndianBytes(x / 256, n - 1);
      LittleEndianRoundTrip(x / 256, n - 1);
    }
  }

  /** Encoding the value of a byte sequence gives the sequence back. */
  lemma {:induction false} LittleEndianOfValue(bs: seq<Byte>)
    ensures LittleEndianBytes(FromLittleEndian(bs), |bs|) == bs
  {
    if bs != [] {
      var rest := FromLittleEndian(bs[1..]);
      DivModUnique(FromLittleEndian(bs), 256, rest, bs[0]);
      LittleEndianOfValue(bs[1..]);
    }
  }

  /** Decoding the big-endian encoding of an n-byte value gives the value back. */
  lemma {:induction false} BigEndianRoundTrip(x: nat, n: nat)
    requires x < Pow256(n)
    ensures FromBigEndian(BigEndianBytes(x, n)) == x
  {
    if n > 0 {
      var bs := BigEndianBytes(x, n);
      assert bs[..n - 1] == BigEndianBytes(x / 256, n - 1);
      BigEndianRoundTrip(x / 256, n - 1);
    }
  }

  /** Encoding the value of a big-endian byte sequence gives the sequence back. */
  lemma {:induction false} BigEndianOfValue(bs: seq<Byte>)
    ensures BigEndianBytes(FromBigEndian(bs), |bs|) == bs
  {
    if bs != [] {
      var init := bs[..|bs| - 1];
      DivModUnique(FromBigEndian(bs), 256, FromBigEndian(init), bs[|bs| - 1]);
      BigEndianOfValue(init);
    }
  }

  /** Two n-byte values with the same little-endian encoding are equal. */
  lemma LittleEndianInjective(x: nat, y: nat, n: nat)
    requires x < Pow256(n) && y < Pow256(n)
    requires LittleEndianBytes(x, n) == LittleEndianBytes(y, n)
    ensures x == y
  {
    LittleEndianRoundTrip(x, n);
    LittleEndianRoundTrip(y, n);
  }

  /** Two n-byte values with the same big-endian encoding are equal. */
  lemma BigEndianInjective(x: nat, y: nat, n: nat)
    requires x < Pow256(n) && y < Pow256(n)
    requires BigEndianBytes(x, n) == BigEndianBytes(y, n)
    ensures x == y
  {
    BigEndianRoundTrip(x, n);
    BigEndianRoundTrip(y, n);
  }

  // ---------------------------------------------------------------------------
  // Reversal

  /** Position k of the reversal holds position |s| - 1 - k of the original. */
  lemma {:induction false} ReverseAt(s: seq<Byte>, k: nat)
    requires k < |s|
    ensures Reverse(s)[k] == s[|s| - 1 - k]
  {
    if k < |s| - 1 {
      ReverseAt(s[1..], k);
    }
  }

  /** Reversing twice gives back the original sequence. */
  lemma ReverseReverse(s: seq<Byte>)
    ensures Reverse(Reverse(s)) == s
  {
    forall k | 0 <= k < |s|
      ensures Reverse(Reverse(s))[k] == s[k]
    {
      ReverseAt(Reverse(s), k);
      ReverseAt(s, |s| - 1 - k);
    }
  }

  /** Big-endian order is little-endian order reversed. */
  lemma {:induction false} BigEndianIsReversedLittleEndian(x: nat, n: nat)
    ensures BigEndianBytes(x, n) == Reverse(LittleEndianBytes(x, n))
  {
    if n > 0 {
      BigEndianIsReversedLittleEndian(x / 256, n - 1);
      var le := LittleEndianBytes(x, n);
      assert le[1..] == LittleEndianBytes(x / 256, n - 1);
    }
  }
}
