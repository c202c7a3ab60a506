/**
 * Bytes, 64-bit unsigned integers and big-endian integer codecs: the fixed-width
 * form of Go's encoding/binary.BigEndian, and the minimal form (no leading zero
 * byte, zero as the empty string) that RLP uses for integers.
 */
module Binary {

  type Byte = b: int | 0 <= b < 256

  const U64Limit: nat := 0x1_0000_0000_0000_0000

  /** Go's uint64. */
  type U64 = x: int | 0 <= x < U64Limit

  function Pow256(k: nat): (r: nat)
    ensures r >= 1
  {
    if k == 0 then 1 else 256 * Pow256(k - 1)
  }

  function Zeros(n: nat): (r: seq<Byte>)
  {
    seq(n, _ => 0)
  }

  /** x written in exactly `width` bytes, most significant first. */
  function ToBigEndian(x: nat, width: nat): (r: seq<Byte>)
    requires x < Pow256(width)
    ensures |r| == width
  {
    if width == 0 then [] else ToBigEndian(x / 256, width - 1) + [x % 256]
  }

  /** The unsigned integer that bs denotes, most significant byte first. */
  function FromBigEndian(bs: seq<Byte>): (x: nat)
    ensures x < Pow256(|bs|)
  {
    if bs == [] then 0 else FromBigEndian(bs[..|bs| - 1]) * 256 + bs[|bs| - 1]
  }

  /** The shortest big-endian form of x: no leading zero byte, and zero is the empty string. */
  function MinimalBigEndian(x: nat): (r: seq<Byte>)
    ensures r == [] || r[0] != 0
    ensures r == [] <==> x == 0
  {
    if x == 0 then [] else MinimalBigEndian(x / 256) + [x % 256]
  }

  lemma {:induction false} DivDiv(x: nat, a: nat, b: nat)
    requires a > 0 && b > 0
    ensures x / a / b == x / (a * b)
  {
    var q, r := x / a, x % a;
    var q2, r2 := q / b, q % b;
    MixedRadix(x, a, b, q, r, q2, r2);
    DivUnique(x, a * b, q2, a * r2 + r);
  }

  /** Two steps of division with remainder combine into one by the product. */
  lemma {:induction false} MixedRadix(x: nat, a: nat, b: nat, q: nat, r: nat, q2: nat, r2: nat)
    requires a > 0 && b > 0 && r < a && r2 < b
    requires x == a * q + r && q == b * q2 + r2
    ensures x == (a * b) * q2 + (a * r2 + r) && a * r2 + r < a * b
  {
    MulDistrib(a, b * q2, r2);
    MulAssoc(a, b, q2);
    MulMonotone(a, r2, b - 1);
    MulDistrib(a, b - 1, 1);
  }

  lemma {:induction false} MulDistrib(a: int, b: int, c: int)
    ensures a * (b + c) == a * b + a * c
  {
  }

  lemma {:induction false} MulAssoc(a: int, b: int, c: int)
    ensures a * (b * c) == (a * b) * c
  {
  }

  lemma {:induction false} DivUnique(x: nat, d: nat, q: nat, r: nat)
    requires d > 0 && r < d && x == d * q + r
    ensures x / d == q && x % d == r
  {
    var q', r' := x / d, x % d;
    assert d * q' + r' == d * q + r;
    if q' >= q {
      assert d * (q' - q) == d * q' - d * q;
      MulAtLeast(d, q' - q);
    } else {
      assert d * (q - q') == d * q - d * q';
      MulAtLeast(d, q - q');
    }
  }

  lemma {:induction false} MulAtLeast(d: nat, k: nat)
    ensures k >= 1 ==> d * k >= d
  {
    if k > 1 {
      assert d * k == d * (k - 1) + d;
      MulAtLeast(d, k - 1);
    }
  }

  /** x < p * m implies x / p < m. */
  lemma {:induction false} DivBelow(x: nat, p: nat, m: nat)
    requires p > 0 && x < p * m
    ensures x / p < m
  {
    var y := x / p;
    assert p * y <= x;
    if y >= m {
      MulMonotone(p, m, y);
    }
  }

  lemma {:induction false} MulMonotone(d: nat, a: nat, b: nat)
    requires a <= b
    ensures d * a <= d * b
  {
    if a < b {
      assert d * b == d * (b - 1) + d;
      MulMonotone(d, a, b - 1);
    }
  }

  /** Round trip: decoding the fixed-width encoding gives the integer back. */
  lemma {:induction false} FromToBigEndian(x: nat, width: nat)
    requires x < Pow256(width)
    ensures FromBigEndian(ToBigEndian(x, width)) == x
  {
    if width > 0 {
      var r := ToBigEndian(x, width);
      assert r[..|r| - 1] == ToBigEndian(x / 256, width - 1);
      FromToBigEndian(x / 256, width - 1);
    }
  }

  /** Round trip: re-encoding a decoded byte string at its own width gives the bytes back. */
  lemma {:induction false} ToFromBigEndian(bs: seq<Byte>)
    ensures ToBigEndian(FromBigEndian(bs), |bs|) == bs
  {
    if bs != [] {
      var init, last := bs[..|bs| - 1], bs[|bs| - 1];
      ToFromBigEndian(init);
      var x := FromBigEndian(bs);
      DivUnique(x, 256, FromBigEndian(init), last);
      assert bs == init + [last];
    }
  }

  /** Byte k of the fixed-width encoding is digit (width - 1 - k) of x in base 256. */
  lemma {:induction false} ToBigEndianAt(x: nat, width: nat, k: nat)
    requires x < Pow256(width) && k < width
    ensures ToBigEndian(x, width)[k] == x / Pow256(width - 1 - k) % 256
  {
    if k < width - 1 {
      ToBigEndianAt(x / 256, width - 1, k);
      DivDiv(x, 256, Pow256(width - 2 - k));
    }
  }

  /** The leading byte of the fixed-width encoding is the most significant digit. */
  lemma {:induction false} ToBigEndianFirst(x: nat, width: nat)
    requires x < Pow256(width) && width > 0
    ensures ToBigEndian(x, width)[0] == x / Pow256(width - 1)
  {
    var p := Pow256(width - 1);
    assert Pow256(width) == 256 * p;
    DivBelow(x, p, 256);
    ToBigEndianAt(x, width, 0);
    SmallMod(x / p, 256);
  }

  lemma {:induction false} SmallMod(y: nat, d: nat)
    requires y < d
    ensures y % d == y
  {
    DivUnique(y, d, 0, y);
  }

  lemma {:induction false} ToBigEndianZero(width: nat)
    ensures ToBigEndian(0, width) == Zeros(width)
  {
    if width > 0 {
      ToBigEndianZero(width - 1);
    }
  }

  lemma {:induction false} FromMinimalBigEndian(x: nat)
    ensures FromBigEndian(MinimalBigEndian(x)) == x
  {
    if x > 0 {
      var r := MinimalBigEndian(x);
      assert r[..|r| - 1] == MinimalBigEndian(x / 256);
      FromMinimalBigEndian(x / 256);
    }
  }

  /** Distinct integers have distinct minimal encodings. */
  lemma {:induction false} MinimalBigEndianInjective(x: nat, y: nat)
    ensures MinimalBigEndian(x) == MinimalBigEndian(y) ==> x == y
  {
    FromMinimalBigEndian(x);
    FromMinimalBigEndian(y);
  }

  lemma {:induction false} FromBigEndianAtLeastFirst(bs: seq<Byte>)
    requires bs != []
    ensures FromBigEndian(bs) >= bs[0]
  {
    if |bs| > 1 {
      FromBigEndianAtLeastFirst(bs[..|bs| - 1]);
    }
  }

  /** A byte string without a leading zero byte is the minimal encoding of its value. */
  lemma {:induction false} MinimalFromBigEndian(bs: seq<Byte>)
    requires bs == [] || bs[0] != 0
    ensures MinimalBigEndian(FromBigEndian(bs)) == bs
  {
    if bs != [] {
      var init, last := bs[..|bs| - 1], bs[|bs| - 1];
      var x := FromBigEndian(bs);
      if init == [] {
        assert x == last;
      } else {
        FromBigEndianAtLeastFirst(init);
        MinimalFromBigEndian(init);
      }
      DivUnique(x, 256, FromBigEndian(init), last);
      assert bs == init + [last];
    }
  }

  /** The minimal encoding of a value below 256^k takes at most k bytes. */
  lemma {:induction false} MinimalBigEndianLength(x: nat, k: nat)
    requires x < Pow256(k)
    ensures |MinimalBigEndian(x)| <= k
  {
    if x > 0 {
      MinimalBigEndianLength(x / 256, k - 1);
    }
  }

  /** The number of significant bits of x (big.Int.BitLen). */
  function BitLen(x: nat): (n: nat)
    ensures n == 0 <==> x == 0
    ensures n <= x
  {
    if x == 0 then 0 else 1 + BitLen(x / 2)
  }

  function Pow2(k: nat): (r: nat)
    ensures r >= 1
  {
    if k == 0 then 1 else 2 * Pow2(k - 1)
  }

  /** BitLen is the bit length: 2^(n-1) <= x < 2^n for x > 0, and zero has none. */
  lemma {:induction false} BitLenBounds(x: nat)
    ensures BitLen(x) == 0 <==> x == 0
    ensures x < Pow2(BitLen(x))
    ensures x > 0 ==> Pow2(BitLen(x) - 1) <= x
  {
    if x > 0 {
      BitLenBounds(x / 2);
    }
  }

  lemma {:induction false} Pow2Monotone(a: nat, b: nat)
    requires a <= b
    ensures Pow2(a) <= Pow2(b)
  {
    if a < b {
      Pow2Monotone(a, b - 1);
    }
  }

  /** A value below 2^k has at most k significant bits. */
  lemma {:induction false} BitLenAtMost(x: nat, k: nat)
    requires x < Pow2(k)
    ensures BitLen(x) <= k
  {
    BitLenBounds(x);
    if BitLen(x) > k {
      Pow2Monotone(k, BitLen(x) - 1);
    }
  }
}
