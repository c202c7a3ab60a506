/**
 * The part of RLP (Recursive Length Prefix, Appendix B of the Ethereum Yellow
 * Paper) that block headers need: byte strings, unsigned integers as their
 * minimal big-endian strings, and lists.
 */
module Rlp {
  import opened Binary

  datatype Item = Str(bytes: seq<Byte>) | List(items: seq<Item>)

  /** RLP has no encoding for a string or list payload of 2^64 bytes or more. */
  const MaxLength: nat := U64Limit

  /** Every string and list payload inside x is shorter than 2^64 bytes. */
  predicate Encodable(x: Item)
    decreases x, 0
  {
    match x
    case Str(b) => |b| < MaxLength
    case List(xs) => AllEncodable(xs) && |EncodeAll(xs)| < MaxLength
  }

  predicate AllEncodable(xs: seq<Item>)
    decreases xs, 0
  {
    forall i :: 0 <= i < |xs| ==> Encodable(xs[i])
  }

  /**
   * The prefix for a payload of `len` bytes: one byte offset + len below 56,
   * otherwise offset + 55 + (number of length bytes) followed by the length's
   * minimal big-endian form. The offset is 0x80 for strings, 0xc0 for lists.
   */
  function LengthPrefix(len: nat, offset: Byte): (r: seq<Byte>)
    requires len < MaxLength && (offset == 0x80 || offset == 0xc0)
    ensures 1 <= |r| <= 9
    ensures offset <= r[0] < offset + 64
  {
    if len < 56 then [offset + len]
    else
      MinimalBigEndianLength(len, 8);
      var n := MinimalBigEndian(len);
      [offset + 55 + |n|] + n
  }

  /** The RLP encoding of x. */
  function Encode(x: Item): (r: seq<Byte>)
    requires Encodable(x)
    ensures |r| >= 1
    decreases x, 1
  {
    match x
    case Str(b) =>
      if |b| == 1 && b[0] < 0x80 then b else LengthPrefix(|b|, 0x80) + b
    case List(xs) =>
      var payload := EncodeAll(xs);
      LengthPrefix(|payload|, 0xc0) + payload
  }

  /** The concatenated encodings of the items of a list: its payload. */
  function EncodeAll(xs: seq<Item>): (r: seq<Byte>)
    requires AllEncodable(xs)
    ensures |r| >= |xs|
    ensures r == [] <==> xs == []
    decreases xs, 1
  {
    if xs == [] then [] else Encode(xs[0]) + EncodeAll(xs[1..])
  }

  /** An unsigned integer is encoded as the string of its minimal big-endian bytes. */
  function Uint(n: nat): (x: Item)
    ensures x.Str? && (x.bytes == [] <==> n == 0)
    ensures x.bytes == [] || x.bytes[0] != 0
  {
    Str(MinimalBigEndian(n))
  }

  /** The first byte tells the three shapes apart. */
  lemma {:induction false} FirstByte(x: Item)
    requires Encodable(x)
    ensures x.List? <==> Encode(x)[0] >= 0xc0
    ensures x.Str? && Encode(x)[0] < 0x80 <==> x.Str? && |x.bytes| == 1 && x.bytes[0] < 0x80
  {
  }

  /** Two length prefixes of the same kind that both start t announce the same length. */
  lemma {:induction false} LengthPrefixUnique(n1: nat, n2: nat, offset: Byte, t: seq<Byte>)
    requires n1 < MaxLength && n2 < MaxLength && (offset == 0x80 || offset == 0xc0)
    requires LengthPrefix(n1, offset) <= t && LengthPrefix(n2, offset) <= t
    ensures n1 == n2
  {
    var p1, p2 := LengthPrefix(n1, offset), LengthPrefix(n2, offset);
    assert p1[0] == t[0] == p2[0];
    if n1 >= 56 && n2 >= 56 {
      var l := |MinimalBigEndian(n1)|;
      assert |MinimalBigEndian(n2)| == l;
      assert MinimalBigEndian(n1) == p1[1..] == t[1..1 + l] == p2[1..] == MinimalBigEndian(n2);
      MinimalBigEndianInjective(n1, n2);
    }
  }

  /**
   * RLP is prefix-free: if the encodings of x and y both start t, then x and y
   * are the same item. In particular the encoding is injective.
   */
  lemma {:induction false} EncodePrefixFree(x: Item, y: Item, t: seq<Byte>)
    requires Encodable(x) && Encodable(y)
    requires Encode(x) <= t && Encode(y) <= t
    ensures x == y
    decreases x, 1
  {
    assert Encode(x)[0] == t[0] == Encode(y)[0];
    FirstByte(x);
    FirstByte(y);
    if x.Str? {
      StrPrefixFree(x.bytes, y.bytes, t);
    } else {
      ListPrefixFree(x, y, t);
    }
  }

  lemma {:induction false} StrPrefixFree(sx: seq<Byte>, sy: seq<Byte>, t: seq<Byte>)
    requires Encodable(Str(sx)) && Encodable(Str(sy))
    requires Encode(Str(sx)) <= t && Encode(Str(sy)) <= t
    ensures sx == sy
  {
    FirstByte(Str(sx));
    FirstByte(Str(sy));
    if t[0] >= 0x80 {
      var px, py := LengthPrefix(|sx|, 0x80), LengthPrefix(|sy|, 0x80);
      assert Encode(Str(sx)) == px + sx && Encode(Str(sy)) == py + sy;
      PrefixOf(px, sx, t);
      PrefixOf(py, sy, t);
      LengthPrefixUnique(|sx|, |sy|, 0x80, t);
      PrefixParts(px, sx, sy, t);
    }
  }

  lemma {:induction false} ListPrefixFree(x: Item, y: Item, t: seq<Byte>)
    requires x.List? && y.List? && Encodable(x) && Encodable(y)
    requires Encode(x) <= t && Encode(y) <= t
    ensures x == y
    decreases x, 0
  {
    var xs, ys := x.items, y.items;
    var qx, qy := EncodeAll(xs), EncodeAll(ys);
    var px, py := LengthPrefix(|qx|, 0xc0), LengthPrefix(|qy|, 0xc0);
    assert Encode(x) == px + qx && Encode(y) == py + qy;
    PrefixOf(px, qx, t);
    PrefixOf(py, qy, t);
    LengthPrefixUnique(|qx|, |qy|, 0xc0, t);
    PrefixParts(px, qx, qy, t);
    EncodeAllInjective(xs, ys);
  }

  lemma {:induction false} PrefixOf(p: seq<Byte>, a: seq<Byte>, t: seq<Byte>)
    requires p + a <= t
    ensures p <= t
  {
    assert p == (p + a)[..|p|];
  }

  /** Two equally long continuations of the same prefix inside t are equal. */
  lemma {:induction false} PrefixParts(p: seq<Byte>, a: seq<Byte>, b: seq<Byte>, t: seq<Byte>)
    requires p + a <= t && p + b <= t && |a| == |b|
    ensures a == b
  {
    forall i | 0 <= i < |a|
      ensures a[i] == b[i]
    {
      assert a[i] == (p + a)[|p| + i] == t[|p| + i] == (p + b)[|p| + i] == b[i];
    }
  }

  /** Equal payloads come from equal item lists. */
  lemma {:induction false} EncodeAllInjective(xs: seq<Item>, ys: seq<Item>)
    requires AllEncodable(xs) && AllEncodable(ys)
    requires EncodeAll(xs) == EncodeAll(ys)
    ensures xs == ys
    decreases xs
  {
    if xs != [] && ys != [] {
      var t := EncodeAll(xs);
      var ex, ey := Encode(xs[0]), Encode(ys[0]);
      assert t == ex + EncodeAll(xs[1..]) && t == ey + EncodeAll(ys[1..]);
      PrefixOf(ex, EncodeAll(xs[1..]), t);
      PrefixOf(ey, EncodeAll(ys[1..]), t);
      EncodePrefixFree(xs[0], ys[0], t);
      assert EncodeAll(xs[1..]) == t[|ex|..] == EncodeAll(ys[1..]);
      EncodeAllInjective(xs[1..], ys[1..]);
      assert xs == [xs[0]] + xs[1..] && ys == [ys[0]] + ys[1..];
    }
  }

  /** Distinct items have distinct encodings. */
  lemma {:induction false} EncodeInjective(x: Item, y: Item)
    requires Encodable(x) && Encodable(y)
    ensures Encode(x) == Encode(y) ==> x == y
  {
    if Encode(x) == Encode(y) {
      EncodePrefixFree(x, y, Encode(x));
    }
  }

  /** The payload of a concatenation of lists is the concatenation of payloads. */
  lemma {:induction false} EncodeAllAppend(xs: seq<Item>, ys: seq<Item>)
    requires AllEncodable(xs) && AllEncodable(ys)
    ensures AllEncodable(xs + ys)
    ensures EncodeAll(xs + ys) == EncodeAll(xs) + EncodeAll(ys)
  {
    if xs != [] {
      assert (xs + ys)[0] == xs[0] && (xs + ys)[1..] == xs[1..] + ys;
      EncodeAllAppend(xs[1..], ys);
    } else {
      assert xs + ys == ys;
    }
  }

  /** A string of fewer than 2^64 bytes costs at most 9 bytes of prefix. */
  lemma {:induction false} StrLength(b: seq<Byte>)
    requires |b| < MaxLength
    ensures |Encode(Str(b))| <= |b| + 9
  {
  }

  /** A list of strings, each at most `bound` bytes long, has a payload of at most |xs| * (bound + 9) bytes. */
  lemma {:induction false} StrListLength(xs: seq<Item>, bound: nat)
    requires bound < MaxLength
    requires forall i :: 0 <= i < |xs| ==> xs[i].Str? && |xs[i].bytes| <= bound
    ensures AllEncodable(xs)
    ensures |EncodeAll(xs)| <= |xs| * (bound + 9)
  {
    if xs != [] {
      var rest := xs[1..];
      assert forall i :: 0 <= i < |rest| ==> rest[i] == xs[i + 1];
      StrListLength(rest, bound);
      StrLength(xs[0].bytes);
      assert EncodeAll(xs) == Encode(xs[0]) + EncodeAll(rest);
      StepBound(|Encode(xs[0])|, |EncodeAll(rest)|, |rest|, bound + 9);
    }
  }

  lemma {:induction false} StepBound(a: nat, e: nat, n: nat, b: nat)
    requires a <= b && e <= n * b
    ensures a + e <= (n + 1) * b
  {
    MulDistrib(b, n, 1);
  }

  /** Integers: zero is the empty string 0x80, 1 to 127 are one byte, larger ones are 0x80 + length then the bytes. */
  lemma {:induction false} UintEncoding(n: nat)
    requires n < MaxLength
    ensures Encodable(Uint(n))
    ensures n == 0 ==> Encode(Uint(n)) == [0x80]
    ensures 0 < n < 0x80 ==> Encode(Uint(n)) == [n]
    ensures n >= 0x80 ==> Encode(Uint(n)) == [0x80 + |MinimalBigEndian(n)|] + MinimalBigEndian(n)
  {
    MinimalBigEndianLength(n, 8);
    if 0 < n < 0x80 {
      assert MinimalBigEndian(n) == MinimalBigEndian(0) + [n % 256];
    }
  }

  /** A list payload of 56 bytes or more has the long form: 0xf7 + n, then n length bytes. */
  lemma {:induction false} LongListPrefix(len: nat)
    requires 56 <= len < MaxLength
    ensures var p := LengthPrefix(len, 0xc0); 0xf8 <= p[0] && |p| == p[0] - 0xf7 + 1
  {
    MinimalBigEndianLength(len, 8);
  }

  /** The empty list is the single byte 0xc0. */
  lemma {:induction false} EmptyList()
    ensures Encodable(List([])) && Encode(List([])) == [0xc0]
  {
  }
}
