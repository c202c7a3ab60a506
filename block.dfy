/**
 * Block headers and their identity (core/types/block.go): the 8-byte nonce
 * codec, the header's RLP pre-image in declared field order, the legacy
 * Keccak-256 identity over it, and the memory-size estimate.
 *
 * Keccak-256 itself is not modelled: every operation that hashes takes the
 * digest function as a parameter `keccak`.
 */
module Block {
  import opened Binary
  import opened Common
  import opened Wrappers
  import opened HexUtil
  import opened Rlp

  /** types.BlockNonce: 8 bytes, big-endian when read as an integer. */
  type BlockNonce = s: seq<Byte> | |s| == 8 witness Zeros(8)

  /** types.Bloom: 256 bytes. */
  type Bloom = s: seq<Byte> | |s| == 256 witness Zeros(256)

  lemma {:induction false} Pow256Eight()
    ensures Pow256(8) == U64Limit
  {
  }

  /** EncodeNonce: binary.BigEndian.PutUint64 into a fresh 8-byte buffer. */
  method EncodeNonce(i: U64) returns (n: BlockNonce)
    ensures Pow256(8) == U64Limit && n == ToBigEndian(i, 8)
  {
    Pow256Eight();
    var buf := new Byte[8];
    for k := 0 to 8
      invariant forall j :: 0 <= j < k ==> buf[j] == ToBigEndian(i, 8)[j]
    {
      ToBigEndianAt(i, 8, k);
      buf[k] := i / Pow256(7 - k) % 256;
    }
    n := buf[..];
  }

  /** BlockNonce.Uint64: the nonce read as a big-endian integer. */
  function Uint64(n: BlockNonce): (i: U64)
    ensures n[0] == i / 0x100_0000_0000_0000 && n[7] == i % 256
  {
    Pow256Eight();
    var i := FromBigEndian(n);
    ToFromBigEndian(n);
    ToBigEndianFirst(i, 8);
    ToBigEndianAt(i, 8, 7);
    i
  }

  /** Uint64 inverts EncodeNonce on every 64-bit integer. */
  lemma {:induction false} NonceIntRoundTrip(i: U64)
    ensures Pow256(8) == U64Limit && Uint64(ToBigEndian(i, 8)) == i
  {
    Pow256Eight();
    FromToBigEndian(i, 8);
  }

  /** EncodeNonce inverts Uint64 on every nonce. */
  lemma {:induction false} NonceBytesRoundTrip(n: BlockNonce)
    ensures ToBigEndian(Uint64(n), 8) == n
  {
    ToFromBigEndian(n);
  }

  /** EncodeNonce is big-endian: byte 0 is the most significant, byte 7 is i mod 256, and zero is eight zero bytes. */
  lemma {:induction false} NonceByteOrder(i: U64)
    ensures Pow256(8) == U64Limit
    ensures ToBigEndian(i, 8)[0] == i / 0x100_0000_0000_0000
    ensures ToBigEndian(i, 8)[7] == i % 256
    ensures ToBigEndian(0, 8) == [0, 0, 0, 0, 0, 0, 0, 0]
  {
    Pow256Eight();
    ToBigEndianFirst(i, 8);
    ToBigEndianZero(8);
  }

  /** BlockNonce.MarshalText: `0x` and 16 lower-case hex digits. */
  function MarshalText(n: BlockNonce): (s: string)
    ensures |s| == 18 && s[..2] == "0x" && AllHex(s[2..]) && IsLower(s[2..])
  {
    MarshalBytes(n)
  }

  /** What BlockNonce.UnmarshalText stores, or the error it returns. */
  function ParseNonce(input: seq<Byte>): (r: Result<BlockNonce, HexError>)
    ensures r.Success? ==> |input| == 18 && Has0xPrefixBytes(input)
    ensures |input| > 0 && !Has0xPrefixBytes(input) ==> r == Failure(MissingPrefix)
  {
    match UnmarshalFixedText("BlockNonce", input, 8)
    case Success(bs) => Success(bs)
    case Failure(e) => Failure(e)
  }

  /**
   * BlockNonce.UnmarshalText: validates the whole input first and only then
   * decodes it, digit pair by digit pair, into the nonce; on an error the nonce
   * is left as it was.
   */
  method UnmarshalText(n: array<Byte>, input: seq<Byte>) returns (err: Option<HexError>)
    requires n.Length == 8
    modifies n
    ensures ParseNonce(input).Success? ==> err == None && n[..] == ParseNonce(input).value
    ensures ParseNonce(input).Failure? ==> err == Some(ParseNonce(input).error) && n[..] == old(n[..])
  {
    var checked := CheckFixedText("BlockNonce", input, 8);
    if checked.Failure? {
      assert ParseNonce(input) == Failure(checked.error);
      return Some(checked.error);
    }
    var raw := checked.value;
    assert ParseNonce(input) == Success(DecodePairs(raw));
    DecodeInto(n, raw);
    err := None;
  }

  /** The decoding loop of hex.Decode, writing digit pair k of raw into n[k]. */
  method DecodeInto(n: array<Byte>, raw: string)
    requires AllHex(raw) && |raw| == 2 * n.Length
    modifies n
    ensures n[..] == DecodePairs(raw)
  {
    DivUnique(|raw|, 2, n.Length, 0);
    ghost var bs := DecodePairs(raw);
    for k := 0 to n.Length
      invariant forall j :: 0 <= j < k ==> n[j] == bs[j]
    {
      n[k] := 16 * DigitValue(raw[2 * k]) + DigitValue(raw[2 * k + 1]);
    }
    assert n[..] == bs;
  }

  /** UnmarshalText inverts MarshalText. */
  lemma {:induction false} NonceTextRoundTrip(n: BlockNonce)
    ensures IsAscii(MarshalText(n))
    ensures ParseNonce(TextBytes(MarshalText(n))) == Success(n)
  {
    UnmarshalFixedMarshal("BlockNonce", n);
  }

  /**
   * UnmarshalText accepts exactly the bytes of `0x` (or `0X`) and 16 hex
   * digits of either case, and the nonce it stores marshals back to the input
   * in lower case; a wrong length or a missing prefix is an error.
   */
  lemma {:induction false} NonceTextAccepts(input: seq<Byte>)
    ensures ParseNonce(input).Success? <==> |input| == 18 && Has0xPrefixBytes(input) && AllHex(ByteChars(input[2..]))
    ensures ParseNonce(input).Success? ==> MarshalText(ParseNonce(input).value) == "0x" + LowerString(ByteChars(input[2..]))
    ensures |input| != 18 ==> ParseNonce(input).Failure?
    ensures |input| > 0 && !Has0xPrefixBytes(input) ==> ParseNonce(input) == Failure(MissingPrefix)
  {
    UnmarshalFixedAccepts("BlockNonce", input, 8);
    UnmarshalFixedErrors("BlockNonce", input, 8);
  }

  /**
   * UnmarshalText counts bytes, not characters: `0x`, fifteen `0` digits and
   * the two UTF-8 bytes of U+00E9 are 19 bytes, an odd digit count; with
   * fourteen `0` digits the count is right and the stray bytes are a syntax
   * error.
   */
  lemma {:induction false} NonceTextCountsBytes()
    ensures ParseNonce([0x30, 0x78] + seq(15, _ => 0x30) + [0xc3, 0xa9]) == Failure(OddLength)
    ensures ParseNonce([0x30, 0x78] + seq(14, _ => 0x30) + [0xc3, 0xa9]) == Failure(Syntax)
  {
    var odd: seq<Byte> := [0x30, 0x78] + seq(15, _ => 0x30) + [0xc3, 0xa9];
    assert |odd| == 19 && Has0xPrefixBytes(odd);
    assert CheckText(odd, true) == Failure(OddLength);
    var even: seq<Byte> := [0x30, 0x78] + seq(14, _ => 0x30) + [0xc3, 0xa9];
    assert |even| == 18 && Has0xPrefixBytes(even);
    var raw := even[2..];
    assert CheckText(even, true) == Success(raw);
    assert raw[14] == 0xc3;
    assert !IsHexDigit(ByteChars(raw)[14]);
    assert CheckFixedText("BlockNonce", even, 8) == Failure(Syntax);
  }

  /** types.Header, fields in declared order. Difficulty and Number are non-nil, non-negative big integers. */
  datatype Header = Header(
    parentHash: Hash,
    uncleHash: Hash,
    coinbase: Address,
    root: Hash,
    txHash: Hash,
    receiptHash: Hash,
    bloom: Bloom,
    difficulty: nat,
    number: nat,
    gasLimit: U64,
    gasUsed: U64,
    time: U64,
    extra: seq<Byte>,
    mixDigest: Hash,
    randomId: BlockNonce)

  /** The header as an RLP list of 15 items in declared field order; integers as minimal big-endian strings. */
  function Fields(h: Header): (xs: seq<Item>)
    ensures |xs| == 15 && forall i :: 0 <= i < |xs| ==> xs[i].Str?
  {
    [Str(h.parentHash), Str(h.uncleHash), Str(h.coinbase), Str(h.root), Str(h.txHash),
     Str(h.receiptHash), Str(h.bloom), Uint(h.difficulty), Uint(h.number), Uint(h.gasLimit),
     Uint(h.gasUsed), Uint(h.time), Str(h.extra), Str(h.mixDigest), Str(h.randomId)]
  }

  /** 2^59: below this, 15 fields and their prefixes stay under RLP's 2^64-byte payload limit. */
  const FieldBound: nat := 0x800_0000_0000_0000

  /** The variable-length fields are small enough for the header to have an RLP encoding. */
  predicate Fits(h: Header) {
    |h.extra| <= FieldBound
    && |MinimalBigEndian(h.difficulty)| <= FieldBound
    && |MinimalBigEndian(h.number)| <= FieldBound
  }

  lemma {:induction false} FitsEncodable(h: Header)
    requires Fits(h)
    ensures Encodable(List(Fields(h)))
  {
    FieldsBounded(h);
    StrListLength(Fields(h), FieldBound);
  }

  /** Every field of a fitting header is a string of at most FieldBound bytes. */
  lemma {:induction false} FieldsBounded(h: Header)
    requires Fits(h)
    ensures forall i :: 0 <= i < |Fields(h)| ==> Fields(h)[i].Str? && |Fields(h)[i].bytes| <= FieldBound
  {
    Pow256Eight();
    MinimalBigEndianLength(h.gasLimit, 8);
    MinimalBigEndianLength(h.gasUsed, 8);
    MinimalBigEndianLength(h.time, 8);
    var xs := Fields(h);
    assert xs[7].bytes == MinimalBigEndian(h.difficulty) && xs[8].bytes == MinimalBigEndian(h.number);
    assert xs[9].bytes == MinimalBigEndian(h.gasLimit) && xs[10].bytes == MinimalBigEndian(h.gasUsed);
    assert xs[11].bytes == MinimalBigEndian(h.time);
  }

  /** The pre-image of the header's identity: what rlp.Encode writes for the header. */
  function Encoding(h: Header): (e: seq<Byte>)
    requires Fits(h)
    ensures |e| >= 1 && e[0] >= 0xc0
  {
    FitsEncodable(h);
    FirstByte(List(Fields(h)));
    Encode(List(Fields(h)))
  }

  /** Distinct headers have distinct field lists. */
  lemma {:induction false} FieldsInjective(h1: Header, h2: Header)
    ensures Fields(h1) == Fields(h2) ==> h1 == h2
  {
    if Fields(h1) == Fields(h2) {
      MinimalBigEndianInjective(h1.difficulty, h2.difficulty);
      MinimalBigEndianInjective(h1.number, h2.number);
      MinimalBigEndianInjective(h1.gasLimit, h2.gasLimit);
      MinimalBigEndianInjective(h1.gasUsed, h2.gasUsed);
      MinimalBigEndianInjective(h1.time, h2.time);
    }
  }

  /** The pre-image is injective: two headers have the same encoding exactly when all their fields are equal. */
  lemma {:induction false} EncodingInjective(h1: Header, h2: Header)
    requires Fits(h1) && Fits(h2)
    ensures Encoding(h1) == Encoding(h2) <==> h1 == h2
  {
    FitsEncodable(h1);
    FitsEncodable(h2);
    EncodeInjective(List(Fields(h1)), List(Fields(h2)));
    FieldsInjective(h1, h2);
  }

  /** Field order is part of the encoding: exchanging two distinct same-typed fields changes it. */
  lemma {:induction false} SwapChangesEncoding(h: Header)
    requires Fits(h)
    ensures h.parentHash != h.uncleHash ==>
              Encoding(h.(parentHash := h.uncleHash, uncleHash := h.parentHash)) != Encoding(h)
    ensures h.gasLimit != h.gasUsed ==>
              Encoding(h.(gasLimit := h.gasUsed, gasUsed := h.gasLimit)) != Encoding(h)
  {
    EncodingInjective(h, h.(parentHash := h.uncleHash, uncleHash := h.parentHash));
    EncodingInjective(h, h.(gasLimit := h.gasUsed, gasUsed := h.gasLimit));
  }

  /**
   * The layout of the pre-image: a long-form list prefix (first byte 0xf8 to
   * 0xff, followed by that many minus 0xf7 length bytes), then ParentHash as a
   * 32-byte string (0xa0 and its bytes), ..., and last RandomId as an 8-byte
   * string (0x88 and its bytes).
   */
  lemma {:induction false} EncodingLayout(h: Header)
    requires Fits(h)
    ensures var e := Encoding(h);
            0xf8 <= e[0] && e[0] - 0xf7 + 34 <= |e|
            && e[e[0] - 0xf7 + 1..e[0] - 0xf7 + 34] == [0xa0] + h.parentHash
            && |e| >= 9 && e[|e| - 9..] == [0x88] + h.randomId
  {
    FitsEncodable(h);
    var payload := EncodeAll(Fields(h));
    PayloadStart(h);
    PayloadEnd(h);
    LongListPrefix(|payload|);
    var prefix := LengthPrefix(|payload|, 0xc0);
    var e := Encoding(h);
    assert e == prefix + payload;
    assert e[|prefix|..|prefix| + 33] == payload[..33];
    assert e[|e| - 9..] == payload[|payload| - 9..];
  }

  /** The payload opens with ParentHash as a 32-byte string and is long enough for a long-form prefix. */
  lemma {:induction false} PayloadStart(h: Header)
    requires Fits(h)
    ensures AllEncodable(Fields(h))
    ensures var p := EncodeAll(Fields(h)); 56 <= |p| < MaxLength && p[..33] == [0xa0] + h.parentHash
  {
    FitsEncodable(h);
    var xs := Fields(h);
    var rest := xs[1..];
    assert EncodeAll(xs) == Encode(xs[0]) + EncodeAll(rest);
    assert EncodeAll(rest) == Encode(rest[0]) + EncodeAll(rest[1..]);
    assert Encode(xs[0]) == [0xa0] + h.parentHash;
    assert |Encode(rest[0])| == 33;
  }

  /** The payload closes with RandomId as an 8-byte string. */
  lemma {:induction false} PayloadEnd(h: Header)
    requires Fits(h)
    ensures AllEncodable(Fields(h))
    ensures var p := EncodeAll(Fields(h)); |p| >= 9 && p[|p| - 9..] == [0x88] + h.randomId
  {
    FitsEncodable(h);
    var xs := Fields(h);
    var last := xs[14];
    assert xs == xs[..14] + [last];
    EncodeAllAppend(xs[..14], [last]);
    assert EncodeAll([last]) == [0x88] + h.randomId;
  }

  /** Headers with equal fields have equal hashes, whatever the digest function. */
  lemma {:induction false} IdentityDeterministic(h1: Header, h2: Header, keccak: seq<Byte> -> Hash)
    requires Fits(h1) && Fits(h2)
    ensures Fields(h1) == Fields(h2) ==> keccak(Encoding(h1)) == keccak(Encoding(h2))
  {
  }

  /** Two distinct headers can share a hash only through a collision of the digest on distinct inputs. */
  lemma {:induction false} IdentityCollision(h1: Header, h2: Header, keccak: seq<Byte> -> Hash)
    requires Fits(h1) && Fits(h2)
    ensures h1 != h2 && keccak(Encoding(h1)) == keccak(Encoding(h2)) ==> Encoding(h1) != Encoding(h2)
  {
    EncodingInjective(h1, h2);
  }

  /**
   * The legacy Keccak-256 hasher as a stream: the bytes written to it so far.
   * The permutation and padding are not modelled; `digest` stands for them.
   */
  class Keccak256 {
    const digest: seq<Byte> -> Hash
    var written: seq<Byte>

    constructor (digest: seq<Byte> -> Hash)
      ensures this.digest == digest && written == []
    {
      this.digest := digest;
      written := [];
    }

    method Write(p: seq<Byte>)
      modifies this
      ensures written == old(written) + p
    {
      written := written + p;
    }

    function Sum(): Hash
      reads this
    {
      digest(written)
    }
  }

  /** rlpHash: stream the RLP encoding of x into a fresh hasher and take its sum. */
  method RlpHash(x: Item, keccak: seq<Byte> -> Hash) returns (h: Hash)
    requires Encodable(x)
    ensures h == keccak(Encode(x))
  {
    var hw := new Keccak256(keccak);
    hw.Write(Encode(x));
    assert hw.written == Encode(x);
    h := hw.Sum();
  }

  /** Header.Hash. */
  method HeaderHash(h: Header, keccak: seq<Byte> -> Hash) returns (r: Hash)
    requires Fits(h)
    ensures r == keccak(Encoding(h))
  {
    FitsEncodable(h);
    r := RlpHash(List(Fields(h)), keccak);
  }

  /** EmptyUncleHash: the hash of an empty list of headers, whose encoding is the one byte 0xc0. */
  method EmptyUncleHash(keccak: seq<Byte> -> Hash) returns (r: Hash)
    ensures r == keccak([0xc0])
  {
    EmptyList();
    r := RlpHash(List([]), keccak);
  }

  /** Header.Size: headerSize plus the extra data plus the bytes of Difficulty's and Number's bits. */
  function Size(h: Header, headerSize: nat): (s: nat)
    ensures s >= headerSize + |h.extra|
  {
    headerSize + |h.extra| + (BitLen(h.difficulty) + BitLen(h.number)) / 8
  }

  /** Appending to Extra grows the estimate by exactly the appended length. */
  lemma {:induction false} SizeGrowsWithExtra(h: Header, more: seq<Byte>, headerSize: nat)
    ensures Size(h.(extra := h.extra + more), headerSize) == Size(h, headerSize) + |more|
  {
  }

  /** With Difficulty and Number below 2^k, the estimate exceeds headerSize and Extra by at most k / 4 bytes. */
  lemma {:induction false} SizeBound(h: Header, headerSize: nat, k: nat)
    requires h.difficulty < Pow2(k) && h.number < Pow2(k)
    ensures headerSize + |h.extra| <= Size(h, headerSize) <= headerSize + |h.extra| + k / 4
  {
    BitLenAtMost(h.difficulty, k);
    BitLenAtMost(h.number, k);
    var b := BitLen(h.difficulty) + BitLen(h.number);
    assert b <= 2 * k;
    assert b / 8 <= (2 * k) / 8;
    assert (2 * k) / 8 == k / 4;
  }
}
