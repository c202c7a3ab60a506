/**
 * The hexadecimal text codecs the core calls (the hexutil package and the
 * encoding/hex routines beneath it): `0x`-prefixed, lower-case on output,
 * either case on input.
 */
module HexUtil {
  import opened Binary
  import opened Wrappers

  /** The hexutil errors that the modelled calls can return. */
  datatype HexError =
    | EmptyString     // ErrEmptyString
    | MissingPrefix   // ErrMissingPrefix
    | OddLength       // ErrOddLength
    | Syntax          // ErrSyntax: a character that is not a hex digit
    | WrongLength(got: nat, want: nat, typeName: string)  // fixed-size target, wrong digit count

  predicate IsHexDigit(c: char) {
    '0' <= c <= '9' || 'a' <= c <= 'f' || 'A' <= c <= 'F'
  }

  predicate AllHex(s: string) {
    forall i :: 0 <= i < |s| ==> IsHexDigit(s[i])
  }

  function DigitValue(c: char): (v: nat)
    requires IsHexDigit(c)
    ensures v < 16
  {
    if c <= '9' then c as int - '0' as int
    else if c >= 'a' then c as int - 'a' as int + 10
    else c as int - 'A' as int + 10
  }

  /** The lower-case digit for v, as hex.Encode writes it. */
  function LowerDigit(v: nat): (c: char)
    requires v < 16
    ensures IsHexDigit(c) && DigitValue(c) == v
    ensures ToLower(c) == c
  {
    if v < 10 then ('0' as int + v) as char else ('a' as int + v - 10) as char
  }

  /** ASCII lower-casing of one character. */
  function ToLower(c: char): char {
    if 'A' <= c <= 'Z' then (c as int + 32) as char else c
  }

  function LowerString(s: string): (r: string) {
    seq(|s|, i requires 0 <= i < |s| => ToLower(s[i]))
  }

  /** No character of s is an upper-case letter. */
  predicate IsLower(s: string) {
    forall i :: 0 <= i < |s| ==> ToLower(s[i]) == s[i]
  }

  lemma {:induction false} LowerDigitOfValue(c: char)
    requires IsHexDigit(c)
    ensures LowerDigit(DigitValue(c)) == ToLower(c)
  {
  }

  /** hex.Encode: two lower-case digits per byte, high nibble first. */
  function EncodeHex(bs: seq<Byte>): (s: string)
    ensures |s| == 2 * |bs|
    ensures forall k :: 0 <= k < |bs| ==> s[2 * k] == LowerDigit(bs[k] / 16) && s[2 * k + 1] == LowerDigit(bs[k] % 16)
  {
    seq(2 * |bs|, i requires 0 <= i < 2 * |bs| =>
      if i % 2 == 0 then LowerDigit(bs[i / 2] / 16) else LowerDigit(bs[i / 2] % 16))
  }

  /** hex.Encode writes only lower-case hex digits. */
  lemma {:induction false} EncodeHexLower(bs: seq<Byte>)
    ensures AllHex(EncodeHex(bs)) && IsLower(EncodeHex(bs))
  {
    var s := EncodeHex(bs);
    forall i | 0 <= i < |s|
      ensures IsHexDigit(s[i]) && ToLower(s[i]) == s[i]
    {
      var k := i / 2;
      assert i == 2 * k || i == 2 * k + 1;
    }
  }

  /** The bytes denoted by an even-length string of hex digits, one per digit pair. */
  function DecodePairs(s: string): (bs: seq<Byte>)
    requires AllHex(s) && |s| % 2 == 0
    ensures |bs| == |s| / 2
    ensures forall k :: 0 <= k < |bs| ==> bs[k] == 16 * DigitValue(s[2 * k]) + DigitValue(s[2 * k + 1])
  {
    if s == [] then [] else [16 * DigitValue(s[0]) + DigitValue(s[1])] + DecodePairs(s[2..])
  }

  /**
   * hex.DecodeString with hexutil's error mapping: any character that is not a
   * hex digit is a syntax error (checked before the length), otherwise an odd
   * number of digits is an error.
   */
  function DecodeDigits(s: string): (r: Result<seq<Byte>, HexError>)
    ensures r.Success? <==> AllHex(s) && |s| % 2 == 0
    ensures r.Success? ==> 2 * |r.value| == |s|
    ensures r.Failure? ==> r.error == (if AllHex(s) then OddLength else Syntax)
  {
    if !AllHex(s) then Failure(Syntax)
    else if |s| % 2 == 1 then Failure(OddLength)
    else Success(DecodePairs(s))
  }

  predicate Has0xPrefix(s: string) {
    |s| >= 2 && s[0] == '0' && (s[1] == 'x' || s[1] == 'X')
  }

  /** hexutil.Decode: a non-empty, `0x`- or `0X`-prefixed, even-length hex string. */
  function Decode(input: string): (r: Result<seq<Byte>, HexError>)
    ensures r == Failure(EmptyString) <==> |input| == 0
    ensures r == Failure(MissingPrefix) <==> |input| > 0 && !Has0xPrefix(input)
    ensures r.Success? ==> Has0xPrefix(input) && 2 * |r.value| == |input| - 2
  {
    if |input| == 0 then Failure(EmptyString)
    else if !Has0xPrefix(input) then Failure(MissingPrefix)
    else DecodeDigits(input[2..])
  }

  /** hexutil.Bytes.MarshalText. */
  function MarshalBytes(bs: seq<Byte>): (s: string)
    ensures |s| == 2 + 2 * |bs| && s[..2] == "0x" && s[2..] == EncodeHex(bs)
    ensures AllHex(s[2..]) && IsLower(s[2..]) && IsAscii(s)
  {
    var s := "0x" + EncodeHex(bs);
    assert s[2..] == EncodeHex(bs);
    EncodeHexLower(bs);
    PrefixedHexAscii(s);
    s
  }

  /** `0x` followed by hex digits is ASCII text. */
  lemma {:induction false} PrefixedHexAscii(s: string)
    requires |s| >= 2 && s[..2] == "0x" && AllHex(s[2..])
    ensures IsAscii(s)
  {
    forall i | 0 <= i < |s|
      ensures s[i] as int < 128
    {
      if i >= 2 {
        assert s[i] == s[2..][i - 2];
      } else {
        assert s[i] == s[..2][i];
      }
    }
  }

  /** Every character of s is ASCII, so its UTF-8 bytes are its character codes. */
  predicate IsAscii(s: string) {
    forall i :: 0 <= i < |s| ==> s[i] as int < 128
  }

  /** The bytes of an ASCII text, one per character. */
  function TextBytes(s: string): (bs: seq<Byte>)
    requires IsAscii(s)
    ensures |bs| == |s|
    ensures forall i :: 0 <= i < |s| ==> bs[i] == s[i] as int
    ensures ByteChars(bs) == s
  {
    var bs: seq<Byte> := seq(|s|, i requires 0 <= i < |s| => s[i] as int);
    assert forall i :: 0 <= i < |s| ==> ByteChars(bs)[i] == s[i];
    bs
  }

  /**
   * Each byte read as the character with that code. ASCII bytes become their
   * own characters; a byte from 0x80 up becomes a character that is not a hex
   * digit, just as encoding/hex rejects it.
   */
  function ByteChars(bs: seq<Byte>): (s: string)
    ensures |s| == |bs|
    ensures forall i :: 0 <= i < |bs| ==> s[i] as int == bs[i]
  {
    seq(|bs|, i requires 0 <= i < |bs| => bs[i] as char)
  }

  lemma {:induction false} ByteCharsSlice(bs: seq<Byte>, k: nat)
    requires k <= |bs|
    ensures ByteChars(bs[k..]) == ByteChars(bs)[k..]
  {
    assert forall i :: 0 <= i < |bs| - k ==> ByteChars(bs[k..])[i] == ByteChars(bs)[k..][i];
  }

  /** hexutil's bytesHave0xPrefix: the bytes of `0x` or `0X`. */
  predicate Has0xPrefixBytes(input: seq<Byte>) {
    |input| >= 2 && input[0] == '0' as int && (input[1] == 'x' as int || input[1] == 'X' as int)
  }

  /**
   * hexutil's checkText on the input bytes: strips the prefix (required when
   * wantPrefix) and rejects an odd number of remaining bytes; empty input
   * passes with no digits.
   */
  function CheckText(input: seq<Byte>, wantPrefix: bool): (r: Result<seq<Byte>, HexError>)
    ensures r.Success? ==> |r.value| % 2 == 0 && |r.value| <= |input| && r.value == input[|input| - |r.value|..]
    ensures r.Success? && wantPrefix && |input| > 0 ==> Has0xPrefixBytes(input) && r.value == input[2..]
    ensures r.Failure? ==> r.error == MissingPrefix || r.error == OddLength
  {
    if |input| == 0 then Success([])
    else
      var raw :- if Has0xPrefixBytes(input) then Success(input[2..])
                 else if wantPrefix then Failure(MissingPrefix)
                 else Success(input);
      if |raw| % 2 != 0 then Failure(OddLength) else Success(raw)
  }

  /**
   * The checks of hexutil.UnmarshalFixedText, which decodes into a buffer of
   * `size` bytes: prefix and even length, then the digit count, then the
   * syntax of every digit; all lengths count bytes. On success the result is
   * the validated digits.
   */
  function CheckFixedText(typeName: string, input: seq<Byte>, size: nat): (r: Result<string, HexError>)
    ensures r.Success? ==> AllHex(r.value) && |r.value| == 2 * size
    ensures r.Success? && size > 0 ==> Has0xPrefixBytes(input) && r.value == ByteChars(input[2..])
  {
    var raw :- CheckText(input, true);
    if |raw| / 2 != size then Failure(WrongLength(|raw|, 2 * size, typeName))
    else if !AllHex(ByteChars(raw)) then Failure(Syntax)
    else Success(ByteChars(raw))
  }

  /** hexutil.UnmarshalFixedText as a value: the bytes it would write, or its error. */
  function UnmarshalFixedText(typeName: string, input: seq<Byte>, size: nat): (r: Result<seq<Byte>, HexError>)
    ensures r.Success? ==> |r.value| == size
  {
    var raw :- CheckFixedText(typeName, input, size);
    Success(DecodePairs(raw))
  }

  lemma {:induction false} DecodeEncodeHex(bs: seq<Byte>)
    ensures AllHex(EncodeHex(bs)) && DecodePairs(EncodeHex(bs)) == bs
  {
    EncodeHexLower(bs);
    DivUnique(|EncodeHex(bs)|, 2, |bs|, 0);
    var r := DecodePairs(EncodeHex(bs));
    forall k | 0 <= k < |bs|
      ensures r[k] == bs[k]
    {
      DecodeEncodePair(bs, k);
    }
  }

  lemma {:induction false} DecodeEncodePair(bs: seq<Byte>, k: nat)
    requires k < |bs|
    ensures AllHex(EncodeHex(bs)) && DecodePairs(EncodeHex(bs))[k] == bs[k]
  {
    EncodeHexLower(bs);
    var s := EncodeHex(bs);
    DivUnique(|s|, 2, |bs|, 0);
    var b := bs[k];
    var hi, lo := b / 16, b % 16;
    assert s[2 * k] == LowerDigit(hi) && s[2 * k + 1] == LowerDigit(lo);
    assert DigitValue(s[2 * k]) == hi && DigitValue(s[2 * k + 1]) == lo;
    assert DecodePairs(s)[k] == 16 * hi + lo;
  }

  lemma {:induction false} EncodeDecodeHex(s: string)
    requires AllHex(s) && |s| % 2 == 0
    ensures EncodeHex(DecodePairs(s)) == LowerString(s)
  {
    var e, l := EncodeHex(DecodePairs(s)), LowerString(s);
    assert |e| == |s| == |l|;
    forall i | 0 <= i < |s|
      ensures e[i] == l[i]
    {
      var k := i / 2;
      EncodeDecodePair(s, k);
      assert i == 2 * k || i == 2 * k + 1;
    }
  }

  lemma {:induction false} EncodeDecodePair(s: string, k: nat)
    requires AllHex(s) && |s| % 2 == 0 && k < |s| / 2
    ensures EncodeHex(DecodePairs(s))[2 * k] == ToLower(s[2 * k])
    ensures EncodeHex(DecodePairs(s))[2 * k + 1] == ToLower(s[2 * k + 1])
  {
    var b := DecodePairs(s)[k];
    var hi, lo := DigitValue(s[2 * k]), DigitValue(s[2 * k + 1]);
    DivUnique(b, 16, hi, lo);
    LowerDigitOfValue(s[2 * k]);
    LowerDigitOfValue(s[2 * k + 1]);
  }

  /** hexutil.Decode inverts Bytes.MarshalText. */
  lemma {:induction false} DecodeMarshalBytes(bs: seq<Byte>)
    ensures Decode(MarshalBytes(bs)) == Success(bs)
  {
    var s := MarshalBytes(bs);
    assert s[0] == '0' && s[1] == 'x' by {
      assert s[..2] == "0x";
    }
    DecodeDigitsOfHex(bs);
  }

  lemma {:induction false} DecodeDigitsOfHex(bs: seq<Byte>)
    ensures DecodeDigits(EncodeHex(bs)) == Success(bs)
  {
    var s := EncodeHex(bs);
    EncodeHexLower(bs);
    DivUnique(|s|, 2, |bs|, 0);
    assert AllHex(s) && |s| % 2 == 0;
    assert DecodeDigits(s) == Success(DecodePairs(s));
    DecodeEncodeHex(bs);
  }

  /** What hexutil.Decode accepts, and that its result re-encodes to the input's digits. */
  lemma {:induction false} DecodeAccepts(input: string)
    ensures Decode(input).Success? <==> Has0xPrefix(input) && AllHex(input[2..]) && |input[2..]| % 2 == 0
    ensures Decode(input).Success? ==> MarshalBytes(Decode(input).value) == "0x" + LowerString(input[2..])
  {
    if Has0xPrefix(input) {
      var d := input[2..];
      assert Decode(input) == DecodeDigits(d);
      if AllHex(d) && |d| % 2 == 0 {
        assert Decode(input) == Success(DecodePairs(d));
        EncodeDecodeHex(d);
        assert MarshalBytes(DecodePairs(d)) == "0x" + EncodeHex(DecodePairs(d));
      }
    }
  }

  /** UnmarshalFixedText inverts Bytes.MarshalText at the marshalled size. */
  lemma {:induction false} UnmarshalFixedMarshal(typeName: string, bs: seq<Byte>)
    ensures IsAscii(MarshalBytes(bs))
    ensures UnmarshalFixedText(typeName, TextBytes(MarshalBytes(bs)), |bs|) == Success(bs)
  {
    var s := MarshalBytes(bs);
    var input := TextBytes(s);
    assert s[0] == '0' && s[1] == 'x' by {
      assert s[..2] == "0x";
    }
    ByteCharsSlice(input, 2);
    assert ByteChars(input[2..]) == EncodeHex(bs);
    assert CheckText(input, true) == Success(input[2..]);
    DecodeEncodeHex(bs);
  }

  /**
   * For a non-empty target, UnmarshalFixedText accepts exactly the bytes of
   * `0x` (or `0X`) followed by 2 * size hex digits of either case; the result
   * has size bytes and marshals back to the input up to case.
   */
  lemma {:induction false} UnmarshalFixedAccepts(typeName: string, input: seq<Byte>, size: nat)
    requires size > 0
    ensures UnmarshalFixedText(typeName, input, size).Success?
        <==> |input| == 2 + 2 * size && Has0xPrefixBytes(input) && AllHex(ByteChars(input[2..]))
    ensures UnmarshalFixedText(typeName, input, size).Success? ==>
              var bs := UnmarshalFixedText(typeName, input, size).value;
              |bs| == size && MarshalBytes(bs) == "0x" + LowerString(ByteChars(input[2..]))
  {
    if UnmarshalFixedText(typeName, input, size).Success? {
      EncodeDecodeHex(ByteChars(input[2..]));
    }
  }

  /** The error cases of UnmarshalFixedText, in the order it checks them, on byte counts. */
  lemma {:induction false} UnmarshalFixedErrors(typeName: string, input: seq<Byte>, size: nat)
    requires size > 0
    ensures |input| > 0 && !Has0xPrefixBytes(input) ==> UnmarshalFixedText(typeName, input, size) == Failure(MissingPrefix)
    ensures Has0xPrefixBytes(input) && |input| % 2 == 1 ==> UnmarshalFixedText(typeName, input, size) == Failure(OddLength)
    ensures (|input| == 0 || (Has0xPrefixBytes(input) && |input| % 2 == 0)) && |input| != 2 + 2 * size ==>
              UnmarshalFixedText(typeName, input, size).Failure? &&
              UnmarshalFixedText(typeName, input, size).error.WrongLength?
    ensures |input| == 2 + 2 * size && Has0xPrefixBytes(input) && !AllHex(ByteChars(input[2..])) ==>
              UnmarshalFixedText(typeName, input, size) == Failure(Syntax)
  {
  }

  /** big.Int.Text(16) of a non-negative integer: lower-case digits, no leading zero. */
  function HexText(n: nat): (s: string)
    ensures |s| >= 1 && AllHex(s) && IsLower(s)
    ensures n > 0 ==> s[0] != '0'
  {
    if n < 16 then [LowerDigit(n)] else HexText(n / 16) + [LowerDigit(n % 16)]
  }

  /** The number denoted by hex digits, most significant first. */
  function HexValue(s: string): nat
    requires AllHex(s)
  {
    if s == [] then 0 else HexValue(s[..|s| - 1]) * 16 + DigitValue(s[|s| - 1])
  }

  lemma {:induction false} HexValueOfText(n: nat)
    ensures HexValue(HexText(n)) == n
  {
    var s := HexText(n);
    if n >= 16 {
      assert s[..|s| - 1] == HexText(n / 16);
      HexValueOfText(n / 16);
    }
  }

  /** hexutil.EncodeBig: `0x0` for zero, otherwise `0x` (after a `-` when negative) and the digits. */
  function EncodeBig(n: int): (s: string)
    ensures |s| >= 3 && (s[0] == '0' || s[0] == '-')
    ensures n >= 0 ==> s[..2] == "0x" && AllHex(s[2..]) && HexValue(s[2..]) == n
    ensures n < 0 ==> s[..3] == "-0x" && AllHex(s[3..]) && HexValue(s[3..]) == -n
    ensures n == 0 ==> s == "0x0"
    ensures n > 0 ==> IsLower(s[2..]) && s[2] != '0'
    ensures n < 0 ==> IsLower(s[3..]) && s[3] != '0'
  {
    if n == 0 then "0x0"
    else if n > 0 then (HexValueOfText(n); "0x" + HexText(n))
    else (HexValueOfText(-n); "-0x" + HexText(-n))
  }
}
