/**
 * The channel sub-protocol's frame types and correlation sequences
 * (rpc/channel.go). A correlation sequence is 16 raw bytes: either decoded
 * from a UUID text (the UUID source is not modelled; its text is a
 * parameter) or the reserved all-zero sequence.
 */
module Channel {
  import opened Binary
  import opened Wrappers
  import opened HexUtil

  /** The ChannelPack frame-type constants. */
  datatype ChannelPack =
    | Rpc             // TYPE_RPC
    | Heartbeat       // TYPE_HEATBEAT
    | AmopRequest     // TYPE_AMOP_REQ
    | AmopResponse    // TYPE_AMOP_RESP
    | TopicReport     // TYPE_TOPIC_REPORT
    | TopicMulticast  // TYPE_TOPIC_MULTICAST
    | TxCommitted     // TYPE_TX_COMMITTED
    | TxBlockNumber   // TYPE_TX_BLOCKNUM

  /** The numeric tag of each frame type. */
  function Code(p: ChannelPack): (c: nat)
    ensures 0x12 <= c <= 0x35 || c == 0x1000 || c == 0x1001
    ensures c >= 0x1000 <==> p == TxCommitted || p == TxBlockNumber
  {
    match p
    case Rpc => 0x12
    case Heartbeat => 0x13
    case AmopRequest => 0x30
    case AmopResponse => 0x31
    case TopicReport => 0x32
    case TopicMulticast => 0x35
    case TxCommitted => 0x1000
    case TxBlockNumber => 0x1001
  }

  /** The frame type a tag denotes; a tag outside the table is no type at all. */
  function FromCode(c: int): (r: Option<ChannelPack>)
    ensures r.Some? ==> Code(r.value) == c
    ensures r.None? ==> forall p :: Code(p) != c
  {
    if c == 0x12 then Some(Rpc)
    else if c == 0x13 then Some(Heartbeat)
    else if c == 0x30 then Some(AmopRequest)
    else if c == 0x31 then Some(AmopResponse)
    else if c == 0x32 then Some(TopicReport)
    else if c == 0x35 then Some(TopicMulticast)
    else if c == 0x1000 then Some(TxCommitted)
    else if c == 0x1001 then Some(TxBlockNumber)
    else None
  }

  /** The eight codes are pairwise distinct, so FromCode inverts Code. */
  lemma {:induction false} CodeInjective(p: ChannelPack, q: ChannelPack)
    ensures Code(p) == Code(q) ==> p == q
    ensures FromCode(Code(p)) == Some(p)
  {
  }

  lemma {:induction false} CodeExamples()
    ensures FromCode(0x13) == Some(Heartbeat)
    ensures FromCode(0x1001) == Some(TxBlockNumber)
    ensures FromCode(0x99) == None
  {
  }

  /** The number of occurrences of c in s. */
  function Count(s: string, c: char): nat
  {
    if s == [] then 0 else (if s[0] == c then 1 else 0) + Count(s[1..], c)
  }

  /** s with every occurrence of c removed. */
  function Without(s: string, c: char): (r: string)
    ensures |r| == |s| - Count(s, c)
  {
    if s == [] then [] else (if s[0] == c then [] else [s[0]]) + Without(s[1..], c)
  }

  /** Removing c keeps exactly the other characters. */
  lemma {:induction false} WithoutMembers(s: string, c: char)
    ensures forall x :: x in Without(s, c) <==> x in s && x != c
  {
    if s != [] {
      WithoutMembers(s[1..], c);
      assert s == [s[0]] + s[1..];
    }
  }

  /** strings.Split with a one-character separator: n separators give the n + 1 pieces between them, in order. */
  function Split(s: string, sep: char): (parts: seq<string>)
    ensures |parts| == Count(s, sep) + 1
    ensures forall i :: 0 <= i < |parts| ==> sep !in parts[i]
  {
    if s == [] then [""]
    else
      var rest := Split(s[1..], sep);
      if s[0] == sep then [""] + rest else [[s[0]] + rest[0]] + rest[1..]
  }

  /** strings.Join with a one-character separator. */
  function Join(parts: seq<string>, sep: char): string
  {
    if parts == [] then ""
    else if |parts| == 1 then parts[0]
    else parts[0] + [sep] + Join(parts[1..], sep)
  }

  /** The pieces concatenated in order, as GenMsgSeq's loop appends them. */
  function Concat(parts: seq<string>): (r: string)
    ensures |parts| == 1 ==> r == parts[0]
    ensures forall c :: c in r ==> exists i :: 0 <= i < |parts| && c in parts[i]
  {
    if parts == [] then "" else Concat(parts[..|parts| - 1]) + parts[|parts| - 1]
  }

  /** Joining the pieces of a split with the same separator gives the text back. */
  lemma {:induction false} JoinSplit(s: string, sep: char)
    ensures Join(Split(s, sep), sep) == s
  {
    if s != [] {
      var rest := Split(s[1..], sep);
      JoinSplit(s[1..], sep);
      if s[0] == sep {
        assert ([""] + rest)[1..] == rest;
      } else {
        var parts := [[s[0]] + rest[0]] + rest[1..];
        assert parts[1..] == rest[1..];
        if |rest| > 1 {
          assert Join(rest, sep) == rest[0] + [sep] + Join(rest[1..], sep);
        }
      }
    }
  }

  lemma {:induction false} ConcatAppend(a: seq<string>, b: seq<string>)
    ensures Concat(a + b) == Concat(a) + Concat(b)
  {
    if b == [] {
      assert a + b == a;
    } else {
      var init := b[..|b| - 1];
      ConcatAppend(a, init);
      assert (a + b)[..|a + b| - 1] == a + init;
    }
  }

  lemma {:induction false} ConcatCons(a: string, rest: seq<string>)
    ensures Concat([a] + rest) == a + Concat(rest)
  {
    ConcatAppend([a], rest);
    assert [a][..0] == [];
  }

  /** Concatenating the pieces of a split removes exactly the separators. */
  lemma {:induction false} ConcatSplit(s: string, sep: char)
    ensures Concat(Split(s, sep)) == Without(s, sep)
  {
    if s != [] {
      var rest := Split(s[1..], sep);
      ConcatSplit(s[1..], sep);
      assert Concat(rest) == Without(s[1..], sep);
      if s[0] == sep {
        ConcatCons("", rest);
        assert Split(s, sep) == [""] + rest;
      } else {
        var head := [s[0]] + rest[0];
        ConcatCons(head, rest[1..]);
        ConcatCons(rest[0], rest[1..]);
        assert rest == [rest[0]] + rest[1..];
        assert Split(s, sep) == [head] + rest[1..];
        assert Without(s, sep) == [s[0]] + Without(s[1..], sep);
      }
    }
  }

  lemma {:induction false} WithoutAppend(a: string, b: string, c: char)
    ensures Without(a + b, c) == Without(a, c) + Without(b, c)
  {
    if a == [] {
      assert a + b == b;
    } else {
      assert (a + b)[1..] == a[1..] + b;
      WithoutAppend(a[1..], b, c);
    }
  }

  lemma {:induction false} WithoutAbsent(s: string, c: char)
    requires c !in s
    ensures Without(s, c) == s
  {
    if s != [] {
      WithoutAbsent(s[1..], c);
    }
  }

  /** ASCII upper-casing (strings.ToUpper on the characters that can be hex digits). */
  function ToUpperChar(c: char): char {
    if 'a' <= c <= 'z' then (c as int - 32) as char else c
  }

  function ToUpper(s: string): (r: string)
    ensures |r| == |s|
    ensures forall i :: 0 <= i < |s| ==> ('a' <= s[i] <= 'z' ==> 'A' <= r[i] <= 'Z' && r[i] as int == s[i] as int - 32)
    ensures forall i :: 0 <= i < |s| ==> (!('a' <= s[i] <= 'z') ==> r[i] == s[i])
  {
    seq(|s|, i requires 0 <= i < |s| => ToUpperChar(s[i]))
  }

  /** Upper-casing changes neither which characters are hex digits nor their values. */
  lemma {:induction false} UpperDigit(c: char)
    ensures IsHexDigit(ToUpperChar(c)) <==> IsHexDigit(c)
    ensures IsHexDigit(c) ==> DigitValue(ToUpperChar(c)) == DigitValue(c)
  {
  }

  /** Upper-casing the text before hexutil.Decode changes neither the bytes nor the error. */
  lemma {:induction false} DecodeIgnoresCase(s: string)
    ensures Decode(ToUpper(s)) == Decode(s)
  {
    var u := ToUpper(s);
    if Has0xPrefix(s) {
      var t, v := s[2..], u[2..];
      assert |v| == |t|;
      forall i | 0 <= i < |t|
        ensures v[i] == ToUpperChar(t[i])
      {
      }
      forall i | 0 <= i < |t|
        ensures IsHexDigit(v[i]) <==> IsHexDigit(t[i])
      {
        UpperDigit(t[i]);
      }
      assert AllHex(v) <==> AllHex(t);
      if AllHex(t) && |t| % 2 == 0 {
        var x, y := DecodePairs(v), DecodePairs(t);
        assert |x| == |y|;
        forall k | 0 <= k < |y|
          ensures x[k] == y[k]
        {
          UpperDigit(t[2 * k]);
          UpperDigit(t[2 * k + 1]);
        }
        assert x == y;
        assert Decode(u) == Success(x);
      }
    }
  }

  /**
   * GenMsgSeq with the UUID text as a parameter: split the text at its dashes,
   * append the pieces to "0X", upper-case, and hex-decode.
   */
  method GenMsgSeq(uuidText: string) returns (r: Result<seq<Byte>, HexError>)
    ensures r == DecodeDigits(Without(uuidText, '-'))
  {
    var splited := Split(uuidText, '-');
    var uid := "0X";
    for i := 0 to |splited|
      invariant uid == "0X" + Concat(splited[..i])
    {
      assert splited[..i + 1][..i] == splited[..i];
      uid := uid + splited[i];
    }
    assert splited[..|splited|] == splited;
    ConcatSplit(uuidText, '-');
    DecodeIgnoresCase(uid);
    assert uid[2..] == Without(uuidText, '-');
    r := Decode(ToUpper(uid));
  }

  /** The literal GenZeroSeq decodes: `0x` and thirty-two `0` digits. */
  const ZeroSeqText: string := "0x" + seq(32, _ => '0')

  /** GenZeroSeq: always 16 zero bytes, never an error. */
  function GenZeroSeq(): (r: Result<seq<Byte>, HexError>)
    ensures r == Success(Zeros(16))
  {
    ZeroDigits(16);
    assert ZeroSeqText[2..] == seq(2 * 16, _ => '0');
    Decode(ZeroSeqText)
  }

  /** 2n zero digits decode to n zero bytes. */
  lemma {:induction false} ZeroDigits(n: nat)
    ensures AllHex(seq(2 * n, _ => '0'))
    ensures DecodePairs(seq(2 * n, _ => '0')) == Zeros(n)
  {
    var s := seq(2 * n, _ => '0');
    assert AllHex(s);
    var bs := DecodePairs(s);
    assert forall k :: 0 <= k < n ==> bs[k] == 0;
  }

  predicate IsDashPosition(i: int) {
    i == 8 || i == 13 || i == 18 || i == 23
  }

  /** The string form of a UUID in section 3 of RFC 4122: 8-4-4-4-12 hex digits separated by dashes. */
  predicate WellFormedUuid(t: string) {
    |t| == 36 && forall i :: 0 <= i < 36 ==> if IsDashPosition(i) then t[i] == '-' else IsHexDigit(t[i])
  }

  /** A version-4 (random) UUID, section 4.4 of RFC 4122: version digit 4, variant digit 8, 9, a or b. */
  predicate IsVersion4(t: string) {
    WellFormedUuid(t) && t[14] == '4' && t[19] in "89abAB"
  }

  lemma {:induction false} AllHexAbsent(s: string)
    requires AllHex(s)
    ensures '-' !in s
  {
    forall i | 0 <= i < |s|
      ensures s[i] != '-'
    {
      assert IsHexDigit(s[i]);
    }
  }

  lemma {:induction false} AllHexAppend(a: string, b: string)
    requires AllHex(a) && AllHex(b)
    ensures AllHex(a + b)
  {
    forall i | 0 <= i < |a + b|
      ensures IsHexDigit((a + b)[i])
    {
      if i >= |a| {
        assert (a + b)[i] == b[i - |a|];
      }
    }
  }

  /** Removing the dashes from a dash-free group, a dash and a rest leaves the group and the rest without dashes. */
  lemma {:induction false} WithoutGroup(a: string, rest: string)
    requires AllHex(a)
    ensures Without(a + "-" + rest, '-') == a + Without(rest, '-')
  {
    AllHexAbsent(a);
    WithoutAbsent(a, '-');
    assert a + "-" + rest == a + ("-" + rest);
    WithoutAppend(a, "-" + rest, '-');
    assert ("-" + rest)[1..] == rest;
  }

  lemma {:induction false} DashAt(t: string, lo: nat, i: nat)
    requires lo <= i < |t| && t[i] == '-'
    ensures t[lo..] == t[lo..i] + "-" + t[i + 1..]
  {
  }

  lemma {:induction false} UuidGroupHex(t: string, lo: nat, hi: nat)
    requires WellFormedUuid(t) && lo <= hi <= 36
    requires forall i :: lo <= i < hi ==> !IsDashPosition(i)
    ensures AllHex(t[lo..hi])
  {
    forall j | 0 <= j < hi - lo
      ensures IsHexDigit(t[lo..hi][j])
    {
      assert t[lo..hi][j] == t[lo + j];
    }
  }

  /** The digits of a well-formed UUID text are its five groups, in order, without the dashes. */
  lemma {:induction false} UuidDigits(t: string)
    requires WellFormedUuid(t)
    ensures Without(t, '-') == t[..8] + t[9..13] + t[14..18] + t[19..23] + t[24..]
    ensures AllHex(Without(t, '-')) && |Without(t, '-')| == 32
  {
    var a, b, c, d, e := t[..8], t[9..13], t[14..18], t[19..23], t[24..];
    UuidGroups(t);
    var r1, r2, r3 := t[9..], t[14..], t[19..];
    assert Without(t, '-') == a + Without(r1, '-') by {
      DashAt(t, 0, 8);
      assert t == t[0..] && a == t[0..8];
      WithoutGroup(a, r1);
    }
    assert Without(r1, '-') == b + Without(r2, '-') by {
      DashAt(t, 9, 13);
      WithoutGroup(b, r2);
    }
    assert Without(r2, '-') == c + Without(r3, '-') by {
      DashAt(t, 14, 18);
      WithoutGroup(c, r3);
    }
    assert Without(r3, '-') == d + e by {
      DashAt(t, 19, 23);
      WithoutGroup(d, e);
      AllHexAbsent(e);
      WithoutAbsent(e, '-');
    }
    AllHexAppend(a, b);
    AllHexAppend(a + b, c);
    AllHexAppend(a + b + c, d);
    AllHexAppend(a + b + c + d, e);
  }

  /** The five groups of a well-formed UUID text are hex digits. */
  lemma {:induction false} UuidGroups(t: string)
    requires WellFormedUuid(t)
    ensures AllHex(t[..8]) && AllHex(t[9..13]) && AllHex(t[14..18]) && AllHex(t[19..23]) && AllHex(t[24..])
    ensures t[8] == '-' && t[13] == '-' && t[18] == '-' && t[23] == '-'
  {
    UuidGroupHex(t, 0, 8);
    UuidGroupHex(t, 9, 13);
    UuidGroupHex(t, 14, 18);
    UuidGroupHex(t, 19, 23);
    UuidGroupHex(t, 24, 36);
    assert t[..8] == t[0..8] && t[24..] == t[24..36];
  }

  /** For a well-formed UUID text the sequence is 16 bytes, byte k being the value of digit pair (2k, 2k+1). */
  lemma {:induction false} MsgSeqWellFormed(t: string)
    requires WellFormedUuid(t)
    ensures var d := Without(t, '-');
            DecodeDigits(d).Success? && |DecodeDigits(d).value| == 16
            && forall k :: 0 <= k < 16 ==>
                 DecodeDigits(d).value[k] == 16 * DigitValue(d[2 * k]) + DigitValue(d[2 * k + 1])
  {
    UuidDigits(t);
  }

  /**
   * The error cases: a character that is neither a dash nor a hex digit is a
   * syntax error; otherwise an odd number of digits is a length error. The
   * sequence comes out all zero only when every digit of the text is 0: no
   * failure is replaced by the zero sequence.
   */
  lemma {:induction false} MsgSeqOutcome(t: string)
    ensures (exists i :: 0 <= i < |t| && t[i] != '-' && !IsHexDigit(t[i])) ==>
              DecodeDigits(Without(t, '-')) == Failure(Syntax)
    ensures AllHex(Without(t, '-')) && |Without(t, '-')| % 2 == 1 ==>
              DecodeDigits(Without(t, '-')) == Failure(OddLength)
    ensures DecodeDigits(Without(t, '-')).Success? &&
            DecodeDigits(Without(t, '-')).value == Zeros(|Without(t, '-')| / 2) ==>
              forall i :: 0 <= i < |t| && t[i] != '-' ==> t[i] == '0'
  {
    if exists i :: 0 <= i < |t| && t[i] != '-' && !IsHexDigit(t[i]) {
      var i :| 0 <= i < |t| && t[i] != '-' && !IsHexDigit(t[i]);
      SyntaxAt(t, i);
    }
    var d := Without(t, '-');
    if DecodeDigits(d).Success? && DecodeDigits(d).value == Zeros(|d| / 2) {
      ZeroOnlyFromZeros(t);
    }
  }

  lemma {:induction false} SyntaxAt(t: string, i: nat)
    requires i < |t| && t[i] != '-' && !IsHexDigit(t[i])
    ensures DecodeDigits(Without(t, '-')) == Failure(Syntax)
  {
    var d := Without(t, '-');
    WithoutMembers(t, '-');
    assert t[i] in t;
    var j :| 0 <= j < |d| && d[j] == t[i];
    assert !AllHex(d);
  }

  lemma {:induction false} ZeroOnlyFromZeros(t: string)
    requires DecodeDigits(Without(t, '-')).Success?
    requires DecodeDigits(Without(t, '-')).value == Zeros(|Without(t, '-')| / 2)
    ensures forall i :: 0 <= i < |t| && t[i] != '-' ==> t[i] == '0'
  {
    var d := Without(t, '-');
    WithoutMembers(t, '-');
    forall j | 0 <= j < |d|
      ensures d[j] == '0'
    {
      ZeroDigitAt(d, j);
    }
    forall i | 0 <= i < |t| && t[i] != '-'
      ensures t[i] == '0'
    {
      assert t[i] in t;
    }
  }

  /** When an even run of hex digits decodes to zero bytes only, each of its digits is 0. */
  lemma {:induction false} ZeroDigitAt(d: string, j: nat)
    requires AllHex(d) && |d| % 2 == 0 && j < |d|
    requires DecodePairs(d) == Zeros(|d| / 2)
    ensures d[j] == '0'
  {
    var k := j / 2;
    assert j == 2 * k + j % 2;
    assert k < |d| / 2;
    var hi, lo := DigitValue(d[2 * k]), DigitValue(d[2 * k + 1]);
    assert 16 * hi + lo == 0;
    assert hi == 0 && lo == 0;
    if j % 2 == 0 {
      assert j == 2 * k;
    } else {
      assert j == 2 * k + 1;
    }
  }

  /**
   * A version-4 UUID text keeps its version and variant bits in the sequence:
   * the high nibble of byte 6 is 4, the top two bits of byte 8 are 10, and so
   * the sequence is never the reserved zero sequence.
   */
  lemma {:induction false} MsgSeqVersion4(t: string)
    requires IsVersion4(t)
    ensures var r := DecodeDigits(Without(t, '-'));
            r.Success? && |r.value| == 16 && r.value[6] / 16 == 4 && r.value[8] / 64 == 2
            && r != GenZeroSeq()
  {
    var d := Without(t, '-');
    UuidDigits(t);
    MsgSeqWellFormed(t);
    var bs := DecodeDigits(d).value;
    assert d[12] == t[14] && d[16] == t[19];
    var lo6, lo8 := DigitValue(d[13]), DigitValue(d[17]);
    assert bs[6] == 16 * 4 + lo6;
    DivUnique(bs[6], 16, 4, lo6);
    var v := DigitValue(t[19]);
    assert 8 <= v < 12;
    assert bs[8] == 64 * 2 + (16 * (v - 8) + lo8);
    DivUnique(bs[8], 64, 2, 16 * (v - 8) + lo8);
    assert bs[8] != 0;
  }
}
