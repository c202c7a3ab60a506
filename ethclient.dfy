/**
 * The two argument builders of the Ethereum-style client (ethclient/ethclient.go)
 * that shape what is sent over JSON-RPC: the call-message map of an `eth_call`
 * and the block-number argument.
 */
module EthClient {
  import opened Binary
  import opened Wrappers
  import opened Common
  import opened HexUtil

  /**
   * A contract-call message. `to` and the two big integers are pointers in Go
   * (None is nil); the data is a byte slice, of which only the length is tested.
   */
  datatype CallMsg = CallMsg(
    from: Address,
    to: Option<Address>,
    gas: U64,
    gasPrice: Option<int>,
    value: Option<int>,
    data: seq<Byte>)

  /** The dynamic types the call-argument map holds, each marshalled in its own way. */
  datatype ArgValue =
    | AddressValue(addr: Address)            // common.Address
    | AddressPointer(ptr: Option<Address>)   // *common.Address, nil marshals as null
    | HexBytes(bytes: seq<Byte>)             // hexutil.Bytes
    | HexBig(big: int)                       // *hexutil.Big
    | HexUint64(n: U64)                      // hexutil.Uint64

  /** The six keys a call argument can have. */
  const CallArgKeys: set<string> := {"from", "to", "data", "value", "gas", "gasPrice"}

  /**
   * Reads a call message back out of a call-argument map: from and to must be
   * there; a missing optional key stands for empty data, a nil value or gas
   * price, and zero gas.
   */
  function FromCallArg(arg: map<string, ArgValue>): (m: Option<CallMsg>)
    ensures m.Some? ==> "from" in arg && "to" in arg
  {
    if "from" in arg && arg["from"].AddressValue? && "to" in arg && arg["to"].AddressPointer? then
      var data := if "data" in arg && arg["data"].HexBytes? then arg["data"].bytes else [];
      var value := if "value" in arg && arg["value"].HexBig? then Some(arg["value"].big) else None;
      var gas := if "gas" in arg && arg["gas"].HexUint64? then arg["gas"].n else 0;
      var gasPrice := if "gasPrice" in arg && arg["gasPrice"].HexBig? then Some(arg["gasPrice"].big) else None;
      Some(CallMsg(arg["from"].addr, arg["to"].ptr, gas, gasPrice, value, data))
    else None
  }

  /**
   * toCallArg: from and to always, then data, value, gas and gasPrice each only
   * when set (non-empty, non-nil, non-zero, non-nil).
   */
  method ToCallArg(msg: CallMsg) returns (arg: map<string, ArgValue>)
    ensures arg.Keys <= CallArgKeys && 2 <= |arg| <= 6
    ensures "from" in arg && arg["from"] == AddressValue(msg.from)
    ensures "to" in arg && arg["to"] == AddressPointer(msg.to)
    ensures "data" in arg <==> |msg.data| > 0
    ensures "data" in arg ==> arg["data"] == HexBytes(msg.data)
    ensures "value" in arg <==> msg.value.Some?
    ensures "value" in arg ==> arg["value"] == HexBig(msg.value.value)
    ensures "gas" in arg <==> msg.gas != 0
    ensures "gas" in arg ==> arg["gas"] == HexUint64(msg.gas)
    ensures "gasPrice" in arg <==> msg.gasPrice.Some?
    ensures "gasPrice" in arg ==> arg["gasPrice"] == HexBig(msg.gasPrice.value)
    ensures FromCallArg(arg) == Some(msg)
  {
    arg := map["from" := AddressValue(msg.from), "to" := AddressPointer(msg.to)];
    if |msg.data| > 0 {
      arg := arg["data" := HexBytes(msg.data)];
    }
    if msg.value.Some? {
      arg := arg["value" := HexBig(msg.value.value)];
    }
    if msg.gas != 0 {
      arg := arg["gas" := HexUint64(msg.gas)];
    }
    if msg.gasPrice.Some? {
      arg := arg["gasPrice" := HexBig(msg.gasPrice.value)];
    }
    assert {"from", "to"} <= arg.Keys;
    SubsetSize({"from", "to"}, arg.Keys);
    SubsetSize(arg.Keys, CallArgKeys);
    ReadBack(msg, arg);
  }

  /** A map holding the message's fields under toCallArg's key rules reads back as the message. */
  lemma {:induction false} ReadBack(msg: CallMsg, arg: map<string, ArgValue>)
    requires "from" in arg && arg["from"] == AddressValue(msg.from)
    requires "to" in arg && arg["to"] == AddressPointer(msg.to)
    requires "data" in arg <==> |msg.data| > 0
    requires "data" in arg ==> arg["data"] == HexBytes(msg.data)
    requires "value" in arg <==> msg.value.Some?
    requires "value" in arg ==> arg["value"] == HexBig(msg.value.value)
    requires "gas" in arg <==> msg.gas != 0
    requires "gas" in arg ==> arg["gas"] == HexUint64(msg.gas)
    requires "gasPrice" in arg <==> msg.gasPrice.Some?
    requires "gasPrice" in arg ==> arg["gasPrice"] == HexBig(msg.gasPrice.value)
    ensures FromCallArg(arg) == Some(msg)
  {
    var m := FromCallArg(arg).value;
    assert m.data == msg.data;
    assert m.value == msg.value;
    assert m.gas == msg.gas;
    assert m.gasPrice == msg.gasPrice;
  }

  lemma {:induction false} SubsetSize<T>(a: set<T>, b: set<T>)
    requires a <= b
    ensures |a| <= |b|
  {
    assert b == a + (b - a);
  }

  /** toBlockNumArg: nil is the "latest" block, a number is its EncodeBig text. */
  function ToBlockNumArg(number: Option<int>): (s: string)
    ensures s == "latest" <==> number.None?
    ensures number.Some? ==> |s| >= 3
    ensures number.Some? && number.value >= 0 ==> s[..2] == "0x" && AllHex(s[2..]) && HexValue(s[2..]) == number.value
    ensures number.Some? && number.value < 0 ==> s[..3] == "-0x" && AllHex(s[3..]) && HexValue(s[3..]) == -number.value
    ensures number == Some(0) ==> s == "0x0"
    ensures number.Some? && number.value > 0 ==> IsLower(s[2..]) && s[2] != '0'
    ensures number.Some? && number.value < 0 ==> IsLower(s[3..]) && s[3] != '0'
  {
    match number
    case None => "latest"
    case Some(n) => EncodeBig(n)
  }

  /** Distinct block numbers, and nil, give distinct arguments. */
  lemma {:induction false} ToBlockNumArgInjective(a: Option<int>, b: Option<int>)
    ensures ToBlockNumArg(a) == ToBlockNumArg(b) ==> a == b
  {
    var sa, sb := ToBlockNumArg(a), ToBlockNumArg(b);
    if sa == sb && a.Some? && b.Some? {
      if a.value >= 0 && b.value >= 0 {
        assert sa[2..] == sb[2..];
      } else if a.value < 0 && b.value < 0 {
        assert sa[3..] == sb[3..];
      }
    }
  }
}
