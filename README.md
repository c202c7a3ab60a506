# go-fiscobcos core: header identity, channel sequences, call arguments

A Dafny model of three small pieces of logic in the FISCO BCOS Go client library.

- **Block headers** (`core/types/block.go`):
  - the 8-byte big-endian `BlockNonce` codec and its `0x`-hex text form;
  - the `Header` record and its RLP pre-image, a 15-item list in declared field order;
  - `Header.Hash` and `rlpHash`, which stream the pre-image into a legacy Keccak-256 hasher;
  - `EmptyUncleHash`;
  - the `Size` memory estimate.
- **Channel sub-protocol** (`rpc/channel.go`):
  - the `ChannelPack` frame-type table;
  - `GenMsgSeq`, which turns a UUID text into a 16-byte correlation sequence;
  - `GenZeroSeq`, the reserved all-zero sequence.
- **RPC argument builders** (`ethclient/ethclient.go`):
  - `toCallArg`, the `eth_call` argument map with conditional keys;
  - `toBlockNumArg`, a block number or `"latest"`.

The supporting code these call is modelled in its own modules:

| module | what it models |
|---|---|
| `Binary` | `encoding/binary.BigEndian`, minimal big-endian integers, `big.Int.BitLen` |
| `HexUtil` | `hexutil.Decode`, `Bytes.MarshalText`, `UnmarshalFixedText`, `EncodeBig`; the `encoding/hex` codec below them |
| `Rlp` | RLP for byte strings, unsigned integers and lists (Appendix B of the Ethereum Yellow Paper) |

These libraries are outside the modelled Go files. Their behaviour follows the upstream go-ethereum packages that this client forks.

Modules and files:

- `wrappers.dfy` (`Option`, `Result`)
- `binary.dfy`
- `common.dfy` (`Hash`, `Address`)
- `hexutil.dfy`
- `rlp.dfy`
- `block.dfy`
- `channel.dfy`
- `ethclient.dfy`

Inputs the code takes from outside are parameters of the model:

- The Keccak-256 digest is a function parameter `keccak`. Every hash property holds whatever that function is.
- The reflection-derived `headerSize` is a parameter of `Size`.
- The UUID text that `uuid.New()` returns is the parameter of `GenMsgSeq`.

`rpc/channel.go:11-20` defines eight `ChannelPack` constants, and the model has exactly those eight.

Go's `UnmarshalText(input []byte)` and `UnmarshalFixedText` count bytes, so the model takes their input as bytes (`seq<Byte>`). A byte is read as the character with its code (`HexUtil.ByteChars`). Bytes from 0x80 up are never hex digits, so a non-ASCII character makes the digits fail the syntax check, while the length checks count its UTF-8 bytes. `hexutil.Decode` also counts the bytes of a Go string, but it checks every digit before the length, so a non-ASCII character is a Syntax error whatever the count; the model keeps its input as text.

## Model

| member | source | states |
|---|---|---|
| Binary.ToBigEndian | core/types/block.go:44 | x is written in exactly `width` bytes |
| Binary.FromBigEndian | core/types/block.go:50 | the value of n bytes is below 256^n |
| Binary.MinimalBigEndian | core/types/block.go:74-78 | the minimal form has no leading zero byte and is empty exactly for zero |
| Binary.BitLen | core/types/block.go:106 | BitLen is 0 exactly for 0 and never exceeds x |
| Binary.FromToBigEndian | core/types/block.go:42-51 | reading back the fixed-width big-endian bytes of x gives x |
| Binary.ToFromBigEndian | core/types/block.go:42-51 | re-encoding the value of any byte string at its own width gives the bytes back |
| Binary.ToBigEndianAt | core/types/block.go:44 | byte k of the width-w encoding is base-256 digit w-1-k of x |
| Binary.ToBigEndianFirst | core/types/block.go:44 | the first byte is x divided by 256^(w-1), the most significant digit |
| Binary.ToBigEndianZero | core/types/block.go:44 | zero encodes as w zero bytes |
| Binary.FromMinimalBigEndian | core/types/block.go:74-78 | the minimal encoding of an integer field reads back as that integer |
| Binary.MinimalBigEndianInjective | core/types/block.go:74-78 | distinct integers have distinct minimal encodings |
| Binary.MinimalFromBigEndian | core/types/block.go:74-78 | a byte string without a leading zero is the minimal encoding of its value |
| Binary.MinimalBigEndianLength | core/types/block.go:76-78 | a value below 256^k has a minimal encoding of at most k bytes (a uint64 at most 8) |
| Binary.BitLenBounds | core/types/block.go:106 | BitLen is 0 exactly for 0, and 2^(n-1) <= x < 2^n otherwise |
| Binary.BitLenAtMost | core/types/block.go:106 | a value below 2^k has at most k significant bits |
| HexUtil.EncodeHex | core/types/block.go:55 | 2 lower-case hex digits per byte, high nibble first |
| HexUtil.EncodeHexLower | core/types/block.go:55 | every character hex.Encode writes is a lower-case hex digit |
| HexUtil.DecodePairs | rpc/channel.go:29 | an even run of hex digits gives half as many bytes, byte k being 16 * digit 2k + digit 2k+1 |
| HexUtil.DecodeDigits | rpc/channel.go:29 | the digits decode exactly when all are hex and their count is even, into half as many bytes; otherwise Syntax if some character is not a hex digit, else OddLength |
| HexUtil.Decode | rpc/channel.go:29 | EmptyString exactly for empty input, MissingPrefix exactly for a non-empty input without `0x`/`0X`, and on success half as many bytes as digits after the prefix |
| HexUtil.MarshalBytes | core/types/block.go:55 | the text is `0x` and 2 lower-case hex digits per byte, all ASCII |
| HexUtil.TextBytes | core/types/block.go:54-55 | an ASCII text's bytes are its character codes, and reading them back as characters gives the text |
| HexUtil.ByteChars | core/types/block.go:59-60 | one character per input byte, with the byte's code |
| HexUtil.CheckText | core/types/block.go:60 | on success an even-length tail of the input bytes, after a `0x` prefix when one is required and the input is non-empty; the only errors are MissingPrefix and OddLength |
| HexUtil.CheckFixedText | core/types/block.go:60 | when the checks pass, the digits are all hex, there are exactly 2 * size of them, and for size > 0 they are the input bytes after the prefix |
| HexUtil.UnmarshalFixedText | core/types/block.go:60 | on success the result has exactly size bytes |
| HexUtil.DecodeEncodeHex | core/types/block.go:53-61 | decoding the hex text of any bytes gives the bytes back |
| HexUtil.EncodeDecodeHex | rpc/channel.go:29 | re-encoding decoded digits gives the digits back, lower-cased |
| HexUtil.DecodeMarshalBytes | rpc/channel.go:29 | Decode inverts Bytes.MarshalText |
| HexUtil.DecodeAccepts | rpc/channel.go:29 | Decode succeeds exactly on a `0x`/`0X` prefix followed by an even number of hex digits, and its bytes marshal back to the input up to case |
| HexUtil.UnmarshalFixedMarshal | core/types/block.go:53-61 | UnmarshalFixedText of the bytes of Bytes.MarshalText gives the bytes back at the marshalled size |
| HexUtil.UnmarshalFixedAccepts | core/types/block.go:59-61 | for size > 0, it succeeds exactly on the bytes of a prefix followed by 2 * size hex digits; the result has size bytes and marshals back to the input up to case |
| HexUtil.UnmarshalFixedErrors | core/types/block.go:59-61 | errors in checking order, on byte counts: missing prefix, odd length, wrong length (also for empty input), syntax |
| HexUtil.HexText | ethclient/ethclient.go:427 | big.Int.Text(16): non-empty lower-case hex digits, no leading zero for n > 0 |
| HexUtil.HexValueOfText | ethclient/ethclient.go:427 | the digits of n denote n |
| HexUtil.EncodeBig | ethclient/ethclient.go:427 | `0x0` for zero; `0x` and the digits of n for n > 0, `-0x` and the digits of -n for n < 0, lower-case with no leading zero; it always begins with `0` or `-` |
| Rlp.Encode | core/types/block.go:111 | every encodable item has an encoding of at least one byte |
| Rlp.EncodeAll | core/types/block.go:111 | a list payload has at least one byte per item and is empty exactly for the empty list |
| Rlp.Uint | core/types/block.go:74-78 | an integer is a string item with no leading zero byte, empty exactly for zero |
| Rlp.LengthPrefix | core/types/block.go:109-114 | a prefix is 1 to 9 bytes, and its first byte lies in the 64-value band of its kind (strings 0x80, lists 0xc0) |
| Rlp.FirstByte | core/types/block.go:109-114 | the first byte tells lists, one-byte strings below 0x80 and other strings apart |
| Rlp.LengthPrefixUnique | core/types/block.go:109-114 | two prefixes of the same kind that start the same bytes announce the same length |
| Rlp.EncodePrefixFree | core/types/block.go:97-98 | RLP is prefix-free: two items whose encodings both start the same bytes are equal |
| Rlp.StrPrefixFree | core/types/block.go:109-114 | two strings whose encodings both start the same bytes are equal |
| Rlp.ListPrefixFree | core/types/block.go:109-114 | two lists whose encodings both start the same bytes are equal |
| Rlp.EncodeAllInjective | core/types/block.go:97-98 | equal list payloads come from equal item lists |
| Rlp.EncodeInjective | core/types/block.go:97-98 | distinct items have distinct encodings |
| Rlp.EncodeAllAppend | core/types/block.go:109-114 | the payload of a concatenation of item lists is the concatenation of the payloads |
| Rlp.StrLength | core/types/block.go:109-114 | a string's encoding is at most 9 bytes longer than the string |
| Rlp.StrListLength | core/types/block.go:66-82 | a list of strings of at most `bound` bytes each has a payload of at most n * (bound + 9) bytes |
| Rlp.UintEncoding | core/types/block.go:74-78 | 0 encodes as 0x80, 1 to 127 as themselves, larger integers as 0x80 + length and then the minimal bytes |
| Rlp.LongListPrefix | core/types/block.go:109-114 | a list payload of 56 bytes or more gets the long-form prefix: first byte 0xf7 + n, then n length bytes |
| Rlp.EmptyList | core/types/block.go:33 | the empty list encodes as the single byte 0xc0 |
| Block.EncodeNonce | core/types/block.go:42-46 | the 8-byte buffer filled in place holds the big-endian form of i |
| Block.Uint64 | core/types/block.go:48-51 | the first nonce byte is the integer's top byte (i / 2^56) and the last is i mod 256 |
| Block.NonceIntRoundTrip | core/types/block.go:42-51 | Uint64(EncodeNonce(i)) == i for every uint64 i |
| Block.NonceBytesRoundTrip | core/types/block.go:42-51 | EncodeNonce(n.Uint64()) == n for every 8-byte nonce n |
| Block.NonceByteOrder | core/types/block.go:44 | byte 0 is i / 2^56, byte 7 is i mod 256, and 0 encodes as eight zero bytes |
| Block.MarshalText | core/types/block.go:53-56 | 18 characters: `0x` and 16 lower-case hex digits |
| Block.ParseNonce | core/types/block.go:58-61 | success needs 18 input bytes starting with `0x`/`0X`; a non-empty input without the prefix is MissingPrefix |
| Block.UnmarshalText | core/types/block.go:58-61 | on success the nonce buffer holds the decoded bytes; on error it is unchanged and the error is UnmarshalFixedText's |
| Block.DecodeInto | core/types/block.go:60 | after the checks pass, the loop leaves the buffer holding the decoded digit pairs |
| Block.NonceTextRoundTrip | core/types/block.go:53-61 | MarshalText(n) is ASCII, and parsing its bytes gives n back |
| Block.NonceTextAccepts | core/types/block.go:58-61 | parsing succeeds exactly on the bytes of `0x`/`0X` and 16 hex digits; any other byte count fails; a missing prefix is MissingPrefix; the result marshals back to the input up to case |
| Block.NonceTextCountsBytes | core/types/block.go:59-60 | `0x`, 15 zero digits and a two-byte UTF-8 character (19 bytes) are OddLength; with 14 zero digits (18 bytes) they are Syntax |
| Block.Fields | core/types/block.go:66-82 | the header is 15 items, every one a string: hashes, address, bloom, extra and nonce as their bytes, the five integers in minimal form |
| Block.FieldsBounded | core/types/block.go:66-82 | in a header within the size bound every item is a string of at most 2^59 bytes |
| Block.Encoding | core/types/block.go:97-98 | the pre-image is non-empty and starts with a list byte (0xc0 or above) |
| Block.FitsEncodable | core/types/block.go:66-82 | a header within the size bound has an RLP encoding |
| Block.FieldsInjective | core/types/block.go:66-82 | distinct headers have distinct 15-item field lists |
| Block.EncodingInjective | core/types/block.go:74-78 | two headers have the same pre-image exactly when every field is equal |
| Block.SwapChangesEncoding | core/types/block.go:66-82 | swapping two distinct same-typed fields (ParentHash and UncleHash, GasLimit and GasUsed) changes the pre-image |
| Block.EncodingLayout | core/types/block.go:66-82 | the pre-image is a long-form list whose payload starts with ParentHash as a 32-byte string and ends with RandomId as an 8-byte string |
| Block.PayloadStart | core/types/block.go:66-82 | the list payload starts with ParentHash as a 32-byte string and is at least 56 bytes long |
| Block.PayloadEnd | core/types/block.go:66-82 | the list payload ends with RandomId as an 8-byte string |
| Block.IdentityDeterministic | core/types/block.go:95-99 | headers with equal fields have equal digests of their pre-images, whatever the digest function |
| Block.IdentityCollision | core/types/block.go:95-99 | distinct headers share a digest only through a collision on distinct pre-images |
| Block.Keccak256.constructor | core/types/block.go:110 | a fresh hasher has absorbed nothing |
| Block.Keccak256.Write | core/types/block.go:111 | writing appends the bytes to what the hasher has absorbed |
| Block.RlpHash | core/types/block.go:109-114 | the result is the digest of exactly the RLP encoding of x |
| Block.HeaderHash | core/types/block.go:97-99 | Header.Hash is the digest of the header's RLP pre-image |
| Block.EmptyUncleHash | core/types/block.go:33 | EmptyUncleHash is the digest of the single byte 0xc0 |
| Block.Size | core/types/block.go:105-107 | the estimate is at least headerSize plus the length of Extra |
| Block.SizeGrowsWithExtra | core/types/block.go:105-107 | appending m bytes to Extra grows the estimate by exactly m |
| Block.SizeBound | core/types/block.go:101-107 | with Difficulty and Number below 2^k, the estimate exceeds headerSize + len(Extra) by at most k / 4 |
| Channel.Code | rpc/channel.go:11-20 | every tag lies in 0x12..0x35 or is 0x1000 or 0x1001, and exactly the two transaction notifications have tags from 0x1000 |
| Channel.FromCode | rpc/channel.go:9-20 | a tag maps to the frame type with that code, or to none when no type has it |
| Channel.CodeInjective | rpc/channel.go:11-20 | the eight codes are pairwise distinct, and FromCode inverts Code |
| Channel.CodeExamples | rpc/channel.go:11-20 | 0x13 is Heartbeat, 0x1001 is TxBlockNumber, 0x99 is no frame type |
| Channel.Without | rpc/channel.go:24-28 | removing the dashes shortens the text by their count |
| Channel.WithoutMembers | rpc/channel.go:24-28 | removing the dashes keeps exactly the other characters |
| Channel.Split | rpc/channel.go:24 | n separators give n + 1 pieces, none containing the separator |
| Channel.Concat | rpc/channel.go:26-28 | one piece concatenates to itself, and every character of the result comes from some piece |
| Channel.ConcatAppend | rpc/channel.go:26-28 | concatenation distributes over appending piece lists |
| Channel.JoinSplit | rpc/channel.go:24 | joining the pieces with the separator gives the text back |
| Channel.ConcatSplit | rpc/channel.go:24-28 | appending the pieces in order gives the text without its dashes |
| Channel.ToUpper | rpc/channel.go:29 | same length; each lower-case ASCII letter becomes its upper-case letter and every other character is kept |
| Channel.UpperDigit | rpc/channel.go:29 | upper-casing preserves whether a character is a hex digit, and its value |
| Channel.DecodeIgnoresCase | rpc/channel.go:29 | Decode of the upper-cased text gives the same bytes or error as of the text |
| Channel.GenMsgSeq | rpc/channel.go:22-30 | the split-and-append loop builds `0X` and the text without dashes; the result is the hex decoding of those digits |
| Channel.GenZeroSeq | rpc/channel.go:32-34 | always 16 zero bytes, never an error |
| Channel.ZeroDigits | rpc/channel.go:33 | 2n zero digits decode to n zero bytes |
| Channel.UuidDigits | rpc/channel.go:24-28 | for a well-formed 8-4-4-4-12 UUID text, the digits are the five groups in order: 32 hex digits |
| Channel.MsgSeqWellFormed | rpc/channel.go:22-30 | for a well-formed UUID text the sequence is 16 bytes, byte k being the value of digit pair (2k, 2k+1) |
| Channel.MsgSeqOutcome | rpc/channel.go:22-30 | a character that is neither dash nor hex digit gives Syntax, an odd digit count gives OddLength, and an all-zero result needs all-zero digits: no error becomes the zero sequence |
| Channel.SyntaxAt | rpc/channel.go:22-30 | one character that is neither a dash nor a hex digit makes the result Syntax |
| Channel.ZeroOnlyFromZeros | rpc/channel.go:22-30 | an all-zero result comes only from a text whose every non-dash character is 0 |
| Channel.MsgSeqVersion4 | rpc/channel.go:23-34 | for a version-4 UUID, byte 6 has high nibble 4, byte 8 has top bits 10, and the result differs from GenZeroSeq's |
| EthClient.FromCallArg | ethclient/ethclient.go:467-486 | reading a message back requires the from and to keys |
| EthClient.ToCallArg | ethclient/ethclient.go:467-486 | from and to are always present with the message's values. data, value, gas and gasPrice are each present exactly when set (non-empty, non-nil, non-zero, non-nil) and then hold the message's value. There are no other keys and 2 to 6 entries, and the message can be read back from the map |
| EthClient.ReadBack | ethclient/ethclient.go:467-486 | any map that follows toCallArg's key rules for a message reads back as that message |
| EthClient.ToBlockNumArg | ethclient/ethclient.go:423-428 | the result is `"latest"` exactly for nil and `0x0` for zero. Otherwise it is `0x` or `-0x` followed by lower-case hex digits, with no leading zero, denoting the number's magnitude |
| EthClient.ToBlockNumArgInjective | ethclient/ethclient.go:423-428 | distinct block numbers, and nil, give distinct arguments |

## Left out

- The network side of `ethclient/ethclient.go`:
  - the `Client` RPC methods (`Dial`, `Close`, the per-call wrappers, `CodeAt`, `CallContract`, `SendTransaction`);
  - the unconditional error stubs `FilterLogs` and `SubscribeFilterLogs`;
  - `SockReq` in `rpc/channel.go`, an empty stub.
  These are I/O or stubs and have no local logic.
- The interfaces in `core/types.go`, and the JSON-shape structs in `core/types/block.go` (`Body`, `ClientVersion`, `SyncStatus`, `Block`, `TotalTransactionCount`, `TransactionByHash`). They carry no behaviour.
- The Keccak-256 permutation and padding. It is the parameter `keccak`, so no concrete digest is stated.
- `EmptyRootHash`/`DeriveSha` and the RLP form of `Transaction`. Neither is part of this model.
- `uuid.New()`, its randomness and its thread safety. `GenMsgSeq` takes the UUID text as a parameter.
- `headerSize`'s value from reflection. It is a parameter of `Size`.
- JSON marshalling of the call-argument map and of the header (`gen_header_json.go` is not part of this model). `EthClient.ToCallArg` returns typed values, not their JSON text.
- `Block.HeaderHash`: requires that Extra and the minimal encodings of Difficulty and Number be at most 2^59 bytes each. That bound keeps the RLP payload under 2^64 bytes; the Go code places no explicit bound.
- `Block.Size`: its `ensures` states only the lower bound. The exact sum is its definition, and its properties are SizeGrowsWithExtra and SizeBound. The result is a natural number, while Go converts it to the float-based `StorageSize`.
- `Block.Header`: Difficulty and Number are non-negative integers. A nil `*big.Int` (which Size would dereference) is not modelled. A negative one is not modelled either: rlp.Encode rejects it before writing anything to the hasher, so rlpHash would return the digest of the empty input.
- `Channel.ToUpper`: upper-cases ASCII letters only. `strings.ToUpper` also maps other letters, but no non-ASCII letter is a hex digit, so the decode outcome is the same (`Channel.DecodeIgnoresCase`).
- `Channel.MsgSeqOutcome`: 2m hex digits with m other than 16 decode successfully to m bytes, exactly as the code does. `GenMsgSeq` does not check for 16 bytes.
- `Channel.GenMsgSeq`: on an error, `hexutil.Decode` also returns the bytes it decoded before the bad digit, and `GenMsgSeq` passes them on. The model's `Result` carries only the error (`HexUtil.Decode` likewise).
- `Channel.ZeroSeqText`: written as `0x` followed by a comprehension of thirty-two `0` characters. It has the same value as the literal in `rpc/channel.go:33`.
