/** The fixed-size byte arrays of the `common` package that block headers are made of. */
module Common {
  import opened Binary

  /** common.Hash: 32 bytes. */
  type Hash = s: seq<Byte> | |s| == 32 witness Zeros(32)

  /** common.Address: 20 bytes. */
  type Address = s: seq<Byte> | |s| == 20 witness Zeros(20)
}
