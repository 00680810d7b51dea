/** The outputs tracked by the wallet. */
module Outputs {
  import opened Widths
  import opened Keys

  /** Where an output is in its life: awaiting confirmation, spendable,
      waiting for maturity, reserved by a transaction being built, or spent. */
  datatype OutputStatus = Unconfirmed | Unspent | Immature | Locked | Spent

  /** What the wallet records about one output; enough to rebuild its
      commitment once the root private key is known. */
  datatype OutputData = OutputData(
    rootKeyId: Identifier,
    keyId: Identifier,
    nChild: uint32,
    value: uint64,
    status: OutputStatus,
    height: uint64,
    lockHeight: uint64,
    zeroOk: bool)
  {
    /** Reserve the output: its status becomes Locked and nothing else about it changes. */
    function Lock(): (r: OutputData)
      ensures r.status == Locked
      ensures r.(status := status) == this
    {
      this.(status := Locked)
    }
  }
}
