/** The transaction fee formula of wallet/src/types.rs. */
module Fees {
  import opened Widths
  import opened Wrappers

  const DEFAULT_BASE_FEE: uint64 := 10

  /** The base fee used when the caller gives none. */
  function BaseFee(baseFee: Option<uint64>): uint64 {
    match baseFee
    case Some(bf) => bf
    case None => DEFAULT_BASE_FEE
  }

  /** The counts convert to 32-bit signed integers without loss and the
      weight expression `-1 * inputs + 4 * outputs + 1` stays in range. */
  predicate WeightInRange(inputLen: nat, outputLen: nat) {
    inputLen <= INT32_MAX && 4 * outputLen <= INT32_MAX && 4 * outputLen - inputLen + 1 <= INT32_MAX
  }

  /** The transaction weight: four per output, minus one per input, plus one,
      clamped below at one. */
  function TxWeight(inputLen: nat, outputLen: nat): (w: int32)
    requires WeightInRange(inputLen, outputLen)
    ensures w >= 1 && w >= 4 * outputLen - inputLen + 1
    ensures w == 1 || w == 4 * outputLen - inputLen + 1
  {
    var weight: int32 := -1 * inputLen + 4 * outputLen + 1;
    if weight < 1 then 1 else weight
  }

  /** The weight times the base fee fits in 64 unsigned bits. */
  predicate FeeInRange(inputLen: nat, outputLen: nat, baseFee: Option<uint64>) {
    WeightInRange(inputLen, outputLen) && TxWeight(inputLen, outputLen) * BaseFee(baseFee) <= UINT64_MAX
  }

  /** The fee of a transaction with the given numbers of inputs and outputs.
      It is never below the base fee, and equals it exactly when the weight
      is clamped (or the base fee is zero). */
  function TxFee(inputLen: nat, outputLen: nat, baseFee: Option<uint64>): (fee: uint64)
    requires FeeInRange(inputLen, outputLen, baseFee)
    ensures fee >= BaseFee(baseFee)
    ensures BaseFee(baseFee) > 0 ==> fee > 0
    ensures fee == BaseFee(baseFee) <==> BaseFee(baseFee) == 0 || 4 * outputLen <= inputLen
  {
    var b := BaseFee(baseFee);
    var w := TxWeight(inputLen, outputLen);
    MulAtLeast(w, b);
    MulGrows(w, b);
    w * b
  }

  lemma MulAtLeast(w: int, b: nat)
    requires w >= 1
    ensures w * b >= b
  {
  }

  lemma MulGrows(w: int, b: nat)
    requires w >= 1
    ensures w > 1 && b > 0 ==> w * b > b
  {
  }

  lemma MulMonotone(v: int, w: int, b: nat)
    requires v <= w
    ensures v * b <= w * b
  {
  }

  /** The two worked examples: two inputs and two outputs cost 70 at the
      default base fee; ten inputs and one output are clamped to 10. */
  lemma TxFeeExamples()
    ensures TxFee(2, 2, None) == 70
    ensures TxFee(10, 1, None) == 10
  {
  }

  /** Omitting the base fee is the same as passing 10. */
  lemma TxFeeDefault(inputLen: nat, outputLen: nat)
    requires FeeInRange(inputLen, outputLen, None)
    ensures FeeInRange(inputLen, outputLen, Some(10))
    ensures TxFee(inputLen, outputLen, None) == TxFee(inputLen, outputLen, Some(10))
  {
  }

  /** More outputs never lower the fee. */
  lemma TxFeeMonotoneInOutputs(inputLen: nat, outputs1: nat, outputs2: nat, baseFee: Option<uint64>)
    requires outputs1 <= outputs2
    requires FeeInRange(inputLen, outputs1, baseFee) && FeeInRange(inputLen, outputs2, baseFee)
    ensures TxFee(inputLen, outputs1, baseFee) <= TxFee(inputLen, outputs2, baseFee)
  {
    MulMonotone(TxWeight(inputLen, outputs1), TxWeight(inputLen, outputs2), BaseFee(baseFee));
  }

  /** More inputs never raise the fee. */
  lemma TxFeeAntitoneInInputs(inputs1: nat, inputs2: nat, outputLen: nat, baseFee: Option<uint64>)
    requires inputs1 <= inputs2
    requires FeeInRange(inputs1, outputLen, baseFee) && FeeInRange(inputs2, outputLen, baseFee)
    ensures TxFee(inputs2, outputLen, baseFee) <= TxFee(inputs1, outputLen, baseFee)
  {
    MulMonotone(TxWeight(inputs2, outputLen), TxWeight(inputs1, outputLen), BaseFee(baseFee));
  }
}
