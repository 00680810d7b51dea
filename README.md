# Grin wallet output ledger and fee formula, in Dafny

This project models the bookkeeping core of the Grin wallet's `wallet/src/types.rs`:

- the transaction fee formula `tx_fee`;
- the output record `OutputData` with its five-state `OutputStatus` and its `lock` operation;
- the in-memory ledger `WalletData`: a map from the hex rendering of an output's key identifier to the output. Its operations are `add_output`, `lock_output`, `get_output`, the greedy coin selection `select`, and the child-index allocator `next_child`.

Modules, one per concept:

- `Widths` holds the fixed-width integer types (`uint32`, `uint64`, `int32`, `int64`) as ranges of mathematical integers.
- `Wrappers` holds `Option`.
- `Keys` models a key identifier as its bytes. The ledger key is the identifier's lowercase hex rendering, and that rendering is proved injective.
- `Fees` holds the fee formula and its properties.
- `Outputs` holds `OutputStatus` and `OutputData`.
- `Ledger` holds the class `WalletData` and the specification functions and lemmas for coin selection.

`WalletData` is a class whose `outputs` field is a `map<string, OutputData>`. `AddOutput` and `LockOutput` reassign that field. `GetOutput` is a function that reads it. `Select` and `NextChild` are loop methods that only read it.

A Rust `HashMap` visits its entries in an unspecified order. `Select` therefore takes an extra argument `order`: any sequence that lists every key of the map exactly once. Everything stated about `Select` holds for every such order. `NextChild` visits the keys by arbitrary choice (`:|`), because its result does not depend on the order.

Points of the code's behaviour that the model follows exactly:

- `lock_output` sets the status to `Locked` whatever the current status is. It does not check for `Unspent`; the only guard is the value comparison.
- `select` pushes an eligible output before it compares the running total with `amount`. So with `amount` 0 it still takes one output when any is spendable. The contract states the stopping rule as "every proper non-empty prefix of the result sums to less than `amount`", together with "the result is non-empty whenever some output is spendable"; with `amount` 0 these leave exactly the first spendable output.
- `tx_fee` casts `usize` to `i32` and multiplies `u64` values unchecked. The model excludes the overflowing inputs by preconditions (see "Left out").

## Model

| member | source | states |
|---|---|---|
| `Fees.TxWeight` | wallet/src/types.rs:44-47 | the weight is the larger of 1 and 4·outputs − inputs + 1 |
| `Fees.TxFee` | wallet/src/types.rs:39-50 | the fee is never below the base fee, so it is positive whenever the base fee is; it equals the base fee exactly when the weight is clamped to 1 (4·outputs ≤ inputs) or the base fee is 0 |
| `Fees.TxFeeExamples` | wallet/src/types.rs:36-49 | two inputs and two outputs cost 70 at the default base fee; ten inputs and one output cost 10 |
| `Fees.TxFeeDefault` | wallet/src/types.rs:36-43 | omitting the base fee is the same as passing 10 |
| `Fees.TxFeeMonotoneInOutputs` | wallet/src/types.rs:44-49 | more outputs never lower the fee |
| `Fees.TxFeeAntitoneInInputs` | wallet/src/types.rs:44-49 | more inputs never raise the fee |
| `Keys.HexOf` | wallet/src/types.rs:299 | the hex rendering has two characters per byte, all lowercase hex digits |
| `Keys.ToHexInjective` | wallet/src/types.rs:312-314 | distinct key identifiers have distinct map keys, so a lookup by identifier finds only that identifier's entry |
| `Outputs.OutputData.Lock` | wallet/src/types.rs:176-179 | locking sets the status to Locked and leaves every other field unchanged |
| `Ledger.WalletData.constructor` | wallet/src/types.rs:266-268 | a new ledger is empty and keyed by hex |
| `Ledger.WalletData.GetOutput` | wallet/src/types.rs:312-314 | an entry is found exactly when one is stored under the identifier's hex; in a ledger keyed by hex it carries that identifier |
| `Ledger.WalletData.AddOutput` | wallet/src/types.rs:295-300 | afterwards the lookup of the output's identifier returns that output, replacing any earlier entry; every other identifier's lookup is unchanged; being keyed by hex is preserved |
| `Ledger.WalletData.LockOutput` | wallet/src/types.rs:302-310 | if an entry is stored under the identifier with the same value, only its status becomes Locked; otherwise the ledger is unchanged; every other identifier's lookup is unchanged; being keyed by hex is preserved |
| `Ledger.WalletData.Select` | wallet/src/types.rs:316-337 | leaves the ledger alone (no modifies clause). The result is the spendable outputs under the root in visiting order, up to where the total first reaches the amount. The remainder is the total taken minus the amount. It is negative exactly when all spendable outputs together fall short, and then every spendable entry is returned. The result is non-empty whenever some output is spendable, so with amount 0 it is exactly the first one. Each output returned is a spendable entry of the ledger, and in a ledger keyed by hex none appears twice |
| `Ledger.WalletData.NextChild` | wallet/src/types.rs:339-348 | the result exceeds every child index under the root, and it is 1 or one more than such an index: 1 + the maximum, or 1 when there is none |
| `Ledger.EligibleSound` | wallet/src/types.rs:322-324 | every output the selection loop may take is an entry of the ledger with the requested root and status Unspent |
| `Ledger.EligibleComplete` | wallet/src/types.rs:322-324 | every Unspent entry under the root is among the outputs the loop may take |
| `Ledger.EligibleDistinct` | wallet/src/types.rs:322-324 | visiting each key once, a ledger keyed by hex yields no output twice |
| `Ledger.PushStep` | wallet/src/types.rs:328-331 | taking one more output while short of the amount adds its value to the total, keeps the total within the signed 64-bit range, and keeps every earlier running total short of the amount |
| `Ledger.GreedyPrefixFacts` | wallet/src/types.rs:319-336 | a greedy prefix of the spendable outputs falls short of the amount exactly when all of them do, and then it is all of them; its outputs are spendable ledger entries, distinct in a ledger keyed by hex |
| `Ledger.StoreKeepsOthers` | wallet/src/types.rs:298-300 | storing under one identifier's hex leaves every other identifier's entry as it was |
| `Ledger.StoredUnderOwnKey` | wallet/src/types.rs:312-314 | in a ledger keyed by hex, the entry under an identifier's hex carries that identifier |

Two client methods, `Ledger.NextChildOfEmptyLedger` and `Ledger.NextChildAfterThreeOutputs`, show that the contracts determine the allocated index. An empty ledger allocates 1. After outputs with child indices 1, 3 and 5 are added under one root, that root allocates 6.

## Left out

- `WalletData::with_wallet`, `read_or_create`, `read` and `write` (wallet/src/types.rs:202-293) are not modelled. They are directory creation, the `wallet.lock` marker-file protocol with its 500 ms sleeps and three retries, and JSON persistence, all file-system I/O. Only the fresh-ledger branch of `read_or_create` appears, as the constructor.
- `partial_tx_to_json` and `partial_tx_from_json` (wallet/src/types.rs:362-394) are not modelled. They are thin wrappers over the JSON library, hex utilities, the blinding-factor parser and the transaction serializer, none of which is part of this model.
- The `Error` enum and its `From` conversions (wallet/src/types.rs:52-101) are not modelled: they only wrap foreign error types. No modelled operation can fail.
- `WalletConfig` and its defaults, the `Display` impl of `OutputStatus`, `WalletReceiveRequest`, `BlockFees` and `CbData` (wallet/src/types.rs:103-150, 396-424) are not modelled: they are plain data and formatting.
- The commented-out zero-confirmation condition in `select` (wallet/src/types.rs:325-326) is not modelled because it is not live code. `zeroOk`, `height` and `lockHeight` are carried but never read.
- `keychain::Identifier` and its `to_hex` are not part of this model. An identifier is modelled as a byte sequence rendered as lowercase hex, two digits per byte.
- `Fees.TxFee` requires that the counts convert to `i32` without loss and that the weight expression and the `u64` product do not overflow. The source truncates in the `as i32` casts and multiplies `u64` values unchecked; those inputs are excluded, not modelled.
- `Ledger.WalletData.Select` requires `amount` ≤ 2^63 − 1 and every running total it reaches to stay ≤ 2^63 − 1. The source's `u64` accumulation and its `as i64` casts would wrap or reinterpret beyond that; those inputs are excluded.
- `Ledger.WalletData.Select` claims that no output appears twice only for a ledger keyed by hex. A ledger loaded from disk can store the same output under two map keys, and then `select` legitimately returns it twice.
- `Ledger.WalletData.NextChild` requires every child index under the root to be below 2^32 − 1. The source's `max_n + 1` would overflow there; that input is excluded.
- Cross-process locking and concurrency are not modelled: every operation here runs on a ledger owned by one caller.
