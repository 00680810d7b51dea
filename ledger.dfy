/** The in-memory output ledger of the wallet: a map from the hex rendering of
    each output's key identifier to the output, with the coin-selection and
    child-index operations that read it. */
module Ledger {
  import opened Widths
  import opened Wrappers
  import opened Keys
  import opened Outputs

  /** Every entry is stored under the hex rendering of its own key identifier.
      This is what `AddOutput` maintains; a ledger loaded from disk may break it. */
  predicate KeyedByHex(m: map<string, OutputData>) {
    forall k :: k in m ==> ToHex(m[k].keyId) == k
  }

  /** `order` lists every key of `m` exactly once: one of the orders in which
      the map's entries may be visited. */
  predicate IsEnumeration(order: seq<string>, m: map<string, OutputData>) {
    && (forall k :: k in order ==> k in m)
    && (forall k :: k in m ==> k in order)
    && (forall i, j :: 0 <= i < j < |order| ==> order[i] != order[j])
  }

  /** An output that coin selection may spend for the given root key. */
  predicate Spendable(o: OutputData, rootKeyId: Identifier) {
    o.rootKeyId == rootKeyId && o.status == Unspent
  }

  /** The spendable outputs under `rootKeyId` among the first `n` keys that
      `order` visits, in visiting order. */
  function EligibleTo(m: map<string, OutputData>, order: seq<string>, n: nat, rootKeyId: Identifier): (e: seq<OutputData>)
    requires forall k :: k in order ==> k in m
    requires n <= |order|
    ensures |e| <= n
  {
    if n == 0 then []
    else
      var k := order[n - 1];
      EligibleTo(m, order, n - 1, rootKeyId) + (if Spendable(m[k], rootKeyId) then [m[k]] else [])
  }

  /** The spendable outputs under `rootKeyId`, in the order `order` visits them. */
  function Eligible(m: map<string, OutputData>, order: seq<string>, rootKeyId: Identifier): (e: seq<OutputData>)
    requires forall k :: k in order ==> k in m
    ensures |e| <= |order|
  {
    EligibleTo(m, order, |order|, rootKeyId)
  }

  /** The total value of the first `n` outputs of a list. */
  function SumTo(s: seq<OutputData>, n: nat): int
    requires n <= |s|
  {
    if n == 0 then 0 else SumTo(s, n - 1) + s[n - 1].value
  }

  /** The total value of a list of outputs. */
  function Sum(s: seq<OutputData>): int {
    SumTo(s, |s|)
  }

  /** Lists that agree on their first `n` outputs agree on those outputs' total. */
  lemma {:induction false} SumToAgree(s: seq<OutputData>, t: seq<OutputData>, n: nat)
    requires n <= |s| && n <= |t|
    requires s[..n] == t[..n]
    ensures SumTo(s, n) == SumTo(t, n)
  {
    if n > 0 {
      assert s[n - 1] == s[..n][n - 1] && t[n - 1] == t[..n][n - 1];
      assert s[..n - 1] == s[..n][..n - 1] && t[..n - 1] == t[..n][..n - 1];
      SumToAgree(s, t, n - 1);
    }
  }

  /** Values are non-negative, so running totals never decrease. */
  lemma {:induction false} SumToMonotone(s: seq<OutputData>, n: nat, p: nat)
    requires n <= p <= |s|
    ensures 0 <= SumTo(s, n) <= SumTo(s, p)
  {
    if n < p {
      SumToMonotone(s, n, p - 1);
    } else if n > 0 {
      SumToMonotone(s, n - 1, n - 1);
    }
  }

  /** Visiting more keys only extends the eligible outputs. */
  lemma {:induction false} EligibleToPrefix(m: map<string, OutputData>, order: seq<string>, n: nat, p: nat, rootKeyId: Identifier)
    requires forall k :: k in order ==> k in m
    requires n <= p <= |order|
    ensures |EligibleTo(m, order, n, rootKeyId)| <= |EligibleTo(m, order, p, rootKeyId)|
    ensures EligibleTo(m, order, n, rootKeyId) == EligibleTo(m, order, p, rootKeyId)[..|EligibleTo(m, order, n, rootKeyId)|]
  {
    if n < p {
      EligibleToPrefix(m, order, n, p - 1, rootKeyId);
      var q := EligibleTo(m, order, p - 1, rootKeyId);
      var r := EligibleTo(m, order, p, rootKeyId);
      assert r[..|q|] == q;
      var l := |EligibleTo(m, order, n, rootKeyId)|;
      assert r[..l] == q[..l];
    }
  }

  /** When the key visited next is spendable, its output is the next eligible one. */
  lemma NextEligible(m: map<string, OutputData>, order: seq<string>, i: nat, rootKeyId: Identifier)
    requires forall k :: k in order ==> k in m
    requires i < |order| && Spendable(m[order[i]], rootKeyId)
    ensures |EligibleTo(m, order, i, rootKeyId)| < |Eligible(m, order, rootKeyId)|
    ensures Eligible(m, order, rootKeyId)[..|EligibleTo(m, order, i, rootKeyId)| + 1]
      == EligibleTo(m, order, i, rootKeyId) + [m[order[i]]]
  {
    EligibleToPrefix(m, order, i + 1, |order|, rootKeyId);
  }

  /** Each eligible output is an entry of the ledger and spendable under the root key. */
  lemma {:induction false} EligibleSound(m: map<string, OutputData>, order: seq<string>, n: nat, rootKeyId: Identifier)
    requires forall k :: k in order ==> k in m
    requires n <= |order|
    ensures forall o :: o in EligibleTo(m, order, n, rootKeyId) ==> o in m.Values && Spendable(o, rootKeyId)
  {
    if n > 0 {
      EligibleSound(m, order, n - 1, rootKeyId);
      assert m[order[n - 1]] in m.Values;
    }
  }

  /** Every spendable entry among the first `n` visited keys is eligible. */
  lemma {:induction false} EligibleComplete(m: map<string, OutputData>, order: seq<string>, n: nat, rootKeyId: Identifier, i: nat)
    requires forall k :: k in order ==> k in m
    requires i < n <= |order| && Spendable(m[order[i]], rootKeyId)
    ensures m[order[i]] in EligibleTo(m, order, n, rootKeyId)
  {
    if i < n - 1 {
      EligibleComplete(m, order, n - 1, rootKeyId, i);
    }
  }

  /** In a ledger keyed by hex, each eligible output's key is among the visited keys. */
  lemma {:induction false} EligibleKeysVisited(m: map<string, OutputData>, order: seq<string>, n: nat, rootKeyId: Identifier)
    requires forall k :: k in order ==> k in m
    requires n <= |order|
    requires KeyedByHex(m)
    ensures forall o :: o in EligibleTo(m, order, n, rootKeyId) ==> ToHex(o.keyId) in order[..n]
  {
    if n > 0 {
      EligibleKeysVisited(m, order, n - 1, rootKeyId);
      assert order[..n] == order[..n - 1] + [order[n - 1]];
    }
  }

  /** In a ledger keyed by hex, visiting each key at most once yields no output twice. */
  lemma {:induction false} EligibleDistinct(m: map<string, OutputData>, order: seq<string>, n: nat, rootKeyId: Identifier)
    requires forall k :: k in order ==> k in m
    requires forall i, j :: 0 <= i < j < |order| ==> order[i] != order[j]
    requires n <= |order|
    requires KeyedByHex(m)
    ensures forall i, j :: 0 <= i < j < |EligibleTo(m, order, n, rootKeyId)| ==>
              EligibleTo(m, order, n, rootKeyId)[i].keyId != EligibleTo(m, order, n, rootKeyId)[j].keyId
  {
    if n > 0 {
      var last := order[n - 1];
      EligibleDistinct(m, order, n - 1, rootKeyId);
      EligibleKeysVisited(m, order, n - 1, rootKeyId);
      assert last !in order[..n - 1] by {
        forall i | 0 <= i < n - 1 ensures order[i] != last { }
      }
      var p := EligibleTo(m, order, n - 1, rootKeyId);
      var e := EligibleTo(m, order, n, rootKeyId);
      forall i, j | 0 <= i < j < |e| ensures e[i].keyId != e[j].keyId {
        if j < |p| {
          assert e[i] == p[i] && e[j] == p[j];
        } else {
          assert e[i] == p[i] && e[j] == m[last];
          assert p[i] in p;
        }
      }
    }
  }

  /** Every proper non-empty prefix of `taken` sums to less than `amount`:
      the greedy loop did not stop before its last output. */
  predicate ShortBeforeLast(taken: seq<OutputData>, amount: int) {
    forall j :: 1 <= j < |taken| ==> SumTo(taken, j) < amount
  }

  /** The running total never leaves the signed 64-bit range: each output
      taken while the total is still short of `amount` keeps the sum in range. */
  predicate SelectionFits(e: seq<OutputData>, amount: int) {
    forall j :: 0 <= j < |e| && (j == 0 || SumTo(e, j) < amount) ==> SumTo(e, j + 1) <= INT64_MAX
  }

  /** One push of the greedy loop: the next eligible output, taken while the
      total is still short of `amount`, keeps the total in range and keeps every
      proper non-empty prefix of the taken list short of `amount`. */
  lemma PushStep(e: seq<OutputData>, taken: seq<OutputData>, o: OutputData, amount: int)
    requires SelectionFits(e, amount)
    requires |taken| < |e| && e[..|taken| + 1] == taken + [o]
    requires taken != [] ==> Sum(taken) < amount
    requires ShortBeforeLast(taken, amount)
    ensures Sum(taken + [o]) == Sum(taken) + o.value <= INT64_MAX
    ensures ShortBeforeLast(taken + [o], amount)
  {
    var n := |taken|;
    var t := taken + [o];
    assert t[..n] == taken[..n];
    SumToAgree(t, taken, n);
    SumToAgree(t, e, n + 1);
    forall j | 1 <= j < n + 1 ensures SumTo(t, j) < amount {
      assert t[..j] == taken[..j];
      SumToAgree(t, taken, j);
    }
  }

  /** What a greedy prefix of the eligible outputs tells about the whole ledger:
      a prefix that stops short only once it reaches `amount` falls short of
      `amount` exactly when the whole eligible list does, and then it is the
      whole list; every output in it is a spendable entry of the ledger, and
      in a ledger keyed by hex no output appears in it twice. */
  lemma GreedyPrefixFacts(m: map<string, OutputData>, order: seq<string>, rootKeyId: Identifier,
                          taken: seq<OutputData>, amount: int)
    requires IsEnumeration(order, m)
    requires |taken| <= |Eligible(m, order, rootKeyId)|
    requires taken == Eligible(m, order, rootKeyId)[..|taken|]
    requires |taken| < |Eligible(m, order, rootKeyId)| ==> Sum(taken) >= amount
    ensures Sum(taken) < amount <==> Sum(Eligible(m, order, rootKeyId)) < amount
    ensures Sum(taken) < amount ==> taken == Eligible(m, order, rootKeyId)
    ensures Sum(taken) < amount ==> forall k :: k in m && Spendable(m[k], rootKeyId) ==> m[k] in taken
    ensures forall o :: o in taken ==> o in m.Values && Spendable(o, rootKeyId)
    ensures KeyedByHex(m) ==> forall i, j :: 0 <= i < j < |taken| ==> taken[i].keyId != taken[j].keyId
  {
    var e := Eligible(m, order, rootKeyId);
    SumToAgree(taken, e, |taken|);
    SumToMonotone(e, |taken|, |e|);
    if |taken| == |e| {
      assert taken == e;
    }
    EligibleSound(m, order, |order|, rootKeyId);
    forall k | k in m && Spendable(m[k], rootKeyId) ensures m[k] in e {
      var i :| 0 <= i < |order| && order[i] == k;
      EligibleComplete(m, order, |order|, rootKeyId, i);
    }
    if KeyedByHex(m) {
      EligibleDistinct(m, order, |order|, rootKeyId);
      forall i, j | 0 <= i < j < |taken| ensures taken[i].keyId != taken[j].keyId {
        assert taken[i] == e[i] && taken[j] == e[j];
      }
    }
    forall o | o in taken ensures o in m.Values && Spendable(o, rootKeyId) {
      var j :| 0 <= j < |taken| && taken[j] == o;
      assert e[j] == o;
    }
  }

  class WalletData {
    var outputs: map<string, OutputData>

    ghost predicate Valid()
      reads this
    {
      KeyedByHex(outputs)
    }

    /** An empty ledger. */
    constructor ()
      ensures outputs == map[] && Valid()
    {
      outputs := map[];
    }

    /** The output stored for a key identifier, if any. */
    function GetOutput(keyId: Identifier): (r: Option<OutputData>)
      reads this
      ensures r.Some? <==> ToHex(keyId) in outputs
      ensures Valid() && r.Some? ==> r.value.keyId == keyId
    {
      var key := ToHex(keyId);
      StoredUnderOwnKey(outputs, keyId);
      if key in outputs then Some(outputs[key]) else None
    }

    /** Store an output under its key identifier, replacing any earlier entry. */
    method AddOutput(out: OutputData)
      modifies this
      ensures outputs == old(outputs)[ToHex(out.keyId) := out]
      ensures GetOutput(out.keyId) == Some(out)
      ensures forall id :: id != out.keyId ==> GetOutput(id) == old(GetOutput(id))
      ensures old(Valid()) ==> Valid()
    {
      outputs := outputs[ToHex(out.keyId) := out];
      forall id | id != out.keyId ensures GetOutput(id) == old(GetOutput(id)) {
        StoreKeepsOthers(old(outputs), out.keyId, out, id);
      }
    }

    /** Mark the stored output with the same key identifier as Locked, provided
        its stored value equals `out.value`; otherwise change nothing. */
    method LockOutput(out: OutputData)
      modifies this
      ensures var key := ToHex(out.keyId);
        if key in old(outputs) && old(outputs)[key].value == out.value
        then outputs == old(outputs)[key := old(outputs)[key].Lock()]
        else outputs == old(outputs)
      ensures old(GetOutput(out.keyId)).Some? && old(GetOutput(out.keyId)).value.value == out.value
        ==> GetOutput(out.keyId) == Some(old(GetOutput(out.keyId)).value.Lock())
      ensures forall id :: id != out.keyId ==> GetOutput(id) == old(GetOutput(id))
      ensures old(Valid()) ==> Valid()
    {
      var key := ToHex(out.keyId);
      if key in outputs {
        var stored := outputs[key];
        if stored.value == out.value {
          outputs := outputs[key := stored.Lock()];
          forall id | id != out.keyId ensures GetOutput(id) == old(GetOutput(id)) {
            StoreKeepsOthers(old(outputs), out.keyId, stored.Lock(), id);
          }
        }
      }
    }

    /** Greedy coin selection: visit the entries in the order `order`, take each
        Unspent output under `rootKeyId`, and stop as soon as the running total
        reaches `amount`. The remainder is the total taken minus `amount`; it is
        negative exactly when all spendable outputs together fall short. */
    method Select(rootKeyId: Identifier, amount: uint64, order: seq<string>)
      returns (toSpend: seq<OutputData>, remainder: int64)
      requires IsEnumeration(order, outputs)
      requires amount <= INT64_MAX
      requires SelectionFits(Eligible(outputs, order, rootKeyId), amount)
      ensures |toSpend| <= |Eligible(outputs, order, rootKeyId)|
      ensures toSpend == Eligible(outputs, order, rootKeyId)[..|toSpend|]
      ensures remainder == Sum(toSpend) - amount
      ensures ShortBeforeLast(toSpend, amount)
      ensures |toSpend| < |Eligible(outputs, order, rootKeyId)| ==> remainder >= 0
      ensures remainder < 0 <==> Sum(Eligible(outputs, order, rootKeyId)) < amount
      ensures remainder < 0 ==> toSpend == Eligible(outputs, order, rootKeyId)
      ensures remainder < 0 ==> forall k :: k in outputs && Spendable(outputs[k], rootKeyId) ==> outputs[k] in toSpend
      ensures forall o :: o in toSpend ==> o in outputs.Values && Spendable(o, rootKeyId)
      ensures Valid() ==> forall i, j :: 0 <= i < j < |toSpend| ==> toSpend[i].keyId != toSpend[j].keyId
      ensures Eligible(outputs, order, rootKeyId) != [] ==> toSpend != []
    {
      ghost var e := Eligible(outputs, order, rootKeyId);
      toSpend := [];
      var inputTotal: uint64 := 0;
      var i := 0;
      var done := false;
      while i < |order| && !done
        invariant 0 <= i <= |order|
        invariant toSpend == EligibleTo(outputs, order, i, rootKeyId)
        invariant inputTotal == Sum(toSpend) <= INT64_MAX
        invariant ShortBeforeLast(toSpend, amount)
        invariant done ==> toSpend != [] && inputTotal >= amount
        invariant !done && toSpend != [] ==> inputTotal < amount
      {
        var out := outputs[order[i]];
        if out.rootKeyId == rootKeyId && out.status == Unspent {
          NextEligible(outputs, order, i, rootKeyId);
          PushStep(e, toSpend, out, amount);
          toSpend := toSpend + [out];
          inputTotal := inputTotal + out.value;
          if inputTotal >= amount {
            done := true;
          }
        }
        i := i + 1;
      }
      EligibleToPrefix(outputs, order, i, |order|, rootKeyId);
      remainder := inputTotal - amount;
      GreedyPrefixFacts(outputs, order, rootKeyId, toSpend, amount);
    }

    /** The next child index under `rootKeyId`: one more than the largest
        `nChild` of the entries under that root, or 1 when there are none. */
    method NextChild(rootKeyId: Identifier) returns (next: uint32)
      requires forall k :: k in outputs && outputs[k].rootKeyId == rootKeyId ==> outputs[k].nChild < UINT32_MAX
      ensures forall k :: k in outputs && outputs[k].rootKeyId == rootKeyId ==> outputs[k].nChild < next
      ensures next == 1 || exists k :: k in outputs && outputs[k].rootKeyId == rootKeyId && outputs[k].nChild == next - 1
    {
      var maxN: uint32 := 0;
      var unvisited := outputs.Keys;
      while unvisited != {}
        invariant unvisited <= outputs.Keys
        invariant forall k :: k in outputs && k !in unvisited && outputs[k].rootKeyId == rootKeyId ==> outputs[k].nChild <= maxN
        invariant maxN == 0 || exists k :: k in outputs && outputs[k].rootKeyId == rootKeyId && outputs[k].nChild == maxN
        decreases unvisited
      {
        var k :| k in unvisited;
        var out := outputs[k];
        if maxN < out.nChild && out.rootKeyId == rootKeyId {
          maxN := out.nChild;
        }
        unvisited := unvisited - {k};
      }
      next := maxN + 1;
    }
  }

  /** A client of the ledger: an empty ledger allocates child 1. */
  method NextChildOfEmptyLedger(rootKeyId: Identifier) {
    var wallet := new WalletData();
    var next := wallet.NextChild(rootKeyId);
    assert next == 1;
  }

  /** A client of the ledger: after outputs with child indices 1, 3 and 5 under
      one root, that root's next child is 6. */
  method NextChildAfterThreeOutputs(rootKeyId: Identifier) {
    var wallet := new WalletData();
    var one := OutputData(rootKeyId, Identifier([1]), 1, 100, Unspent, 0, 0, false);
    var three := one.(keyId := Identifier([3]), nChild := 3);
    var five := one.(keyId := Identifier([5]), nChild := 5);
    wallet.AddOutput(one);
    wallet.AddOutput(three);
    wallet.AddOutput(five);
    OneByteHex(1);
    OneByteHex(3);
    OneByteHex(5);
    assert wallet.outputs.Keys == {"01", "03", "05"};
    var next := wallet.NextChild(rootKeyId);
    assert wallet.outputs["05"].nChild < next;
    if next != 1 {
      var k :| k in wallet.outputs && wallet.outputs[k].rootKeyId == rootKeyId && wallet.outputs[k].nChild == next - 1;
      assert k == "01" || k == "03" || k == "05";
    }
    assert next == 6;
  }

  /** Storing under one identifier leaves every other identifier's entry as it was. */
  lemma StoreKeepsOthers(m: map<string, OutputData>, id: Identifier, o: OutputData, other: Identifier)
    requires other != id
    ensures ToHex(other) in m[ToHex(id) := o] <==> ToHex(other) in m
    ensures ToHex(other) in m ==> m[ToHex(id) := o][ToHex(other)] == m[ToHex(other)]
  {
    if ToHex(other) == ToHex(id) {
      ToHexInjective(other, id);
    }
  }

  /** In a ledger keyed by hex, the entry found under an identifier's hex is that identifier's. */
  lemma StoredUnderOwnKey(m: map<string, OutputData>, keyId: Identifier)
    ensures KeyedByHex(m) && ToHex(keyId) in m ==> m[ToHex(keyId)].keyId == keyId
  {
    if KeyedByHex(m) && ToHex(keyId) in m {
      ToHexInjective(m[ToHex(keyId)].keyId, keyId);
    }
  }
}
