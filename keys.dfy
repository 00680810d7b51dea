/** Key identifiers. The keychain is not part of this model: an identifier is
    its raw bytes, and the ledger stores each output under the lowercase,
    two-digits-per-byte hex rendering of its key identifier. */
module Keys {
  type Byte = b: int | 0 <= b < 256

  datatype Identifier = Identifier(bytes: seq<Byte>)

  /** The hex digit of a nibble: '0'..'9' then 'a'..'f'. */
  function HexDigit(n: int): (c: char)
    requires 0 <= n < 16
    ensures '0' <= c <= '9' || 'a' <= c <= 'f'
  {
    if n < 10 then (48 + n) as char else (97 + n - 10) as char
  }

  lemma HexDigitInjective(m: int, n: int)
    requires 0 <= m < 16 && 0 <= n < 16
    requires HexDigit(m) == HexDigit(n)
    ensures m == n
  {
  }

  /** Two hex digits per byte, high nibble first. */
  function HexOf(bs: seq<Byte>): (s: string)
    ensures |s| == 2 * |bs|
    ensures forall i :: 0 <= i < |s| ==> '0' <= s[i] <= '9' || 'a' <= s[i] <= 'f'
  {
    if bs == [] then []
    else [HexDigit(bs[0] / 16), HexDigit(bs[0] % 16)] + HexOf(bs[1..])
  }

  /** The map key under which the ledger stores an output. */
  function ToHex(id: Identifier): (s: string)
    ensures |s| == 2 * |id.bytes|
  {
    HexOf(id.bytes)
  }

  /** A byte below 10 renders as '0' followed by its decimal digit. */
  lemma OneByteHex(b: Byte)
    requires b < 10
    ensures ToHex(Identifier([b])) == ['0', (48 + b) as char]
  {
    assert [b][1..] == [];
  }

  /** Distinct byte strings have distinct hex renderings. */
  lemma {:induction false} HexOfInjective(a: seq<Byte>, b: seq<Byte>)
    requires HexOf(a) == HexOf(b)
    ensures a == b
  {
    if a != [] {
      var ha, hb := HexOf(a), HexOf(b);
      assert ha[0] == hb[0] && ha[1] == hb[1];
      HexDigitInjective(a[0] / 16, b[0] / 16);
      HexDigitInjective(a[0] % 16, b[0] % 16);
      assert a[0] == b[0];
      assert ha[2..] == HexOf(a[1..]);
      assert hb[2..] == HexOf(b[1..]);
      HexOfInjective(a[1..], b[1..]);
      assert a == [a[0]] + a[1..];
      assert b == [b[0]] + b[1..];
    }
  }

  /** Distinct identifiers are stored under distinct map keys. */
  lemma ToHexInjective(a: Identifier, b: Identifier)
    requires ToHex(a) == ToHex(b)
    ensures a == b
  {
    HexOfInjective(a.bytes, b.bytes);
  }
}
