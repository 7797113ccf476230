/** MongoDB ObjectIDs as the core sees them: twelve bytes, written as 24
    hexadecimal digits by `ObjectID.Hex()` and read back by
    `primitive.ObjectIDFromHex`. An ObjectID is modelled as the number those
    twelve bytes spell, so it lies below 16^24. */
module ObjectIds {
  import opened Types

  function Pow16(k: nat): (p: nat)
    ensures p >= 1
  {
    if k == 0 then 1 else 16 * Pow16(k - 1)
  }

  /** Number of distinct ObjectIDs (2^96). */
  const IdSpace: nat := Pow16(24)

  predicate IsHexDigit(c: byte)
  {
    (48 <= c <= 57) || (97 <= c <= 102) || (65 <= c <= 70)
  }

  /** Value of a hexadecimal digit; `hex.DecodeString` accepts both cases. */
  function DigitValue(c: byte): (v: nat)
    requires IsHexDigit(c)
    ensures v < 16
  {
    if 48 <= c <= 57 then (c - 48) as nat
    else if 97 <= c <= 102 then (c - 97) as nat + 10
    else (c - 65) as nat + 10
  }

  /** Lower-case digit of a value below 16, as `encoding/hex` writes it. */
  function HexDigit(v: nat): (c: byte)
    requires v < 16
    ensures IsHexDigit(c) && DigitValue(c) == v
  {
    if v < 10 then (48 + v) as byte else (97 + v - 10) as byte
  }

  /** The last `k` hexadecimal digits of `n`, most significant first. */
  function Digits(n: nat, k: nat): (s: Bytes)
    ensures |s| == k
    ensures forall i :: 0 <= i < k ==> IsHexDigit(s[i])
  {
    if k == 0 then [] else Digits(n / 16, k - 1) + [HexDigit(n % 16)]
  }

  /** The number a string of hexadecimal digits spells. */
  function ParseDigits(s: Bytes): (n: nat)
    requires forall i :: 0 <= i < |s| ==> IsHexDigit(s[i])
    ensures n < Pow16(|s|)
  {
    if s == [] then 0 else ParseDigits(s[..|s| - 1]) * 16 + DigitValue(s[|s| - 1])
  }

  /** `ObjectID.Hex()`: always 24 lower-case digits. */
  function Hex(id: nat): (s: Bytes)
    requires id < IdSpace
    ensures |s| == 24 && forall i :: 0 <= i < 24 ==> IsHexDigit(s[i])
  {
    Digits(id, 24)
  }

  /** `primitive.ObjectIDFromHex`: exactly 24 hexadecimal digits, or an
      error. */
  function FromHex(s: Bytes): (r: Result<nat>)
    ensures r.Ok? <==> |s| == 24 && forall i :: 0 <= i < |s| ==> IsHexDigit(s[i])
    ensures r.Ok? ==> r.value < IdSpace
    ensures r.Err? ==> r.error == InvalidHex
  {
    if |s| == 24 && forall i :: 0 <= i < |s| ==> IsHexDigit(s[i]) then Ok(ParseDigits(s))
    else Err(InvalidHex)
  }

  lemma ModStep(n: nat, p: nat)
    requires p >= 1
    ensures ((n / 16) % p) * 16 + n % 16 == n % (16 * p)
  {
    var q, r := n / 16, n % 16;
    var a, b := q / p, q % p;
    assert n == 16 * q + r;
    assert q == p * a + b;
    assert n == (16 * p) * a + (16 * b + r);
    assert 0 <= 16 * b + r < 16 * p;
    ModOfSum(n, 16 * p, a, 16 * b + r);
  }

  lemma ModOfSum(n: int, m: int, a: int, x: int)
    requires m > 0 && 0 <= x < m && n == m * a + x
    ensures n % m == x
  {
    var k := n / m - a;
    assert m * (n / m) + n % m == n;
    assert m * k == x - n % m;
  }

  lemma {:induction false} ParseDigitsOfDigits(n: nat, k: nat)
    ensures ParseDigits(Digits(n, k)) == n % Pow16(k)
  {
    if k > 0 {
      var s := Digits(n, k);
      assert s[..k - 1] == Digits(n / 16, k - 1);
      ParseDigitsOfDigits(n / 16, k - 1);
      ModStep(n, Pow16(k - 1));
    }
  }

  /** Reading back what `Hex` wrote gives the same ObjectID. */
  lemma FromHexOfHex(id: nat)
    requires id < IdSpace
    ensures FromHex(Hex(id)) == Ok(id)
  {
    ParseDigitsOfDigits(id, 24);
    ModOfSum(id, Pow16(24), 0, id);
  }

  /** Distinct ObjectIDs have distinct hexadecimal forms. */
  lemma HexInjective(a: nat, b: nat)
    requires a < IdSpace && b < IdSpace && a != b
    ensures Hex(a) != Hex(b)
  {
    FromHexOfHex(a);
    FromHexOfHex(b);
  }

  /** Position of the first document, in a collection of any kind, whose
      ObjectID (as `idOf` reads it) is `id`, or -1: the document a filter
      `{_id: id}` selects. */
  function IndexOfId<T>(docs: seq<T>, idOf: T -> nat, id: nat): (i: int)
    ensures -1 <= i < |docs|
    ensures i >= 0 ==> idOf(docs[i]) == id
    ensures i == -1 <==> forall j :: 0 <= j < |docs| ==> idOf(docs[j]) != id
    decreases |docs|
  {
    if docs == [] then -1
    else if idOf(docs[0]) == id then 0
    else
      var rest := IndexOfId(docs[1..], idOf, id);
      if rest == -1 then -1 else rest + 1
  }
}
