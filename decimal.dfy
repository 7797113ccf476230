/** The decimal rendering `fmt.Sprintf("%d", n)` the session record uses for
    its two timestamps, and the matching reader (`strconv.ParseInt(s, 10, _)`
    without its 64-bit range check). */
module Decimal {
  import opened Types

  const Minus: byte := 45  // '-'
  const Plus: byte := 43   // '+'

  predicate IsDigit(c: byte) { 48 <= c <= 57 }

  predicate AllDigits(s: Bytes) { forall i :: 0 <= i < |s| ==> IsDigit(s[i]) }

  /** Decimal digits of a natural number, without leading zeros. */
  function FormatNat(n: nat): (s: Bytes)
    ensures |s| >= 1 && AllDigits(s)
    ensures |s| > 1 ==> s[0] != 48
  {
    if n < 10 then [(48 + n) as byte] else FormatNat(n / 10) + [(48 + n % 10) as byte]
  }

  /** `fmt.Sprintf("%d", n)`. */
  function FormatInt(n: int): (s: Bytes)
    ensures |s| >= 1
    ensures s[0] == Minus <==> n < 0
  {
    if n < 0 then [Minus] + FormatNat(-n) else FormatNat(n)
  }

  function ParseNat(s: Bytes): nat
    requires AllDigits(s)
  {
    if s == [] then 0 else ParseNat(s[..|s| - 1]) * 10 + (s[|s| - 1] - 48) as nat
  }

  /** `strconv.ParseInt(s, 10, _)`: an optional sign, then one or more
      digits. */
  function ParseInt(s: Bytes): (r: Option<int>)
    ensures r.Some? ==> |s| >= 1
  {
    if |s| >= 2 && (s[0] == Minus || s[0] == Plus) && AllDigits(s[1..]) then
      var magnitude: int := ParseNat(s[1..]);
      Some(if s[0] == Minus then -magnitude else magnitude)
    else if |s| >= 1 && AllDigits(s) then Some(ParseNat(s))
    else None
  }

  lemma {:induction false} ParseFormatNat(n: nat)
    ensures ParseNat(FormatNat(n)) == n
  {
    if n >= 10 {
      var s := FormatNat(n);
      assert s[..|s| - 1] == FormatNat(n / 10);
      ParseFormatNat(n / 10);
    } else {
      assert FormatNat(n)[..0] == [];
    }
  }

  /** Reading back a rendered integer gives the integer. */
  lemma ParseFormat(n: int)
    ensures ParseInt(FormatInt(n)) == Some(n)
  {
    if n < 0 {
      assert FormatInt(n)[1..] == FormatNat(-n);
      ParseFormatNat(-n);
    } else {
      ParseFormatNat(n);
    }
  }

  /** Distinct instants are rendered differently. */
  lemma FormatIntInjective(a: int, b: int)
    requires a != b
    ensures FormatInt(a) != FormatInt(b)
  {
    ParseFormat(a);
    ParseFormat(b);
  }
}
