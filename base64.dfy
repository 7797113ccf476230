/** The standard base 64 encoding of section 4 of RFC 4648, with padding, as
    Go's `base64.StdEncoding` implements it: `EncodeToString` below is
    `Encode`, `DecodeString` is `Decode`. The decoder is Go's non-strict one:
    it skips carriage returns and line feeds anywhere in its input, requires
    the padding, and ignores the unused low bits of a final partial quantum. */
module Base64 {
  import opened Types

  const Pad: byte := 61  // '='

  predicate IsNewline(c: byte) { c == 10 || c == 13 }

  /** The 64 characters of the alphabet: A-Z, a-z, 0-9, '+', '/'. */
  predicate IsAlphabet(c: byte)
  {
    (65 <= c <= 90) || (97 <= c <= 122) || (48 <= c <= 57) || c == 43 || c == 47
  }

  /** The 6-bit value of an alphabet character. */
  function Value(c: byte): (v: nat)
    requires IsAlphabet(c)
    ensures v < 64
  {
    if 65 <= c <= 90 then (c - 65) as nat
    else if 97 <= c <= 122 then (c - 97) as nat + 26
    else if 48 <= c <= 57 then (c - 48) as nat + 52
    else if c == 43 then 62
    else 63
  }

  /** The alphabet character of a 6-bit value. */
  function Char(v: nat): (c: byte)
    requires v < 64
    ensures IsAlphabet(c) && Value(c) == v
  {
    if v < 26 then (v + 65) as byte
    else if v < 52 then (v - 26 + 97) as byte
    else if v < 62 then (v - 52 + 48) as byte
    else if v == 62 then 43
    else 47
  }

  /** Three bytes as four characters. */
  function EncodeQuantum(a: byte, b: byte, c: byte): Bytes
  {
    var x, y, z := a as nat, b as nat, c as nat;
    [Char(x / 4), Char((x % 4) * 16 + y / 16), Char((y % 16) * 4 + z / 64), Char(z % 64)]
  }

  /** A final two bytes as three characters and one pad. */
  function EncodeTwo(a: byte, b: byte): Bytes
  {
    var x, y := a as nat, b as nat;
    [Char(x / 4), Char((x % 4) * 16 + y / 16), Char((y % 16) * 4), Pad]
  }

  /** A final single byte as two characters and two pads. */
  function EncodeOne(a: byte): Bytes
  {
    var x := a as nat;
    [Char(x / 4), Char((x % 4) * 16), Pad, Pad]
  }

  /** `base64.StdEncoding.EncodeToString`. */
  function Encode(b: Bytes): (r: Bytes)
    ensures |r| == 4 * ((|b| + 2) / 3)
    ensures forall i :: 0 <= i < |r| ==> IsAlphabet(r[i]) || r[i] == Pad
    decreases |b|
  {
    if |b| == 0 then []
    else if |b| == 1 then EncodeOne(b[0])
    else if |b| == 2 then EncodeTwo(b[0], b[1])
    else EncodeQuantum(b[0], b[1], b[2]) + Encode(b[3..])
  }

  /** The bytes carried by four 6-bit values (the first `n` of the three). */
  function Assemble(v0: nat, v1: nat, v2: nat, v3: nat, n: nat): (r: Bytes)
    requires v0 < 64 && v1 < 64 && v2 < 64 && v3 < 64 && 1 <= n <= 3
    ensures |r| == n
  {
    var b0 := (v0 * 4 + v1 / 16) as byte;
    var b1 := ((v1 % 16) * 16 + v2 / 4) as byte;
    var b2 := ((v2 % 4) * 64 + v3) as byte;
    [b0, b1, b2][..n]
  }

  /** A final quantum the decoder accepts: `aaaa`, `aaa=` or `aa==`, where
      `a` is an alphabet character. */
  predicate FinalQuantum(c0: byte, c1: byte, c2: byte, c3: byte)
  {
    && IsAlphabet(c0) && IsAlphabet(c1)
    && ((IsAlphabet(c2) && IsAlphabet(c3)) || (IsAlphabet(c2) && c3 == Pad) || (c2 == Pad && c3 == Pad))
  }

  /** Input (line breaks removed) that the decoder accepts: whole quanta,
      alphabet characters only before the last quantum, and that one of the
      three final shapes. */
  predicate WellFormed(c: Bytes)
  {
    && |c| % 4 == 0
    && (|c| > 0 ==> && (forall i :: 0 <= i < |c| - 4 ==> IsAlphabet(c[i]))
                    && FinalQuantum(c[|c| - 4], c[|c| - 3], c[|c| - 2], c[|c| - 1]))
  }

  /** The last quantum of the input: four characters, or a padded tail. */
  function DecodeFinal(c0: byte, c1: byte, c2: byte, c3: byte): (r: Result<Bytes>)
    ensures r.Ok? <==> FinalQuantum(c0, c1, c2, c3)
    ensures r.Ok? ==> |r.value| == (if c2 == Pad then 1 else if c3 == Pad then 2 else 3)
    ensures r.Err? ==> r.error == CorruptBase64
  {
    if !IsAlphabet(c0) || !IsAlphabet(c1) then Err(CorruptBase64)
    else if IsAlphabet(c2) && IsAlphabet(c3) then Ok(Assemble(Value(c0), Value(c1), Value(c2), Value(c3), 3))
    else if IsAlphabet(c2) && c3 == Pad then Ok(Assemble(Value(c0), Value(c1), Value(c2), 0, 2))
    else if c2 == Pad && c3 == Pad then Ok(Assemble(Value(c0), Value(c1), 0, 0, 1))
    else Err(CorruptBase64)
  }

  /** Decoding once line breaks are gone: whole quanta, padding only at the
      end. */
  function DecodeClean(s: Bytes): (r: Result<Bytes>)
    ensures r.Ok? ==> |s| % 4 == 0
    ensures r.Ok? ==> forall i :: 0 <= i < |s| ==> IsAlphabet(s[i]) || s[i] == Pad
    ensures r.Err? ==> r.error == CorruptBase64
    decreases |s|
  {
    if |s| == 0 then Ok([])
    else if |s| < 4 then Err(CorruptBase64)
    else if |s| == 4 then DecodeFinal(s[0], s[1], s[2], s[3])
    else if IsAlphabet(s[0]) && IsAlphabet(s[1]) && IsAlphabet(s[2]) && IsAlphabet(s[3]) then
      match DecodeClean(s[4..])
      case Ok(rest) => Ok(Assemble(Value(s[0]), Value(s[1]), Value(s[2]), Value(s[3]), 3) + rest)
      case Err(e) => Err(e)
    else Err(CorruptBase64)
  }

  /** The input with every carriage return and line feed removed. */
  function StripNewlines(s: Bytes): (r: Bytes)
    ensures forall i :: 0 <= i < |r| ==> !IsNewline(r[i])
    ensures forall i :: 0 <= i < |s| && !IsNewline(s[i]) ==> s[i] in r
    decreases |s|
  {
    if s == [] then []
    else if IsNewline(s[0]) then StripNewlines(s[1..])
    else [s[0]] + StripNewlines(s[1..])
  }

  /** `base64.StdEncoding.DecodeString`. It fails on any byte outside the
      alphabet, the pad and the line breaks, and on input whose length
      without line breaks is not a multiple of four. */
  function Decode(s: Bytes): (r: Result<Bytes>)
    ensures r.Ok? <==> WellFormed(StripNewlines(s))
    ensures r.Ok? ==> |StripNewlines(s)| % 4 == 0
    ensures r.Ok? ==> forall i :: 0 <= i < |s| ==> IsAlphabet(s[i]) || s[i] == Pad || IsNewline(s[i])
    ensures r.Err? ==> r.error == CorruptBase64
  {
    var clean := StripNewlines(s);
    var r := DecodeClean(clean);
    DecodeCleanAccepts(clean);
    assert r.Ok? ==> forall c :: c in clean ==> IsAlphabet(c) || c == Pad;
    r
  }

  /** The decoder succeeds on exactly the well-formed inputs. */
  lemma {:induction false} DecodeCleanAccepts(c: Bytes)
    ensures DecodeClean(c).Ok? <==> WellFormed(c)
    decreases |c|
  {
    if |c| > 4 {
      var tail := c[4..];
      DecodeCleanAccepts(tail);
      assert forall i :: 0 <= i < |tail| ==> tail[i] == c[i + 4];
      if WellFormed(c) {
        assert IsAlphabet(c[0]) && IsAlphabet(c[1]) && IsAlphabet(c[2]) && IsAlphabet(c[3]);
        assert forall i :: 0 <= i < |tail| - 4 ==> IsAlphabet(tail[i]);
        assert WellFormed(tail);
      }
      if DecodeClean(c).Ok? {
        assert WellFormed(tail);
        forall i | 0 <= i < |c| - 4
          ensures IsAlphabet(c[i])
        {
          if i >= 4 {
            assert c[i] == tail[i - 4];
          }
        }
      }
    }
  }

  lemma {:induction false} StripNewlinesIdentity(s: Bytes)
    requires forall i :: 0 <= i < |s| ==> !IsNewline(s[i])
    ensures StripNewlines(s) == s
    decreases |s|
  {
    if s != [] {
      StripNewlinesIdentity(s[1..]);
    }
  }

  lemma QuantumRoundTrip(a: byte, b: byte, c: byte)
    ensures var q := EncodeQuantum(a, b, c);
            Assemble(Value(q[0]), Value(q[1]), Value(q[2]), Value(q[3]), 3) == [a, b, c]
  {
    var x, y, z := a as nat, b as nat, c as nat;
    assert ((x % 4) * 16 + y / 16) / 16 == x % 4;
    assert ((x % 4) * 16 + y / 16) % 16 == y / 16;
    assert ((y % 16) * 4 + z / 64) / 4 == y % 16;
    assert ((y % 16) * 4 + z / 64) % 4 == z / 64;
  }

  lemma TwoRoundTrip(a: byte, b: byte)
    ensures var q := EncodeTwo(a, b);
            Assemble(Value(q[0]), Value(q[1]), Value(q[2]), 0, 2) == [a, b]
  {
    var x, y := a as nat, b as nat;
    assert ((x % 4) * 16 + y / 16) / 16 == x % 4;
    assert ((x % 4) * 16 + y / 16) % 16 == y / 16;
    assert ((y % 16) * 4) / 4 == y % 16;
  }

  lemma OneRoundTrip(a: byte)
    ensures var q := EncodeOne(a);
            Assemble(Value(q[0]), Value(q[1]), 0, 0, 1) == [a]
  {
    var x := a as nat;
    assert ((x % 4) * 16) / 16 == x % 4;
  }

  lemma {:induction false} DecodeCleanEncode(b: Bytes)
    ensures DecodeClean(Encode(b)) == Ok(b)
    decreases |b|
  {
    if |b| == 1 {
      OneRoundTrip(b[0]);
      assert b == [b[0]];
    } else if |b| == 2 {
      TwoRoundTrip(b[0], b[1]);
      assert b == [b[0], b[1]];
    } else if |b| >= 3 {
      var q, rest := EncodeQuantum(b[0], b[1], b[2]), Encode(b[3..]);
      QuantumRoundTrip(b[0], b[1], b[2]);
      DecodeCleanEncode(b[3..]);
      var s := q + rest;
      assert s[..4] == q && s[4..] == rest;
      if |b| == 3 {
        assert b == [b[0], b[1], b[2]];
      } else {
        assert b == [b[0], b[1], b[2]] + b[3..];
      }
    }
  }

  /** Decoding undoes encoding, for every byte string. */
  lemma DecodeEncode(b: Bytes)
    ensures Decode(Encode(b)) == Ok(b)
  {
    var e := Encode(b);
    StripNewlinesIdentity(e);
    DecodeCleanEncode(b);
  }
}
