/** UTF-8 as Go's `unicode/utf8` reads it, and what `encoding/json` does to
    a string that is not valid UTF-8: the encoder writes each byte that does
    not start a well-formed sequence as U+FFFD, so a Go string that goes
    through JSON (as every JWT claim does) comes back with those bytes
    replaced. */
module Utf8 {
  import opened Types

  /** A continuation byte, 10xxxxxx. */
  predicate IsCont(b: byte) { 0x80 <= b <= 0xBF }

  /** The width of the well-formed sequence at the start of `s`, as
      `utf8.DecodeRune` accepts it (no overlong forms, no surrogates, nothing
      above U+10FFFF), or 0 when `s` is empty or does not start with one. */
  function RuneWidth(s: Bytes): (w: nat)
    ensures w <= |s| && w <= 4
    ensures w > 0 ==> !IsCont(s[0])
  {
    if |s| == 0 then 0
    else if s[0] < 0x80 then 1
    else if 0xC2 <= s[0] <= 0xDF then
      if |s| >= 2 && IsCont(s[1]) then 2 else 0
    else if 0xE0 <= s[0] <= 0xEF then
      var lo: byte := if s[0] == 0xE0 then 0xA0 else 0x80;
      var hi: byte := if s[0] == 0xED then 0x9F else 0xBF;
      if |s| >= 3 && lo <= s[1] <= hi && IsCont(s[2]) then 3 else 0
    else if 0xF0 <= s[0] <= 0xF4 then
      var lo: byte := if s[0] == 0xF0 then 0x90 else 0x80;
      var hi: byte := if s[0] == 0xF4 then 0x8F else 0xBF;
      if |s| >= 4 && lo <= s[1] <= hi && IsCont(s[2]) && IsCont(s[3]) then 4 else 0
    else 0
  }

  /** `utf8.Valid`. */
  predicate Valid(s: Bytes)
    decreases |s|
  {
    s == [] || (RuneWidth(s) > 0 && Valid(s[RuneWidth(s)..]))
  }

  /** U+FFFD, the replacement character. */
  const Replacement: Bytes := [0xEF, 0xBF, 0xBD]

  /** A string after `json.Marshal` and `json.Unmarshal`: every byte that
      does not start a well-formed sequence becomes U+FFFD. */
  function Sanitize(s: Bytes): (r: Bytes)
    decreases |s|
  {
    if s == [] then []
    else if RuneWidth(s) == 0 then Replacement + Sanitize(s[1..])
    else s[..RuneWidth(s)] + Sanitize(s[RuneWidth(s)..])
  }

  /** The width of a leading sequence depends on its own bytes only. */
  lemma RuneWidthPrefix(s: Bytes, t: Bytes)
    requires RuneWidth(s) > 0
    ensures RuneWidth(s[..RuneWidth(s)] + t) == RuneWidth(s)
  {
    var w := RuneWidth(s);
    var u := s[..w] + t;
    assert forall i :: 0 <= i < w ==> u[i] == s[i];
  }

  /** Whatever the input, the sanitised string is valid UTF-8. */
  lemma {:induction false} SanitizeValid(s: Bytes)
    ensures Valid(Sanitize(s))
    decreases |s|
  {
    if s != [] {
      var w := RuneWidth(s);
      if w == 0 {
        SanitizeValid(s[1..]);
        var r := Replacement + Sanitize(s[1..]);
        assert RuneWidth(Replacement) == 3;
        RuneWidthPrefix(Replacement, Sanitize(s[1..]));
        assert r[..3] == Replacement;
        assert r[3..] == Sanitize(s[1..]);
      } else {
        SanitizeValid(s[w..]);
        var r := s[..w] + Sanitize(s[w..]);
        RuneWidthPrefix(s, Sanitize(s[w..]));
        assert r[w..] == Sanitize(s[w..]);
      }
    }
  }

  /** Sanitising changes a string exactly when it is not valid UTF-8. */
  lemma {:induction false} SanitizeFixesExactlyValid(s: Bytes)
    ensures Sanitize(s) == s <==> Valid(s)
    decreases |s|
  {
    SanitizeValid(s);
    if s != [] && Valid(s) {
      var w := RuneWidth(s);
      SanitizeFixesExactlyValid(s[w..]);
      assert s[..w] + s[w..] == s;
    }
  }

  /** ASCII is valid UTF-8. */
  lemma {:induction false} AsciiValid(s: Bytes)
    requires forall i :: 0 <= i < |s| ==> s[i] < 0x80
    ensures Valid(s)
    decreases |s|
  {
    if s != [] {
      assert RuneWidth(s) == 1;
      AsciiValid(s[1..]);
    }
  }
}
