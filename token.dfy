/** Token claims and the token pair (`model.Token`): minting an access token
    and a refresh token for a user and a device fingerprint, parsing a
    presented token, and the base 64 transport form of refresh tokens. */
module Tokens {
  import opened Types
  import opened Primitives
  import Base64
  import Utf8

  /** `time.Minute * 15` and `time.Hour * 24`, in seconds. */
  const AccessTtl: int := 15 * 60
  const RefreshTtl: int := 24 * 60 * 60

  /** The two keys of the map `CreatePairTokens` returns. */
  const AccessKey: string := "accessToken"
  const RefreshKey: string := "refreshToken"

  /** The claims `CreateAccess` signs, with the clock read once as `now`. */
  function AccessClaims(userId: Bytes, fingerprint: Bytes, now: int): (c: Claims)
    ensures c.userId == userId && c.fingerprint == fingerprint
    ensures c.issuedAt == now && c.expiresAt - c.issuedAt == AccessTtl
  {
    Claims(userId, fingerprint, now + AccessTtl, now)
  }

  /** The claims `CreateRefresh` signs. */
  function RefreshClaims(userId: Bytes, fingerprint: Bytes, now: int): (c: Claims)
    ensures c.userId == userId && c.fingerprint == fingerprint
    ensures c.issuedAt == now && c.expiresAt - c.issuedAt == RefreshTtl
  {
    Claims(userId, fingerprint, now + RefreshTtl, now)
  }

  /** `CreateAccess`: the HS512 signature of the access claims under `key`. */
  function CreateAccess(j: Jwt, key: Bytes, userId: Bytes, fingerprint: Bytes, now: int): (r: Result<Bytes>)
    ensures r.Ok? <==> j.sign(AccessClaims(userId, fingerprint, now), key).Some?
    ensures r.Ok? ==> j.sign(AccessClaims(userId, fingerprint, now), key) == Some(r.value)
    ensures r.Err? ==> r.error == SignFailed
  {
    match j.sign(AccessClaims(userId, fingerprint, now), key)
    case None => Err(SignFailed)
    case Some(s) => Ok(s)
  }

  /** `CreateRefresh`: the HS512 signature of the refresh claims under `key`. */
  function CreateRefresh(j: Jwt, key: Bytes, userId: Bytes, fingerprint: Bytes, now: int): (r: Result<Bytes>)
    ensures r.Ok? <==> j.sign(RefreshClaims(userId, fingerprint, now), key).Some?
    ensures r.Ok? ==> j.sign(RefreshClaims(userId, fingerprint, now), key) == Some(r.value)
    ensures r.Err? ==> r.error == SignFailed
  {
    match j.sign(RefreshClaims(userId, fingerprint, now), key)
    case None => Err(SignFailed)
    case Some(s) => Ok(s)
  }

  /** `CreatePairTokens`: both tokens, or the first signing error and no map. */
  function CreatePairTokens(j: Jwt, key: Bytes, userId: Bytes, fingerprint: Bytes, now: int)
    : (r: Result<map<string, Bytes>>)
    ensures r.Ok? <==> CreateAccess(j, key, userId, fingerprint, now).Ok?
                       && CreateRefresh(j, key, userId, fingerprint, now).Ok?
    ensures r.Ok? ==> r.value.Keys == {AccessKey, RefreshKey}
    ensures r.Ok? ==> r.value[AccessKey] == CreateAccess(j, key, userId, fingerprint, now).value
                      && r.value[RefreshKey] == CreateRefresh(j, key, userId, fingerprint, now).value
    ensures r.Err? ==> r.error == SignFailed
  {
    var access := CreateAccess(j, key, userId, fingerprint, now);
    if access.Err? then Err(access.error)
    else
      var refresh := CreateRefresh(j, key, userId, fingerprint, now);
      if refresh.Err? then Err(refresh.error)
      else Ok(map[AccessKey := access.value, RefreshKey := refresh.value])
  }

  /** With a sound signer, each token of a pair parses back to claims that
      carry the caller's user id and fingerprint as JSON returns them (invalid
      UTF-8 bytes replaced by U+FFFD), for as long as its own lifetime lasts
      and not after. For a user id and fingerprint that are valid UTF-8 these
      are the caller's own. */
  lemma PairCarriesCallerClaims(j: Jwt, key: Bytes, userId: Bytes, fingerprint: Bytes, now: int, t: int)
    requires SoundJwt(j)
    requires CreatePairTokens(j, key, userId, fingerprint, now).Ok?
    ensures var tokens := CreatePairTokens(j, key, userId, fingerprint, now).value;
            var u, f := Utf8.Sanitize(userId), Utf8.Sanitize(fingerprint);
            && j.parse(tokens[AccessKey], key, t)
               == (if ClaimsValid(AccessClaims(userId, fingerprint, now), t)
                   then Some(AccessClaims(u, f, now)) else None)
            && j.parse(tokens[RefreshKey], key, t)
               == (if ClaimsValid(RefreshClaims(userId, fingerprint, now), t)
                   then Some(RefreshClaims(u, f, now)) else None)
    ensures Utf8.Valid(userId) && Utf8.Valid(fingerprint) ==>
            var tokens := CreatePairTokens(j, key, userId, fingerprint, now).value;
            && j.parse(tokens[AccessKey], key, t)
               == (if ClaimsValid(AccessClaims(userId, fingerprint, now), t)
                   then Some(AccessClaims(userId, fingerprint, now)) else None)
            && j.parse(tokens[RefreshKey], key, t)
               == (if ClaimsValid(RefreshClaims(userId, fingerprint, now), t)
                   then Some(RefreshClaims(userId, fingerprint, now)) else None)
  {
    var a, r := AccessClaims(userId, fingerprint, now), RefreshClaims(userId, fingerprint, now);
    assert j.parse(j.sign(a, key).value, key, t) == if ClaimsValid(a, t) then Some(JsonClaims(a)) else None;
    assert j.parse(j.sign(r, key).value, key, t) == if ClaimsValid(r, t) then Some(JsonClaims(r)) else None;
    Utf8.SanitizeFixesExactlyValid(userId);
    Utf8.SanitizeFixesExactlyValid(fingerprint);
  }

  /** An access token is valid from its issue second to 15 minutes later, a
      refresh token to 24 hours later. */
  lemma LifetimeWindows(userId: Bytes, fingerprint: Bytes, now: int, t: int)
    requires now <= t
    ensures ClaimsValid(AccessClaims(userId, fingerprint, now), t) <==> t <= now + AccessTtl || now + AccessTtl == 0
    ensures ClaimsValid(RefreshClaims(userId, fingerprint, now), t) <==> t <= now + RefreshTtl || now + RefreshTtl == 0
  {
  }

  /** The receiver of `ParseToken`. */
  class Token {
    var userId: Bytes
    var fingerprint: Bytes
    var expiresAt: int
    var issuedAt: int

    /** `&model.Token{}`. */
    constructor ()
      ensures userId == [] && fingerprint == [] && expiresAt == 0 && issuedAt == 0
    {
      userId, fingerprint, expiresAt, issuedAt := [], [], 0, 0;
    }

    /** The claims the receiver currently holds. */
    function Parsed(): Primitives.Claims
      reads this
    {
      Primitives.Claims(userId, fingerprint, expiresAt, issuedAt)
    }

    /** `ParseToken`: on success the receiver holds the token's claims. jwt-go
        decodes the payload into the receiver before it checks the signature,
        so after a failure its fields are left unspecified. */
    method ParseToken(j: Jwt, key: Bytes, tk: Bytes, now: int) returns (err: Outcome)
      modifies this
      ensures err.Pass? <==> j.parse(tk, key, now).Some?
      ensures err.Pass? ==> Parsed() == j.parse(tk, key, now).value
      ensures err.Fail? ==> err.error == TokenRejected
    {
      var parsed := j.parse(tk, key, now);
      if parsed.None? {
        return Fail(TokenRejected);
      }
      userId, fingerprint := parsed.value.userId, parsed.value.fingerprint;
      expiresAt, issuedAt := parsed.value.expiresAt, parsed.value.issuedAt;
      err := Pass;
    }
  }

  /** `DecodeFromBase64`: `base64.StdEncoding.DecodeString`. */
  function DecodeFromBase64(encoded: Bytes): (r: Result<Bytes>)
    ensures r.Ok? <==> Base64.WellFormed(Base64.StripNewlines(encoded))
    ensures r.Ok? ==> |Base64.StripNewlines(encoded)| % 4 == 0
    ensures r.Ok? ==> forall i :: 0 <= i < |encoded| ==>
              Base64.IsAlphabet(encoded[i]) || encoded[i] == Base64.Pad || Base64.IsNewline(encoded[i])
    ensures r.Err? ==> r.error == CorruptBase64
  {
    Base64.Decode(encoded)
  }

  /** The handlers' `base64.StdEncoding.EncodeToString` is undone by
      `DecodeFromBase64`. */
  lemma DecodeFromBase64OfEncode(raw: Bytes)
    ensures DecodeFromBase64(Base64.Encode(raw)) == Ok(raw)
  {
    Base64.DecodeEncode(raw);
  }
}
