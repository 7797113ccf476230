/** The two foreign cryptographic libraries the core relies on, kept
    uninterpreted: bcrypt (`golang.org/x/crypto/bcrypt`) and HS512-signed JWTs
    (`github.com/dgrijalva/jwt-go`). Both are passed around as values so that
    every statement about the core holds for every hash function and every
    signer, with only the properties written down here. */
module Primitives {
  import opened Types
  import Utf8

  /** bcrypt at minimum cost. `digest` is the hash, `rejects` says on which
      inputs `GenerateFromPassword` returns an error (newer x/crypto rejects
      secrets longer than 72 bytes). Nothing is assumed about `digest`:
      in particular it need not be injective. */
  datatype Hasher = Hasher(digest: Bytes -> Bytes, rejects: Bytes -> bool)

  /** `bcrypt.GenerateFromPassword(secret, bcrypt.MinCost)`. */
  function GenerateFromPassword(h: Hasher, secret: Bytes): (r: Result<Bytes>)
    ensures r.Ok? <==> !h.rejects(secret)
    ensures r.Ok? ==> CompareHashAndPassword(h, r.value, secret)
    ensures r.Err? ==> r.error == HashFailed
  {
    if h.rejects(secret) then Err(HashFailed) else Ok(h.digest(secret))
  }

  /** `bcrypt.CompareHashAndPassword(hashed, secret) == nil`. */
  predicate CompareHashAndPassword(h: Hasher, hashed: Bytes, secret: Bytes)
  {
    hashed == h.digest(secret)
  }

  /** The claim set of a token (`model.Token`: the user id, the fingerprint
      and the two standard claims the code sets). Times are Unix seconds. */
  datatype Claims = Claims(userId: Bytes, fingerprint: Bytes, expiresAt: int, issuedAt: int)

  /** jwt-go's `StandardClaims.Valid` as far as the two claims set here go:
      a zero claim is not checked, otherwise the token must not have expired
      and must not have been issued in the future. */
  predicate ClaimsValid(c: Claims, now: int)
  {
    (c.expiresAt == 0 || now <= c.expiresAt) && (c.issuedAt == 0 || c.issuedAt <= now)
  }

  /** HS512 signing and parsing. `sign(c, key)` is
      `jwt.NewWithClaims(jwt.SigningMethodHS512, c).SignedString(key)`, `None`
      standing for its error; `parse(tk, key, now)` is `jwt.ParseWithClaims`
      with the key function returning `key`, at clock `now`. */
  datatype Jwt = Jwt(sign: (Claims, Bytes) -> Option<Bytes>, parse: (Bytes, Bytes, int) -> Option<Claims>)

  /** The claims as they come back out of a token: the payload is written by
      `json.Marshal` and read by `json.Unmarshal`, so the two strings lose
      their invalid UTF-8 bytes to U+FFFD. */
  function JsonClaims(c: Claims): (r: Claims)
    ensures Utf8.Valid(r.userId) && Utf8.Valid(r.fingerprint)
    ensures r.expiresAt == c.expiresAt && r.issuedAt == c.issuedAt
  {
    Utf8.SanitizeValid(c.userId);
    Utf8.SanitizeValid(c.fingerprint);
    Claims(Utf8.Sanitize(c.userId), Utf8.Sanitize(c.fingerprint), c.expiresAt, c.issuedAt)
  }

  /** The property assumed of the signer. A token it produced parses back,
      under the same key, to its claims after the JSON round trip while they
      are valid, and is rejected once they are not. Whatever a parse returns
      was read by `json.Unmarshal`, so its strings are valid UTF-8. */
  ghost predicate SoundJwt(j: Jwt)
  {
    && (forall c: Claims, key: Bytes, now: int | j.sign(c, key).Some? ::
          j.parse(j.sign(c, key).value, key, now) == if ClaimsValid(c, now) then Some(JsonClaims(c)) else None)
    && (forall tk: Bytes, key: Bytes, now: int | j.parse(tk, key, now).Some? ::
          Utf8.Valid(j.parse(tk, key, now).value.userId) && Utf8.Valid(j.parse(tk, key, now).value.fingerprint))
  }

  /** jwt-go decodes the claims from the token's payload whatever the clock
      says; the clock only decides whether the token is accepted. So a token
      accepted at two instants carries the same claims at both. */
  ghost predicate StableJwt(j: Jwt)
  {
    forall tk: Bytes, key: Bytes, n1: int, n2: int
      | j.parse(tk, key, n1).Some? && j.parse(tk, key, n2).Some? ::
      j.parse(tk, key, n1) == j.parse(tk, key, n2)
  }
}
