/** The refresh-session record (`model.RefreshSession`) and its two
    operations: filling it in for a new session, and checking a presented
    token against the hash it holds. */
module RefreshSessions {
  import opened Types
  import opened Primitives
  import Decimal

  /** `time.Hour * 24`, in seconds: how long after its creation a session
      record says it expires. */
  const SessionLifetime: int := 24 * 60 * 60

  /** `encryptToken`: bcrypt at minimum cost. */
  function EncryptToken(h: Hasher, t: Bytes): (r: Result<Bytes>)
    ensures r.Ok? <==> !h.rejects(t)
    ensures r.Ok? ==> CompareHashAndPassword(h, r.value, t)
    ensures r.Err? ==> r.error == HashFailed
  {
    GenerateFromPassword(h, t)
  }

  class RefreshSession {
    var id: nat
    var userId: Bytes
    var refreshToken: Bytes
    var encryptedRefreshToken: Bytes
    var fingerprint: Bytes
    var expiresIn: Bytes
    var createdAt: Bytes

    /** `&model.RefreshSession{}`: every field at its zero value. */
    constructor ()
      ensures id == 0 && userId == [] && refreshToken == [] && encryptedRefreshToken == []
      ensures fingerprint == [] && expiresIn == [] && createdAt == []
    {
      id, userId, refreshToken, encryptedRefreshToken := 0, [], [], [];
      fingerprint, expiresIn, createdAt := [], [], [];
    }

    /** A record decoded from a stored document. The document keeps the hash
        under the key `refresh_token`, which the struct's tags map to the
        `RefreshToken` field; `EncryptedRefreshToken` is not in the document
        and stays empty. */
    constructor Decoded(docId: nat, docUserId: Bytes, docToken: Bytes, docFingerprint: Bytes,
                        docExpiresIn: Bytes, docCreatedAt: Bytes)
      ensures id == docId && userId == docUserId && refreshToken == docToken
      ensures encryptedRefreshToken == []
      ensures fingerprint == docFingerprint && expiresIn == docExpiresIn && createdAt == docCreatedAt
    {
      id, userId, refreshToken, encryptedRefreshToken := docId, docUserId, docToken, [];
      fingerprint, expiresIn, createdAt := docFingerprint, docExpiresIn, docCreatedAt;
    }

    /** `CreateRefreshSession`, with the clock read once as `now`. Hashing
        comes first; when it fails nothing has been assigned yet. */
    method CreateRefreshSession(newUserId: Bytes, rt: Bytes, newFingerprint: Bytes, now: int, h: Hasher)
      returns (err: Outcome)
      modifies this
      ensures err.Fail? <==> h.rejects(rt)
      ensures err.Fail? ==> err.error == HashFailed && unchanged(this)
      ensures err.Pass? ==> id == old(id) && userId == newUserId && fingerprint == newFingerprint
      ensures err.Pass? ==> refreshToken == rt && encryptedRefreshToken == h.digest(rt)
      ensures err.Pass? ==> CompareHashAndPassword(h, encryptedRefreshToken, rt)
      ensures err.Pass? ==> expiresIn == Decimal.FormatInt(now + SessionLifetime)
                            && createdAt == Decimal.FormatInt(now)
      ensures err.Pass? ==> Decimal.ParseInt(expiresIn) == Some(now + SessionLifetime)
                            && Decimal.ParseInt(createdAt) == Some(now)
    {
      var expires := now + SessionLifetime;
      var created := now;
      var b := EncryptToken(h, rt);
      if b.Err? {
        return Fail(b.error);
      }
      userId := newUserId;
      refreshToken := rt;
      encryptedRefreshToken := b.value;
      fingerprint := newFingerprint;
      expiresIn := Decimal.FormatInt(expires);
      createdAt := Decimal.FormatInt(created);
      Decimal.ParseFormat(expires);
      Decimal.ParseFormat(created);
      err := Pass;
    }

    /** `CompareRefreshToken`: bcrypt's comparison of the presented token
        against the `RefreshToken` field, which holds the hash when the record
        was decoded from the store. */
    function CompareRefreshToken(h: Hasher, t: Bytes): (ok: bool)
      reads this
      ensures ok <==> CompareHashAndPassword(h, refreshToken, t)
    {
      CompareHashAndPassword(h, refreshToken, t)
    }
  }

  /** A record whose `RefreshToken` is the hash of `s` accepts `s`. */
  lemma CompareAcceptsHashedToken(rs: RefreshSession, h: Hasher, s: Bytes)
    requires rs.refreshToken == h.digest(s)
    ensures rs.CompareRefreshToken(h, s)
  {
  }
}
