/** The refresh-session protocol as a whole: what sequences of handler calls
    do to the session collection. A session is created for a device (user
    id and fingerprint); each refresh replaces the session whose hash
    accepts the presented token by a session for a newly minted token;
    revoking removes one session, revoking all removes every session of the
    user. */
module Protocol {
  import opened Types
  import opened Primitives
  import opened ObjectIds
  import opened Tokens
  import opened SessionStore
  import opened ApiServer
  import UserStore
  import Utf8

  /** The base 64 refresh token a client sends back after a 200 response. */
  function RefreshTokenOf(resp: Response): (encoded: Bytes)
    ensures resp.body.TokenPair? && RefreshKey in resp.body.tokens ==> encoded == resp.body.tokens[RefreshKey]
  {
    if resp.body.TokenPair? && RefreshKey in resp.body.tokens then resp.body.tokens[RefreshKey] else []
  }

  // ----------------------------------------------------------------- create

  /** A successful session create appends one session for the device, under
      a fresh id, that holds the hash of the raw refresh token; the response
      carries the access token as minted and the refresh token in base 64. */
  lemma CreateStoresVerifyingSession(users: seq<UserStore.UserDoc>, t: SessionTable, env: Env, now: int,
                                     q: CreateRequest)
    requires TableValid(t)
    requires CreateSessionSpec(users, t, env, now, Some(q)).0.status == StatusOK
    ensures var r := CreateSessionSpec(users, t, env, now, Some(q));
            var pair := CreatePairTokens(env.jwt, env.secret, q.userId, q.fingerprint, now).value;
            && |r.1.docs| == |t.docs| + 1
            && r.1.docs[..|t.docs|] == t.docs
            && r.1.docs[|t.docs|].id == t.nextId
            && (!env.hasher.rejects(pair[RefreshKey]) ==>
                  && Matches(r.1.docs[|t.docs|], q.userId, q.fingerprint)
                  && r.1.docs[|t.docs|].refreshToken == env.hasher.digest(pair[RefreshKey]))
            && r.0.body.TokenPair?
            && r.0.body.tokens[AccessKey] == pair[AccessKey]
            && DecodeFromBase64(r.0.body.tokens[RefreshKey]) == Ok(pair[RefreshKey])
  {
    var r := CreateSessionSpec(users, t, env, now, Some(q));
    var pair := CreatePairTokens(env.jwt, env.secret, q.userId, q.fingerprint, now).value;
    var d := NewSessionDoc(t.nextId, q.userId, pair[RefreshKey], q.fingerprint, now, env.hasher);
    assert r.1.docs == t.docs + [d];
    assert (t.docs + [d])[..|t.docs|] == t.docs;
  }

  // ---------------------------------------------------------------- refresh

  /** A successful refresh replaces exactly the picked session, one for the
      device whose hash accepts the presented token, by a session for the
      newly minted refresh token; the response carries that token. */
  lemma RefreshRotatesSession(t: SessionTable, env: Env, now: int, q: TokenRequest, pick: int)
    requires TableValid(t)
    requires PickOk(t.docs, env, now, Some(q), pick)
    requires RefreshSpec(t, env, now, Some(q), pick).0.status == StatusOK
    ensures var p := Presented(env, now, q.refreshToken).value;
            var r := RefreshSpec(t, env, now, Some(q), pick);
            var issued := CreatePairTokens(env.jwt, env.secret, p.1.userId, p.1.fingerprint, now).value[RefreshKey];
            && 0 <= pick < |t.docs|
            && Matches(t.docs[pick], p.1.userId, p.1.fingerprint)
            && CompareHashAndPassword(env.hasher, t.docs[pick].refreshToken, p.0)
            && r.1.docs == t.docs[..pick] + t.docs[pick + 1..]
                           + [NewSessionDoc(t.nextId, p.1.userId, issued, p.1.fingerprint, now, env.hasher)]
            && r.1.nextId == t.nextId + 1
            && r.0.body.TokenPair?
            && DecodeFromBase64(r.0.body.tokens[RefreshKey]) == Ok(issued)
  {
    var p := Presented(env, now, q.refreshToken).value;
    DeleteCheckedSession(t, pick);
  }

  /** A refresh that passes the session check and then cannot mint a pair
      or store the new session has already deleted the matched session:
      the answer is 401 and that session is gone. */
  lemma RefreshLateFailureLosesSession(t: SessionTable, env: Env, now: int, q: TokenRequest, pick: int)
    requires TableValid(t)
    requires PickOk(t.docs, env, now, Some(q), pick)
    requires Presented(env, now, q.refreshToken).Ok?
    requires var p := Presented(env, now, q.refreshToken).value;
             Check(t.docs, p.1.userId, p.0, p.1.fingerprint, env.hasher, pick).Ok?
    requires RefreshSpec(t, env, now, Some(q), pick).0.status != StatusOK
    ensures 0 <= pick < |t.docs|
    ensures RefreshSpec(t, env, now, Some(q), pick).0.status == StatusUnauthorized
    ensures RefreshSpec(t, env, now, Some(q), pick).1 == SessionTable(t.docs[..pick] + t.docs[pick + 1..], t.nextId)
  {
    DeleteCheckedSession(t, pick);
  }

  /** Replaying a token after it has been rotated fails at the session
      check, unless the new session's hash happens to accept it too, or
      another session of the device does. */
  lemma ReplayRejected(t: SessionTable, env: Env, now: int, q: TokenRequest, pick: int, now2: int, pick2: int)
    requires StableJwt(env.jwt)
    requires TableValid(t)
    requires PickOk(t.docs, env, now, Some(q), pick)
    requires RefreshSpec(t, env, now, Some(q), pick).0.status == StatusOK
    requires PickOk(RefreshSpec(t, env, now, Some(q), pick).1.docs, env, now2, Some(q), pick2)
    requires var p := Presented(env, now, q.refreshToken).value;
             var issued := CreatePairTokens(env.jwt, env.secret, p.1.userId, p.1.fingerprint, now).value[RefreshKey];
             !CompareHashAndPassword(env.hasher,
                                     NewSessionDoc(t.nextId, p.1.userId, issued, p.1.fingerprint, now, env.hasher).refreshToken,
                                     p.0)
    requires var p := Presented(env, now, q.refreshToken).value;
             forall i :: 0 <= i < |t.docs| && i != pick && Matches(t.docs[i], p.1.userId, p.1.fingerprint) ==>
                           !CompareHashAndPassword(env.hasher, t.docs[i].refreshToken, p.0)
    ensures var t2 := RefreshSpec(t, env, now, Some(q), pick).1;
            && RefreshSpec(t2, env, now2, Some(q), pick2).0.status == StatusUnauthorized
            && RefreshSpec(t2, env, now2, Some(q), pick2).1 == t2
  {
    RefreshRotatesSession(t, env, now, q, pick);
    var t2 := RefreshSpec(t, env, now, Some(q), pick).1;
    var p := Presented(env, now, q.refreshToken).value;
    var p2 := Presented(env, now2, q.refreshToken);
    if p2.Ok? {
      assert p2.value == p;
      var issued := CreatePairTokens(env.jwt, env.secret, p.1.userId, p.1.fingerprint, now).value[RefreshKey];
      var d := NewSessionDoc(t.nextId, p.1.userId, issued, p.1.fingerprint, now, env.hasher);
      forall i | 0 <= i < |t2.docs| && Matches(t2.docs[i], p.1.userId, p.1.fingerprint)
        ensures !CompareHashAndPassword(env.hasher, t2.docs[i].refreshToken, p.0)
      {
        if i == |t2.docs| - 1 {
          assert t2.docs[i] == d;
        } else if i < pick {
          assert t2.docs[i] == t.docs[i];
        } else {
          assert t2.docs[i] == t.docs[i + 1];
        }
      }
    }
  }

  /** Tokens minted for the same claims in the same second are the same
      token: a refresh issued in the very second the presented token was
      minted hands out that token again, and the new session accepts it. */
  lemma SameSecondReplayAccepted(t: SessionTable, env: Env, now: int, q: TokenRequest, pick: int)
    requires TableValid(t)
    requires PickOk(t.docs, env, now, Some(q), pick)
    requires RefreshSpec(t, env, now, Some(q), pick).0.status == StatusOK
    requires var p := Presented(env, now, q.refreshToken).value;
             env.jwt.sign(RefreshClaims(p.1.userId, p.1.fingerprint, now), env.secret) == Some(p.0)
    requires !env.hasher.rejects(Presented(env, now, q.refreshToken).value.0)
    ensures var p := Presented(env, now, q.refreshToken).value;
            var t2 := RefreshSpec(t, env, now, Some(q), pick).1;
            && CreatePairTokens(env.jwt, env.secret, p.1.userId, p.1.fingerprint, now).value[RefreshKey] == p.0
            && t.nextId < IdSpace
            && |t2.docs| > 0
            && IsPick(t2.docs, p.1.userId, p.1.fingerprint, |t2.docs| - 1)
            && Check(t2.docs, p.1.userId, p.0, p.1.fingerprint, env.hasher, |t2.docs| - 1) == Ok(Hex(t.nextId))
  {
    RefreshRotatesSession(t, env, now, q, pick);
    var p := Presented(env, now, q.refreshToken).value;
    var t2 := RefreshSpec(t, env, now, Some(q), pick).1;
    assert AnyMatch(t2.docs, p.1.userId, p.1.fingerprint) by {
      assert Matches(t2.docs[|t2.docs| - 1], p.1.userId, p.1.fingerprint);
    }
  }

  /** With a sound signer, a refresh in a later second than the presented
      token's issue time hands out a different token. */
  lemma RotationIssuesFreshToken(t: SessionTable, env: Env, now: int, q: TokenRequest, pick: int)
    requires SoundJwt(env.jwt)
    requires TableValid(t)
    requires PickOk(t.docs, env, now, Some(q), pick)
    requires RefreshSpec(t, env, now, Some(q), pick).0.status == StatusOK
    requires Presented(env, now, q.refreshToken).value.1.issuedAt != now
    ensures var p := Presented(env, now, q.refreshToken).value;
            CreatePairTokens(env.jwt, env.secret, p.1.userId, p.1.fingerprint, now).value[RefreshKey] != p.0
  {
    var p := Presented(env, now, q.refreshToken).value;
    var c := RefreshClaims(p.1.userId, p.1.fingerprint, now);
    var issued := CreatePairTokens(env.jwt, env.secret, p.1.userId, p.1.fingerprint, now).value[RefreshKey];
    assert env.jwt.sign(c, env.secret) == Some(issued);
    assert env.jwt.parse(issued, env.secret, now) == Some(JsonClaims(c));
  }

  /** A user id that names a stored user is 24 hexadecimal digits, so it is
      ASCII and survives the JSON round trip of the claims unchanged. */
  lemma KnownUserIdSurvivesJson(users: seq<UserStore.UserDoc>, userId: Bytes)
    requires UserStore.FindId(users, userId).Ok?
    ensures |userId| == 24
    ensures Utf8.Sanitize(userId) == userId
  {
    assert forall i :: 0 <= i < |userId| ==> IsHexDigit(userId[i]);
    Utf8.AsciiValid(userId);
    Utf8.SanitizeFixesExactlyValid(userId);
  }

  /** A device that has just been given a session can refresh it with the
      refresh token from the response, at any time within the token's
      lifetime, as long as bcrypt accepts the token, signing works and ids
      remain. The fingerprint is valid UTF-8, as every string `json.Decode`
      produces is; `CreateNonUtf8ThenRefreshFails` covers the other case. */
  lemma CreateThenRefreshSucceeds(users: seq<UserStore.UserDoc>, t: SessionTable, env: Env,
                                  now1: int, now2: int, q: CreateRequest, pick: int)
    requires SoundJwt(env.jwt)
    requires Utf8.Valid(q.fingerprint)
    requires TableValid(t)
    requires forall i :: 0 <= i < |t.docs| ==> !Matches(t.docs[i], q.userId, q.fingerprint)
    requires CreateSessionSpec(users, t, env, now1, Some(q)).0.status == StatusOK
    requires !env.hasher.rejects(CreatePairTokens(env.jwt, env.secret, q.userId, q.fingerprint, now1).value[RefreshKey])
    requires now1 <= now2 <= now1 + RefreshTtl
    requires CreatePairTokens(env.jwt, env.secret, q.userId, q.fingerprint, now2).Ok?
    requires CreateSessionSpec(users, t, env, now1, Some(q)).1.nextId < IdSpace
    requires var r := CreateSessionSpec(users, t, env, now1, Some(q));
             PickOk(r.1.docs, env, now2, Some(TokenRequest(RefreshTokenOf(r.0))), pick)
    ensures var r := CreateSessionSpec(users, t, env, now1, Some(q));
            RefreshSpec(r.1, env, now2, Some(TokenRequest(RefreshTokenOf(r.0))), pick).0.status == StatusOK
  {
    var r := CreateSessionSpec(users, t, env, now1, Some(q));
    var t1 := r.1;
    var raw := CreatePairTokens(env.jwt, env.secret, q.userId, q.fingerprint, now1).value[RefreshKey];
    var encoded := RefreshTokenOf(r.0);
    CreateStoresVerifyingSession(users, t, env, now1, q);
    KnownUserIdSurvivesJson(users, q.userId);
    Utf8.SanitizeFixesExactlyValid(q.fingerprint);
    var c := RefreshClaims(q.userId, q.fingerprint, now1);
    assert JsonClaims(c) == c;
    assert env.jwt.sign(c, env.secret) == Some(raw);
    assert env.jwt.parse(raw, env.secret, now2) == Some(c);
    assert Presented(env, now2, encoded) == Ok((raw, c));
    var k := |t.docs|;
    assert forall i :: 0 <= i < k ==> t1.docs[i] == t.docs[i];
    assert Matches(t1.docs[k], q.userId, q.fingerprint);
    assert pick == k;
  }

  /** A session created for a fingerprint that is not valid UTF-8 can never
      be refreshed: the refresh token carries the fingerprint with its bad
      bytes replaced by U+FFFD, which no stored session holds, so the check
      finds no document and the answer is 401. */
  lemma CreateNonUtf8ThenRefreshFails(users: seq<UserStore.UserDoc>, t: SessionTable, env: Env,
                                      now1: int, now2: int, q: CreateRequest, pick: int)
    requires SoundJwt(env.jwt)
    requires !Utf8.Valid(q.fingerprint)
    requires TableValid(t)
    requires forall i :: 0 <= i < |t.docs| ==> !Matches(t.docs[i], q.userId, Utf8.Sanitize(q.fingerprint))
    requires CreateSessionSpec(users, t, env, now1, Some(q)).0.status == StatusOK
    requires now1 <= now2 <= now1 + RefreshTtl
    requires var r := CreateSessionSpec(users, t, env, now1, Some(q));
             PickOk(r.1.docs, env, now2, Some(TokenRequest(RefreshTokenOf(r.0))), pick)
    ensures var r := CreateSessionSpec(users, t, env, now1, Some(q));
            var r2 := RefreshSpec(r.1, env, now2, Some(TokenRequest(RefreshTokenOf(r.0))), pick);
            r2.0.status == StatusUnauthorized && r2.1 == r.1
  {
    var r := CreateSessionSpec(users, t, env, now1, Some(q));
    var t1 := r.1;
    var raw := CreatePairTokens(env.jwt, env.secret, q.userId, q.fingerprint, now1).value[RefreshKey];
    var encoded := RefreshTokenOf(r.0);
    CreateStoresVerifyingSession(users, t, env, now1, q);
    KnownUserIdSurvivesJson(users, q.userId);
    Utf8.SanitizeFixesExactlyValid(q.fingerprint);
    var c := RefreshClaims(q.userId, q.fingerprint, now1);
    var parsed := JsonClaims(c);
    assert parsed.userId == q.userId && parsed.fingerprint == Utf8.Sanitize(q.fingerprint);
    assert env.jwt.sign(c, env.secret) == Some(raw);
    assert env.jwt.parse(raw, env.secret, now2) == Some(parsed);
    assert Presented(env, now2, encoded) == Ok((raw, parsed));
    var k := |t.docs|;
    assert forall i :: 0 <= i < k ==> t1.docs[i] == t.docs[i];
    assert !Matches(t1.docs[k], q.userId, parsed.fingerprint);
    assert !AnyMatch(t1.docs, parsed.userId, parsed.fingerprint);
  }

  // ----------------------------------------------------------------- revoke

  /** Revoking removes exactly the picked session, one for the device whose
      hash accepts the presented token; every other session, of this user
      or another, stays. */
  lemma RevokeRemovesOnlyMatchedSession(t: SessionTable, env: Env, now: int, q: TokenRequest, pick: int)
    requires TableValid(t)
    requires PickOk(t.docs, env, now, Some(q), pick)
    requires RevokeSpec(t, env, now, Some(q), pick).0.status == StatusOK
    ensures var p := Presented(env, now, q.refreshToken).value;
            var r := RevokeSpec(t, env, now, Some(q), pick);
            && 0 <= pick < |t.docs|
            && Matches(t.docs[pick], p.1.userId, p.1.fingerprint)
            && CompareHashAndPassword(env.hasher, t.docs[pick].refreshToken, p.0)
            && r.1 == SessionTable(t.docs[..pick] + t.docs[pick + 1..], t.nextId)
            && r.0.body == Message(DeletedMessage)
            && forall i :: 0 <= i < |t.docs| && i != pick ==> t.docs[i] in r.1.docs
  {
    DeleteCheckedSession(t, pick);
    var rest := t.docs[..pick] + t.docs[pick + 1..];
    forall i | 0 <= i < |t.docs| && i != pick
      ensures t.docs[i] in rest
    {
      if i < pick {
        assert rest[i] == t.docs[i];
      } else {
        assert rest[i - 1] == t.docs[i];
      }
    }
  }

  /** Once a session has been revoked, refreshing with its token fails,
      unless another session of the device accepts the same token. */
  lemma RevokeThenRefreshRejected(t: SessionTable, env: Env, now: int, q: TokenRequest, pick: int,
                                  now2: int, pick2: int)
    requires StableJwt(env.jwt)
    requires TableValid(t)
    requires PickOk(t.docs, env, now, Some(q), pick)
    requires RevokeSpec(t, env, now, Some(q), pick).0.status == StatusOK
    requires PickOk(RevokeSpec(t, env, now, Some(q), pick).1.docs, env, now2, Some(q), pick2)
    requires var p := Presented(env, now, q.refreshToken).value;
             forall i :: 0 <= i < |t.docs| && i != pick && Matches(t.docs[i], p.1.userId, p.1.fingerprint) ==>
                           !CompareHashAndPassword(env.hasher, t.docs[i].refreshToken, p.0)
    ensures var t2 := RevokeSpec(t, env, now, Some(q), pick).1;
            && RefreshSpec(t2, env, now2, Some(q), pick2).0.status == StatusUnauthorized
            && RefreshSpec(t2, env, now2, Some(q), pick2).1 == t2
  {
    DeleteCheckedSession(t, pick);
    var t2 := RevokeSpec(t, env, now, Some(q), pick).1;
    var p := Presented(env, now, q.refreshToken).value;
    var p2 := Presented(env, now2, q.refreshToken);
    if p2.Ok? {
      assert p2.value == p;
      forall i | 0 <= i < |t2.docs| && Matches(t2.docs[i], p.1.userId, p.1.fingerprint)
        ensures !CompareHashAndPassword(env.hasher, t2.docs[i].refreshToken, p.0)
      {
        if i < pick {
          assert t2.docs[i] == t.docs[i];
        } else {
          assert t2.docs[i] == t.docs[i + 1];
        }
      }
    }
  }

  /** After all of a user's sessions have been revoked, every refresh that
      presents a token of that user fails with `ErrNoDocuments` and changes
      nothing. */
  lemma RevokeAllThenRefreshFails(t: SessionTable, env: Env, now: int, q: TokenRequest,
                                  now2: int, q2: TokenRequest, pick2: int)
    requires TableValid(t)
    requires RevokeAllSpec(t, env, now, Some(q)).0.status == StatusOK
    requires PickOk(RevokeAllSpec(t, env, now, Some(q)).1.docs, env, now2, Some(q2), pick2)
    requires Presented(env, now2, q2.refreshToken).Ok?
    requires Presented(env, now2, q2.refreshToken).value.1.userId == Presented(env, now, q.refreshToken).value.1.userId
    ensures var t2 := RevokeAllSpec(t, env, now, Some(q)).1;
            RefreshSpec(t2, env, now2, Some(q2), pick2) == (Reject(StatusUnauthorized, NoDocuments), t2)
  {
    var t2 := RevokeAllSpec(t, env, now, Some(q)).1;
    var c2 := Presented(env, now2, q2.refreshToken).value.1;
    assert !AnyMatch(t2.docs, c2.userId, c2.fingerprint) by {
      forall i | 0 <= i < |t2.docs|
        ensures !Matches(t2.docs[i], c2.userId, c2.fingerprint)
      {
        assert t2.docs[i] in t2.docs;
      }
    }
  }
}
