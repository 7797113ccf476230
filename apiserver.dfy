/** The four session handlers of `apiserver.APIServer`, without HTTP: each
    takes the decoded request body (`None` when the JSON does not decode),
    runs the store calls in order with the same early exits, and returns a
    status code and a body. `CreateSessionSpec`, `RefreshSpec`,
    `RevokeSpec` and `RevokeAllSpec` say what each handler answers and what
    it leaves in the session collection; the `Server` methods are proved
    to do exactly that. */
module ApiServer {
  import opened Types
  import opened Primitives
  import opened ObjectIds
  import opened Tokens
  import opened SessionStore
  import UserStore
  import Base64

  const StatusOK: int := 200
  const StatusBadRequest: int := 400
  const StatusUnauthorized: int := 401

  const DeletedMessage: string := "refresh session was deleted!"
  const AllDeletedMessage: string := "All sessions was deleted"

  /** What the handlers read from outside: the bcrypt and HS512
      implementations and the `token_password` secret. */
  datatype Env = Env(hasher: Hasher, jwt: Jwt, secret: Bytes)

  /** The body of `/session-create`. */
  datatype CreateRequest = CreateRequest(userId: Bytes, fingerprint: Bytes)

  /** The body of `/session-refresh`, `/session-delete` and
      `/delete-all-sessions`. */
  datatype TokenRequest = TokenRequest(refreshToken: Bytes)

  /** The JSON the handler writes: the token pair, a message, or
      `{"error": ...}`. */
  datatype Body = TokenPair(tokens: map<string, Bytes>) | Message(text: string) | Problem(error: Error)

  datatype Response = Response(status: int, body: Body)

  function Reject(status: int, e: Error): Response
  {
    Response(status, Problem(e))
  }

  /** The token pair as it is sent: the refresh token replaced by its base
      64 form, which `DecodeFromBase64` turns back into the token. */
  function Transport(tokens: map<string, Bytes>): (m: map<string, Bytes>)
    requires RefreshKey in tokens
    ensures m.Keys == tokens.Keys
    ensures forall k :: k in tokens && k != RefreshKey ==> m[k] == tokens[k]
    ensures DecodeFromBase64(m[RefreshKey]) == Ok(tokens[RefreshKey])
  {
    DecodeFromBase64OfEncode(tokens[RefreshKey]);
    tokens[RefreshKey := Base64.Encode(tokens[RefreshKey])]
  }

  /** The tail both `handleSessionCreate` and `handleSessionRefresh` end
      with: mint a pair for `userId` and `fingerprint`, store a session for
      its refresh token, answer with the pair. */
  function IssuePair(t: SessionTable, env: Env, now: int, userId: Bytes, fingerprint: Bytes)
    : (r: (Response, SessionTable))
    requires TableValid(t)
    ensures TableValid(r.1)
    ensures r.0.status == StatusOK || r.0.status == StatusUnauthorized
    ensures r.0.status == StatusOK <==>
              CreatePairTokens(env.jwt, env.secret, userId, fingerprint, now).Ok? && t.nextId < IdSpace
    ensures r.0.status == StatusUnauthorized ==> r.1 == t && r.0.body.Problem?
    ensures r.0.status == StatusOK ==>
              var pair := CreatePairTokens(env.jwt, env.secret, userId, fingerprint, now).value;
              && r.1.docs == t.docs + [NewSessionDoc(t.nextId, userId, pair[RefreshKey], fingerprint, now, env.hasher)]
              && r.1.nextId == t.nextId + 1
              && r.0.body.TokenPair?
              && r.0.body.tokens.Keys == {AccessKey, RefreshKey}
              && r.0.body.tokens[AccessKey] == pair[AccessKey]
              && DecodeFromBase64(r.0.body.tokens[RefreshKey]) == Ok(pair[RefreshKey])
  {
    var tokens := CreatePairTokens(env.jwt, env.secret, userId, fingerprint, now);
    if tokens.Err? then (Reject(StatusUnauthorized, tokens.error), t)
    else
      var inserted := Insert(t, userId, tokens.value[RefreshKey], fingerprint, now, env.hasher);
      if inserted.0.Fail? then (Reject(StatusUnauthorized, inserted.0.error), inserted.1)
      else (Response(StatusOK, TokenPair(Transport(tokens.value))), inserted.1)
  }

  /** `DecodeFromBase64` then `ParseToken`: the raw token and its claims. */
  function Presented(env: Env, now: int, encoded: Bytes): (r: Result<(Bytes, Claims)>)
    ensures r.Ok? <==> DecodeFromBase64(encoded).Ok?
                       && env.jwt.parse(DecodeFromBase64(encoded).value, env.secret, now).Some?
    ensures r.Ok? ==> DecodeFromBase64(encoded) == Ok(r.value.0)
                      && env.jwt.parse(r.value.0, env.secret, now) == Some(r.value.1)
    ensures r.Err? ==> r.error == CorruptBase64 || r.error == TokenRejected
  {
    match DecodeFromBase64(encoded)
    case Err(e) => Err(e)
    case Ok(rt) =>
      match env.jwt.parse(rt, env.secret, now)
      case None => Err(TokenRejected)
      case Some(c) => Ok((rt, c))
  }

  /** `pick` is a document `FindOne` may return for the claims the request
      presents, whenever the request gets as far as the session check. */
  ghost predicate PickOk(docs: seq<SessionDoc>, env: Env, now: int, req: Option<TokenRequest>, pick: int)
  {
    req.Some? && Presented(env, now, req.value.refreshToken).Ok? ==>
      var c := Presented(env, now, req.value.refreshToken).value.1;
      IsPick(docs, c.userId, c.fingerprint, pick)
  }

  /** `handleSessionCreate`. */
  function CreateSessionSpec(users: seq<UserStore.UserDoc>, t: SessionTable, env: Env, now: int,
                             req: Option<CreateRequest>): (r: (Response, SessionTable))
    requires TableValid(t)
    ensures TableValid(r.1)
    ensures r.0.status == StatusBadRequest <==> req.None?
    ensures r.0.status != StatusOK ==> r.1 == t
    ensures req.Some? && UserStore.FindId(users, req.value.userId).Err? ==>
              r == (Reject(StatusUnauthorized, UserStore.FindId(users, req.value.userId).error), t)
    ensures r.0.status == StatusOK || r.0.status == StatusBadRequest || r.0.status == StatusUnauthorized
    ensures r.0.status == StatusOK <==>
              && req.Some?
              && UserStore.FindId(users, req.value.userId).Ok?
              && CreatePairTokens(env.jwt, env.secret, req.value.userId, req.value.fingerprint, now).Ok?
              && t.nextId < IdSpace
  {
    match req
    case None => (Reject(StatusBadRequest, MalformedJson), t)
    case Some(q) =>
      var user := UserStore.FindId(users, q.userId);
      if user.Err? then (Reject(StatusUnauthorized, user.error), t)
      else IssuePair(t, env, now, q.userId, q.fingerprint)
  }

  /** `handleSessionRefresh`. The error of `DeleteRefreshSession` is
      ignored. */
  function RefreshSpec(t: SessionTable, env: Env, now: int, req: Option<TokenRequest>, pick: int)
    : (r: (Response, SessionTable))
    requires TableValid(t)
    requires PickOk(t.docs, env, now, req, pick)
    ensures TableValid(r.1)
    ensures r.0.status == StatusBadRequest <==> req.None?
    ensures r.0.status == StatusOK || r.0.status == StatusBadRequest || r.0.status == StatusUnauthorized
    ensures req.Some? && (|| Presented(env, now, req.value.refreshToken).Err?
                          || var p := Presented(env, now, req.value.refreshToken).value;
                             Check(t.docs, p.1.userId, p.0, p.1.fingerprint, env.hasher, pick).Err?)
            ==> r.0.status == StatusUnauthorized && r.1 == t
    ensures r.0.status == StatusOK <==>
              && req.Some?
              && Presented(env, now, req.value.refreshToken).Ok?
              && var p := Presented(env, now, req.value.refreshToken).value;
                 && Check(t.docs, p.1.userId, p.0, p.1.fingerprint, env.hasher, pick).Ok?
                 && CreatePairTokens(env.jwt, env.secret, p.1.userId, p.1.fingerprint, now).Ok?
                 && t.nextId < IdSpace
  {
    match req
    case None => (Reject(StatusBadRequest, MalformedJson), t)
    case Some(q) =>
      var p := Presented(env, now, q.refreshToken);
      if p.Err? then (Reject(StatusUnauthorized, p.error), t)
      else
        var rt, c := p.value.0, p.value.1;
        var found := Check(t.docs, c.userId, rt, c.fingerprint, env.hasher, pick);
        if found.Err? then (Reject(StatusUnauthorized, found.error), t)
        else IssuePair(DeleteById(t, found.value).1, env, now, c.userId, c.fingerprint)
  }

  /** `handleDeleteSessionRefresh`. The error of `DeleteRefreshSession` is
      ignored here too. */
  function RevokeSpec(t: SessionTable, env: Env, now: int, req: Option<TokenRequest>, pick: int)
    : (r: (Response, SessionTable))
    requires TableValid(t)
    requires PickOk(t.docs, env, now, req, pick)
    ensures TableValid(r.1)
    ensures r.0.status == StatusBadRequest <==> req.None?
    ensures r.0.status != StatusOK ==> r.1 == t
    ensures r.0.status == StatusOK || r.0.status == StatusBadRequest || r.0.status == StatusUnauthorized
    ensures r.0.status == StatusOK <==>
              && req.Some?
              && Presented(env, now, req.value.refreshToken).Ok?
              && var p := Presented(env, now, req.value.refreshToken).value;
                 Check(t.docs, p.1.userId, p.0, p.1.fingerprint, env.hasher, pick).Ok?
  {
    match req
    case None => (Reject(StatusBadRequest, MalformedJson), t)
    case Some(q) =>
      var p := Presented(env, now, q.refreshToken);
      if p.Err? then (Reject(StatusUnauthorized, p.error), t)
      else
        var rt, c := p.value.0, p.value.1;
        var found := Check(t.docs, c.userId, rt, c.fingerprint, env.hasher, pick);
        if found.Err? then (Reject(StatusUnauthorized, found.error), t)
        else (Response(StatusOK, Message(DeletedMessage)), DeleteById(t, found.value).1)
  }

  predicate HasSessions(docs: seq<SessionDoc>, userId: Bytes)
  {
    exists j :: 0 <= j < |docs| && docs[j].userId == userId
  }

  /** `handleDeleteAllSessionsRefresh`: no session check, only the token's
      own validity. */
  function RevokeAllSpec(t: SessionTable, env: Env, now: int, req: Option<TokenRequest>)
    : (r: (Response, SessionTable))
    requires TableValid(t)
    ensures TableValid(r.1)
    ensures r.0.status == StatusBadRequest <==> req.None?
    ensures r.0.status != StatusOK ==> r.1 == t
    ensures r.0.status == StatusOK || r.0.status == StatusBadRequest || r.0.status == StatusUnauthorized
    ensures r.0.status == StatusOK <==>
              && req.Some?
              && Presented(env, now, req.value.refreshToken).Ok?
              && HasSessions(t.docs, Presented(env, now, req.value.refreshToken).value.1.userId)
    ensures r.0.status == StatusOK ==>
              var u := Presented(env, now, req.value.refreshToken).value.1.userId;
              forall d :: d in r.1.docs <==> d in t.docs && d.userId != u
  {
    match req
    case None => (Reject(StatusBadRequest, MalformedJson), t)
    case Some(q) =>
      var p := Presented(env, now, q.refreshToken);
      if p.Err? then (Reject(StatusUnauthorized, p.error), t)
      else
        var deleted := DeleteAll(t, p.value.1.userId);
        if deleted.0.Fail? then (Reject(StatusUnauthorized, deleted.0.error), deleted.1)
        else (Response(StatusOK, Message(AllDeletedMessage)), deleted.1)
  }

  // ---------------------------------------------------------------- server

  /** The server's two repositories. */
  class Server {
    const sessions: RefreshSessionRepository
    const users: UserStore.UserRepository

    ghost predicate Valid()
      reads sessions, users
    {
      sessions.Valid() && users.Valid()
    }

    constructor (s: RefreshSessionRepository, u: UserStore.UserRepository)
      requires s.Valid() && u.Valid()
      ensures sessions == s && users == u
      ensures Valid()
    {
      sessions, users := s, u;
    }

    /** `handleSessionCreate`. */
    method SessionCreate(env: Env, now: int, req: Option<CreateRequest>) returns (resp: Response)
      requires Valid()
      modifies sessions
      ensures Valid()
      ensures (resp, sessions.Table()) == CreateSessionSpec(users.docs, old(sessions.Table()), env, now, req)
    {
      if req.None? {
        return Reject(StatusBadRequest, MalformedJson);
      }
      var q := req.value;
      var user := users.FindByID(q.userId);
      if user.Err? {
        return Reject(StatusUnauthorized, user.error);
      }
      resp := Issue(env, now, q.userId, q.fingerprint);
    }

    /** `handleSessionRefresh`. `pick` records which session `FindOne`
        returned. */
    method SessionRefresh(env: Env, now: int, req: Option<TokenRequest>) returns (resp: Response, ghost pick: int)
      requires Valid()
      modifies sessions
      ensures Valid()
      ensures PickOk(old(sessions.docs), env, now, req, pick)
      ensures (resp, sessions.Table()) == RefreshSpec(old(sessions.Table()), env, now, req, pick)
    {
      if req.None? {
        return Reject(StatusBadRequest, MalformedJson), -1;
      }
      var token := new Token();
      var rt := DecodeFromBase64(req.value.refreshToken);
      if rt.Err? {
        return Reject(StatusUnauthorized, rt.error), -1;
      }
      var parsed := token.ParseToken(env.jwt, env.secret, rt.value, now);
      if parsed.Fail? {
        return Reject(StatusUnauthorized, parsed.error), -1;
      }
      var sessionId;
      sessionId, pick := sessions.CheckRefreshSession(token.userId, rt.value, token.fingerprint, env.hasher);
      if sessionId.Err? {
        return Reject(StatusUnauthorized, sessionId.error), pick;
      }
      var ignored := sessions.DeleteRefreshSession(sessionId.value);
      resp := Issue(env, now, token.userId, token.fingerprint);
    }

    /** `handleDeleteSessionRefresh`. */
    method DeleteSession(env: Env, now: int, req: Option<TokenRequest>) returns (resp: Response, ghost pick: int)
      requires Valid()
      modifies sessions
      ensures Valid()
      ensures PickOk(old(sessions.docs), env, now, req, pick)
      ensures (resp, sessions.Table()) == RevokeSpec(old(sessions.Table()), env, now, req, pick)
    {
      if req.None? {
        return Reject(StatusBadRequest, MalformedJson), -1;
      }
      var token := new Token();
      var rt := DecodeFromBase64(req.value.refreshToken);
      if rt.Err? {
        return Reject(StatusUnauthorized, rt.error), -1;
      }
      var parsed := token.ParseToken(env.jwt, env.secret, rt.value, now);
      if parsed.Fail? {
        return Reject(StatusUnauthorized, parsed.error), -1;
      }
      var sessionId;
      sessionId, pick := sessions.CheckRefreshSession(token.userId, rt.value, token.fingerprint, env.hasher);
      if sessionId.Err? {
        return Reject(StatusUnauthorized, sessionId.error), pick;
      }
      var ignored := sessions.DeleteRefreshSession(sessionId.value);
      resp := Response(StatusOK, Message(DeletedMessage));
    }

    /** `handleDeleteAllSessionsRefresh`. */
    method DeleteAllSessions(env: Env, now: int, req: Option<TokenRequest>) returns (resp: Response)
      requires Valid()
      modifies sessions
      ensures Valid()
      ensures (resp, sessions.Table()) == RevokeAllSpec(old(sessions.Table()), env, now, req)
    {
      if req.None? {
        return Reject(StatusBadRequest, MalformedJson);
      }
      var token := new Token();
      var rt := DecodeFromBase64(req.value.refreshToken);
      if rt.Err? {
        return Reject(StatusUnauthorized, rt.error);
      }
      var parsed := token.ParseToken(env.jwt, env.secret, rt.value, now);
      if parsed.Fail? {
        return Reject(StatusUnauthorized, parsed.error);
      }
      var err := sessions.DeleteAllRefreshSessions(token.userId);
      if err.Fail? {
        return Reject(StatusUnauthorized, err.error);
      }
      resp := Response(StatusOK, Message(AllDeletedMessage));
    }

    /** The shared tail of `handleSessionCreate` and `handleSessionRefresh`: `CreatePairTokens`, `CreateNewSession`,
        then the refresh token is overwritten in the map by its base 64
        form. */
    method Issue(env: Env, now: int, userId: Bytes, fingerprint: Bytes) returns (resp: Response)
      requires sessions.Valid()
      modifies sessions
      ensures sessions.Valid()
      ensures (resp, sessions.Table()) == IssuePair(old(sessions.Table()), env, now, userId, fingerprint)
    {
      var tokens := CreatePairTokens(env.jwt, env.secret, userId, fingerprint, now);
      if tokens.Err? {
        return Reject(StatusUnauthorized, tokens.error);
      }
      var err := sessions.CreateNewSession(userId, tokens.value[RefreshKey], fingerprint, now, env.hasher);
      if err.Fail? {
        return Reject(StatusUnauthorized, err.error);
      }
      var pair := tokens.value;
      pair := pair[RefreshKey := Base64.Encode(pair[RefreshKey])];
      resp := Response(StatusOK, TokenPair(pair));
    }
  }
}
