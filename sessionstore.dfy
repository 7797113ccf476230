/** The refresh-session repository (`store.RefreshSessionRepository`) over an
    in-memory collection. Each driver call (`InsertOne`, `FindOne`,
    `DeleteOne`, `DeleteMany`) is one atomic step on the document sequence.
    The pure functions `Insert`, `Check`, `DeleteById` and `DeleteAll` say
    what each repository operation does to a `SessionTable`; the class
    methods are proved to do exactly that. */
module SessionStore {
  import opened Types
  import opened Primitives
  import opened ObjectIds
  import RefreshSessions
  import Decimal

  /** A stored session document: its `_id` and the keys `user_id`,
      `refresh_token`, `fingerprint`, `expires_in` and `created_at`. */
  datatype SessionDoc = SessionDoc(id: nat, userId: Bytes, refreshToken: Bytes, fingerprint: Bytes,
                                   expiresIn: Bytes, createdAt: Bytes)

  /** The collection and the next ObjectID the store hands out. */
  datatype SessionTable = SessionTable(docs: seq<SessionDoc>, nextId: nat)

  /** Every id is an ObjectID handed out earlier, and no two documents
      share an id. */
  ghost predicate TableValid(t: SessionTable)
  {
    && t.nextId <= IdSpace
    && (forall i :: 0 <= i < |t.docs| ==> t.docs[i].id < t.nextId)
    && DistinctIds(t.docs)
  }

  ghost predicate DistinctIds(docs: seq<SessionDoc>)
  {
    forall i, j :: 0 <= i < j < |docs| ==> docs[i].id != docs[j].id
  }

  predicate Matches(d: SessionDoc, userId: Bytes, fingerprint: Bytes)
  {
    d.userId == userId && d.fingerprint == fingerprint
  }

  // ---------------------------------------------------------------- insert

  /** The document `CreateNewSession` inserts. The error of
      `CreateRefreshSession` is discarded, so when hashing fails the
      zero-valued record is inserted: every key empty. */
  function NewSessionDoc(id: nat, userId: Bytes, rt: Bytes, fingerprint: Bytes, now: int, h: Hasher)
    : (d: SessionDoc)
    ensures d.id == id
    ensures !h.rejects(rt) ==> Matches(d, userId, fingerprint) && CompareHashAndPassword(h, d.refreshToken, rt)
    ensures !h.rejects(rt) ==> Decimal.ParseInt(d.expiresIn) == Some(now + RefreshSessions.SessionLifetime)
                               && Decimal.ParseInt(d.createdAt) == Some(now)
    ensures h.rejects(rt) ==> Matches(d, [], []) && d.refreshToken == [] && d.expiresIn == [] && d.createdAt == []
  {
    Decimal.ParseFormat(now + RefreshSessions.SessionLifetime);
    Decimal.ParseFormat(now);
    if h.rejects(rt) then SessionDoc(id, [], [], [], [], [])
    else SessionDoc(id, userId, h.digest(rt), fingerprint,
                    Decimal.FormatInt(now + RefreshSessions.SessionLifetime), Decimal.FormatInt(now))
  }

  /** `CreateNewSession`: one more document, under a fresh id; `InsertOne`
      fails only once the ObjectID space is used up. */
  function Insert(t: SessionTable, userId: Bytes, rt: Bytes, fingerprint: Bytes, now: int, h: Hasher)
    : (r: (Outcome, SessionTable))
    requires TableValid(t)
    ensures TableValid(r.1)
    ensures r.0.Pass? <==> t.nextId < IdSpace
    ensures r.0.Pass? ==> r.1.docs == t.docs + [NewSessionDoc(t.nextId, userId, rt, fingerprint, now, h)]
                          && r.1.nextId == t.nextId + 1
    ensures r.0.Fail? ==> r.1 == t && r.0.error == InsertFailed
  {
    if t.nextId == IdSpace then (Fail(InsertFailed), t)
    else (Pass, SessionTable(t.docs + [NewSessionDoc(t.nextId, userId, rt, fingerprint, now, h)], t.nextId + 1))
  }

  // ----------------------------------------------------------------- check

  predicate AnyMatch(docs: seq<SessionDoc>, userId: Bytes, fingerprint: Bytes)
  {
    exists i :: 0 <= i < |docs| && Matches(docs[i], userId, fingerprint)
  }

  /** The documents `FindOne` may return: any matching one (which one is
      unspecified), marked by its index, or -1 when none matches. */
  ghost predicate IsPick(docs: seq<SessionDoc>, userId: Bytes, fingerprint: Bytes, pick: int)
  {
    if AnyMatch(docs, userId, fingerprint) then 0 <= pick < |docs| && Matches(docs[pick], userId, fingerprint)
    else pick == -1
  }

  /** `CheckRefreshSession` once `FindOne` has picked `pick`: the hex id of
      the picked document when its hash accepts `rt`. */
  function Check(docs: seq<SessionDoc>, userId: Bytes, rt: Bytes, fingerprint: Bytes, h: Hasher, pick: int)
    : (r: Result<Bytes>)
    requires forall i :: 0 <= i < |docs| ==> docs[i].id < IdSpace
    requires IsPick(docs, userId, fingerprint, pick)
    ensures r == Err(NoDocuments) <==> !AnyMatch(docs, userId, fingerprint)
    ensures r.Ok? ==> exists i :: 0 <= i < |docs| && Matches(docs[i], userId, fingerprint)
                                  && CompareHashAndPassword(h, docs[i].refreshToken, rt)
                                  && r.value == Hex(docs[i].id)
    ensures r.Err? ==> r.error == NoDocuments || r.error == InvalidToken
    ensures r == Err(InvalidToken) ==> exists i :: 0 <= i < |docs| && Matches(docs[i], userId, fingerprint)
                                                 && !CompareHashAndPassword(h, docs[i].refreshToken, rt)
    ensures r != Err(NoDocuments) ==> 0 <= pick < |docs|
                                      && (r.Ok? <==> CompareHashAndPassword(h, docs[pick].refreshToken, rt))
                                      && (r.Ok? ==> r.value == Hex(docs[pick].id))
  {
    if pick == -1 then Err(NoDocuments)
    else if CompareHashAndPassword(h, docs[pick].refreshToken, rt) then Ok(Hex(docs[pick].id))
    else Err(InvalidToken)
  }

  /** When only one document matches, the check is determined: it accepts
      exactly the tokens that document's hash accepts. */
  lemma CheckSingleMatch(docs: seq<SessionDoc>, userId: Bytes, rt: Bytes, fingerprint: Bytes, h: Hasher,
                         pick: int, k: nat)
    requires forall i :: 0 <= i < |docs| ==> docs[i].id < IdSpace
    requires IsPick(docs, userId, fingerprint, pick)
    requires k < |docs| && Matches(docs[k], userId, fingerprint)
    requires forall i :: 0 <= i < |docs| && i != k ==> !Matches(docs[i], userId, fingerprint)
    ensures Check(docs, userId, rt, fingerprint, h, pick)
            == if CompareHashAndPassword(h, docs[k].refreshToken, rt) then Ok(Hex(docs[k].id)) else Err(InvalidToken)
  {
    assert AnyMatch(docs, userId, fingerprint);
  }

  // ---------------------------------------------------------- delete by id

  /** The ObjectID of a session document. */
  function DocId(d: SessionDoc): nat { d.id }

  /** `DeleteOne` with the filter `{_id: id}`: the number of documents
      removed and the collection afterwards. */
  function DeleteFirst(docs: seq<SessionDoc>, id: nat): (r: (nat, seq<SessionDoc>))
    ensures r.0 == 0 <==> forall j :: 0 <= j < |docs| ==> docs[j].id != id
    ensures r.0 == 0 ==> r.1 == docs
    ensures r.0 != 0 ==> r.0 == 1 && docs[IndexOfId(docs, DocId, id)].id == id
                         && r.1 == docs[..IndexOfId(docs, DocId, id)] + docs[IndexOfId(docs, DocId, id) + 1..]
  {
    var i := IndexOfId(docs, DocId, id);
    if i == -1 then (0, docs) else (1, docs[..i] + docs[i + 1..])
  }

  /** In a collection without duplicate ids, removing the document at `k`
      removes every document with its id and keeps every other one. */
  lemma RemoveUnique(docs: seq<SessionDoc>, k: nat)
    requires k < |docs|
    requires forall i, j :: 0 <= i < j < |docs| ==> docs[i].id != docs[j].id
    ensures var rest := docs[..k] + docs[k + 1..];
            && (forall j :: 0 <= j < |rest| ==> rest[j].id != docs[k].id)
            && (forall d :: d in rest <==> d in docs && d.id != docs[k].id)
            && (forall i, j :: 0 <= i < j < |rest| ==> rest[i].id != rest[j].id)
  {
    var rest := docs[..k] + docs[k + 1..];
    assert forall j :: 0 <= j < |rest| ==> rest[j] == if j < k then docs[j] else docs[j + 1];
    forall d | d in docs && d.id != docs[k].id
      ensures d in rest
    {
      var j :| 0 <= j < |docs| && docs[j] == d;
      assert j != k;
      if j < k { assert rest[j] == d; } else { assert rest[j - 1] == d; }
    }
  }

  /** `DeleteRefreshSession`: a malformed id is refused before anything is
      touched; otherwise exactly the document with that id is removed, or
      `ErrDocumentNotFound` is returned and nothing changes. */
  function DeleteById(t: SessionTable, sessionId: Bytes): (r: (Outcome, SessionTable))
    requires TableValid(t)
    ensures TableValid(r.1)
    ensures FromHex(sessionId).Err? ==> r == (Fail(InvalidHex), t)
    ensures FromHex(sessionId).Ok? && (forall j :: 0 <= j < |t.docs| ==> t.docs[j].id != FromHex(sessionId).value)
            ==> r == (Fail(DocumentNotFound), t)
    ensures forall k :: 0 <= k < |t.docs| && FromHex(sessionId) == Ok(t.docs[k].id) ==>
                          r == (Pass, SessionTable(t.docs[..k] + t.docs[k + 1..], t.nextId))
    ensures r.0.Pass? ==> forall d :: d in r.1.docs <==> d in t.docs && Ok(d.id) != FromHex(sessionId)
  {
    match FromHex(sessionId)
    case Err(e) => (Fail(e), t)
    case Ok(oid) =>
      var i := IndexOfId(t.docs, DocId, oid);
      if i == -1 then (Fail(DocumentNotFound), t)
      else
        RemoveUnique(t.docs, i);
        assert forall k :: 0 <= k < |t.docs| && t.docs[k].id == oid ==> k == i;
        var rest := t.docs[..i] + t.docs[i + 1..];
        assert forall d :: d in rest ==> d in t.docs;
        (Pass, SessionTable(rest, t.nextId))
  }

  /** Deleting by the hex form of a stored id removes exactly the document
      at that position. */
  lemma DeleteCheckedSession(t: SessionTable, k: nat)
    requires TableValid(t) && k < |t.docs|
    ensures DeleteById(t, Hex(t.docs[k].id)) == (Pass, SessionTable(t.docs[..k] + t.docs[k + 1..], t.nextId))
  {
    FromHexOfHex(t.docs[k].id);
  }

  /** Deleting the same session twice fails the second time and leaves the
      collection as the first deletion left it. */
  lemma DeleteTwiceFails(t: SessionTable, sessionId: Bytes)
    requires TableValid(t)
    requires DeleteById(t, sessionId).0.Pass?
    ensures var t1 := DeleteById(t, sessionId).1;
            DeleteById(t1, sessionId) == (Fail(DocumentNotFound), t1)
  {
    var oid := FromHex(sessionId).value;
    var i := IndexOfId(t.docs, DocId, oid);
    RemoveUnique(t.docs, i);
  }

  // ------------------------------------------------------- delete by user

  /** The documents `DeleteMany` with the filter `{user_id: userId}` leaves,
      in their order. */
  function KeepOthers(docs: seq<SessionDoc>, userId: Bytes): (r: seq<SessionDoc>)
    ensures forall d :: d in r <==> d in docs && d.userId != userId
    ensures |r| <= |docs|
    ensures |r| == |docs| <==> forall j :: 0 <= j < |docs| ==> docs[j].userId != userId
    decreases |docs|
  {
    if docs == [] then []
    else
      var rest := KeepOthers(docs[1..], userId);
      assert forall d :: d in docs[1..] ==> d in docs;
      if docs[0].userId == userId then rest else [docs[0]] + rest
  }

  /** When the user owns no document, `DeleteMany` leaves the collection as
      it was. */
  lemma {:induction false} KeepOthersUnchanged(docs: seq<SessionDoc>, userId: Bytes)
    requires forall j :: 0 <= j < |docs| ==> docs[j].userId != userId
    ensures KeepOthers(docs, userId) == docs
    decreases |docs|
  {
    if docs != [] {
      KeepOthersUnchanged(docs[1..], userId);
    }
  }

  /** `DeleteMany` keeps the ids of the remaining documents distinct. */
  lemma {:induction false} KeepOthersDistinct(docs: seq<SessionDoc>, userId: Bytes)
    requires DistinctIds(docs)
    ensures DistinctIds(KeepOthers(docs, userId))
    decreases |docs|
  {
    if docs != [] {
      var tail := docs[1..];
      assert DistinctIds(tail) by {
        forall i, j | 0 <= i < j < |tail|
          ensures tail[i].id != tail[j].id
        {
          assert tail[i] == docs[i + 1] && tail[j] == docs[j + 1];
        }
      }
      KeepOthersDistinct(tail, userId);
      if docs[0].userId != userId {
        var rest := KeepOthers(tail, userId);
        assert forall d :: d in tail ==> d.id != docs[0].id;
        assert forall d :: d in rest ==> d in tail;
        ConsDistinct(docs[0], rest);
      }
    }
  }

  lemma ConsDistinct(d: SessionDoc, rest: seq<SessionDoc>)
    requires DistinctIds(rest)
    requires forall e :: e in rest ==> e.id != d.id
    ensures DistinctIds([d] + rest)
  {
    var r := [d] + rest;
    forall i, j | 0 <= i < j < |r|
      ensures r[i].id != r[j].id
    {
      assert r[j] == rest[j - 1];
      if i > 0 {
        assert r[i] == rest[i - 1];
      } else {
        assert rest[j - 1] in rest;
      }
    }
  }

  /** `DeleteAllRefreshSessions`: every document of `userId` goes and every
      other stays; `ErrDocumentNotFound` when the user had none. */
  function DeleteAll(t: SessionTable, userId: Bytes): (r: (Outcome, SessionTable))
    requires TableValid(t)
    ensures TableValid(r.1)
    ensures r.0.Fail? <==> forall j :: 0 <= j < |t.docs| ==> t.docs[j].userId != userId
    ensures r.0.Fail? ==> r == (Fail(DocumentNotFound), t)
    ensures r.0.Pass? ==> r.1.nextId == t.nextId
                          && forall d :: d in r.1.docs <==> d in t.docs && d.userId != userId
  {
    var kept := KeepOthers(t.docs, userId);
    if |kept| == |t.docs| then (Fail(DocumentNotFound), t)
    else
      KeepOthersDistinct(t.docs, userId);
      assert forall j :: 0 <= j < |kept| ==> kept[j] in t.docs;
      (Pass, SessionTable(kept, t.nextId))
  }

  // ------------------------------------------------------------ repository

  class RefreshSessionRepository {
    var docs: seq<SessionDoc>
    var nextId: nat

    ghost function Table(): SessionTable
      reads this
    {
      SessionTable(docs, nextId)
    }

    ghost predicate Valid()
      reads this
    {
      TableValid(Table())
    }

    /** An empty collection. */
    constructor ()
      ensures Valid() && docs == [] && nextId == 0
    {
      docs, nextId := [], 0;
    }

    /** `CreateNewSession`. */
    method CreateNewSession(userId: Bytes, rt: Bytes, fingerprint: Bytes, now: int, h: Hasher)
      returns (err: Outcome)
      requires Valid()
      modifies this
      ensures Valid()
      ensures (err, Table()) == Insert(old(Table()), userId, rt, fingerprint, now, h)
    {
      var rs := new RefreshSessions.RefreshSession();
      var ignored := rs.CreateRefreshSession(userId, rt, fingerprint, now, h);
      if nextId == IdSpace {
        return Fail(InsertFailed);
      }
      docs := docs + [SessionDoc(nextId, rs.userId, rs.encryptedRefreshToken, rs.fingerprint,
                                 rs.expiresIn, rs.createdAt)];
      nextId := nextId + 1;
      err := Pass;
    }

    /** `CheckRefreshSession`. `pick` records which document `FindOne`
        returned. */
    method CheckRefreshSession(userId: Bytes, rt: Bytes, fingerprint: Bytes, h: Hasher)
      returns (r: Result<Bytes>, ghost pick: int)
      requires Valid()
      ensures r == Err(NoDocuments) <==> !AnyMatch(docs, userId, fingerprint)
      ensures r.Err? ==> r.error == NoDocuments || r.error == InvalidToken
      ensures r.Ok? ==> exists i :: 0 <= i < |docs| && Matches(docs[i], userId, fingerprint)
                                    && CompareHashAndPassword(h, docs[i].refreshToken, rt)
                                    && r.value == Hex(docs[i].id)
      ensures IsPick(docs, userId, fingerprint, pick)
      ensures r == Check(docs, userId, rt, fingerprint, h, pick)
    {
      if !AnyMatch(docs, userId, fingerprint) {
        return Err(NoDocuments), -1;
      }
      var i :| 0 <= i < |docs| && Matches(docs[i], userId, fingerprint);
      pick := i;
      var d := docs[i];
      var rs := new RefreshSessions.RefreshSession.Decoded(d.id, d.userId, d.refreshToken, d.fingerprint,
                                                           d.expiresIn, d.createdAt);
      if rs.CompareRefreshToken(h, rt) {
        return Ok(Hex(rs.id)), pick;
      }
      r := Err(InvalidToken);
    }

    /** The driver's `DeleteOne` with the filter `{_id: oid}`. */
    method DeleteOne(oid: nat) returns (deleted: nat)
      requires Valid()
      modifies this
      ensures Valid()
      ensures (deleted, docs) == DeleteFirst(old(docs), oid)
      ensures nextId == old(nextId)
    {
      var i := IndexOfId(docs, DocId, oid);
      if i == -1 {
        return 0;
      }
      docs := docs[..i] + docs[i + 1..];
      deleted := 1;
    }

    /** `DeleteRefreshSession`: the transactional `DeleteOne`, then the second
        `DeleteOne` the source issues after the transaction has ended. */
    method DeleteRefreshSession(sessionId: Bytes) returns (err: Outcome)
      requires Valid()
      modifies this
      ensures Valid()
      ensures (err, Table()) == DeleteById(old(Table()), sessionId)
    {
      var oid := FromHex(sessionId);
      if oid.Err? {
        return Fail(oid.error);
      }
      ghost var before := docs;
      var deleted := DeleteOne(oid.value);
      if deleted == 0 {
        return Fail(DocumentNotFound);
      }
      RemoveUnique(before, IndexOfId(before, DocId, oid.value));
      var again := DeleteOne(oid.value);
      assert again == 0;
      err := Pass;
    }

    /** The driver's `DeleteMany` with the filter `{user_id: userId}`. */
    method DeleteMany(userId: Bytes) returns (deleted: nat)
      requires Valid()
      modifies this
      ensures Valid()
      ensures docs == KeepOthers(old(docs), userId) && deleted == |old(docs)| - |docs|
      ensures nextId == old(nextId)
    {
      var kept := KeepOthers(docs, userId);
      KeepOthersDistinct(docs, userId);
      assert forall j :: 0 <= j < |kept| ==> kept[j] in docs;
      deleted := |docs| - |kept|;
      docs := kept;
    }

    /** `DeleteAllRefreshSessions`. */
    method DeleteAllRefreshSessions(userId: Bytes) returns (err: Outcome)
      requires Valid()
      modifies this
      ensures Valid()
      ensures (err, Table()) == DeleteAll(old(Table()), userId)
    {
      ghost var before := Table();
      var deleted := DeleteMany(userId);
      ghost var kept := KeepOthers(before.docs, userId);
      assert docs == kept;
      if deleted == 0 {
        assert |kept| == |before.docs|;
        KeepOthersUnchanged(before.docs, userId);
        assert DeleteAll(before, userId) == (Fail(DocumentNotFound), before);
        return Fail(DocumentNotFound);
      }
      assert |kept| != |before.docs|;
      assert DeleteAll(before, userId) == (Pass, SessionTable(kept, before.nextId));
      err := Pass;
    }
  }
}
