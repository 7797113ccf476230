/** The user repository (`store.UserRepository`) over an in-memory
    collection: inserting a user after its password has been hashed, and the
    two lookups, by email and by id. `CreateUser`, `FindEmail` and `FindId`
    say what the operations do to, or read from, a `UserTable`; the class
    methods are proved to do exactly that. */
module UserStore {
  import opened Types
  import opened Primitives
  import opened ObjectIds
  import Users

  /** A stored user document: its `_id` and the keys `email` and
      `password`. */
  datatype UserDoc = UserDoc(id: nat, email: Bytes, password: Bytes)

  /** The collection and the next ObjectID the store hands out. */
  datatype UserTable = UserTable(docs: seq<UserDoc>, nextId: nat)

  ghost predicate UserTableValid(t: UserTable)
  {
    && t.nextId <= IdSpace
    && (forall i :: 0 <= i < |t.docs| ==> t.docs[i].id < t.nextId)
    && (forall i, j :: 0 <= i < j < |t.docs| ==> t.docs[i].id != t.docs[j].id)
  }

  // ---------------------------------------------------------------- create

  /** `Create` given the user's email and password as they were before
      `BeforeCreate`: the hex id of the new document, the error, and the
      collection afterwards. A hashing failure is swallowed: the answer is
      an empty id with no error, and nothing is inserted. */
  function CreateUser(t: UserTable, email: Bytes, password: Bytes, h: Hasher)
    : (r: (Bytes, Outcome, UserTable))
    requires UserTableValid(t)
    ensures UserTableValid(r.2)
    ensures |password| > 0 && h.rejects(password) ==> r == ([], Pass, t)
    ensures r.1.Fail? ==> r == ([], Fail(InsertFailed), t)
    ensures !(|password| > 0 && h.rejects(password)) && t.nextId == IdSpace ==> r == ([], Fail(InsertFailed), t)
    ensures r.0 != [] <==> !(|password| > 0 && h.rejects(password)) && t.nextId < IdSpace
    ensures r.0 != [] ==> && FromHex(r.0) == Ok(t.nextId)
                          && r.1 == Pass
                          && r.2.nextId == t.nextId + 1
                          && |r.2.docs| == |t.docs| + 1
                          && r.2.docs[..|t.docs|] == t.docs
                          && r.2.docs[|t.docs|].id == t.nextId
                          && r.2.docs[|t.docs|].email == email
                          && (|password| == 0 ==> r.2.docs[|t.docs|].password == [])
                          && (|password| > 0 ==> CompareHashAndPassword(h, r.2.docs[|t.docs|].password, password))
  {
    if |password| > 0 && h.rejects(password) then ([], Pass, t)
    else if t.nextId == IdSpace then ([], Fail(InsertFailed), t)
    else
      var stored := if |password| == 0 then password else h.digest(password);
      var docs := t.docs + [UserDoc(t.nextId, email, stored)];
      assert docs[..|t.docs|] == t.docs;
      FromHexOfHex(t.nextId);
      (Hex(t.nextId), Pass, UserTable(docs, t.nextId + 1))
  }

  // --------------------------------------------------------------- lookups

  predicate HasEmail(docs: seq<UserDoc>, email: Bytes)
  {
    exists i :: 0 <= i < |docs| && docs[i].email == email
  }

  /** The documents `FindOne` with the filter `{email: email}` may return:
      any one with that email, marked by its index, or -1 when there is
      none. */
  ghost predicate IsEmailPick(docs: seq<UserDoc>, email: Bytes, pick: int)
  {
    if HasEmail(docs, email) then 0 <= pick < |docs| && docs[pick].email == email
    else pick == -1
  }

  /** `FindByEmail` once `FindOne` has picked `pick`. */
  function FindEmail(docs: seq<UserDoc>, email: Bytes, pick: int): (r: Result<UserDoc>)
    requires IsEmailPick(docs, email, pick)
    ensures r.Err? <==> !HasEmail(docs, email)
    ensures r.Err? ==> r.error == NoDocuments
    ensures r.Ok? ==> r.value in docs && r.value.email == email
  {
    if pick == -1 then Err(NoDocuments) else Ok(docs[pick])
  }

  /** The ObjectID of a user document. */
  function DocId(d: UserDoc): nat { d.id }

  /** `FindByID`: a string that is not an ObjectID is refused before any
      lookup; otherwise the document with that id, or `ErrNoDocuments`. */
  function FindId(docs: seq<UserDoc>, userId: Bytes): (r: Result<UserDoc>)
    ensures FromHex(userId).Err? ==> r == Err(InvalidHex)
    ensures FromHex(userId).Ok? ==>
              (r.Ok? <==> exists j :: 0 <= j < |docs| && docs[j].id == FromHex(userId).value)
    ensures FromHex(userId).Ok? && r.Err? ==> r.error == NoDocuments
    ensures r.Ok? ==> r.value in docs && FromHex(userId) == Ok(r.value.id)
  {
    match FromHex(userId)
    case Err(e) => Err(e)
    case Ok(oid) =>
      var i := IndexOfId(docs, DocId, oid);
      if i == -1 then Err(NoDocuments) else Ok(docs[i])
  }

  /** Inserting a user and looking it up by the id `Create` returned finds
      exactly the inserted document. */
  lemma CreateThenFindId(t: UserTable, email: Bytes, password: Bytes, h: Hasher)
    requires UserTableValid(t)
    requires CreateUser(t, email, password, h).0 != []
    ensures var r := CreateUser(t, email, password, h);
            FindId(r.2.docs, r.0) == Ok(r.2.docs[|t.docs|])
  {
    var r := CreateUser(t, email, password, h);
    var k := IndexOfId(r.2.docs, DocId, t.nextId);
    assert r.2.docs[|t.docs|].id == t.nextId;
    assert forall j :: 0 <= j < |t.docs| ==> r.2.docs[j] == t.docs[j];
    assert k == |t.docs|;
  }

  /** After a user has been inserted, looking it up by its email succeeds. */
  lemma CreateThenFindEmail(t: UserTable, email: Bytes, password: Bytes, h: Hasher, pick: int)
    requires UserTableValid(t)
    requires CreateUser(t, email, password, h).0 != []
    requires IsEmailPick(CreateUser(t, email, password, h).2.docs, email, pick)
    ensures FindEmail(CreateUser(t, email, password, h).2.docs, email, pick).Ok?
  {
    var docs := CreateUser(t, email, password, h).2.docs;
    assert docs[|t.docs|].email == email;
  }

  // ------------------------------------------------------------ repository

  class UserRepository {
    var docs: seq<UserDoc>
    var nextId: nat

    ghost function Table(): UserTable
      reads this
    {
      UserTable(docs, nextId)
    }

    ghost predicate Valid()
      reads this
    {
      UserTableValid(Table())
    }

    /** An empty collection. */
    constructor ()
      ensures Valid() && docs == [] && nextId == 0
    {
      docs, nextId := [], 0;
    }

    /** `Create`: `BeforeCreate` on `u`, then `InsertOne` of its email and
        (possibly hashed) password. */
    method Create(u: Users.User, h: Hasher) returns (id: Bytes, err: Outcome)
      requires Valid()
      modifies this, u`password
      ensures Valid()
      ensures (id, err, Table()) == CreateUser(old(Table()), u.email, old(u.password), h)
      ensures |old(u.password)| == 0 || h.rejects(old(u.password)) ==> u.password == old(u.password)
      ensures |old(u.password)| > 0 && !h.rejects(old(u.password)) ==> u.password == h.digest(old(u.password))
    {
      var e := u.BeforeCreate(h);
      if e.Fail? {
        return [], Pass;
      }
      if nextId == IdSpace {
        return [], Fail(InsertFailed);
      }
      var oid := nextId;
      docs := docs + [UserDoc(oid, u.email, u.password)];
      nextId := nextId + 1;
      id, err := Hex(oid), Pass;
    }

    /** `FindByEmail`. `pick` records which document `FindOne` returned. */
    method FindByEmail(email: Bytes) returns (r: Result<UserDoc>, ghost pick: int)
      ensures r.Err? <==> !HasEmail(docs, email)
      ensures r.Err? ==> r.error == NoDocuments
      ensures r.Ok? ==> r.value in docs && r.value.email == email
      ensures IsEmailPick(docs, email, pick)
      ensures r == FindEmail(docs, email, pick)
    {
      if !HasEmail(docs, email) {
        return Err(NoDocuments), -1;
      }
      var i :| 0 <= i < |docs| && docs[i].email == email;
      r, pick := Ok(docs[i]), i;
    }

    /** `FindByID`. Ids are distinct, so whichever document `FindOne`
        returns is the one `FindId` names. */
    method FindByID(userId: Bytes) returns (r: Result<UserDoc>)
      requires Valid()
      ensures r == FindId(docs, userId)
    {
      var oid := FromHex(userId);
      if oid.Err? {
        return Err(oid.error);
      }
      if forall j :: 0 <= j < |docs| ==> docs[j].id != oid.value {
        return Err(NoDocuments);
      }
      var i :| 0 <= i < |docs| && docs[i].id == oid.value;
      var k := IndexOfId(docs, DocId, oid.value);
      assert i == k;
      r := Ok(docs[i]);
    }
  }
}
