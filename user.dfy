/** The user record (`model.User`): hashing its password before it is stored
    and checking a password against the stored hash. */
module Users {
  import opened Types
  import opened Primitives

  /** `encryptString`: bcrypt at minimum cost. */
  function EncryptString(h: Hasher, password: Bytes): (r: Result<Bytes>)
    ensures r.Ok? <==> !h.rejects(password)
    ensures r.Ok? ==> CompareHashAndPassword(h, r.value, password)
    ensures r.Err? ==> r.error == HashFailed
  {
    GenerateFromPassword(h, password)
  }

  class User {
    var id: nat
    var email: Bytes
    var password: Bytes
    var accessToken: Bytes

    /** `&model.User{Email: email, Password: password}`. */
    constructor (newEmail: Bytes, newPassword: Bytes)
      ensures id == 0 && email == newEmail && password == newPassword && accessToken == []
    {
      id, email, password, accessToken := 0, newEmail, newPassword, [];
    }

    /** `BeforeCreate`: a non-empty password is replaced by its hash; an empty
        one is kept as it is. Only `password` is in the frame, so the id, the
        email and the access token are never touched. */
    method BeforeCreate(h: Hasher) returns (err: Outcome)
      modifies this`password
      ensures |old(password)| == 0 ==> err == Pass && password == old(password)
      ensures |old(password)| > 0 ==> (err.Fail? <==> h.rejects(old(password)))
      ensures err.Fail? ==> err.error == HashFailed && password == old(password)
      ensures err.Pass? && |old(password)| > 0 ==> password == h.digest(old(password))
      ensures err.Pass? && |old(password)| > 0 ==> ComparePassword(h, old(password))
    {
      if |password| > 0 {
        var enc := EncryptString(h, password);
        if enc.Err? {
          return Fail(enc.error);
        }
        password := enc.value;
      }
      err := Pass;
    }

    /** `ComparePassword`: bcrypt's comparison against the stored password. */
    function ComparePassword(h: Hasher, candidate: Bytes): (ok: bool)
      reads this
      ensures ok <==> CompareHashAndPassword(h, password, candidate)
    {
      CompareHashAndPassword(h, password, candidate)
    }
  }
}
