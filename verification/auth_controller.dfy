/** Registration and login over the users table. */
module AuthController {
  import opened Wrappers
  import opened Entities
  import opened Http
  import opened Store
  import AuthMiddleware

  /** A registration body after `registerSchema` accepted it. */
  datatype Registration = Registration(name: string, email: string, password: string)

  /** A login body after `loginSchema` accepted it. */
  datatype Credentials = Credentials(email: string, password: string)

  const ValidationFailed: string := "Validation Failed"
  const UserExists: string := "User already exists"
  const RegistrationDone: string := "User Registration Successful"
  const NoSuchUser: string := "User does not exists"
  const InvalidCredentials: string := "Invalid Credentials"
  const LoginDone: string := "Login Successful"

  /** The claims a login signs: the user's name, email and `user_id`; no `id` claim. */
  function LoginClaims(u: User): (c: Claims)
    ensures c.name == u.name && c.email == u.email && c.userId == Some(u.id) && c.id.None?
  {
    Claims(u.name, u.email, Some(u.id), None)
  }

  /** `"Bearer " + token` */
  function BearerToken(signed: string): (header: string)
    ensures |header| == |signed| + 7 && header[..7] == "Bearer " && header[7..] == signed
  {
    "Bearer " + signed
  }

  /** The row a successful registration inserts: the hash, never the plaintext. */
  function NewUser(id: Id, p: Registration, hash: string -> string): (u: User)
    ensures u.id == id && u.name == p.name && u.email == p.email && u.profile.None?
    ensures u.password == hash(p.password)
  {
    User(id, p.name, p.email, hash(p.password), None)
  }

  /**
   * `register`: 400 "Validation Failed" or 400 "User already exists" with the
   * table untouched, or a fresh row with the hashed password and a 201 that
   * echoes it. `validate` is the registration schema; `hash` is bcrypt.
   */
  method Register<Body>(db: Database, body: Body, validate: Body -> Option<Registration>, hash: string -> string)
    returns (resp: Response)
    requires db.Valid()
    modifies db
    ensures db.Valid()
    ensures validate(body).None? ==> resp == Reject(400, ValidationFailed) && unchanged(db)
    ensures validate(body).Some? && old(db.FindUserByEmail(validate(body).value.email)).Some? ==>
      resp == Reject(400, UserExists) && unchanged(db)
    ensures validate(body).Some? && old(db.FindUserByEmail(validate(body).value.email)).None? ==>
      var u := NewUser(old(db.nextUserId), validate(body).value, hash);
      && resp == Response(201, true, Text(RegistrationDone), UserData(u))
      && u.id !in old(db.users)
      && db.users == old(db.users)[u.id := u]
      && db.emailIndex == old(db.emailIndex)[u.email := u.id]
      && db.nextUserId == old(db.nextUserId) + 1
      && db.news == old(db.news) && db.nextNewsId == old(db.nextNewsId)
  {
    var payload := validate(body);
    if payload.None? {
      return Reject(400, ValidationFailed);
    }
    var existingUser := db.FindUserByEmail(payload.value.email);
    if existingUser.Some? {
      return Reject(400, UserExists);
    }
    var newUser := NewUser(db.nextUserId, payload.value, hash);
    db.users := db.users[newUser.id := newUser];
    db.emailIndex := db.emailIndex[newUser.email := newUser.id];
    db.nextUserId := db.nextUserId + 1;
    resp := Response(201, true, Text(RegistrationDone), UserData(newUser));
  }

  /**
   * `login`: 400 on a schema failure, 401 for an unknown email, 401 when the
   * password does not match the stored hash, else 200 with the user and
   * `"Bearer " + sign(claims)`. The table is only read.
   */
  method Login<Body>(db: Database, body: Body, validate: Body -> Option<Credentials>,
                     compare: (string, string) -> bool, sign: Claims -> string)
    returns (resp: Response)
    requires db.Valid()
    ensures validate(body).None? ==> resp == Reject(400, ValidationFailed)
    ensures validate(body).Some? && db.FindUserByEmail(validate(body).value.email).None? ==>
      resp == Reject(401, NoSuchUser)
    ensures validate(body).Some? && db.FindUserByEmail(validate(body).value.email).Some? ==>
      var u := db.FindUserByEmail(validate(body).value.email).value;
      if compare(validate(body).value.password, u.password) then
        resp == Response(200, true, Text(LoginDone), Session(u, BearerToken(sign(LoginClaims(u)))))
      else
        resp == Reject(401, InvalidCredentials)
    ensures resp.success <==> resp.payload.Session?
  {
    var payload := validate(body);
    if payload.None? {
      return Reject(400, ValidationFailed);
    }
    var user := db.FindUserByEmail(payload.value.email);
    if user.None? {
      return Reject(401, NoSuchUser);
    }
    var comparePassword := compare(payload.value.password, user.value.password);
    if !comparePassword {
      return Reject(401, InvalidCredentials);
    }
    var payloadData := LoginClaims(user.value);
    var token := sign(payloadData);
    token := BearerToken(token);
    resp := Response(200, true, Text(LoginDone), Session(user.value, token));
  }

  /**
   * A token issued by login, sent back in the Authorization header, passes the
   * auth gate with exactly the signed claims, provided the signer's output has no
   * space and the verifier accepts what the signer produced.
   */
  lemma LoginTokenPassesGate(u: User, sign: Claims -> string, verify: string -> Option<Claims>)
    requires ' ' !in sign(LoginClaims(u))
    requires verify(sign(LoginClaims(u))) == Some(LoginClaims(u))
    ensures AuthMiddleware.Gate(Some(BearerToken(sign(LoginClaims(u)))), verify) == AuthMiddleware.Pass(LoginClaims(u))
  {
    AuthMiddleware.ExtractTokenOf("Bearer", sign(LoginClaims(u)), "");
    assert "Bearer" + " " + sign(LoginClaims(u)) + "" == BearerToken(sign(LoginClaims(u)));
  }
}
