/**
 * The HTTP handlers of the user service (`src/handlers/user.rs`) as pure
 * functions: each takes the committed table, the request and the outcomes of
 * the services it consults, and gives the response (and, for the handlers
 * that write, the table the repository leaves behind).
 */
module UserHandlers {
  import opened Wrappers
  import opened Utf8
  import opened Json
  import opened UserModels
  import opened UserDb

  datatype Status = Ok200 | BadRequest400 | InternalServerError500

  /** Why a formatted error body was produced. */
  datatype Cause = Repository(error: RepoError) | Hashing

  datatype Body =
    | JsonBody(json: Json)
    | ValidationBody(errors: ValidationErrors)
    | Text(text: string)
    | TextWithCause(prefix: string, cause: Cause)   // `format!("{prefix}{}", cause)`

  datatype Response = Response(status: Status, body: Body)

  /** A response and the table left committed. */
  datatype Handled = Handled(response: Response, table: Table)

  /**
   * The credential service: the password hasher and the token issuer, which
   * gives a signed token and its expiry for a subject. Either may fail.
   */
  datatype Crypto = Crypto(hash: string -> Option<string>, jwt: string -> Option<(string, string)>)

  /** `GET /user/{email}` */
  function Find(t: Table, email: string, fault: Option<Step>): Response
  {
    match FindByEmailSpec(t, email, fault)
    case Ok(user) => Response(Ok200, JsonBody(UserJson(user)))
    case Err(_) => Response(BadRequest400, Text("Failed to find user"))
  }

  /** `POST /user` */
  function Create(t: Table, newUser: NewUser, o: Oracle, crypto: Crypto, fault: Option<Step>): Handled
  {
    var errors := newUser.Validate(o);
    if errors != map[] then Handled(Response(BadRequest400, ValidationBody(errors)), t)
    else
      var eff := CreateSpec(t, newUser, crypto.hash, fault);
      match eff.result
      case Ok(user) => Handled(Response(Ok200, JsonBody(UserJson(user))), eff.table)
      case Err(_) => Handled(Response(BadRequest400, Text("Failed to create user")), eff.table)
  }

  /** `DELETE /user/{email}` */
  function Delete(t: Table, email: string, fault: Option<Step>): Handled
  {
    var eff := DeleteSpec(t, email, fault);
    match eff.result
    case Ok(user) => Handled(Response(Ok200, JsonBody(UserJson(user))), eff.table)
    case Err(_) => Handled(Response(BadRequest400, Text("Failed to delete user")), eff.table)
  }

  /** Issue a token whose subject is the user's email and bundle it with the user. */
  function GetJwtAndUser(crypto: Crypto, user: User): Response
  {
    match crypto.jwt(Lossy(user.email))
    case Some((token, expiredAt)) => Response(Ok200, JsonBody(UserWithAuthJson(UserWithAuth(token, expiredAt, user))))
    case None => Response(InternalServerError500, Text("error generating jwt"))
  }

  /** `POST /user/signIn`: the credentials are not validated. */
  function SignIn(t: Table, credentials: SignInWithEmail, crypto: Crypto, fault: Option<Step>): Response
  {
    match FindByEmailSpec(t, credentials.email, fault)
    case Err(e) => Response(BadRequest400, TextWithCause("Failed to find user: ", Repository(e)))
    case Ok(user) =>
      match user.password
      case None => Response(BadRequest400, Text("This user has no password"))
      case Some(password) =>
        match crypto.hash(credentials.password)
        case None => Response(InternalServerError500, TextWithCause("Failed to hash password: ", Hashing))
        case Some(hash) =>
          if hash != Lossy(password) then Response(BadRequest400, Text("invalid password"))
          else GetJwtAndUser(crypto, user)
  }

  // ---------------------------------------------------------------------------
  // Outcomes of each handler

  /** `find` answers 200 with the row's JSON exactly when the lookup succeeds, and 400 otherwise. */
  lemma FindOutcome(t: Table, email: string, fault: Option<Step>)
    requires WellFormed(t)
    ensures var r := Find(t, email, fault);
      && (r.status == Ok200 <==> !Fails(fault, SelectRow) && Encode(email) in t)
      && (r.status == Ok200 ==> r.body == JsonBody(UserJson(t[Encode(email)])))
      && (r.status != Ok200 ==> r == Response(BadRequest400, Text("Failed to find user")))
  {
  }

  /** Invalid input is answered 400 with the validation errors and never reaches the repository or the hasher. */
  lemma CreateRejectsInvalidInput(t: Table, newUser: NewUser, o: Oracle, crypto: Crypto, fault: Option<Step>,
                                  otherCrypto: Crypto, otherFault: Option<Step>)
    requires newUser.Validate(o) != map[]
    ensures Create(t, newUser, o, crypto, fault) ==
      Handled(Response(BadRequest400, ValidationBody(newUser.Validate(o))), t)
    ensures Create(t, newUser, o, crypto, fault) == Create(t, newUser, o, otherCrypto, otherFault)
  {
  }

  /**
   * Valid input reaches the repository: its success is answered 200 with the
   * returned row, its failure 400; the table is what the repository left.
   */
  lemma CreateOutcome(t: Table, newUser: NewUser, o: Oracle, crypto: Crypto, fault: Option<Step>)
    requires WellFormed(t)
    requires newUser.Validate(o) == map[]
    ensures var h := Create(t, newUser, o, crypto, fault);
      var eff := CreateSpec(t, newUser, crypto.hash, fault);
      && h.table == eff.table
      && h.table.Keys == t.Keys
      && (h.response.status == Ok200 <==> eff.result.Ok?)
      && (eff.result.Ok? ==> h.response.body == JsonBody(UserJson(eff.result.value)))
      && (eff.result.Err? ==> h.response == Response(BadRequest400, Text("Failed to create user")) && h.table == t)
  {
    CreateNeverAddsRow(t, newUser, crypto.hash, fault);
  }

  /** `delete` answers 200 with the row as it was before deletion, or 400 having deleted nothing. */
  lemma DeleteOutcome(t: Table, email: string, fault: Option<Step>)
    requires WellFormed(t)
    ensures var h := Delete(t, email, fault);
      && (h.response.status == Ok200 <==> !FaultIn(fault, {BeginTx, SelectRow, DeleteRow, CommitTx}) && Encode(email) in t)
      && (h.response.status == Ok200 ==>
            h.response.body == JsonBody(UserJson(t[Encode(email)])) && h.table == t - {Encode(email)})
      && (h.response.status != Ok200 ==>
            h.response == Response(BadRequest400, Text("Failed to delete user")) && h.table == t)
  {
    DeleteRemovesOnlyThatRow(t, email, fault);
  }

  /**
   * Token issuing: for a user whose stored email is the bytes of `email`, the
   * reply is 200 exactly when a token can be signed for `email` itself; the
   * 200 body has the members access_token, expired_at and user, the user
   * member is that user's JSON and carries no password; otherwise 500.
   */
  lemma GetJwtAndUserOutcome(crypto: Crypto, user: User, email: string)
    ensures var r := GetJwtAndUser(crypto, user);
      && (user.email == Encode(email) ==> (r.status == Ok200 <==> crypto.jwt(email).Some?))
      && (r.status == Ok200 ==>
            && r.body.JsonBody? && r.body.json.Object?
            && Names(r.body.json.members) == ["access_token", "expired_at", "user"]
            && Get(r.body.json.members, "user") == Some(UserJson(user))
            && "password" !in Names(UserJson(user).members))
      && (r.status != Ok200 ==> r == Response(InternalServerError500, Text("error generating jwt")))
  {
    LossyEncode(email);
  }

  /**
   * Sign-in checks, in this order: the lookup (400), a stored password (400),
   * hashing the submitted password (500), the comparison (400); the first
   * that fails decides the response.
   */
  lemma SignInCheckOrder(t: Table, credentials: SignInWithEmail, crypto: Crypto, fault: Option<Step>)
    requires WellFormed(t)
    ensures var r := SignIn(t, credentials, crypto, fault);
      var key := Encode(credentials.email);
      && (Fails(fault, SelectRow) || key !in t ==>
            r == Response(BadRequest400, TextWithCause("Failed to find user: ",
                                                       Repository(FindByEmailSpec(t, credentials.email, fault).error))))
      && (!Fails(fault, SelectRow) && key in t ==>
            && (t[key].password.None? ==> r == Response(BadRequest400, Text("This user has no password")))
            && (t[key].password.Some? && crypto.hash(credentials.password).None? ==>
                  r == Response(InternalServerError500, TextWithCause("Failed to hash password: ", Hashing)))
            && (t[key].password.Some? && crypto.hash(credentials.password).Some? &&
                crypto.hash(credentials.password).value != Lossy(t[key].password.value) ==>
                  r == Response(BadRequest400, Text("invalid password"))))
  {
  }

  /**
   * A token is issued only when the hash of the submitted password equals
   * the stored password decoded lossily; the token's subject is then exactly
   * the email the credentials named, and the reply carries that user.
   */
  lemma SignInIssuesTokenOnlyOnMatch(t: Table, credentials: SignInWithEmail, crypto: Crypto, fault: Option<Step>)
    requires WellFormed(t)
    ensures var r := SignIn(t, credentials, crypto, fault);
      var key := Encode(credentials.email);
      && (r.status == Ok200 <==>
            && !Fails(fault, SelectRow) && key in t
            && t[key].password.Some?
            && crypto.hash(credentials.password) == Some(Lossy(t[key].password.value))
            && crypto.jwt(credentials.email).Some?)
      && (r.status == Ok200 ==>
            var (token, expiredAt) := crypto.jwt(credentials.email).value;
            r.body == JsonBody(UserWithAuthJson(UserWithAuth(token, expiredAt, t[key]))))
  {
    LossyEncode(credentials.email);
  }

  /** Sign-in answers 500 exactly when hashing fails, or the token cannot be issued after a match. */
  lemma SignInServerErrorIff(t: Table, credentials: SignInWithEmail, crypto: Crypto, fault: Option<Step>)
    requires WellFormed(t)
    ensures var r := SignIn(t, credentials, crypto, fault);
      var key := Encode(credentials.email);
      r.status == InternalServerError500 <==>
        && !Fails(fault, SelectRow) && key in t
        && t[key].password.Some?
        && (|| crypto.hash(credentials.password).None?
            || (crypto.hash(credentials.password) == Some(Lossy(t[key].password.value))
                && crypto.jwt(credentials.email).None?))
  {
    LossyEncode(credentials.email);
  }

  // ---------------------------------------------------------------------------
  // Across requests

  /** After a successful sign-up, a lookup of that email answers 200 with a user whose email matches exactly. */
  lemma FindAfterCreate(t: Table, newUser: NewUser, o: Oracle, crypto: Crypto, fault: Option<Step>)
    requires WellFormed(t)
    requires Create(t, newUser, o, crypto, fault).response.status == Ok200
    ensures var t' := Create(t, newUser, o, crypto, fault).table;
      var r := Find(t', newUser.email, None);
      && r.status == Ok200
      && r.body.JsonBody?
      && UserFromJson(r.body.json).Some?
      && Lossy(UserFromJson(r.body.json).value.email) == newUser.email
  {
    var h := Create(t, newUser, o, crypto, fault);
    CreateNeverAddsRow(t, newUser, crypto.hash, fault);
    var key := Encode(newUser.email);
    var row := h.table[key];
    UserJsonRoundTrip(row);
    LossyEncode(newUser.email);
  }

  /**
   * A sign-up for an email that already has a row succeeds again: `create`
   * overwrites the password instead of rejecting a duplicate.
   */
  lemma CreateTwiceSucceeds(t: Table, newUser: NewUser, o: Oracle, crypto: Crypto, fault: Option<Step>)
    requires WellFormed(t)
    requires Create(t, newUser, o, crypto, fault).response.status == Ok200
    ensures Create(Create(t, newUser, o, crypto, fault).table, newUser, o, crypto, None).response.status == Ok200
  {
    var h := Create(t, newUser, o, crypto, fault);
    CreateNeverAddsRow(t, newUser, crypto.hash, fault);
    CreateNeverAddsRow(h.table, newUser, crypto.hash, None);
  }

  /** After a successful deletion, a lookup of that email answers 400. */
  lemma FindAfterDelete(t: Table, email: string, fault: Option<Step>, laterFault: Option<Step>)
    requires WellFormed(t)
    requires Delete(t, email, fault).response.status == Ok200
    ensures Find(Delete(t, email, fault).table, email, laterFault).status == BadRequest400
  {
    DeleteRemovesOnlyThatRow(t, email, fault);
  }

  /**
   * After a successful sign-up, signing in with the same email and password
   * issues a token for that email, provided the token can be signed.
   */
  lemma SignInAfterCreate(t: Table, newUser: NewUser, o: Oracle, crypto: Crypto, fault: Option<Step>)
    requires WellFormed(t)
    requires Create(t, newUser, o, crypto, fault).response.status == Ok200
    requires crypto.jwt(newUser.email).Some?
    ensures var t' := Create(t, newUser, o, crypto, fault).table;
      var r := SignIn(t', SignInWithEmail(newUser.email, newUser.password), crypto, None);
      && r.status == Ok200
      && r.body == JsonBody(UserWithAuthJson(UserWithAuth(crypto.jwt(newUser.email).value.0,
                                                          crypto.jwt(newUser.email).value.1,
                                                          t'[Encode(newUser.email)])))
  {
    var h := Create(t, newUser, o, crypto, fault);
    CreateNeverAddsRow(t, newUser, crypto.hash, fault);
    var key := Encode(newUser.email);
    LossyEncode(crypto.hash(newUser.password).value);
    SignInIssuesTokenOnlyOnMatch(h.table, SignInWithEmail(newUser.email, newUser.password), crypto, None);
  }

  /**
   * A stored user signs in with their own password whenever the hasher
   * reproduces the stored hash and a token can be signed: 200 with that
   * token and the stored row.
   */
  lemma SignInWithStoredPassword(t: Table, email: string, password: string, h: string, crypto: Crypto)
    requires WellFormed(t)
    requires Encode(email) in t && t[Encode(email)].password == Some(Encode(h))
    requires crypto.hash(password) == Some(h) && crypto.jwt(email).Some?
    ensures SignIn(t, SignInWithEmail(email, password), crypto, None) ==
      Response(Ok200, JsonBody(UserWithAuthJson(UserWithAuth(crypto.jwt(email).value.0, crypto.jwt(email).value.1,
                                                             t[Encode(email)]))))
  {
    LossyEncode(h);
    SignInIssuesTokenOnlyOnMatch(t, SignInWithEmail(email, password), crypto, None);
  }

  /**
   * Sign-in never applies the password rules: a stored user signs in with a
   * password that the rules would reject.
   */
  lemma SignInSkipsValidation(o: Oracle)
    ensures var user := User(1, None, Encode("a@b.c"), Encode("Ann"), Some(Encode("short")));
      var t := map[Encode("a@b.c") := user];
      var crypto := Crypto(s => Some(s), s => Some(("token", "expiry")));
      var credentials := SignInWithEmail("a@b.c", "short");
      && WellFormed(t)
      && "password" in credentials.Validate(o)
      && SignIn(t, credentials, crypto, None).status == Ok200
  {
    var user := User(1, None, Encode("a@b.c"), Encode("Ann"), Some(Encode("short")));
    var t := map[Encode("a@b.c") := user];
    assert WellFormed(t);
    SignInWithStoredPassword(t, "a@b.c", "short", "short", Crypto(s => Some(s), s => Some(("token", "expiry"))));
    NewUserValidIff(NewUser("a@b.c", "short"), o);
    SignInRulesMatchNewUser("a@b.c", "short", o);
  }
}
