/**
 * The authentication handlers: signup, login, logout, profile update and the
 * session check. Each takes the parsed request body, the user the session
 * middleware attached (where the route has one) and the environment of
 * external calls, and yields the response; signup and profile update also
 * write to the database.
 */
module AuthController {
  import opened Wrappers
  import opened Js
  import opened Store
  import opened Externals
  import opened Http

  const FillAllFields: string := "Please fill all fields"
  const PasswordTooShort: string := "Password must be at least 6 characters"
  const InvalidEmail: string := "Please enter a valid email"
  const PasswordHasSpaces: string := "Password must not contain spaces"
  const UserExists: string := "User already exists"
  const UserDoesNotExist: string := "User does not exist"
  const InvalidCredentials: string := "Invalid credentials"
  const LoggedOut: string := "Logged out successfully"
  const Unauthorized: string := "Unauthorized"

  /** The shortest password signup accepts. */
  const MinPasswordLength: nat := 6

  /** The prefix that marks a `profilePic` as an inline image to upload. */
  const DataImagePrefix: string := "data:image/"

  datatype SignupRequest = SignupRequest(fullName: Field, email: Field, password: Field)
  datatype LoginRequest = LoginRequest(email: Field, password: Field)
  datatype ProfileRequest = ProfileRequest(fullName: Field, email: Field, profilePic: Field)

  /** One validation rule: whether the request breaks it, and the message a 400 reports it with. */
  datatype Rule = Rule(broken: bool, message: string)

  /**
   * The message of the first broken rule, or None when every rule holds:
   * what a chain of early returns reports when it checks the rules in order.
   */
  function FirstBroken(rules: seq<Rule>): (r: Option<string>)
    ensures r.None? <==> forall i :: 0 <= i < |rules| ==> !rules[i].broken
    ensures r.Some? ==> exists i :: 0 <= i < |rules| && rules[i].broken && rules[i].message == r.value
                                     && forall j :: 0 <= j < i ==> !rules[j].broken
  {
    if rules == [] then None
    else if rules[0].broken then Some(rules[0].message)
    else
      var r := FirstBroken(rules[1..]);
      if r.Some? then
        var i :| 0 <= i < |rules[1..]| && rules[1..][i].broken && rules[1..][i].message == r.value
                 && forall j :: 0 <= j < i ==> !rules[1..][j].broken;
        assert forall j :: 0 <= j < i + 1 ==> !rules[j].broken by {
          forall j | 0 <= j < i + 1 ensures !rules[j].broken {
            if j > 0 { assert rules[j] == rules[1..][j - 1]; }
          }
        }
        r
      else
        assert forall i :: 0 <= i < |rules| ==> !rules[i].broken by {
          forall i | 0 <= i < |rules| ensures !rules[i].broken {
            if i > 0 { assert rules[i] == rules[1..][i - 1]; }
          }
        }
        r
  }

  /** The rules signup checks, in the order it checks them. */
  function SignupRules(req: SignupRequest): seq<Rule> {
    [ Rule(Missing(req.fullName) || Missing(req.email) || Missing(req.password), FillAllFields),
      Rule(|Text(req.password)| < MinPasswordLength, PasswordTooShort),
      Rule(!Includes(Text(req.email), "@"), InvalidEmail),
      Rule(Includes(Text(req.password), " "), PasswordHasSpaces) ]
  }

  /**
   * Signup's field checks, as its early returns make them. The first rule
   * the request breaks decides the message, and a request passes only with
   * all three fields present, a password of six or more characters without
   * a space, and an email holding "@".
   */
  function SignupCheck(req: SignupRequest): (r: Option<string>)
    ensures r == FirstBroken(SignupRules(req))
    ensures r.None? <==>
      && !Missing(req.fullName) && !Missing(req.email) && !Missing(req.password)
      && |req.password.value| >= MinPasswordLength
      && '@' in req.email.value && ' ' !in req.password.value
  {
    IncludesChar(Text(req.email), '@');
    IncludesChar(Text(req.password), ' ');
    var rules := SignupRules(req);
    assert rules[1..][1..] == rules[2..] && rules[2..][1..] == rules[3..] && rules[3..][1..] == [];
    assert !rules[1].broken ==> FirstBroken(rules[1..]) == FirstBroken(rules[2..]);
    assert !rules[2].broken ==> FirstBroken(rules[2..]) == FirstBroken(rules[3..]);
    if Missing(req.fullName) || Missing(req.email) || Missing(req.password) then Some(FillAllFields)
    else if |req.password.value| < MinPasswordLength then Some(PasswordTooShort)
    else if !Includes(req.email.value, "@") then Some(InvalidEmail)
    else if Includes(req.password.value, " ") then Some(PasswordHasSpaces)
    else None
  }

  /** The rules login checks, in order: no length rule and no "@" rule. */
  function LoginRules(req: LoginRequest): seq<Rule> {
    [ Rule(Missing(req.email) || Missing(req.password), FillAllFields),
      Rule(Includes(Text(req.password), " "), PasswordHasSpaces) ]
  }

  /** Login's field checks: both fields present and no space in the password. */
  function LoginCheck(req: LoginRequest): (r: Option<string>)
    ensures r == FirstBroken(LoginRules(req))
    ensures r.None? <==> !Missing(req.email) && !Missing(req.password) && ' ' !in req.password.value
  {
    IncludesChar(Text(req.password), ' ');
    if Missing(req.email) || Missing(req.password) then Some(FillAllFields)
    else if Includes(req.password.value, " ") then Some(PasswordHasSpaces)
    else None
  }

  /** The rules profile update checks, in order. */
  function ProfileRules(req: ProfileRequest): seq<Rule> {
    [ Rule(Missing(req.fullName) || Missing(req.email), FillAllFields),
      Rule(!Includes(Text(req.email), "@"), InvalidEmail) ]
  }

  /** Profile update's field checks: name and email present, "@" in the email; the picture is not checked. */
  function ProfileCheck(req: ProfileRequest): (r: Option<string>)
    ensures r == FirstBroken(ProfileRules(req))
    ensures r.None? <==> !Missing(req.fullName) && !Missing(req.email) && '@' in req.email.value
  {
    IncludesChar(Text(req.email), '@');
    if Missing(req.fullName) || Missing(req.email) then Some(FillAllFields)
    else if !Includes(req.email.value, "@") then Some(InvalidEmail)
    else None
  }

  /** Every email and password signup accepts passes login's checks too. */
  lemma SignupCredentialsPassLoginCheck(req: SignupRequest)
    requires SignupCheck(req).None?
    ensures LoginCheck(LoginRequest(req.email, req.password)).None?
  {
  }

  /** Login checks neither length nor "@": a 3-character password and an email without "@" pass it. */
  lemma LoginHasNoLengthOrEmailRule()
    ensures SignupCheck(SignupRequest(Some("Bob"), Some("bob"), Some("abc"))) == Some(PasswordTooShort)
    ensures LoginCheck(LoginRequest(Some("bob"), Some("abc"))).None?
  {
    assert !Includes("abc", " ") by { IncludesChar("abc", ' '); }
  }

  /** Signup's 201 body: the new user's id, name and email, and the token; no password. */
  function SignupBody(u: User, token: string): (j: Json)
    ensures j.JObj? && j.fields.Keys == {"_id", "fullName", "email", "token"}
    ensures !HasKey(j, "password")
    ensures j.fields["_id"] == JId(u.id) && j.fields["fullName"] == JStr(u.fullName)
    ensures j.fields["email"] == JStr(u.email) && j.fields["token"] == JStr(token)
  {
    JObj(map["_id" := JId(u.id), "fullName" := JStr(u.fullName), "email" := JStr(u.email), "token" := JStr(token)])
  }

  /** Login's 200 body: the public projection of the user plus the token; no password. */
  function LoginBody(u: User, token: string): (j: Json)
    ensures j.JObj? && j.fields.Keys == {"_id", "fullName", "email", "profilePic", "token"}
    ensures !HasKey(j, "password")
    ensures j.fields["_id"] == JId(u.id) && j.fields["fullName"] == JStr(u.fullName)
    ensures j.fields["email"] == JStr(u.email) && j.fields["profilePic"] == JStr(u.profilePic)
    ensures j.fields["token"] == JStr(token)
  {
    JObj(PublicProfile(u).fields["token" := JStr(token)])
  }

  /**
   * `generateToken` runs twice on success, before the reply and inside it;
   * each run signs the same id and sets the session cookie.
   */
  function TokenCookies(env: Env, id: Id): (cs: seq<Cookie>)
    ensures |cs| == 2
    ensures forall c :: c in cs ==> c.name == SessionCookieName && c.value == env.sign(id) && c.maxAge == SessionMaxAge
  {
    [SessionCookie(env.sign(id)), SessionCookie(env.sign(id))]
  }

  /**
   * Setting the session cookie twice does no harm: the browser ends up
   * holding that one session, its other cookies untouched.
   */
  lemma TokenCookiesSetSession(jar: Jar, env: Env, id: Id)
    ensures ApplyCookies(jar, TokenCookies(env, id)) == jar[SessionCookieName := env.sign(id)]
  {
    var c := SessionCookie(env.sign(id));
    assert TokenCookies(env, id) == [c, c] && [c, c][1..] == [c] && [c][1..] == [];
    assert ApplyCookies(jar, [c, c]) == ApplyCookies(ApplyCookie(jar, c), [c]) == ApplyCookie(ApplyCookie(jar, c), c);
  }

  /**
   * POST /api/auth/signup. The field checks come first; then the email
   * lookup, then hashing and saving, then the token. A rejected request
   * leaves the database as it was. On success exactly one user is appended,
   * holding the hash of the password, and the 201 body carries no password.
   */
  method Signup(db: Database, env: Env, req: SignupRequest) returns (res: Response)
    requires db.Valid()
    modifies db
    ensures db.Valid()
    ensures SignupCheck(req).Some? ==> res == Reply(400, SignupCheck(req).value) && unchanged(db)
    ensures SignupCheck(req).None? && Fails(env, QueryUsers) ==> res == ServerError() && unchanged(db)
    ensures SignupCheck(req).None? && !Fails(env, QueryUsers) && EmailTaken(old(db.users), req.email.value) ==>
      res == Reply(400, UserExists) && unchanged(db)
    ensures SignupCheck(req).None? && !Fails(env, QueryUsers) && !EmailTaken(old(db.users), req.email.value)
            && (Fails(env, HashPassword) || Fails(env, SaveDocument)) ==>
      res == ServerError() && unchanged(db)
    ensures SignupCheck(req).None? && !Fails(env, QueryUsers) && !EmailTaken(old(db.users), req.email.value)
            && !Fails(env, HashPassword) && !Fails(env, SaveDocument) ==>
      var u := User(old(db.nextId), req.fullName.value, req.email.value, env.hash(req.password.value), DefaultProfilePic);
      && db.users == old(db.users) + [u]
      && db.messages == old(db.messages) && db.nextId == old(db.nextId) + 1
      && res == if Fails(env, SignToken) then ServerError()
                else Response(201, SignupBody(u, env.sign(u.id)), TokenCookies(env, u.id))
  {
    var invalid := SignupCheck(req);
    if invalid.Some? {
      return Reply(400, invalid.value);
    }
    var fullName, email, password := req.fullName.value, req.email.value, req.password.value;
    if Fails(env, QueryUsers) {
      return ServerError();
    }
    var existing := FindByEmail(db.users, email);
    if existing.Some? {
      return Reply(400, UserExists);
    }
    if Fails(env, HashPassword) || Fails(env, SaveDocument) {
      return ServerError();
    }
    var hashed := env.hash(password);
    // `new User(...)` always yields a document, so the "Invalid user data" branch is never taken.
    var saved := db.SaveUser(fullName, email, hashed);
    var u := saved.value;
    if Fails(env, SignToken) {
      return ServerError();
    }
    res := Response(201, SignupBody(u, env.sign(u.id)), TokenCookies(env, u.id));
  }

  /**
   * POST /api/auth/login. It reads the users and writes nothing. The field
   * checks come first; an unknown email and a wrong password are both 400,
   * each with its own message; success is 200 with the session cookie and a
   * body without the password. Every failure sets no cookie.
   */
  function Login(users: seq<User>, env: Env, req: LoginRequest): (res: Response)
    ensures res.status in {200, 400, 500}
    ensures LoginCheck(req).Some? ==> res == Reply(400, LoginCheck(req).value)
    ensures res == Reply(400, UserDoesNotExist) <==>
      LoginCheck(req).None? && !Fails(env, QueryUsers) && !EmailTaken(users, req.email.value)
    ensures res == Reply(400, InvalidCredentials) <==>
      && LoginCheck(req).None? && !Fails(env, QueryUsers) && !Fails(env, ComparePassword)
      && EmailTaken(users, req.email.value)
      && !env.matches(req.password.value, FindByEmail(users, req.email.value).value.password)
    ensures res.status == 200 <==>
      && LoginCheck(req).None? && !Fails(env, QueryUsers) && !Fails(env, ComparePassword) && !Fails(env, SignToken)
      && EmailTaken(users, req.email.value)
      && env.matches(req.password.value, FindByEmail(users, req.email.value).value.password)
    ensures res.status == 200 ==>
      var u := FindByEmail(users, req.email.value).value;
      && u in users && Some(u.email) == req.email
      && res.body == LoginBody(u, env.sign(u.id)) && res.cookies == TokenCookies(env, u.id)
    ensures (LoginCheck(req).None? && (Fails(env, QueryUsers) || (EmailTaken(users, req.email.value) && (Fails(env, ComparePassword) || (env.matches(req.password.value, FindByEmail(users, req.email.value).value.password) && Fails(env, SignToken)))))) ==> res == ServerError()
    ensures res.status != 200 ==> res.cookies == []
    ensures !HasKey(res.body, "password")
  {
    match LoginCheck(req)
    case Some(message) => Reply(400, message)
    case None =>
      if Fails(env, QueryUsers) then ServerError()
      else match FindByEmail(users, req.email.value)
        case None => Reply(400, UserDoesNotExist)
        case Some(u) =>
          if Fails(env, ComparePassword) then ServerError()
          else if !env.matches(req.password.value, u.password) then Reply(400, InvalidCredentials)
          else if Fails(env, SignToken) then ServerError()
          else Response(200, LoginBody(u, env.sign(u.id)), TokenCookies(env, u.id))
  }

  /**
   * The password a user signed up with logs them in: after signup appended
   * the user with the hash of the password, login with the same email and
   * password answers 200 for that user and sets its session cookie.
   */
  lemma SignupThenLogin(users: seq<User>, env: Env, req: SignupRequest, id: Id)
    requires HashMatches(env)
    requires SignupCheck(req).None?
    requires !EmailTaken(users, req.email.value)
    requires !Fails(env, QueryUsers) && !Fails(env, ComparePassword) && !Fails(env, SignToken)
    ensures var u := User(id, req.fullName.value, req.email.value, env.hash(req.password.value), DefaultProfilePic);
      var res := Login(users + [u], env, LoginRequest(req.email, req.password));
      && res.status == 200
      && res.body.fields["_id"] == JId(id)
      && ApplyCookies(map[], res.cookies) == map[SessionCookieName := env.sign(id)]
  {
    var u := User(id, req.fullName.value, req.email.value, env.hash(req.password.value), DefaultProfilePic);
    FindByEmailAfterAppend(users, u);
    assert u in users + [u];
    assert env.matches(req.password.value, u.password);
    TokenCookiesSetSession(map[], env, id);
  }

  /** POST /api/auth/logout: always 200, and the session cookie set to "" with `maxAge` 0. */
  function Logout(): (res: Response)
    ensures res.status == 200 && res.body == Reply(200, LoggedOut).body
    ensures res.cookies == [Cookie(SessionCookieName, "", 0)]
  {
    Response(200, Reply(200, LoggedOut).body, [Cookie(SessionCookieName, "", 0)])
  }

  /**
   * Logout ends the session whatever the browser held, and a second logout
   * changes nothing more: the jar after two logouts is the jar after one.
   */
  lemma LogoutIdempotent(jar: Jar)
    ensures SessionCookieName !in ApplyCookies(jar, Logout().cookies)
    ensures ApplyCookies(ApplyCookies(jar, Logout().cookies), Logout().cookies) == ApplyCookies(jar, Logout().cookies)
    ensures forall n :: n != SessionCookieName && n in jar ==> n in ApplyCookies(jar, Logout().cookies)
  {
    var once := ApplyCookies(jar, Logout().cookies);
    assert once == jar - {SessionCookieName};
    assert ApplyCookies(once, Logout().cookies) == once - {SessionCookieName};
  }

  /**
   * GET /api/auth/check-auth: 401 exactly when the session middleware
   * attached no user; otherwise 200 with that user's public projection.
   */
  function CheckAuth(caller: Option<User>): (res: Response)
    ensures res.status == 401 <==> caller.None?
    ensures caller.None? ==> res == Reply(401, Unauthorized)
    ensures caller.Some? ==> res.status == 200 && res.body.JObj?
                             && res.body.fields.Keys == {"_id", "fullName", "email", "profilePic"}
                             && res.body.fields["_id"] == JId(caller.value.id)
                             && res.body.fields["fullName"] == JStr(caller.value.fullName)
                             && res.body.fields["email"] == JStr(caller.value.email)
                             && res.body.fields["profilePic"] == JStr(caller.value.profilePic)
    ensures !HasKey(res.body, "password") && res.cookies == []
  {
    match caller
    case None => Reply(401, Unauthorized)
    case Some(u) => Response(200, PublicProfile(u), [])
  }

  /** `profilePic && profilePic.startsWith("data:image/")`: the picture is an inline image. */
  predicate IsDataUrl(pic: Field)
    ensures IsDataUrl(pic) <==> pic.Some? && StartsWith(pic.value, DataImagePrefix)
  {
    !Missing(pic) && StartsWith(pic.value, DataImagePrefix)
  }

  /**
   * PUT /api/auth/update-profile, behind the session middleware, for the
   * caller it attached. The field checks come first. An inline image is cut
   * at its last ";base64," marker and the rest handed to the upload
   * (`uploaded`); whatever the upload does, the handler then assigns to the
   * `const` binding `profilePic`, which throws, so the reply is 500 and
   * nothing is written. Any other picture, including none, goes to
   * `findByIdAndUpdate` unchanged; a caller whose document is gone makes the
   * handler read a field of null, which is a 500 as well.
   */
  method UpdateProfile(db: Database, env: Env, caller: User, req: ProfileRequest)
    returns (res: Response, uploaded: Option<string>)
    requires db.Valid()
    modifies db
    ensures db.Valid()
    ensures ProfileCheck(req).Some? ==> res == Reply(400, ProfileCheck(req).value) && uploaded.None? && unchanged(db)
    ensures ProfileCheck(req).None? && IsDataUrl(req.profilePic) ==>
      res == ServerError() && uploaded == Some(Base64Payload(req.profilePic.value)) && unchanged(db)
    ensures ProfileCheck(req).None? && !IsDataUrl(req.profilePic) ==> uploaded.None?
    ensures ProfileCheck(req).None? && !IsDataUrl(req.profilePic)
            && (Fails(env, UpdateUser) || FindById(old(db.users), caller.id).None?
                || EmailHeldByOther(old(db.users), req.email.value, caller.id)) ==>
      res == ServerError() && unchanged(db)
    ensures ProfileCheck(req).None? && !IsDataUrl(req.profilePic)
            && !Fails(env, UpdateUser) && FindById(old(db.users), caller.id).Some?
            && !EmailHeldByOther(old(db.users), req.email.value, caller.id) ==>
      && db.users == SetProfile(old(db.users), caller.id, req.fullName.value, req.email.value, req.profilePic)
      && db.messages == old(db.messages) && db.nextId == old(db.nextId)
      && FindById(db.users, caller.id).Some?
      && res == Response(200, PublicProfile(FindById(db.users, caller.id).value), [])
  {
    uploaded := None;
    var invalid := ProfileCheck(req);
    if invalid.Some? {
      res := Reply(400, invalid.value);
      return;
    }
    if IsDataUrl(req.profilePic) {
      // Buffer.from(payload, "base64") and the upload take the payload; neither outcome avoids the throw.
      uploaded := Some(Base64Payload(req.profilePic.value));
      res := ServerError();
      return;
    }
    if Fails(env, UpdateUser) {
      res := ServerError();
      return;
    }
    var updated := db.FindByIdAndUpdate(caller.id, req.fullName.value, req.email.value, req.profilePic);
    if updated.None? {
      res := ServerError();
      return;
    }
    res := Response(200, PublicProfile(updated.value), []);
  }
}
