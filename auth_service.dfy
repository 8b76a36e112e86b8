/** AuthService: the login decision chain and registration. */
module AuthService {
  import opened Entities
  import opened Store
  import opened Http
  import opened UsersService

  /** The login body; a field is None when it is missing. */
  datatype LoginDto = LoginDto(email: Option<string>, password: Option<string>)

  /** What login signs: the user record with its password removed and every other field kept. */
  datatype Claims = Claims(userId: Uuid, firstName: string, lastName: string, email: string, roles: set<Role>)

  /** `const { password: _, ...result } = user` */
  function StripPassword(u: User): (c: Claims)
    ensures WithPassword(c, u.password) == u
  {
    Claims(u.userId, u.firstName, u.lastName, u.email, u.roles)
  }

  /** Puts a password back on claims: the inverse of StripPassword. */
  function WithPassword(c: Claims, password: string): (u: User)
  {
    User(c.userId, c.firstName, c.lastName, c.email, password, c.roles)
  }

  /** Stripping loses only the password. */
  lemma StripPasswordRoundTrip(u: User, c: Claims, password: string)
    ensures WithPassword(StripPassword(u), u.password) == u
    ensures StripPassword(WithPassword(c, password)) == c
  {
  }

  /** What `userService.findByEmail` can do: resolve to a user, resolve to null (as the
      tests' stub does), or throw. */
  datatype Lookup = Found(user: User) | NoUser | Threw(error: Error)

  /** JavaScript truthiness of an optional string: present and non-empty. */
  predicate Provided(field: Option<string>) {
    field.Some? && field.value != ""
  }

  /** login, from the destructured body on. `findByEmail`, `compare` (bcrypt.compare) and
      `sign` (JwtService.sign) are the collaborators; every path inside the try block answers
      with a response. */
  function Login(
    dto: LoginDto,
    findByEmail: string -> Lookup,
    compare: (string, string) -> bool,
    sign: Claims -> string): (r: AuthResponse)
    ensures !Provided(dto.email) || !Provided(dto.password) ==>
              r == BadRequest("Email and password are required", 400)
    ensures Provided(dto.email) && Provided(dto.password) ==>
              match findByEmail(dto.email.value)
              case NoUser => r == BadRequest("User not found", 404)
              case Threw(_) => r == BadRequest("Authentication failed", 401)
              case Found(u) =>
                if compare(dto.password.value, u.password)
                then r == Success("Login successful", sign(StripPassword(u)), Summary(u))
                else r == BadRequest("Invalid credentials", 401)
    ensures r.Success? <==>
              && Provided(dto.email) && Provided(dto.password)
              && findByEmail(dto.email.value).Found?
              && compare(dto.password.value, findByEmail(dto.email.value).user.password)
  {
    if !Provided(dto.email) || !Provided(dto.password) then
      BadRequest("Email and password are required", 400)
    else
      match findByEmail(dto.email.value)
      case Threw(_) => BadRequest("Authentication failed", 401)   // the catch block
      case NoUser => BadRequest("User not found", 404)
      case Found(user) =>
        if !compare(dto.password.value, user.password) then BadRequest("Invalid credentials", 401)
        else
          var result := StripPassword(user);
          var accessToken := sign(result);
          Success("Login successful", accessToken,
                  UserSummary(result.userId, result.firstName, result.lastName, result.email))
  }

  /** login({ email, password }) on the request body: destructuring a missing body throws
      TypeError before the try block is entered; a present body gets the decision chain. */
  function LoginRequest(
    body: Option<LoginDto>,
    findByEmail: string -> Lookup,
    compare: (string, string) -> bool,
    sign: Claims -> string): (r: Result<AuthResponse, Error>)
    ensures r.Err? <==> body.None?
    ensures r.Err? ==> r.error == TypeError
    ensures body.Some? ==> r == Ok(Login(body.value, findByEmail, compare, sign))
  {
    match body
    case None => Err(TypeError)
    case Some(dto) => Ok(Login(dto, findByEmail, compare, sign))
  }

  /** The lookup login gets from the real UserService.findByEmail, which throws NotFound
      instead of resolving to null. */
  function StoreLookup(users: map<Uuid, User>, email: string): (r: Lookup)
    requires UniqueUserEmails(users)
    ensures r != NoUser
  {
    match FindByEmail(users, email)
    case Ok(u) => Found(u)
    case Err(e) => Threw(e)
  }

  /** Against the real lookup the 404 'User not found' answer cannot occur: an unknown email
      throws NotFound, which the catch turns into 401 'Authentication failed'. */
  lemma LoginWithStoreLookup(users: map<Uuid, User>, dto: LoginDto, compare: (string, string) -> bool, sign: Claims -> string)
    requires UsersValid(users)
    ensures Login(dto, e => StoreLookup(users, e), compare, sign) != BadRequest("User not found", 404)
    ensures Provided(dto.email) && Provided(dto.password) && !IsEmailTaken(users, dto.email.value) ==>
              Login(dto, e => StoreLookup(users, e), compare, sign) == BadRequest("Authentication failed", 401)
  {
    if Provided(dto.email) && Provided(dto.password) {
      var lookup := StoreLookup(users, dto.email.value);
      assert lookup != NoUser;
    }
  }

  /** A user who has just registered can log in with the same email and password, provided
      bcrypt.compare accepts a password against its own hash; the token signs the new record
      without its password. */
  lemma LoginAfterRegistration(
    users: map<Uuid, User>, dto: RegistrationDto, authorization: Option<string>, newId: Uuid,
    hash: string -> string, compare: (string, string) -> bool, sign: Claims -> string)
    requires UsersValid(users) && newId !in users
    requires Registered(users, Some(dto), authorization, newId, hash).response.Success?
    requires dto.email != "" && dto.password != ""
    requires compare(dto.password, hash(dto.password))
    ensures
      var after := Registered(users, Some(dto), authorization, newId, hash).users;
      UniqueUserEmails(after) &&
      Login(LoginDto(Some(dto.email), Some(dto.password)), e => StoreLookup(after, e), compare, sign)
        == Success("Login successful", sign(Claims(newId, dto.firstName, dto.lastName, dto.email, {})),
                   UserSummary(newId, dto.firstName, dto.lastName, dto.email))
  {
    var after := Registered(users, Some(dto), authorization, newId, hash).users;
    RegistrationKeepsUsersValid(users, Some(dto), authorization, newId, hash);
    assert after[newId].email == dto.email;
    var found := FindByEmail(after, dto.email);
    assert found.Ok?;
    var k :| k in after && after[k] == found.value;
    assert k == newId;
  }

  /** register: hands the payload and request to createUser and returns its answer; the
      claims object it assembles is never used. */
  method Register(db: Database, payload: RegistrationPayload?, req: Request, hash: string -> string)
    returns (r: AuthResponse)
    requires db.Valid()
    modifies db`users, payload
    ensures db.Valid()
    ensures exists newId :: newId !in old(db.users) &&
              Registered(old(db.users), old(PayloadFields(payload)), req.authorization, newId, hash)
                == Registration(r, db.users)
    ensures payload != null ==>
              && payload.firstName == old(payload.firstName)
              && payload.lastName == old(payload.lastName)
              && payload.email == old(payload.email)
              && payload.password == (if r.Success? then hash(old(payload.password)) else old(payload.password))
  {
    r := CreateUser(db, payload, req, hash);
  }

  // ---------------------------------------------------------------------------
  // register as written: it builds a claims object from `payload.email`,
  // `payload.firstName` and `payload.lastName` before delegating, so a null payload is
  // dereferenced before createUser can answer 'No payload provided'.

  /** register as the source writes it, on values: a missing payload throws TypeError,
      any other payload gets createUser's answer. */
  function RegisteredAsWritten(
    users: map<Uuid, User>, payload: Option<RegistrationDto>, authorization: Option<string>,
    newId: Uuid, hash: string -> string): (r: Result<Registration, Error>)
    requires newId !in users
    ensures r.Err? <==> payload.None?
    ensures r.Err? ==> r.error == TypeError
  {
    if payload.None? then Err(TypeError)
    else Ok(Registered(users, payload, authorization, newId, hash))
  }

  /** The discrepancy: without a body, register as written throws instead of giving
      createUser's 400 'No payload provided', which Register answers. */
  lemma NullPayloadThrowsInRegister(users: map<Uuid, User>, authorization: Option<string>, newId: Uuid, hash: string -> string)
    requires newId !in users
    ensures RegisteredAsWritten(users, None, authorization, newId, hash) == Err(TypeError)
    ensures Registered(users, None, authorization, newId, hash)
              == Registration(BadRequest("No payload provided", 400), users)
  {
  }

  /** With a body the two agree: the unused claims object is the only difference. */
  lemma RegisterAgreesOnPresentPayload(
    users: map<Uuid, User>, dto: RegistrationDto, authorization: Option<string>, newId: Uuid, hash: string -> string)
    requires newId !in users
    ensures RegisteredAsWritten(users, Some(dto), authorization, newId, hash)
              == Ok(Registered(users, Some(dto), authorization, newId, hash))
  {
  }
}
