/** UserService: registration (createUser) and the user lookups. */
module UsersService {
  import opened Entities
  import opened Store
  import opened Http

  /** The public part of a user record: what the endpoints echo back. */
  datatype UserSummary = UserSummary(userId: Uuid, firstName: string, lastName: string, email: string)

  /** The two shapes registration and login answer with:
      `{ status: 'Bad request', message, statusCode }` and
      `{ status: 'success', message, data: { accessToken, user } }`. */
  datatype AuthResponse =
    | BadRequest(message: string, statusCode: nat)
    | Success(message: string, accessToken: string, user: UserSummary)

  /** `{ status: 'success', message, data }` of getUserById. */
  datatype UserData = UserData(message: string, data: UserSummary)

  function Summary(u: User): (s: UserSummary) {
    UserSummary(u.userId, u.firstName, u.lastName, u.email)
  }

  // ---------------------------------------------------------------------------
  // `authHeader.split(' ')`

  /** The position of the first space. */
  function IndexOfSpace(s: string): (i: nat)
    requires ' ' in s
    ensures i < |s| && s[i] == ' ' && ' ' !in s[..i]
  {
    if s[0] == ' ' then 0
    else
      var j := IndexOfSpace(s[1..]);
      assert s[..1 + j] == [s[0]] + s[1..][..j];
      1 + j
  }

  /** `parts.join(' ')`, the inverse of SplitOnSpace. */
  function JoinWithSpace(parts: seq<string>): (s: string)
    requires |parts| >= 1
  {
    if |parts| == 1 then parts[0] else parts[0] + " " + JoinWithSpace(parts[1..])
  }

  /** JavaScript's `s.split(' ')`: the pieces between single spaces, empty pieces
      included, and `[s]` when `s` has no space. */
  function SplitOnSpace(s: string): (parts: seq<string>)
    ensures |parts| >= 1
    ensures forall i :: 0 <= i < |parts| ==> ' ' !in parts[i]
    ensures JoinWithSpace(parts) == s
    decreases |s|
  {
    if ' ' !in s then [s]
    else
      var i := IndexOfSpace(s);
      var rest := SplitOnSpace(s[i + 1..]);
      assert ([s[..i]] + rest)[1..] == rest;
      assert s == s[..i] + " " + s[i + 1..];
      [s[..i]] + rest
  }

  lemma IndexOfSpaceAfter(a: string, b: string)
    requires ' ' !in a
    ensures IndexOfSpace(a + " " + b) == |a|
  {
    var s := a + " " + b;
    assert s[..|a|] == a;
    assert s[|a|] == ' ';
  }

  /** Splitting at a first piece without spaces. */
  lemma SplitAfter(a: string, b: string)
    requires ' ' !in a
    ensures SplitOnSpace(a + " " + b) == [a] + SplitOnSpace(b)
  {
    var s := a + " " + b;
    IndexOfSpaceAfter(a, b);
    assert s[..|a|] == a;
    assert s[|a| + 1..] == b;
  }

  /** Splitting undoes joining, for pieces that hold no space. */
  lemma {:induction false} SplitJoin(parts: seq<string>)
    requires |parts| >= 1
    requires forall i :: 0 <= i < |parts| ==> ' ' !in parts[i]
    ensures SplitOnSpace(JoinWithSpace(parts)) == parts
    decreases |parts|
  {
    if |parts| > 1 {
      SplitAfter(parts[0], JoinWithSpace(parts[1..]));
      SplitJoin(parts[1..]);
    }
  }

  // ---------------------------------------------------------------------------
  // The Authorization check of createUser.

  /** The access token createUser accepts: the header is present and non-empty, its first
      space-separated piece is exactly "Bearer" (case-sensitive) and its second piece is
      non-empty. None means the BadRequestException that createUser turns into
      'Registration unsuccessful'. */
  function BearerToken(authorization: Option<string>): (token: Option<string>)
    ensures token.Some? ==> authorization.Some? && token.value != "" && ' ' !in token.value
  {
    if authorization.None? || authorization.value == "" then None
    else
      var parts := SplitOnSpace(authorization.value);
      if parts[0] != "Bearer" || |parts| < 2 || parts[1] == "" then None
      else Some(parts[1])
  }

  /** The first piece of a space-free word followed by nothing or by a space is the word. */
  lemma SplitHead(word: string, rest: string)
    requires ' ' !in word
    requires rest == "" || rest[0] == ' '
    ensures SplitOnSpace(word + rest)[0] == word
  {
    if rest == "" {
      assert word + rest == word;
    } else {
      var tail := rest[1..];
      assert rest == " " + tail;
      assert word + rest == word + " " + tail;
      SplitAfter(word, tail);
    }
  }

  /** "Bearer <token>", optionally followed by more space-separated text, is accepted
      and yields <token>. */
  lemma BearerTokenAccepts(token: string, rest: string)
    requires token != "" && ' ' !in token
    requires rest == "" || rest[0] == ' '
    ensures BearerToken(Some("Bearer " + token + rest)) == Some(token)
  {
    var h := "Bearer " + token + rest;
    assert h == "Bearer" + " " + (token + rest);
    SplitAfter("Bearer", token + rest);
    SplitHead(token, rest);
    var parts := SplitOnSpace(h);
    assert parts == ["Bearer"] + SplitOnSpace(token + rest);
    assert parts[0] == "Bearer" && parts[1] == token;
  }

  /** Whatever createUser accepts starts with "Bearer ", then the token, then a space or
      the end of the header; the token is non-empty and holds no space. */
  lemma BearerTokenSound(h: string, token: string)
    requires BearerToken(Some(h)) == Some(token)
    ensures token != "" && ' ' !in token
    ensures |h| >= 7 + |token| && h[..7 + |token|] == "Bearer " + token
    ensures |h| == 7 + |token| || h[7 + |token|] == ' '
  {
    var parts := SplitOnSpace(h);
    assert parts[1..][0] == token;
    var tail := JoinWithSpace(parts[1..]);
    assert h == "Bearer" + " " + tail;
    if |parts| == 2 {
      assert tail == token;
    } else {
      assert tail == token + " " + JoinWithSpace(parts[2..]);
      assert h == "Bearer " + token + " " + JoinWithSpace(parts[2..]);
    }
  }

  /** The scheme is compared exactly: any other first piece, "bearer" included, is refused. */
  lemma BearerSchemeIsExact(scheme: string, token: string)
    requires ' ' !in scheme && scheme != "Bearer"
    ensures BearerToken(Some(scheme + " " + token)) == None
  {
    SplitAfter(scheme, token);
  }

  // ---------------------------------------------------------------------------
  // Lookups.

  /** getUserById: the user's public fields, or NotFound. */
  function GetUserById(users: map<Uuid, User>, userId: Uuid): (r: Result<UserData, Error>)
    ensures r.Ok? <==> userId in users
    ensures r.Ok? ==> r.value == UserData("User data fetched successfully", Summary(users[userId]))
    ensures r.Err? ==> r.error == NotFound("User with id " + userId + " not found")
  {
    if userId !in users then Err(NotFound("User with id " + userId + " not found"))
    else Ok(UserData("User data fetched successfully", Summary(users[userId])))
  }

  /** isEmailTaken: whether some stored user has this email. */
  function IsEmailTaken(users: map<Uuid, User>, email: string): (taken: bool)
    ensures taken <==> exists k :: k in users && users[k].email == email
  {
    exists u :: u in users.Values && u.email == email
  }

  /** findByEmail: the user with this email (with its roles), or NotFound; never null. */
  function FindByEmail(users: map<Uuid, User>, email: string): (r: Result<User, Error>)
    requires UniqueUserEmails(users)
    ensures r.Ok? <==> IsEmailTaken(users, email)
    ensures r.Ok? ==> r.value in users.Values && r.value.email == email
    ensures r.Err? ==> r.error == NotFound("User with email " + email + " not found")
  {
    if exists k :: k in users && users[k].email == email then
      var k :| k in users && users[k].email == email;
      Ok(users[k])
    else
      Err(NotFound("User with email " + email + " not found"))
  }

  /** findOne: the user with this id, or NotFound('User not found'). */
  function FindOne(users: map<Uuid, User>, id: Uuid): (r: Result<User, Error>)
    ensures r.Ok? <==> id in users
    ensures r.Ok? ==> r.value == users[id]
    ensures r.Err? ==> r.error == NotFound("User not found")
  {
    if id in users then Ok(users[id]) else Err(NotFound("User not found"))
  }

  /** findUserWithRoles: the user with this id, or null rather than an exception. */
  function FindUserWithRoles(users: map<Uuid, User>, userId: Uuid): (r: Option<User>)
    ensures r.Some? <==> userId in users
    ensures r.Some? ==> r.value == users[userId]
  {
    if userId in users then Some(users[userId]) else None
  }

  // ---------------------------------------------------------------------------
  // Registration.

  /** The fields of the RegistrationDto payload. */
  datatype RegistrationDto = RegistrationDto(firstName: string, lastName: string, email: string, password: string)

  /** The mutable payload object createUser receives (null when no body was sent). */
  class RegistrationPayload {
    var firstName: string
    var lastName: string
    var email: string
    var password: string

    constructor (dto: RegistrationDto)
      ensures Fields() == dto
    {
      firstName, lastName, email, password := dto.firstName, dto.lastName, dto.email, dto.password;
    }

    function Fields(): (dto: RegistrationDto)
      reads this
    {
      RegistrationDto(firstName, lastName, email, password)
    }
  }

  function PayloadFields(payload: RegistrationPayload?): (fields: Option<RegistrationDto>)
    reads payload
  {
    if payload == null then None else Some(payload.Fields())
  }

  /** The reply of createUser and the user table after it. */
  datatype Registration = Registration(response: AuthResponse, users: map<Uuid, User>)

  /** What createUser does to the user table, given the uuid the database would assign and
      the bcrypt hash: payload, then Authorization header, then email uniqueness, then insert.
      Every failure leaves the table as it was. */
  function Registered(
    users: map<Uuid, User>,
    payload: Option<RegistrationDto>,
    authorization: Option<string>,
    newId: Uuid,
    hash: string -> string): (out: Registration)
    requires newId !in users
    ensures payload.None? ==> out.response == BadRequest("No payload provided", 400)
    ensures payload.Some? && BearerToken(authorization).None? ==>
              out.response == BadRequest("Registration unsuccessful", 400)
    ensures payload.Some? && BearerToken(authorization).Some? && IsEmailTaken(users, payload.value.email) ==>
              out.response == BadRequest("Email has been taken", 400)
    ensures out.response.BadRequest? ==> out.users == users
    ensures out.response.Success? <==>
              payload.Some? && BearerToken(authorization).Some? && !IsEmailTaken(users, payload.value.email)
    ensures out.response.Success? ==>
              var p := payload.value;
              && out.users == users[newId := User(newId, p.firstName, p.lastName, p.email, hash(p.password), {})]
              && out.response == Success("Registration successful", BearerToken(authorization).value,
                                         UserSummary(newId, p.firstName, p.lastName, p.email))
  {
    if payload.None? then Registration(BadRequest("No payload provided", 400), users)
    else
      match BearerToken(authorization)
      case None => Registration(BadRequest("Registration unsuccessful", 400), users)
      case Some(accessToken) =>
        var p := payload.value;
        if IsEmailTaken(users, p.email) then Registration(BadRequest("Email has been taken", 400), users)
        else
          var saved := User(newId, p.firstName, p.lastName, p.email, hash(p.password), {});
          Registration(Success("Registration successful", accessToken, Summary(saved)), users[newId := saved])
  }

  /** Registration keeps the user table valid: in particular emails stay unique, and a
      success adds exactly one user. */
  lemma RegistrationKeepsUsersValid(
    users: map<Uuid, User>, payload: Option<RegistrationDto>, authorization: Option<string>,
    newId: Uuid, hash: string -> string)
    requires UsersValid(users) && newId !in users
    ensures UsersValid(Registered(users, payload, authorization, newId, hash).users)
    ensures |Registered(users, payload, authorization, newId, hash).users| ==
            |users| + (if Registered(users, payload, authorization, newId, hash).response.Success? then 1 else 0)
  {
  }

  /** createUser. The payload's password is overwritten with its hash in place before the
      insert, as the source does. */
  method CreateUser(db: Database, payload: RegistrationPayload?, req: Request, hash: string -> string)
    returns (r: AuthResponse)
    requires db.Valid()
    modifies db`users, payload
    ensures db.Valid()
    ensures exists newId :: newId !in old(db.users) &&
              Registered(old(db.users), old(PayloadFields(payload)), req.authorization, newId, hash)
                == Registration(r, db.users)
    ensures payload != null ==>
              && payload.firstName == old(payload.firstName)
              && payload.lastName == old(payload.lastName)
              && payload.email == old(payload.email)
              && payload.password == (if r.Success? then hash(old(payload.password)) else old(payload.password))
  {
    FreshUuidExists(db.users);
    var newId: Uuid :| newId !in db.users;
    ghost var expected := Registered(db.users, PayloadFields(payload), req.authorization, newId, hash);
    if payload == null {
      return BadRequest("No payload provided", 400);
    }
    var accessToken := BearerToken(req.authorization);
    if accessToken.None? {
      // the BadRequestException thrown for the header is caught by the handler
      return BadRequest("Registration unsuccessful", 400);
    }
    var taken := IsEmailTaken(db.users, payload.email);
    if taken {
      r := BadRequest("Email has been taken", 400);
    } else {
      payload.password := hash(payload.password);
      var saved := User(newId, payload.firstName, payload.lastName, payload.email, payload.password, {});
      db.users := db.users[newId := saved];
      r := Success("Registration successful", accessToken.value, Summary(saved));
    }
    assert expected == Registration(r, db.users);
  }
}
