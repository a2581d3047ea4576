/**
 * The HTTP authentication endpoints: the field checks of `register`,
 * `login` and `updateProfile`, the email pattern they share, and the calls
 * they make into the user directory. Every refusal carries the HTTP status
 * and the `message` the endpoint answers with; an accepted request answers
 * with the user's public fields, which do not include the password hash.
 */
module AuthController {
  import opened Base
  import opened Text
  import U = UserModel

  /** A refused request: HTTP status and the `message` of the JSON body. */
  datatype Rejection = Rejection(status: int, message: string)

  const FieldsRequired: string := "Username, password, and email are required"
  const UsernameTooShort: string := "Username must be at least 3 characters long"
  const PasswordTooShort: string := "Password must be at least 6 characters long"
  const InvalidEmail: string := "Please provide a valid email address"
  const UsernameTaken: string := "Username already exists"
  const RegistrationFailed: string := "Registration failed"
  const CredentialsRequired: string := "Username and password are required"
  const InvalidCredentials: string := "Invalid username or password"
  const UserNotFound: string := "User not found"

  // ---------------------------------------------------------------------
  // The email pattern /^[^\s@]+@[^\s@]+\.[^\s@]+$/
  // ---------------------------------------------------------------------

  /** The character class `[^\s@]`. */
  predicate PlainChar(c: char) {
    !IsJsWhitespace(c) && c != '@'
  }

  /** Every character of `s` is in `[^\s@]`. */
  predicate Plain(s: string) {
    forall i :: 0 <= i < |s| ==> PlainChar(s[i])
  }

  /**
   * What the regular expression accepts, read off its shape: a non-empty
   * run of `[^\s@]`, an `@`, a non-empty run, a `.`, a non-empty run, and
   * nothing else.
   */
  ghost predicate EmailPattern(e: string) {
    exists at, dot ::
      && 0 < at && at + 1 < dot && dot + 1 < |e|
      && e[at] == '@' && e[dot] == '.'
      && Plain(e[..at]) && Plain(e[at + 1..dot]) && Plain(e[dot + 1..])
  }

  /** The index of the first `c` in `s`, or `|s|` when there is none. */
  function IndexOf(s: string, c: char): (i: nat)
    ensures i <= |s|
    ensures i < |s| ==> s[i] == c
    ensures forall k :: 0 <= k < i ==> s[k] != c
  {
    if s == [] then 0
    else if s[0] == c then 0
    else 1 + IndexOf(s[1..], c)
  }

  /** The domain part has a `.` with at least one character on each side. */
  predicate HasInnerDot(domain: string) {
    exists k :: 0 < k < |domain| - 1 && domain[k] == '.'
  }

  /** A direct scan: split at the first `@`, then look for a `.` inside the domain. */
  predicate ScanAccepts(e: string) {
    var at := IndexOf(e, '@');
    0 < at < |e| && Plain(e[..at]) && Plain(e[at + 1..]) && HasInnerDot(e[at + 1..])
  }

  /** What the scan accepts has the shape of the pattern. */
  lemma ScanSound(e: string)
    requires ScanAccepts(e)
    ensures EmailPattern(e)
  {
    var at := IndexOf(e, '@');
    var domain := e[at + 1..];
    var k :| 0 < k < |domain| - 1 && domain[k] == '.';
    var dot := at + 1 + k;
    assert e[dot] == '.';
    assert e[at + 1..dot] == domain[..k];
    assert e[dot + 1..] == domain[k + 1..];
    assert Plain(domain[..k]);
    assert Plain(domain[k + 1..]);
  }

  /** Every split the pattern allows is found by the scan. */
  lemma ScanComplete(e: string, at: int, dot: int)
    requires 0 < at && at + 1 < dot && dot + 1 < |e|
    requires e[at] == '@' && e[dot] == '.'
    requires Plain(e[..at]) && Plain(e[at + 1..dot]) && Plain(e[dot + 1..])
    ensures ScanAccepts(e)
  {
    var first := IndexOf(e, '@');
    assert forall k :: 0 <= k < at ==> e[k] == e[..at][k] && PlainChar(e[..at][k]);
    assert first == at;
    var domain := e[at + 1..];
    assert PlainChar('.');
    forall i | 0 <= i < |domain|
      ensures PlainChar(domain[i])
    {
      if at + 1 + i < dot {
        assert domain[i] == e[at + 1..dot][i];
      } else if at + 1 + i > dot {
        assert domain[i] == e[dot + 1..][at + i - dot];
      }
    }
    assert domain[dot - at - 1] == '.';
  }

  /** The scan accepts exactly what the pattern accepts. */
  lemma ScanMatchesPattern(e: string)
    ensures ScanAccepts(e) <==> EmailPattern(e)
  {
    if ScanAccepts(e) {
      ScanSound(e);
    }
    if EmailPattern(e) {
      var at, dot :|
        && 0 < at && at + 1 < dot && dot + 1 < |e|
        && e[at] == '@' && e[dot] == '.'
        && Plain(e[..at]) && Plain(e[at + 1..dot]) && Plain(e[dot + 1..]);
      ScanComplete(e, at, dot);
    }
  }

  /** `emailRegex.test(email)` */
  function ValidEmail(e: string): (r: bool)
    ensures r <==> EmailPattern(e)
  {
    ScanMatchesPattern(e);
    ScanAccepts(e)
  }

  // ---------------------------------------------------------------------
  // register
  // ---------------------------------------------------------------------

  /**
   * The checks of `register` before the directory is consulted, in their
   * order; the first that fails gives the answer.
   */
  function CheckRegistration(username: Option<string>, password: Option<string>, email: Option<string>)
    : (r: Option<Rejection>)
    ensures r.None? <==>
              && Truthy(username) && Truthy(password) && Truthy(email)
              && |username.value| >= 3 && |password.value| >= 6 && EmailPattern(email.value)
    ensures r.Some? ==> r.value.status == 400
    ensures !(Truthy(username) && Truthy(password) && Truthy(email)) ==> r == Some(Rejection(400, FieldsRequired))
    ensures Truthy(username) && Truthy(password) && Truthy(email) && |username.value| < 3 ==>
              r == Some(Rejection(400, UsernameTooShort))
    ensures (Truthy(username) && Truthy(password) && Truthy(email) && |username.value| >= 3
             && |password.value| < 6) ==> r == Some(Rejection(400, PasswordTooShort))
    ensures (Truthy(username) && Truthy(password) && Truthy(email) && |username.value| >= 3
             && |password.value| >= 6 && !EmailPattern(email.value)) ==> r == Some(Rejection(400, InvalidEmail))
  {
    if !Truthy(username) || !Truthy(password) || !Truthy(email) then Some(Rejection(400, FieldsRequired))
    else if |username.value| < 3 then Some(Rejection(400, UsernameTooShort))
    else if |password.value| < 6 then Some(Rejection(400, PasswordTooShort))
    else if !ValidEmail(email.value) then Some(Rejection(400, InvalidEmail))
    else None
  }

  /** A request that passes the checks has a name of three characters or more and an email with an `@`. */
  lemma AcceptedRegistrationShape(username: string, password: string, email: string)
    requires CheckRegistration(Some(username), Some(password), Some(email)).None?
    ensures |username| >= 3 && |password| >= 6
    ensures exists at :: 0 < at < |email| - 1 && email[at] == '@' && '@' !in email[..at] && '@' !in email[at + 1..]
  {
    var at, dot :|
      && 0 < at && at + 1 < dot && dot + 1 < |email|
      && email[at] == '@' && email[dot] == '.'
      && Plain(email[..at]) && Plain(email[at + 1..dot]) && Plain(email[dot + 1..]);
    assert '@' !in email[..at] by {
      forall i | 0 <= i < at ensures email[..at][i] != '@' {
        assert PlainChar(email[..at][i]);
      }
    }
    assert '@' !in email[at + 1..] by {
      forall j | at + 1 <= j < |email| ensures email[j] != '@' {
        if j < dot {
          assert PlainChar(email[at + 1..dot][j - at - 1]);
        } else if j > dot {
          assert PlainChar(email[dot + 1..][j - dot - 1]);
        }
      }
    }
  }

  /**
   * `register`: the field checks, then the username lookup, then
   * `createUser`, whose refusal of a taken email surfaces as the generic
   * server error. The password is stored as `hash(password)`.
   */
  method Register(dir: U.Directory, username: Option<string>, password: Option<string>, email: Option<string>,
                  hash: string -> string, freshId: UserId)
    returns (r: Result<U.UserSummary, Rejection>)
    requires dir.Valid()
    requires freshId !in dir.users
    modifies dir
    ensures dir.Valid()
    ensures r.Err? ==> dir.users == old(dir.users)
    ensures CheckRegistration(username, password, email).Some? ==>
              r == Err(CheckRegistration(username, password, email).value)
    ensures CheckRegistration(username, password, email).None?
            && (exists id :: id in old(dir.users) && old(dir.users)[id].username == username.value) ==>
              r == Err(Rejection(400, UsernameTaken))
    ensures CheckRegistration(username, password, email).None?
            && (forall id :: id in old(dir.users) ==> old(dir.users)[id].username != username.value)
            && (exists id :: id in old(dir.users) && old(dir.users)[id].email == email.value) ==>
              r == Err(Rejection(500, RegistrationFailed))
    ensures r.Ok? <==>
              && CheckRegistration(username, password, email).None?
              && forall id :: id in old(dir.users) ==>
                   old(dir.users)[id].username != username.value && old(dir.users)[id].email != email.value
    ensures r.Ok? ==>
              var user := U.User(freshId, username.value, email.value, hash(password.value),
                                 U.AvatarFor(username.value), "offline");
              && dir.users == old(dir.users)[freshId := user]
              && r.value == U.SummaryOf(user)
    ensures dir.userOrder == if r.Ok? then old(dir.userOrder) + [freshId] else old(dir.userOrder)
    ensures dir.onlineUsers == old(dir.onlineUsers) && dir.onlineOrder == old(dir.onlineOrder)
  {
    var rejected := CheckRegistration(username, password, email);
    if rejected.Some? {
      return Err(rejected.value);
    }
    var existing := dir.FindFirst(U.ByUsername(username.value));
    if existing.Some? {
      return Err(Rejection(400, UsernameTaken));
    }
    var created := dir.CreateUser(username.value, hash(password.value), email.value, freshId);
    if created.Err? {
      return Err(Rejection(500, RegistrationFailed));
    }
    return Ok(U.SummaryOf(created.value));
  }

  // ---------------------------------------------------------------------
  // login
  // ---------------------------------------------------------------------

  /**
   * `login`: both fields are required; then the first user in registration
   * order with that username must exist and `passwordMatches(password, storedHash)` (the
   * hash comparison) must hold; the user is then marked online.
   */
  method Login(dir: U.Directory, username: Option<string>, password: Option<string>,
               passwordMatches: (string, string) -> bool)
    returns (r: Result<U.UserSummary, Rejection>)
    requires dir.Valid()
    modifies dir
    ensures dir.Valid()
    ensures r.Err? ==> dir.users == old(dir.users)
    ensures !(Truthy(username) && Truthy(password)) ==> r == Err(Rejection(400, CredentialsRequired))
    ensures Truthy(username) && Truthy(password) && r.Err? ==> r.error == Rejection(401, InvalidCredentials)
    ensures (Truthy(username) && Truthy(password)
             && (forall id :: id in old(dir.users) ==> old(dir.users)[id].username != username.value)) ==> r.Err?
    ensures (Truthy(username) && Truthy(password)
             && (exists id :: id in old(dir.users) && old(dir.users)[id].username == username.value)
             && (forall id :: id in old(dir.users) && old(dir.users)[id].username == username.value ==>
                   passwordMatches(password.value, old(dir.users)[id].password))) ==> r.Ok?
    ensures r.Ok? ==>
              && r.value.id in old(dir.users)
              && old(dir.users)[r.value.id].username == username.value
              && passwordMatches(password.value, old(dir.users)[r.value.id].password)
              && dir.users == old(dir.users)[r.value.id := old(dir.users)[r.value.id].(status := "online")]
              && r.value == U.SummaryOf(dir.users[r.value.id])
    ensures Truthy(username) && Truthy(password) ==>
              var first := U.FirstMatch(old(dir.users), old(dir.userOrder), U.ByUsername(username.value));
              && (r.Ok? <==> first.Some? && passwordMatches(password.value, old(dir.users)[first.value].password))
              && (r.Ok? ==> r.value.id == first.value)
    ensures dir.userOrder == old(dir.userOrder)
    ensures dir.onlineUsers == old(dir.onlineUsers) && dir.onlineOrder == old(dir.onlineOrder)
  {
    if !Truthy(username) || !Truthy(password) {
      return Err(Rejection(400, CredentialsRequired));
    }
    var found := dir.FindFirst(U.ByUsername(username.value));
    if found.None? || !passwordMatches(password.value, found.value.password) {
      return Err(Rejection(401, InvalidCredentials));
    }
    var online := dir.UpdateUserStatus(found.value.id, "online");
    return Ok(U.SummaryOf(online.value));
  }

  // ---------------------------------------------------------------------
  // getProfile and updateProfile
  // ---------------------------------------------------------------------

  /** `getProfile`: the user's public fields, or 404 when the id is unknown. */
  function GetProfile(dir: U.Directory, userId: UserId): (r: Result<U.UserSummary, Rejection>)
    reads dir
    requires dir.Valid()
    ensures r.Ok? <==> userId in dir.users
    ensures r.Ok? ==> r.value.id == userId && r.value == U.SummaryOf(dir.users[userId])
    ensures r.Err? ==> r.error == Rejection(404, UserNotFound)
  {
    match dir.GetUserById(userId)
    case None => Err(Rejection(404, UserNotFound))
    case Some(user) => Ok(U.SummaryOf(user))
  }

  /** An email in an update is checked only when it is truthy. */
  function CheckProfileEmail(email: Option<string>): (r: Option<Rejection>)
    ensures r.Some? <==> Truthy(email) && !EmailPattern(email.value)
    ensures r.Some? ==> r.value == Rejection(400, InvalidEmail)
  {
    if Truthy(email) && !ValidEmail(email.value) then Some(Rejection(400, InvalidEmail)) else None
  }

  /** The `updates` object: a field is carried exactly when the request's value is truthy. */
  function ProfileUpdatesFor(username: Option<string>, email: Option<string>, avatar: Option<string>)
    : (u: U.ProfileUpdates)
    ensures u.username.Some? <==> Truthy(username)
    ensures u.email.Some? <==> Truthy(email)
    ensures u.avatar.Some? <==> Truthy(avatar)
    ensures u.username.Some? ==> u.username == username
    ensures u.email.Some? ==> u.email == email
    ensures u.avatar.Some? ==> u.avatar == avatar
  {
    U.ProfileUpdates(
      if Truthy(username) then username else None,
      if Truthy(email) then email else None,
      if Truthy(avatar) then avatar else None)
  }

  /** An empty or absent field in the request leaves the stored field as it was. */
  lemma FalsyFieldsKept(user: U.User, username: Option<string>, email: Option<string>, avatar: Option<string>)
    ensures var updated := U.ApplyUpdates(user, ProfileUpdatesFor(username, email, avatar));
            && updated.id == user.id && updated.password == user.password && updated.status == user.status
            && updated.username == (if Truthy(username) then username.value else user.username)
            && updated.email == (if Truthy(email) then email.value else user.email)
            && updated.avatar == (if Truthy(avatar) then avatar.value else user.avatar)
  {
  }

  /**
   * `updateProfile`: 404 for an unknown user, 400 for a truthy email that
   * does not match the pattern, otherwise the truthy fields are merged in.
   */
  method UpdateProfile(dir: U.Directory, userId: UserId,
                       username: Option<string>, email: Option<string>, avatar: Option<string>)
    returns (r: Result<U.UserSummary, Rejection>)
    requires dir.Valid()
    modifies dir
    ensures dir.Valid()
    ensures r.Err? ==> dir.users == old(dir.users)
    ensures userId !in old(dir.users) ==> r == Err(Rejection(404, UserNotFound))
    ensures userId in old(dir.users) && CheckProfileEmail(email).Some? ==> r == Err(Rejection(400, InvalidEmail))
    ensures userId in old(dir.users) && CheckProfileEmail(email).None? ==>
              var updated := U.ApplyUpdates(old(dir.users)[userId], ProfileUpdatesFor(username, email, avatar));
              && dir.users == old(dir.users)[userId := updated]
              && r == Ok(U.SummaryOf(updated))
    ensures dir.userOrder == old(dir.userOrder)
    ensures dir.onlineUsers == old(dir.onlineUsers) && dir.onlineOrder == old(dir.onlineOrder)
  {
    var user := dir.GetUserById(userId);
    if user.None? {
      return Err(Rejection(404, UserNotFound));
    }
    var rejected := CheckProfileEmail(email);
    if rejected.Some? {
      return Err(rejected.value);
    }
    var updated := dir.UpdateUserProfile(userId, ProfileUpdatesFor(username, email, avatar));
    if updated.None? {
      return Err(Rejection(404, UserNotFound));
    }
    return Ok(U.SummaryOf(updated.value));
  }
}
