/**
 * POST /api/login: find the user by email; create one with the requested
 * role when there is none, otherwise check the password. The hash and the
 * comparison are bcrypt calls and enter as parameters; the signed token is
 * represented by the claims it carries.
 */
module Login {
  import opened Wrappers
  import opened Events

  datatype User = User(id: UserId, email: string, passwordHash: string, role: string)

  datatype LoginOutcome = InvalidCredentials | SignedIn(user: User, created: bool)

  /** The payload of the token: the user's id and the role stored with the user. */
  datatype Claims = Claims(userId: UserId, role: string)

  /** The JSON body of the reply. */
  datatype LoginReply = LoginReply(success: bool, message: Option<string>, token: Option<Claims>,
                                   role: Option<string>, userId: Option<UserId>)

  /**
   * The find-or-create decision. `newId` and `hashed` are what the store and
   * `bcrypt.hash` produce for a newly created user; `matches` stands for
   * `bcrypt.compare(password, hash)`.
   */
  function FindOrCreate(users: map<string, User>, email: string, password: string, role: string,
                        newId: UserId, hashed: string, matches: (string, string) -> bool): (r: LoginOutcome)
    ensures email !in users ==> r == SignedIn(User(newId, email, hashed, role), true)
    ensures email in users ==> (r == InvalidCredentials <==> !matches(password, users[email].passwordHash))
    ensures email in users && r.SignedIn? ==> r.user == users[email] && !r.created
  {
    if email !in users then SignedIn(User(newId, email, hashed, role), true)
    else if matches(password, users[email].passwordHash) then SignedIn(users[email], false)
    else InvalidCredentials
  }

  /** The user collection after the login. */
  function UsersAfter(users: map<string, User>, r: LoginOutcome): (after: map<string, User>)
    ensures r.SignedIn? && r.created ==> after.Keys == users.Keys + {r.user.email} && after[r.user.email] == r.user
    ensures forall email :: email in users && !(r.SignedIn? && r.created && email == r.user.email) ==>
      email in after && after[email] == users[email]
    ensures !(r.SignedIn? && r.created) ==> after == users
  {
    if r.SignedIn? && r.created then users[r.user.email := r.user] else users
  }

  function ClaimsOf(u: User): (c: Claims)
    ensures c.userId == u.id && c.role == u.role
  {
    Claims(u.id, u.role)
  }

  /** The role asked for at login matters only when the user is created. */
  lemma ExistingUserKeepsStoredRole(users: map<string, User>, email: string, password: string,
                                    role: string, newId: UserId, hashed: string, matches: (string, string) -> bool)
    requires email in users && matches(password, users[email].passwordHash)
    ensures var r := FindOrCreate(users, email, password, role, newId, hashed, matches);
      r.SignedIn? && ClaimsOf(r.user) == Claims(users[email].id, users[email].role)
  {
  }

  /**
   * Logging in again with the same password after being created finds the
   * same user, under whatever role is asked for the second time.
   */
  lemma SecondLoginFindsCreatedUser(users: map<string, User>, email: string, password: string,
                                    role: string, role2: string, newId: UserId, newId2: UserId,
                                    hashed: string, hashed2: string, matches: (string, string) -> bool)
    requires email !in users && matches(password, hashed)
    ensures var first := FindOrCreate(users, email, password, role, newId, hashed, matches);
      var second := FindOrCreate(UsersAfter(users, first), email, password, role2, newId2, hashed2, matches);
      second == SignedIn(User(newId, email, hashed, role), false) &&
      ClaimsOf(second.user) == ClaimsOf(first.user)
  {
    var first := FindOrCreate(users, email, password, role, newId, hashed, matches);
    assert UsersAfter(users, first)[email] == User(newId, email, hashed, role);
  }

  /** The reply as server.js writes it: on success only `success` and `token`. */
  function ReplyAsWritten(r: LoginOutcome): (reply: LoginReply)
    ensures reply.success <==> r.SignedIn?
    ensures reply.role == None && reply.userId == None
  {
    match r
    case InvalidCredentials => LoginReply(false, Some("Invalid credentials"), None, None, None)
    case SignedIn(u, _) => LoginReply(true, None, Some(ClaimsOf(u)), None, None)
  }

  /** The reply the client is written against: it also names the user's role and id. */
  function Reply(r: LoginOutcome): (reply: LoginReply)
    ensures reply.success <==> r.SignedIn?
    ensures r.SignedIn? ==> reply.token == Some(ClaimsOf(r.user)) &&
                            reply.role == Some(r.user.role) && reply.userId == Some(r.user.id)
    ensures r.SignedIn? ==> reply.token == ReplyAsWritten(r).token
  {
    match r
    case InvalidCredentials => LoginReply(false, Some("Invalid credentials"), None, None, None)
    case SignedIn(u, _) => LoginReply(true, None, Some(ClaimsOf(u)), Some(u.role), Some(u.id))
  }
}
