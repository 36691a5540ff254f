/** The user account service: password hashing, authentication, login with
    a single live session per user, registration, partial updates, the
    manual lock and password change. The user store is a sequence of
    records in natural order; its repository writes with `update_one` on
    `_id` and returns the data it was given. */
module Users {
  import opened Wrappers
  import opened Ids
  import opened Crypto
  import opened Roles
  import Store
  import Text
  import Sessions

  datatype User = User(
    id: ObjectId,
    fullName: string,
    email: string,
    passwordHash: BcryptHash,
    role: Role,
    dateOfBirth: Option<string>,
    locked: bool,              // an absent `locked` field reads as false
    createdAt: int,
    updatedAt: int,
    deletedAt: Option<int>)

  const LockedMessage: string := "User account is locked. Please contact an administrator."

  // ---------------------------------------------------------------------
  // Passwords and tokens
  // ---------------------------------------------------------------------

  /** `hash_password`: SHA-256 of the password, then bcrypt with a fresh salt. */
  function HashPassword(password: string, salt: nat): (h: BcryptHash)
    ensures h.salt == salt
  {
    HashPw(Sha256OfPassword(password), salt)
  }

  /** `verify_password`: the same SHA-256 pre-hash, checked by bcrypt. */
  function VerifyPassword(password: string, hashed: BcryptHash): bool {
    CheckPw(Sha256OfPassword(password), hashed)
  }

  /** A hash verifies exactly the password it was made from. */
  lemma VerifyHashed(password: string, attempt: string, salt: nat)
    ensures VerifyPassword(attempt, HashPassword(password, salt)) <==> attempt == password
  {
  }

  /** `create_access_token`: the claims plus an `exp` the configured number
      of minutes after `now`. */
  function CreateAccessToken(sub: string, role: string, now: int, expireMinutes: int): (t: Token)
    ensures JwtDecode(t) == Payload(Some(sub), Some(role), Some(now + expireMinutes * 60))
  {
    JwtEncode(Payload(Some(sub), Some(role), Some(now + expireMinutes * 60)))
  }

  /** The seconds a freshly created token has left, as the session service
      computes them when the session is stored. */
  lemma FreshTokenTtl(sub: string, role: string, now: int, expireMinutes: int)
    requires expireMinutes > 0
    ensures Sessions.TokenExpirationSeconds(Some(JwtDecode(CreateAccessToken(sub, role, now, expireMinutes))), now, expireMinutes)
            == expireMinutes * 60
  {
  }

  // ---------------------------------------------------------------------
  // Lookups
  // ---------------------------------------------------------------------

  function WithEmail(email: string): User -> bool {
    (u: User) => u.email == email
  }

  function WithId(id: string): User -> bool {
    (u: User) => u.id == id
  }

  /** `get_by_email`: the first user with exactly this address, deleted or
      not. */
  function GetByEmail(users: seq<User>, email: string): (r: Option<User>)
    ensures r.Some? ==> r.value in users && r.value.email == email
    ensures r.None? <==> forall i :: 0 <= i < |users| ==> users[i].email != email
  {
    Store.FindFirst(users, WithEmail(email))
  }

  /** `get_by_id`: the first user whose printed id is `userId`. */
  function GetById(users: seq<User>, userId: string): (r: Option<User>)
    ensures r.Some? ==> r.value in users && r.value.id == userId
    ensures r.None? <==> forall i :: 0 <= i < |users| ==> users[i].id != userId
  {
    Store.FindFirst(users, WithId(userId))
  }

  // ---------------------------------------------------------------------
  // The repository class
  // ---------------------------------------------------------------------

  /** The abstract methods of the `UserRepository` base class. */
  const AbstractMethods: set<string> := {"create_user", "get_by_id", "update_user", "delete", "list_users"}

  /** The methods `MongoUserRepository` defines: `get_by_id` is not among
      them. */
  const MongoMethods: set<string> := {"get_by_email", "create_user", "delete", "update_user", "list_users"}

  /** Instantiating a subclass of an abstract base class: `TypeError` unless
      the class defines every abstract method. */
  function Instantiate(defined: set<string>): (r: Result<set<string>, Error>)
    ensures r.Ok? <==> AbstractMethods <= defined
    ensures r.Err? ==> r.error == TypeError
    ensures r.Ok? ==> r.value == defined
  {
    if AbstractMethods <= defined then Ok(defined) else Err(TypeError)
  }

  /** As written, `MongoUserRepository(db)` raises, so no user operation
      is reached through it. */
  lemma MongoRepositoryAbstract()
    ensures "get_by_id" in AbstractMethods && "get_by_id" !in MongoMethods
    ensures Instantiate(MongoMethods) == Err(TypeError)
  {
  }

  /** With `get_by_id` defined, as `GetById` models it, the repository
      instantiates and every abstract method is available. */
  lemma CompletedRepositoryInstantiates()
    ensures Instantiate(MongoMethods + {"get_by_id"}).Ok?
    ensures AbstractMethods <= Instantiate(MongoMethods + {"get_by_id"}).value
  {
  }

  /** `authenticate_user`: the user with that address when the password
      verifies against the stored hash. */
  function Authenticate(users: seq<User>, email: string, password: string): (r: Option<User>)
    ensures r.Some? ==> r.value in users && r.value.email == email && VerifyPassword(password, r.value.passwordHash)
    ensures r.None? <==> GetByEmail(users, email).None? || !VerifyPassword(password, GetByEmail(users, email).value.passwordHash)
  {
    match GetByEmail(users, email)
    case None => None
    case Some(u) => if VerifyPassword(password, u.passwordHash) then Some(u) else None
  }

  // ---------------------------------------------------------------------
  // Registration and login
  // ---------------------------------------------------------------------

  /** `create_user`: upsert by id of every field but `locked` and
      `deleted_at`. A new document holds neither field, which reads as
      unlocked and not deleted; an existing one keeps its own. */
  function CreateUser(users: seq<User>, user: User): (r: seq<User>)
    ensures (forall i :: 0 <= i < |users| ==> users[i].id != user.id) ==> r == users + [user.(locked := false, deletedAt := None)]
    ensures var k := Store.IndexOfFirst(users, WithId(user.id));
            k < |users| ==> r == users[k := user.(locked := users[k].locked, deletedAt := users[k].deletedAt)]
    ensures |r| >= |users|
  {
    Store.Upsert(users, WithId(user.id), (d: User) => user.(locked := d.locked, deletedAt := d.deletedAt), user.(locked := false, deletedAt := None))
  }

  /** The date parser `datetime.strptime(_, "%Y-%m-%d")`, a library call
      the model takes as a parameter: the parsed date, or the error it
      raises for a string that does not match the format. */
  type DateParser = string -> Result<int, Error>

  /** `register_user` as written. The address is checked first. The date of
      birth then goes through the parser: a missing one is a `TypeError`, a
      malformed one the parser's own error. A date that parses is a
      `datetime`, which the entity's `Optional[str]` field refuses, so the
      entity is never built. No branch reaches a write. */
  function Register(users: seq<User>, reg: Sessions.Registry, freshId: ObjectId, salt: nat, now: int, expireMinutes: int,
                    fullName: string, email: string, password: string, dateOfBirth: Option<string>, role: Option<Role>,
                    parseDate: DateParser)
    : (r: (seq<User>, Sessions.Registry, Result<Token, Error>))
    ensures GetByEmail(users, email).Some? ==> r == (users, reg, Err(ValueError("Email already registered")))
    ensures GetByEmail(users, email).None? && dateOfBirth.None? ==> r == (users, reg, Err(TypeError))
    ensures GetByEmail(users, email).None? && dateOfBirth.Some? && parseDate(dateOfBirth.value).Err? ==>
              r == (users, reg, Err(parseDate(dateOfBirth.value).error))
    ensures GetByEmail(users, email).None? && dateOfBirth.Some? && parseDate(dateOfBirth.value).Ok? ==>
              r == (users, reg, Err(ValidationError("date_of_birth")))
  {
    if GetByEmail(users, email).Some? then (users, reg, Err(ValueError("Email already registered")))
    else match dateOfBirth
      case None => (users, reg, Err(TypeError))
      case Some(d) =>
        match parseDate(d)
        case Err(e) => (users, reg, Err(e))
        case Ok(_) => (users, reg, Err(ValidationError("date_of_birth")))
  }

  /** As written, no registration succeeds and none writes a user or a
      session, whatever the inputs. */
  lemma RegistrationNeverSucceeds(users: seq<User>, reg: Sessions.Registry, freshId: ObjectId, salt: nat, now: int, expireMinutes: int,
                                  fullName: string, email: string, password: string, dateOfBirth: Option<string>, role: Option<Role>,
                                  parseDate: DateParser)
    ensures var r := Register(users, reg, freshId, salt, now, expireMinutes, fullName, email, password, dateOfBirth, role, parseDate);
            r.0 == users && r.1 == reg && r.2.Err?
  {
  }

  /** The evidently intended `register_user`: the date of birth is optional
      and, when given, must parse and is stored as the text it was given;
      then the user is created with the role (GUEST by default) and logged
      in. */
  function RegisterIntended(users: seq<User>, reg: Sessions.Registry, freshId: ObjectId, salt: nat, now: int, expireMinutes: int,
                            fullName: string, email: string, password: string, dateOfBirth: Option<string>, role: Option<Role>,
                            parseDate: DateParser)
    : (r: (seq<User>, Sessions.Registry, Result<Token, Error>))
    ensures GetByEmail(users, email).Some? ==> r == (users, reg, Err(ValueError("Email already registered")))
    ensures GetByEmail(users, email).None? && dateOfBirth.Some? && parseDate(dateOfBirth.value).Err? ==>
              r == (users, reg, Err(parseDate(dateOfBirth.value).error))
    ensures r.2.Ok? ==> GetByEmail(users, email).None? && (dateOfBirth.None? || parseDate(dateOfBirth.value).Ok?)
    ensures GetByEmail(users, email).None? && (dateOfBirth.None? || parseDate(dateOfBirth.value).Ok?) ==>
              var user := User(freshId, fullName, email, HashPassword(password, salt), role.GetOr(Guest), dateOfBirth, false, now, now, None);
              && r.0 == CreateUser(users, user)
              && r.1 == StoreFor(reg, freshId, r.0, now, expireMinutes, user.role).0
              && (r.2.Ok? ==> JwtDecode(r.2.value) == Payload(Some(freshId), Some(RoleValue(user.role)), Some(now + expireMinutes * 60)))
  {
    if GetByEmail(users, email).Some? then (users, reg, Err(ValueError("Email already registered")))
    else if dateOfBirth.Some? && parseDate(dateOfBirth.value).Err? then (users, reg, Err(parseDate(dateOfBirth.value).error))
    else
      var user := User(freshId, fullName, email, HashPassword(password, salt), role.GetOr(Guest), dateOfBirth, false, now, now, None);
      var saved := CreateUser(users, user);
      var stored := StoreFor(reg, freshId, saved, now, expireMinutes, user.role);
      (saved, stored.0, stored.1)
  }

  /** With a new address, an acceptable date and a positive token lifetime,
      the intended registration succeeds: the new user is stored last, the
      returned token is valid and names the new id, and the registry stays
      consistent. */
  lemma IntendedRegistrationLogsIn(users: seq<User>, reg: Sessions.Registry, freshId: ObjectId, salt: nat, now: int, expireMinutes: int,
                                   fullName: string, email: string, password: string, dateOfBirth: Option<string>, role: Option<Role>,
                                   parseDate: DateParser)
    requires GetByEmail(users, email).None? && (dateOfBirth.None? || parseDate(dateOfBirth.value).Ok?)
    requires forall i :: 0 <= i < |users| ==> users[i].id != freshId
    requires Sessions.Consistent(reg) && TokensOwned(reg) && expireMinutes > 0
    ensures var r := RegisterIntended(users, reg, freshId, salt, now, expireMinutes, fullName, email, password, dateOfBirth, role, parseDate);
            && r.2.Ok?
            && |r.0| == |users| + 1 && r.0[|users|].id == freshId && r.0[|users|].email == email
            && Sessions.IsTokenValid(r.1, r.2.value)
            && Sessions.GetUserIdFromToken(r.1, r.2.value) == Some(freshId)
            && Sessions.Consistent(r.1)
  {
    var token := CreateAccessToken(freshId, RoleValue(role.GetOr(Guest)), now, expireMinutes);
    FreshTokenTtl(freshId, RoleValue(role.GetOr(Guest)), now, expireMinutes);
    var ttl := expireMinutes * 60;
    assert freshId != "" by { assert |freshId| == 24; }
    assert forall v :: v in reg.sessions && reg.sessions[v].value == token ==> v == freshId;
    Sessions.StorePreservesConsistent(reg, freshId, token, ttl);
    Sessions.StoredTokenValid(reg, freshId, token, ttl);
  }

  /** Issue a token for the user and store it as the user's session. */
  function StoreFor(reg: Sessions.Registry, userId: ObjectId, users: seq<User>, now: int, expireMinutes: int, role: Role)
    : (r: (Sessions.Registry, Result<Token, Error>))
    ensures var token := CreateAccessToken(userId, RoleValue(role), now, expireMinutes);
            var ttl := Sessions.TokenExpirationSeconds(Some(JwtDecode(token)), now, expireMinutes);
            && r.0 == Sessions.StoreSession(reg, userId, token, ttl).0
            && (r.1.Ok? <==> Sessions.ValidTtl(ttl))
            && (r.1.Ok? ==> r.1.value == token)
  {
    var token := CreateAccessToken(userId, RoleValue(role), now, expireMinutes);
    var ttl := Sessions.TokenExpirationSeconds(Some(JwtDecode(token)), now, expireMinutes);
    var stored := Sessions.StoreSession(reg, userId, token, ttl);
    (stored.0, if stored.1.Err? then Err(stored.1.error) else Ok(token))
  }

  /** `login_user`. Bad credentials return nothing and touch no session;
      the lock is looked at only once the password has verified; then the
      user's session is invalidated and a new one stored. */
  function Login(users: seq<User>, reg: Sessions.Registry, now: int, expireMinutes: int, email: string, password: string)
    : (r: (Sessions.Registry, Result<Option<Token>, Error>))
    ensures Authenticate(users, email, password).None? ==> r == (reg, Ok(None))
    ensures Authenticate(users, email, password).Some? && Authenticate(users, email, password).value.locked ==>
              r == (reg, Err(ValueError(LockedMessage)))
    ensures Authenticate(users, email, password).Some? && !Authenticate(users, email, password).value.locked ==>
              var u := Authenticate(users, email, password).value;
              var stored := StoreFor(Sessions.InvalidateSession(reg, u.id), u.id, users, now, expireMinutes, u.role);
              r == (stored.0, if stored.1.Err? then Err(stored.1.error) else Ok(Some(stored.1.value)))
  {
    match Authenticate(users, email, password)
    case None => (reg, Ok(None))
    case Some(u) =>
      if u.locked then (reg, Err(ValueError(LockedMessage)))
      else
        var cleared := Sessions.InvalidateSession(reg, u.id);
        var stored := StoreFor(cleared, u.id, users, now, expireMinutes, u.role);
        (stored.0, if stored.1.Err? then Err(stored.1.error) else Ok(Some(stored.1.value)))
  }

  /** Every session token was issued to the user it is stored under. */
  ghost predicate TokensOwned(reg: Sessions.Registry) {
    forall u :: u in reg.sessions ==> reg.sessions[u].value.payload.sub == Some(u)
  }

  /** A locked user with the right password is refused with an error; with a
      wrong password the same user just gets no token. */
  lemma LockCheckedAfterPassword(users: seq<User>, reg: Sessions.Registry, now: int, expireMinutes: int, password: string, wrong: string, salt: nat)
    requires |users| == 1 && users[0].locked && users[0].passwordHash == HashPassword(password, salt) && wrong != password
    ensures Login(users, reg, now, expireMinutes, users[0].email, password) == (reg, Err(ValueError(LockedMessage)))
    ensures Login(users, reg, now, expireMinutes, users[0].email, wrong) == (reg, Ok(None))
  {
    Store.FindFirstAt(users, WithEmail(users[0].email), 0);
  }

  /** A successful login leaves exactly one live token for the user, the new
      one: it is valid and names the user, the user's earlier token is not,
      and the registry stays consistent. */
  lemma LoginReplacesSession(users: seq<User>, reg: Sessions.Registry, now: int, expireMinutes: int, email: string, password: string)
    requires Sessions.Consistent(reg) && TokensOwned(reg) && expireMinutes > 0
    requires Authenticate(users, email, password).Some? && !Authenticate(users, email, password).value.locked
    ensures var u := Authenticate(users, email, password).value;
            var r := Login(users, reg, now, expireMinutes, email, password);
            && r.1.Ok? && r.1.value.Some?
            && Sessions.IsTokenValid(r.0, r.1.value.value)
            && Sessions.GetUserIdFromToken(r.0, r.1.value.value) == Some(u.id)
            && r.0.sessions[u.id].value == r.1.value.value
            && (u.id in reg.sessions && reg.sessions[u.id].value != r.1.value.value ==> !Sessions.IsTokenValid(r.0, reg.sessions[u.id].value))
            && Sessions.Consistent(r.0) && TokensOwned(r.0)
  {
    var u := Authenticate(users, email, password).value;
    var cleared := Sessions.InvalidateSession(reg, u.id);
    Sessions.InvalidateSessionPreservesConsistent(reg, u.id);
    var token := CreateAccessToken(u.id, RoleValue(u.role), now, expireMinutes);
    FreshTokenTtl(u.id, RoleValue(u.role), now, expireMinutes);
    var ttl := expireMinutes * 60;
    assert u.id != "" by { assert |u.id| == 24; }
    assert TokensOwned(cleared);
    assert u.id !in cleared.sessions;
    assert forall v :: v in cleared.sessions ==> cleared.sessions[v].value != token;
    Sessions.StorePreservesConsistent(cleared, u.id, token, ttl);
    Sessions.StoredTokenValid(cleared, u.id, token, ttl);
    if u.id in reg.sessions && reg.sessions[u.id].value != token {
      Sessions.InvalidatedSessionGone(reg, u.id);
      Sessions.TokenKeyInjective(reg.sessions[u.id].value, token);
    }
  }

  // ---------------------------------------------------------------------
  // Updates
  // ---------------------------------------------------------------------

  /** The caller's update fields; `None` is a field left out. */
  datatype UserPatch = UserPatch(fullName: Option<string>, email: Option<string>, dateOfBirth: Option<string>, role: Option<Role>)

  predicate NoFields(p: UserPatch) {
    p.fullName.None? && p.email.None? && p.dateOfBirth.None? && p.role.None?
  }

  function ApplyPatch(u: User, p: UserPatch, now: int): (v: User)
    ensures v.fullName == p.fullName.GetOr(u.fullName) && v.email == p.email.GetOr(u.email)
    ensures v.dateOfBirth == (if p.dateOfBirth.Some? then p.dateOfBirth else u.dateOfBirth)
    ensures v.role == p.role.GetOr(u.role) && v.updatedAt == now
    ensures v.id == u.id && v.passwordHash == u.passwordHash && v.locked == u.locked
    ensures v.createdAt == u.createdAt && v.deletedAt == u.deletedAt
  {
    u.(fullName := p.fullName.GetOr(u.fullName), email := p.email.GetOr(u.email),
       dateOfBirth := if p.dateOfBirth.Some? then p.dateOfBirth else u.dateOfBirth,
       role := p.role.GetOr(u.role), updatedAt := now)
  }

  /** `update_user`. A patch with no fields fails before the id is parsed;
      otherwise `updated_at` is added and the written data returned. The
      repository hands back what it was given, so an unknown id changes
      nothing and is not reported. */
  function UpdateUser(users: seq<User>, userId: string, now: int, patch: UserPatch): (r: (seq<User>, Result<(UserPatch, int), Error>))
    ensures NoFields(patch) ==> r == (users, Err(ValueError("No fields to update")))
    ensures !NoFields(patch) && ParseObjectId(userId).Err? ==> r == (users, Err(InvalidId(userId)))
    ensures !NoFields(patch) && ParseObjectId(userId).Ok? ==>
              && r.1 == Ok((patch, now))
              && r.0 == Store.UpdateFirst(users, WithId(ParseObjectId(userId).value), (u: User) => ApplyPatch(u, patch, now))
  {
    if NoFields(patch) then (users, Err(ValueError("No fields to update")))
    else
      match ParseObjectId(userId)
      case Err(e) => (users, Err(e))
      case Ok(id) => (Store.UpdateFirst(users, WithId(id), (u: User) => ApplyPatch(u, patch, now)), Ok((patch, now)))
  }

  /** The "not found" branch of `update_user` is never taken: the only
      errors are an empty patch and an unparsable id. */
  lemma UpdateNeverReportsMissing(users: seq<User>, userId: string, now: int, patch: UserPatch)
    ensures var r := UpdateUser(users, userId, now, patch);
            r.1.Err? ==> r.1.error == ValueError("No fields to update") || r.1.error == InvalidId(userId)
    ensures (forall i :: 0 <= i < |users| ==> users[i].id != Text.Lower(userId)) ==> UpdateUser(users, userId, now, patch).0 == users
  {
  }

  /** `lock_user`: write the flag and `updated_at`, return them. */
  function LockUser(users: seq<User>, userId: string, locked: bool, now: int): (r: (seq<User>, Result<(bool, int), Error>))
    ensures ParseObjectId(userId).Err? ==> r == (users, Err(InvalidId(userId)))
    ensures ParseObjectId(userId).Ok? ==>
              && r.1 == Ok((locked, now))
              && |r.0| == |users|
              && forall i :: 0 <= i < |users| ==>
                   r.0[i] == if i == Store.IndexOfFirst(users, WithId(ParseObjectId(userId).value)) then users[i].(locked := locked, updatedAt := now) else users[i]
  {
    match ParseObjectId(userId)
    case Err(e) => (users, Err(e))
    case Ok(id) => (Store.UpdateFirst(users, WithId(id), (u: User) => u.(locked := locked, updatedAt := now)), Ok((locked, now)))
  }

  /** `change_password`. The checks run in this order: the user exists, is
      not locked, and the old password verifies. Then the new hash is
      written and the user's session invalidated. */
  function ChangePassword(users: seq<User>, reg: Sessions.Registry, userId: string, salt: nat, now: int, oldPassword: string, newPassword: string)
    : (r: (seq<User>, Sessions.Registry, Result<(BcryptHash, int), Error>))
    ensures GetById(users, userId).None? ==> r == (users, reg, Err(ValueError("User not found")))
    ensures GetById(users, userId).Some? && GetById(users, userId).value.locked ==> r == (users, reg, Err(ValueError(LockedMessage)))
    ensures GetById(users, userId).Some? && !GetById(users, userId).value.locked && !VerifyPassword(oldPassword, GetById(users, userId).value.passwordHash) ==>
              r == (users, reg, Err(ValueError("Old password is incorrect")))
    ensures r.2.Ok? <==> GetById(users, userId).Some? && !GetById(users, userId).value.locked && VerifyPassword(oldPassword, GetById(users, userId).value.passwordHash)
    ensures r.2.Ok? ==>
              && r.2.value == (HashPassword(newPassword, salt), now)
              && r.1 == Sessions.InvalidateSession(reg, userId)
              && |r.0| == |users|
              && forall i :: 0 <= i < |users| ==>
                   r.0[i] == if i == Store.IndexOfFirst(users, WithId(userId)) then users[i].(passwordHash := HashPassword(newPassword, salt), updatedAt := now) else users[i]
  {
    match GetById(users, userId)
    case None => (users, reg, Err(ValueError("User not found")))
    case Some(u) =>
      if u.locked then (users, reg, Err(ValueError(LockedMessage)))
      else if !VerifyPassword(oldPassword, u.passwordHash) then (users, reg, Err(ValueError("Old password is incorrect")))
      else
        ParsePrintedId(u.id);
        var hash := HashPassword(newPassword, salt);
        var written := Store.UpdateFirst(users, WithId(u.id), (v: User) => v.(passwordHash := hash, updatedAt := now));
        (written, Sessions.InvalidateSession(reg, userId), Ok((hash, now)))
  }

  /** After a password change the stored hash verifies the new password and
      no other, and the user has no session left. */
  lemma ChangedPasswordVerifies(users: seq<User>, reg: Sessions.Registry, userId: string, salt: nat, now: int, oldPassword: string, newPassword: string, attempt: string)
    requires ChangePassword(users, reg, userId, salt, now, oldPassword, newPassword).2.Ok?
    ensures var r := ChangePassword(users, reg, userId, salt, now, oldPassword, newPassword);
            && GetById(r.0, userId).Some?
            && (VerifyPassword(attempt, GetById(r.0, userId).value.passwordHash) <==> attempt == newPassword)
            && userId !in r.1.sessions
  {
    var r := ChangePassword(users, reg, userId, salt, now, oldPassword, newPassword);
    var k := Store.IndexOfFirst(users, WithId(userId));
    Store.FindFirstAt(r.0, WithId(userId), k);
  }
}
