/** Account registration (`/api/auth/signup`). The password encoder and the
    `ROLE_USER` row are given by the caller; every exception the handler
    catches becomes a 500. */
module Auth {
  import opened Common
  import opened Records
  import opened UserRepository
  import opened Persistence

  const MinPasswordLength := 6
  const MaxPasswordLength := 40

  /** `registerUser`: the checks run in this order, and the first that
      fails decides the reply; only a registration that passes all of
      them stores a user, with the encoded password and the single role. */
  function Register(t: Tables, username: string, email: string, password: string,
                    encode: string -> string, userRole: Option<Role>): (r: (Tables, Reply<()>))
    ensures !r.1.Ok? ==> r.0 == t
    ensures |password| < MinPasswordLength ==> r.1 == BadRequest(PasswordTooShort)
    ensures MinPasswordLength <= |password| <= MaxPasswordLength || r.1 == BadRequest(PasswordTooShort) || r.1 == BadRequest(PasswordTooLong)
    ensures r.1 == BadRequest(PasswordTooLong) <==> |password| > MaxPasswordLength
    ensures r.1 == BadRequest(UsernameTaken) <==>
      MinPasswordLength <= |password| <= MaxPasswordLength && ExistsByUsername(t.users, username)
    ensures r.1 == BadRequest(EmailInUse) <==>
      MinPasswordLength <= |password| <= MaxPasswordLength && !ExistsByUsername(t.users, username) &&
      ExistsByEmail(t.users, email)
    ensures r.1 == ServerError(RoleNotFound) <==>
      MinPasswordLength <= |password| <= MaxPasswordLength && !ExistsByUsername(t.users, username) &&
      !ExistsByEmail(t.users, email) && userRole.None?
    ensures r.1.Ok? <==>
      MinPasswordLength <= |password| <= MaxPasswordLength && !ExistsByUsername(t.users, username) &&
      !ExistsByEmail(t.users, email) && userRole.Some?
    ensures r.1.Ok? ==>
      r.0 == t.(users := t.users + [UserRecord(t.nextId, username, email, encode(password), {userRole.value})],
                nextId := t.nextId + 1)
    ensures Valid(t) ==> Valid(r.0)
  {
    if |password| < MinPasswordLength then (t, BadRequest(PasswordTooShort))
    else if |password| > MaxPasswordLength then (t, BadRequest(PasswordTooLong))
    else if ExistsByUsername(t.users, username) then (t, BadRequest(UsernameTaken))
    else if ExistsByEmail(t.users, email) then (t, BadRequest(EmailInUse))
    else
      match userRole
      case None => (t, ServerError(RoleNotFound))
      case Some(role) =>
        InsertUserKeepsValid(t, username, email, encode(password), {role});
        (InsertUser(t, username, email, encode(password), {role}), Ok(()))
  }

  /** A registered user can be found by name and by email, and registering
      the same username again is refused without changing anything. */
  lemma RegisteredUserIsFound(t: Tables, username: string, email: string, password: string,
                              encode: string -> string, userRole: Option<Role>, password2: string, email2: string)
    requires Valid(t)
    requires Register(t, username, email, password, encode, userRole).1.Ok?
    ensures var t1 := Register(t, username, email, password, encode, userRole).0;
      FindByUsername(t1.users, username).Some? && FindByUsername(t1.users, username).value.password == encode(password) &&
      FindByEmail(t1.users, email).Some? && FindByEmail(t1.users, email).value.username == username &&
      (MinPasswordLength <= |password2| <= MaxPasswordLength ==>
        Register(t1, username, email2, password2, encode, userRole) == (t1, BadRequest(UsernameTaken)))
  {
    var t1 := Register(t, username, email, password, encode, userRole).0;
    var added := t1.users[|t.users|];
    assert added in t1.users;
    assert forall u :: u in t.users ==> u.username != username && u.email != email;
  }

  /** The authentication controller's registration endpoint over the store. */
  class AuthController {
    const store: Store

    constructor (store: Store)
      ensures this.store == store
    {
      this.store := store;
    }

    /** `registerUser`. */
    method RegisterUser(username: string, email: string, password: string,
                        encode: string -> string, userRole: Option<Role>) returns (reply: Reply<()>)
      modifies store
      ensures (store.Snapshot(), reply) == Register(old(store.Snapshot()), username, email, password, encode, userRole)
    {
      if |password| < MinPasswordLength {
        return BadRequest(PasswordTooShort);
      }
      if |password| > MaxPasswordLength {
        return BadRequest(PasswordTooLong);
      }
      if ExistsByUsername(store.users, username) {
        return BadRequest(UsernameTaken);
      }
      if ExistsByEmail(store.users, email) {
        return BadRequest(EmailInUse);
      }
      if userRole.None? {
        return ServerError(RoleNotFound);
      }
      var roles: set<Role> := {userRole.value};
      store.AddUser(username, email, encode(password), roles);
      reply := Ok(());
    }
  }
}
