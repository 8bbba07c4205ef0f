/** The user finders the controllers call, by exact username or email.
    Their declaring interface is not part of this model; their behaviour
    follows from their Spring Data names. */
module UserRepository {
  import opened Common
  import opened Seqs
  import opened Records

  function WithUsername(username: string): UserRecord -> bool {
    (u: UserRecord) => u.username == username
  }

  function WithEmail(email: string): UserRecord -> bool {
    (u: UserRecord) => u.email == email
  }

  function WithId(id: Id): UserRecord -> bool {
    (u: UserRecord) => u.id == id
  }

  /** `findByUsername`. */
  function FindByUsername(users: seq<UserRecord>, username: string): (r: Option<UserRecord>)
    ensures r.Some? ==> r.value in users && r.value.username == username
    ensures r.None? <==> forall u :: u in users ==> u.username != username
  {
    match FirstIndex(users, WithUsername(username))
    case None => None
    case Some(i) => Some(users[i])
  }

  /** `findByEmail`. */
  function FindByEmail(users: seq<UserRecord>, email: string): (r: Option<UserRecord>)
    ensures r.Some? ==> r.value in users && r.value.email == email
    ensures r.None? <==> forall u :: u in users ==> u.email != email
  {
    match FirstIndex(users, WithEmail(email))
    case None => None
    case Some(i) => Some(users[i])
  }

  /** The user a foreign key refers to. */
  function FindById(users: seq<UserRecord>, id: Id): (r: Option<UserRecord>)
    ensures r.Some? ==> r.value in users && r.value.id == id
    ensures r.None? <==> forall u :: u in users ==> u.id != id
  {
    match FirstIndex(users, WithId(id))
    case None => None
    case Some(i) => Some(users[i])
  }

  /** `existsByUsername`. */
  function ExistsByUsername(users: seq<UserRecord>, username: string): (b: bool)
    ensures b <==> exists u :: u in users && u.username == username
    ensures b <==> FindByUsername(users, username).Some?
  {
    FindByUsername(users, username).Some?
  }

  /** `existsByEmail`. */
  function ExistsByEmail(users: seq<UserRecord>, email: string): (b: bool)
    ensures b <==> exists u :: u in users && u.email == email
    ensures b <==> FindByEmail(users, email).Some?
  {
    FindByEmail(users, email).Some?
  }
}
