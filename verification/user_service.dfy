/** `UserService`: registration, login and account maintenance in front of
    the user store.

    Each operation is a function of the store before the call and returns
    the store after it together with the call's result.  The parts that the
    service takes from libraries are parameters:
    - `hash` stands for `bcrypt.GenerateFromPassword` at the default cost,
      read as a deterministic function that yields a digest or an error;
      `bcrypt.CompareHashAndPassword(digest, p)` is read as
      `hash(p) == Ok(digest)`.
    - `id` stands for `uuid.New().String()`.
    - `scan` stands for the order in which the store's map is visited.
 */
module UserService {
  import opened GoText
  import opened Results
  import opened Store
  import opened UserDomain
  import opened UserStore
  import opened Email

  type Hasher = GoString -> Result<GoString>

  const FieldsRequired := Error("name, email, and password are required")
  const InvalidEmailFormat := Error("invalid email format")
  const EmailAlreadyRegistered := Error("email already registered")
  const InvalidCredentials := Error("invalid credentials")
  const IdRequired := Error("id is required")
  const IdAndPasswordRequired := Error("id and new password are required")

  /** The argument checks `Register` makes before it touches the store. */
  predicate RegistrationInputOk(name: GoString, email: GoString, password: GoString) {
    name != [] && email != [] && password != [] && ValidateEmail(email)
  }

  /** `Register`: checks the arguments, refuses an address already on file,
      hashes the password and stores a new user under a fresh id.  The role is
      stored as given; it is not checked against the three named roles. */
  function Register(s: Repo<User>, scan: seq<GoString>, name: GoString, email: GoString,
                    password: GoString, role: Role, hash: Hasher, id: Uuid): (r: Outcome<User, User>)
    requires IsScanOf(scan, s.records)
    ensures r.result.Err? ==> r.repo == s
    ensures name == [] || email == [] || password == [] ==> r.result == Err(FieldsRequired)
    ensures name != [] && email != [] && password != [] && !ValidateEmail(email) ==>
      r.result == Err(InvalidEmailFormat)
    ensures RegistrationInputOk(name, email, password) && s.failing ==> r.result == Err(DatabaseError)
    ensures RegistrationInputOk(name, email, password) && !s.failing && EmailTaken(s.records, email) ==>
      r.result == Err(EmailAlreadyRegistered)
    ensures RegistrationInputOk(name, email, password) && !s.failing && !EmailTaken(s.records, email) ==>
      (r.result.Ok? <==> hash(password).Ok?)
    ensures (RegistrationInputOk(name, email, password) && !s.failing && !EmailTaken(s.records, email)
             && hash(password).Err?) ==> r.result == Err(hash(password).error)
    ensures r.result.Ok? ==>
      && RegistrationInputOk(name, email, password) && !EmailTaken(s.records, email)
      && hash(password).Ok?
      && r.result.value == User(id, name, email, hash(password).value, role)
      && r.repo.records == s.records[id := r.result.value]
  {
    if name == [] || email == [] || password == [] then Outcome(s, Err(FieldsRequired))
    else if !ValidateEmail(email) then Outcome(s, Err(InvalidEmailFormat))
    else match FindByEmail(s, scan, email)
      case Err(e) => Outcome(s, Err(e))
      case Ok(Some(_)) => Outcome(s, Err(EmailAlreadyRegistered))
      case Ok(None) =>
        match hash(password)
        case Err(e) => Outcome(s, Err(e))
        case Ok(digest) => UserStore.Create(s, User(id, name, email, digest, role))
  }

  /** `Login`: the user the e-mail lookup finds, if the password hashes to
      that user's digest.  An unknown address and a wrong password give the
      same error; only a store failure gives another. */
  function Login(s: Repo<User>, scan: seq<GoString>, email: GoString, password: GoString,
                 hash: Hasher): (r: Result<User>)
    requires IsScanOf(scan, s.records)
    ensures s.failing ==> r == Err(DatabaseError)
    ensures !s.failing && r.Err? ==> r.error == InvalidCredentials
    ensures !EmailTaken(s.records, email) ==> r.Err?
    ensures r.Ok? ==>
      && r.value.email == email && hash(password) == Ok(r.value.password)
      && exists k | k in s.records :: s.records[k] == r.value
    ensures !s.failing && email in EmailsOf(s.records) && UniqueEmail(s.records, email) ==>
      (r.Ok? <==> hash(password) == Ok(OwnerOf(s.records, email).password))
  {
    match FindByEmail(s, scan, email)
    case Err(e) => Err(e)
    case Ok(None) => Err(InvalidCredentials)
    case Ok(Some(u)) =>
      if hash(password) == Ok(u.password) then Ok(u) else Err(InvalidCredentials)
  }

  /** The addresses on file. */
  function EmailsOf(m: map<GoString, User>): set<GoString> {
    set k | k in m :: m[k].email
  }

  /** At most one stored user has this address. */
  predicate UniqueEmail(m: map<GoString, User>, email: GoString) {
    forall j, k | j in m && k in m && m[j].email == email && m[k].email == email :: j == k
  }

  /** The one user holding an address that is on file exactly once. */
  function OwnerOf(m: map<GoString, User>, email: GoString): (u: User)
    requires email in EmailsOf(m) && UniqueEmail(m, email)
    ensures u.email == email && exists k | k in m :: m[k] == u
  {
    var k :| k in m && m[k].email == email;
    m[k]
  }

  /** `GetUser`: the user stored under `id`, with "user not found" for a
      missing one. */
  function GetUser(s: Repo<User>, id: GoString): (r: Result<User>)
    ensures r.Ok? <==> id != [] && !s.failing && id in s.records
    ensures r.Ok? ==> r.value == s.records[id]
    ensures id == [] ==> r == Err(IdRequired)
    ensures id != [] && s.failing ==> r == Err(DatabaseError)
    ensures id != [] && !s.failing && id !in s.records ==> r == Err(UserNotFound)
  {
    if id == [] then Err(IdRequired)
    else match Find(s, id)
      case Err(e) => Err(e)
      case Ok(None) => Err(UserNotFound)
      case Ok(Some(u)) => Ok(u)
  }

  /** The argument checks `UpdateUser` makes: an id, and an e-mail that is
      either empty or well formed. */
  function UpdateChecks(u: User): (r: Option<Error>)
    ensures r.None? <==> u.id != [] && (u.email == [] || ValidateEmail(u.email))
    ensures u.id == [] ==> r == Some(IdRequired)
    ensures u.id != [] && u.email != [] && !ValidateEmail(u.email) ==> r == Some(InvalidEmailFormat)
  {
    if u.id == [] then Some(IdRequired)
    else if u.email != [] && !ValidateEmail(u.email) then Some(InvalidEmailFormat)
    else None
  }

  /** `UpdateUser` as the code stands: after the checks the whole record,
      password included, replaces the stored one. */
  function UpdateUserAsWritten(s: Repo<User>, u: User): (r: Outcome<User, ()>)
    ensures r.result.Err? ==> r.repo == s
    ensures UpdateChecks(u).Some? ==> r.result == Err(UpdateChecks(u).value)
    ensures UpdateChecks(u).None? && s.failing ==> r.result == Err(DatabaseError)
    ensures UpdateChecks(u).None? && !s.failing && u.id !in s.records ==> r.result == Err(UserNotFound)
    ensures r.result.Ok? <==> UpdateChecks(u).None? && !s.failing && u.id in s.records
    ensures r.result.Ok? ==> r.repo.records == s.records[u.id := u]
  {
    match UpdateChecks(u)
    case Some(e) => Outcome(s, Err(e))
    case None => Replace(s, u.id, u, UserNotFound)
  }

  /** `UpdateUser` as documented, "all fields except password": the stored
      digest is carried over and every other field is replaced. */
  function UpdateUser(s: Repo<User>, u: User): (r: Outcome<User, ()>)
    ensures r.result.Err? ==> r.repo == s
    ensures UpdateChecks(u).Some? ==> r.result == Err(UpdateChecks(u).value)
    ensures UpdateChecks(u).None? && s.failing ==> r.result == Err(DatabaseError)
    ensures UpdateChecks(u).None? && !s.failing && u.id !in s.records ==> r.result == Err(UserNotFound)
    ensures r.result.Ok? <==> UpdateChecks(u).None? && !s.failing && u.id in s.records
    ensures r.result.Ok? ==>
      r.repo.records == s.records[u.id := u.(password := s.records[u.id].password)]
    ensures forall k | k in r.repo.records ::
      k in s.records && r.repo.records[k].password == s.records[k].password
  {
    match UpdateChecks(u)
    case Some(e) => Outcome(s, Err(e))
    case None =>
      match Find(s, u.id)
      case Err(e) => Outcome(s, Err(e))
      case Ok(None) => Outcome(s, Err(UserNotFound))
      case Ok(Some(stored)) => Replace(s, u.id, u.(password := stored.password), UserNotFound)
  }

  /** `UpdatePassword`: the user found under `id` gets the digest of the new
      password and is written back through the store's update, which files
      it under the user's own id field.  On a store that keeps every user
      under its own id that is `id` itself, and nothing else changes. */
  function UpdatePassword(s: Repo<User>, id: GoString, newPassword: GoString, hash: Hasher): (r: Outcome<User, ()>)
    ensures r.result.Err? ==> r.repo == s
    ensures id == [] || newPassword == [] ==> r.result == Err(IdAndPasswordRequired)
    ensures id != [] && newPassword != [] && s.failing ==> r.result == Err(DatabaseError)
    ensures id != [] && newPassword != [] && !s.failing && id !in s.records ==> r.result == Err(UserNotFound)
    ensures id != [] && newPassword != [] && !s.failing && id in s.records && hash(newPassword).Err? ==>
      r.result == Err(hash(newPassword).error)
    ensures id != [] && newPassword != [] && !s.failing && id in s.records && hash(newPassword).Ok?
            && s.records[id].id !in s.records ==>
      r.result == Err(UserNotFound)
    ensures r.result.Ok? <==>
      && id != [] && newPassword != [] && !s.failing && id in s.records && hash(newPassword).Ok?
      && s.records[id].id in s.records
    ensures r.result.Ok? ==>
      var u := s.records[id];
      r.repo.records == s.records[u.id := u.(password := hash(newPassword).value)]
    ensures KeyedById(s.records, IdOf) ==>
      && (r.result.Ok? <==>
            id != [] && newPassword != [] && !s.failing && id in s.records && hash(newPassword).Ok?)
      && (r.result.Ok? ==>
            r.repo.records == s.records[id := s.records[id].(password := hash(newPassword).value)])
  {
    if id == [] || newPassword == [] then Outcome(s, Err(IdAndPasswordRequired))
    else match Find(s, id)
      case Err(e) => Outcome(s, Err(e))
      case Ok(None) => Outcome(s, Err(UserNotFound))
      case Ok(Some(u)) =>
        match hash(newPassword)
        case Err(e) => Outcome(s, Err(e))
        case Ok(digest) => Replace(s, u.id, u.(password := digest), UserNotFound)
  }

  /** `DeleteUser`: refuses an empty id; otherwise the store's delete, its
      errors passed on unchanged. */
  function DeleteUser(s: Repo<User>, id: GoString): (r: Outcome<User, ()>)
    ensures r.result.Err? ==> r.repo == s
    ensures id == [] ==> r.result == Err(IdRequired)
    ensures id != [] && s.failing ==> r.result == Err(DatabaseError)
    ensures id != [] && !s.failing && id !in s.records ==> r.result == Err(UserNotFound)
    ensures r.result.Ok? <==> id != [] && !s.failing && id in s.records
    ensures r.result.Ok? ==> r.repo.records == s.records - {id}
  {
    if id == [] then Outcome(s, Err(IdRequired))
    else Remove(s, id, UserNotFound)
  }

  /** `ListUsers`: every stored user once, or the store's error. */
  function ListUsers(s: Repo<User>, scan: seq<GoString>): (r: Result<seq<User>>)
    requires IsScanOf(scan, s.records)
    ensures s.failing <==> r.Err?
    ensures r.Err? ==> r.error == DatabaseError
    ensures r.Ok? ==>
      && |r.value| == |s.records|
      && (forall i | 0 <= i < |r.value| :: r.value[i] in s.records.Values)
      && (forall k | k in s.records :: s.records[k] in r.value)
      && (forall i | 0 <= i < |scan| :: r.value[i] == s.records[scan[i]])
  {
    Store.List(s, scan)
  }

  // ---------------------------------------------------------------------
  // Properties across calls
  // ---------------------------------------------------------------------

  /** A bcrypt-like hasher never hands back the plaintext as the digest. */
  ghost predicate NeverPlaintext(hash: Hasher) {
    forall p :: hash(p).Ok? ==> hash(p).value != p
  }

  /** Distinct passwords never share a digest (bcrypt only reads the first
      72 bytes, so this holds of it only for shorter passwords). */
  ghost predicate DigestsDistinct(hash: Hasher) {
    forall p, q :: hash(p).Ok? && hash(p) == hash(q) ==> p == q
  }

  /** After registering, logging in with the same address and password
      returns the registered user, whatever order the store is visited in. */
  lemma RegisterThenLogin(s: Repo<User>, scan: seq<GoString>, name: GoString, email: GoString,
                          password: GoString, role: Role, hash: Hasher, id: Uuid, scan': seq<GoString>)
    requires IsScanOf(scan, s.records)
    requires Register(s, scan, name, email, password, role, hash, id).result.Ok?
    requires IsScanOf(scan', Register(s, scan, name, email, password, role, hash, id).repo.records)
    ensures var r := Register(s, scan, name, email, password, role, hash, id);
      Login(r.repo, scan', email, password, hash) == Ok(r.result.value)
  {
    var r := Register(s, scan, name, email, password, role, hash, id);
    var m := r.repo.records;
    forall j | j in m && j != id ensures m[j].email != email {
      assert m[j] == s.records[j];
    }
    FindByEmailUnique(r.repo, scan', id);
  }

  /** After a password change, logging in with the user's address and the
      new password returns the updated user, and any password with another
      digest is refused, whatever order the store is visited in. */
  lemma ChangeThenLogin(s: Repo<User>, id: GoString, newPassword: GoString, hash: Hasher,
                        scan': seq<GoString>, other: GoString)
    requires KeyedById(s.records, IdOf)
    requires UpdatePassword(s, id, newPassword, hash).result.Ok?
    requires UniqueEmail(s.records, s.records[id].email)
    requires IsScanOf(scan', UpdatePassword(s, id, newPassword, hash).repo.records)
    ensures var u := s.records[id];
      Login(UpdatePassword(s, id, newPassword, hash).repo, scan', u.email, newPassword, hash)
        == Ok(u.(password := hash(newPassword).value))
    ensures var u := s.records[id];
      hash(other) != hash(newPassword) ==>
        Login(UpdatePassword(s, id, newPassword, hash).repo, scan', u.email, other, hash)
          == Err(InvalidCredentials)
  {
    var r := UpdatePassword(s, id, newPassword, hash);
    var u := s.records[id];
    var m := r.repo.records;
    assert m == s.records[id := u.(password := hash(newPassword).value)];
    forall j | j in m && j != id ensures m[j].email != u.email {
      assert m[j] == s.records[j];
    }
    FindByEmailUnique(r.repo, scan', id);
  }

  /** A registered user reads back under the fresh id, and a lookup of any
      other id answers as before. */
  lemma RegisterThenGetUser(s: Repo<User>, scan: seq<GoString>, name: GoString, email: GoString,
                            password: GoString, role: Role, hash: Hasher, id: Uuid, other: GoString)
    requires IsScanOf(scan, s.records)
    requires Register(s, scan, name, email, password, role, hash, id).result.Ok?
    ensures var r := Register(s, scan, name, email, password, role, hash, id);
      GetUser(r.repo, id) == Ok(r.result.value)
    ensures var r := Register(s, scan, name, email, password, role, hash, id);
      other != id ==> GetUser(r.repo, other) == GetUser(s, other)
  {
  }

  /** Once an address is registered, registering it again is refused,
      whatever the role and the non-empty name and password. */
  lemma RegisterTwiceConflicts(s: Repo<User>, scan: seq<GoString>, name: GoString, email: GoString,
                               password: GoString, role: Role, hash: Hasher, id: Uuid,
                               scan': seq<GoString>, name': GoString, password': GoString,
                               role': Role, id': Uuid)
    requires IsScanOf(scan, s.records)
    requires Register(s, scan, name, email, password, role, hash, id).result.Ok?
    requires IsScanOf(scan', Register(s, scan, name, email, password, role, hash, id).repo.records)
    requires name' != [] && password' != []
    ensures var r := Register(s, scan, name, email, password, role, hash, id);
      Register(r.repo, scan', name', email, password', role', hash, id') == Outcome(r.repo, Err(EmailAlreadyRegistered))
  {
    var r := Register(s, scan, name, email, password, role, hash, id);
    assert r.repo.records[id].email == email;
  }

  /** After registering, a different password is refused with the same error
      as an unknown address. */
  lemma WrongPasswordRefused(s: Repo<User>, scan: seq<GoString>, name: GoString, email: GoString,
                             password: GoString, role: Role, hash: Hasher, id: Uuid,
                             scan': seq<GoString>, other: GoString)
    requires DigestsDistinct(hash) && other != password
    requires IsScanOf(scan, s.records)
    requires Register(s, scan, name, email, password, role, hash, id).result.Ok?
    requires IsScanOf(scan', Register(s, scan, name, email, password, role, hash, id).repo.records)
    ensures var r := Register(s, scan, name, email, password, role, hash, id);
      Login(r.repo, scan', email, other, hash) == Err(InvalidCredentials)
  {
    var r := Register(s, scan, name, email, password, role, hash, id);
    RegisterThenLogin(s, scan, name, email, password, role, hash, id, scan');
    assert hash(other) != hash(password);
  }

  /** The store never holds a plaintext password that registration or a
      password change was given. */
  lemma StoredPasswordIsDigest(s: Repo<User>, scan: seq<GoString>, name: GoString, email: GoString,
                               password: GoString, role: Role, hash: Hasher, id: Uuid,
                               uid: GoString, newPassword: GoString)
    requires NeverPlaintext(hash)
    requires IsScanOf(scan, s.records)
    ensures var r := Register(s, scan, name, email, password, role, hash, id);
      r.result.Ok? ==> r.repo.records[id].password != password
    ensures var r := UpdatePassword(s, uid, newPassword, hash);
      r.result.Ok? ==> r.repo.records[s.records[uid].id].password != newPassword
    ensures var r := UpdatePassword(s, uid, newPassword, hash);
      r.result.Ok? && KeyedById(s.records, IdOf) ==> r.repo.records[uid].password != newPassword
  {
    var r := Register(s, scan, name, email, password, role, hash, id);
    if r.result.Ok? {
      assert r.repo.records[id].password == hash(password).value;
    }
    var u := UpdatePassword(s, uid, newPassword, hash);
    if u.result.Ok? {
      assert u.repo.records[s.records[uid].id].password == hash(newPassword).value;
    }
  }

  /** A registered user passes the record check exactly when the role given
      was one of the three named roles: registration checks the rest. */
  lemma RegisteredUserWellFormed(s: Repo<User>, scan: seq<GoString>, name: GoString, email: GoString,
                                 password: GoString, role: Role, hash: Hasher, id: Uuid)
    requires IsScanOf(scan, s.records)
    requires Register(s, scan, name, email, password, role, hash, id).result.Ok?
    ensures var u := Register(s, scan, name, email, password, role, hash, id).result.value;
      ValidateUser(u).None? <==> IsValidRole(role)
  {
  }

  /** Registering and changing a password keep each user filed under its own id. */
  lemma RegisterKeepsUsersKeyedById(s: Repo<User>, scan: seq<GoString>, name: GoString, email: GoString,
                                    password: GoString, role: Role, hash: Hasher, id: Uuid, uid: GoString)
    requires KeyedById(s.records, IdOf) && IsScanOf(scan, s.records)
    ensures KeyedById(Register(s, scan, name, email, password, role, hash, id).repo.records, IdOf)
    ensures KeyedById(UpdatePassword(s, uid, password, hash).repo.records, IdOf)
  {
  }

  /** Updating and deleting keep each user filed under its own id. */
  lemma UpdateKeepsUsersKeyedById(s: Repo<User>, u: User, uid: GoString)
    requires KeyedById(s.records, IdOf)
    ensures KeyedById(UpdateUser(s, u).repo.records, IdOf)
    ensures KeyedById(UpdateUserAsWritten(s, u).repo.records, IdOf)
    ensures KeyedById(DeleteUser(s, uid).repo.records, IdOf)
  {
  }

  /** The code as written loses the stored digest when the caller leaves the
      password empty, as the HTTP handler always does: afterwards no password
      whose digest is non-empty logs the user in. */
  lemma UpdateUserAsWrittenWipesPassword(s: Repo<User>, u: User, scan: seq<GoString>,
                                         password: GoString, hash: Hasher)
    requires UpdateUserAsWritten(s, u).result.Ok? && u.password == []
    requires IsScanOf(scan, UpdateUserAsWritten(s, u).repo.records)
    requires hash(password) != Ok([])
    requires UniqueEmail(UpdateUserAsWritten(s, u).repo.records, u.email)
    ensures UpdateUserAsWritten(s, u).repo.records[u.id].password == []
    ensures Login(UpdateUserAsWritten(s, u).repo, scan, u.email, password, hash) == Err(InvalidCredentials)
  {
    var m := UpdateUserAsWritten(s, u).repo.records;
    assert u.email in EmailsOf(m) by { assert m[u.id].email == u.email; }
    assert OwnerOf(m, u.email) == m[u.id];
  }

  /** A concrete instance: the test fixture's user, updated the way the HTTP
      handler builds the request, ends up with an empty digest. */
  lemma UpdateUserAsWrittenCounterexample(digest: GoString)
    requires digest != []
    ensures var before := Repo(map["1" := User("1", "John Doe", "john@example.com", digest, RoleEmployee)], 1, false);
      var request := User("1", "John Updated", "", [], RoleAdmin);
      && UpdateUserAsWritten(before, request).result.Ok?
      && UpdateUserAsWritten(before, request).repo.records["1"].password == []
      && UpdateUser(before, request).repo.records["1"].password == digest
  {
  }
}
