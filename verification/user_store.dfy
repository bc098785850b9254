/** `MockUserRepository`: the user store the service tests inject.  Beyond
    the shared repository behaviour it adds a lookup by e-mail, which ranges
    over the map and stops at the first exact (case-sensitive) match.
 */
module UserStore {
  import opened GoText
  import opened Results
  import opened Store
  import opened UserDomain

  const UserNotFound := Error("user not found")

  function IdOf(u: User): GoString {
    u.id
  }

  /** Some stored user has exactly this e-mail. */
  predicate EmailTaken(m: map<GoString, User>, email: GoString) {
    exists k | k in m :: m[k].email == email
  }

  /** `Create`: a user without an id is named by the counter; the user is
      then stored under its id, replacing any user already filed there. */
  function Create(s: Repo<User>, u: User): (r: Outcome<User, User>)
    ensures r.result.Err? <==> s.failing
    ensures r.result.Err? ==> r.repo == s && r.result.error == DatabaseError
    ensures r.result.Ok? ==>
      var v := r.result.value;
      && v == u.(id := v.id) && v.id != []
      && (u.id != [] ==> v.id == u.id)
      && r.repo.records == s.records[v.id := v]
  {
    var c := Store.Create(s, u.id, (id: GoString) => u.(id := id));
    match c.result
    case Err(e) => Outcome(c.repo, Err(e))
    case Ok(key) =>
      assert c.repo.records == s.records[key := u.(id := key)];
      Outcome(c.repo, Ok(u.(id := key)))
  }

  /** No user met along `scan` before position `i` has the e-mail. */
  predicate NoneWithEmailBefore(m: map<GoString, User>, scan: seq<GoString>, email: GoString, i: nat)
    requires i <= |scan| && forall j | 0 <= j < |scan| :: scan[j] in m
  {
    forall j | 0 <= j < i :: m[scan[j]].email != email
  }

  /** The first user met along `scan` whose e-mail is `email`. */
  function FirstWithEmail(m: map<GoString, User>, scan: seq<GoString>, email: GoString): (r: Option<User>)
    requires forall i | 0 <= i < |scan| :: scan[i] in m
    ensures r.None? <==> forall i | 0 <= i < |scan| :: m[scan[i]].email != email
    ensures r.Some? ==> r.value.email == email && exists i | 0 <= i < |scan| :: m[scan[i]] == r.value
    ensures r.Some? ==>
      exists i | 0 <= i < |scan| :: m[scan[i]] == r.value && NoneWithEmailBefore(m, scan, email, i)
  {
    if scan == [] then None
    else if m[scan[0]].email == email then Some(m[scan[0]])
    else
      var r := FirstWithEmail(m, scan[1..], email);
      assert r.Some? ==> exists i | 0 <= i < |scan| :: m[scan[i]] == r.value by {
        if r.Some? {
          var i :| 0 <= i < |scan[1..]| && m[scan[1..][i]] == r.value;
          assert scan[i + 1] == scan[1..][i];
        }
      }
      r
  }

  /** `FindByEmail`: "no user" when nobody has the address, distinct from a
      store error; otherwise a stored user with exactly that address. */
  function FindByEmail(s: Repo<User>, scan: seq<GoString>, email: GoString): (r: Result<Option<User>>)
    requires IsScanOf(scan, s.records)
    ensures s.failing <==> r.Err?
    ensures r.Err? ==> r.error == DatabaseError
    ensures r == Ok(None) <==> !s.failing && !EmailTaken(s.records, email)
    ensures r.Ok? && r.value.Some? ==>
      r.value.value.email == email && exists k | k in s.records :: s.records[k] == r.value.value
  {
    if s.failing then Err(DatabaseError)
    else
      var found := FirstWithEmail(s.records, scan, email);
      assert found.None? <==> !EmailTaken(s.records, email) by {
        if EmailTaken(s.records, email) {
          var k :| k in s.records && s.records[k].email == email;
          var i :| 0 <= i < |scan| && scan[i] == k;
        }
      }
      Ok(found)
  }

  /** When exactly one stored user has the address, the lookup finds that
      user whatever order the map is visited in. */
  lemma FindByEmailUnique(s: Repo<User>, scan: seq<GoString>, k: GoString)
    requires IsScanOf(scan, s.records) && !s.failing && k in s.records
    requires forall j | j in s.records && j != k :: s.records[j].email != s.records[k].email
    ensures FindByEmail(s, scan, s.records[k].email) == Ok(Some(s.records[k]))
  {
    var email := s.records[k].email;
    var r := FindByEmail(s, scan, email);
    assert EmailTaken(s.records, email);
    var j :| j in s.records && s.records[j] == r.value.value;
  }

  /** Creating and updating file every user under its own id, and deleting
      keeps that so. */
  lemma StoreKeepsUsersKeyedById(s: Repo<User>, u: User, id: GoString)
    requires KeyedById(s.records, IdOf)
    ensures KeyedById(Create(s, u).repo.records, IdOf)
    ensures KeyedById(Replace(s, u.id, u, UserNotFound).repo.records, IdOf)
    ensures KeyedById(Remove(s, id, UserNotFound).repo.records, IdOf)
  {
  }
}
