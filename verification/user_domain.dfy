/** The user domain: roles, the user record, the permission table and the
    record check used by the domain tests.

    `Role` is a Go `string` type, not an enumeration: any text is a role
    value, and the three named constants are merely the ones the rules know.
 */
module UserDomain {
  import opened GoText
  import opened Results

  type Role = GoString

  const RoleEmployee: Role := "employee"
  const RoleAdmin: Role := "admin"
  const RoleTrainer: Role := "trainer"

  predicate IsValidRole(r: Role) {
    r == RoleEmployee || r == RoleAdmin || r == RoleTrainer
  }

  /** A stored account; `password` holds the bcrypt digest, never the plaintext. */
  datatype User = User(id: GoString, name: GoString, email: GoString, password: GoString, role: Role)
  {
    /** Whether a user holding this role may act where `required` is demanded:
        admin reaches every role, trainer reaches employee and trainer,
        employee reaches employee, and any other role reaches nothing. */
    function HasPermission(required: Role): (granted: bool)
      ensures granted ==> IsValidRole(role)
      ensures granted && required != RoleEmployee ==> role != RoleEmployee
      ensures granted && required == RoleAdmin ==> role == RoleAdmin
      ensures IsValidRole(role) && required == RoleEmployee ==> granted
    {
      if role == RoleAdmin then true
      else if role == RoleTrainer then required == RoleEmployee || required == RoleTrainer
      else if role == RoleEmployee then required == RoleEmployee
      else false
    }
  }

  const IdIsRequired := Error("ID is required")
  const NameIsRequired := Error("Name is required")
  const EmailIsRequired := Error("Email is required")
  const InvalidRole := Error("Invalid role")

  /** The record invariant the domain tests check. */
  predicate IsWellFormed(u: User) {
    u.id != [] && u.name != [] && u.email != [] && IsValidRole(u.role)
  }

  /** `validateUser`: `None` for a well-formed user, otherwise the error of the
      first check that fails, in the order id, name, e-mail, role. */
  function ValidateUser(u: User): (r: Option<Error>)
    ensures r.None? <==> IsWellFormed(u)
    ensures u.id == [] ==> r == Some(IdIsRequired)
    ensures u.id != [] && u.name == [] ==> r == Some(NameIsRequired)
    ensures u.id != [] && u.name != [] && u.email == [] ==> r == Some(EmailIsRequired)
    ensures u.id != [] && u.name != [] && u.email != [] && !IsValidRole(u.role) ==> r == Some(InvalidRole)
  {
    if u.id == [] then Some(IdIsRequired)
    else if u.name == [] then Some(NameIsRequired)
    else if u.email == [] then Some(EmailIsRequired)
    else if u.role != RoleEmployee && u.role != RoleAdmin && u.role != RoleTrainer then Some(InvalidRole)
    else None
  }

  /** Whether an actor role reaches a required role (the permission check
      depends on nothing else in the record). */
  predicate Reaches(actor: Role, required: Role) {
    User([], [], [], [], actor).HasPermission(required)
  }

  /** A reference ordering of the named roles: employee below trainer below admin. */
  function Rank(r: Role): nat
    requires IsValidRole(r)
  {
    if r == RoleEmployee then 0 else if r == RoleTrainer then 1 else 2
  }

  /** On the named roles the table is exactly the rank order, so it is
      reflexive, transitive and antisymmetric. */
  lemma PermissionIsRankOrder(actor: Role, required: Role)
    requires IsValidRole(actor) && IsValidRole(required)
    ensures Reaches(actor, required) <==> Rank(required) <= Rank(actor)
  {
  }

  /** Admin reaches every role, named or not; nothing else reaches admin. */
  lemma AdminReachesEverything(actor: Role, required: Role)
    ensures Reaches(RoleAdmin, required)
    ensures Reaches(actor, RoleAdmin) <==> actor == RoleAdmin
  {
  }

  /** Trainer reaches exactly employee and trainer; employee reaches exactly employee. */
  lemma TrainerAndEmployeeReach(required: Role)
    ensures Reaches(RoleTrainer, required) <==> required == RoleEmployee || required == RoleTrainer
    ensures Reaches(RoleEmployee, required) <==> required == RoleEmployee
  {
  }

  /** A role outside the three named ones is refused everything, including itself. */
  lemma PermissionFailsClosed(actor: Role, required: Role)
    requires !IsValidRole(actor)
    ensures !Reaches(actor, required)
  {
  }

  /** Permission depends on the actor's role and on nothing else in the record. */
  lemma PermissionDependsOnRoleOnly(u: User, required: Role)
    ensures u.HasPermission(required) == Reaches(u.role, required)
  {
  }

  /** The permission table as the domain tests enumerate it, cell by cell. */
  lemma PermissionTable()
    ensures Reaches(RoleEmployee, RoleEmployee) && !Reaches(RoleEmployee, RoleAdmin) && !Reaches(RoleEmployee, RoleTrainer)
    ensures Reaches(RoleAdmin, RoleEmployee) && Reaches(RoleAdmin, RoleAdmin) && Reaches(RoleAdmin, RoleTrainer)
    ensures Reaches(RoleTrainer, RoleEmployee) && !Reaches(RoleTrainer, RoleAdmin) && Reaches(RoleTrainer, RoleTrainer)
  {
  }

  /** The role-validity table: the three constants and nothing else. */
  lemma RoleValidityTable()
    ensures IsValidRole("employee") && IsValidRole("admin") && IsValidRole("trainer")
    ensures !IsValidRole("invalid") && !IsValidRole("unknown") && !IsValidRole([])
  {
  }
}
