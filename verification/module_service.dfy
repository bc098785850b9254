/** `ModuleService`: creating, reading, updating, deleting and listing the
    modules of a course in front of the module store.  It shares
    `ValidateTitle` with the course service, which lives in the same Go
    package.

    As for courses, a nil module pointer is `None`, `id` stands for
    `uuid.New().String()` and `scan` for the order the store's map is
    visited in.
 */
module ModuleService {
  import opened GoText
  import opened Results
  import opened Store
  import opened CourseDomain
  import opened ModuleStore
  import CourseService

  const ModuleRequired := Error("module is required")
  const InvalidModuleTitle := Error("invalid module title")
  const CourseIdRequired := Error("course_id is required")
  const ModuleIdRequired := Error("module ID is required")
  const IdRequired := Error("id is required")

  /** The title check of the package, shared with courses. */
  predicate ValidateTitle(title: GoString) {
    CourseService.ValidateTitle(title)
  }

  /** What `CreateModule` demands of a module before it stores it. */
  predicate ModuleInputOk(m: Module) {
    ValidateTitle(m.title) && m.courseId != []
  }

  /** Every stored module has a title `ValidateTitle` accepts. */
  predicate TitlesValid(m: map<GoString, Module>) {
    forall k | k in m :: ValidateTitle(m[k].title)
  }

  function IdOf(m: Module): GoString {
    m.id
  }

  /** `CreateModule`: checks the module, gives it the fresh id and stores it. */
  function CreateModule(s: Repo<Module>, m: Option<Module>, id: Uuid): (r: Outcome<Module, Module>)
    ensures r.result.Err? ==> r.repo == s
    ensures m.None? ==> r.result == Err(ModuleRequired)
    ensures m.Some? && !ValidateTitle(m.value.title) ==> r.result == Err(InvalidModuleTitle)
    ensures m.Some? && ValidateTitle(m.value.title) && m.value.courseId == [] ==>
      r.result == Err(CourseIdRequired)
    ensures m.Some? && ModuleInputOk(m.value) && s.failing ==> r.result == Err(DatabaseError)
    ensures r.result.Ok? <==> m.Some? && ModuleInputOk(m.value) && !s.failing
    ensures r.result.Ok? ==>
      && r.result.value == m.value.(id := id)
      && r.repo.records == s.records[id := r.result.value]
      && r.repo.nextId == s.nextId
  {
    match m
    case None => Outcome(s, Err(ModuleRequired))
    case Some(given) =>
      if !ValidateTitle(given.title) then Outcome(s, Err(InvalidModuleTitle))
      else if given.courseId == [] then Outcome(s, Err(CourseIdRequired))
      else
        var o := Store.Create(s, id, (k: GoString) => given.(id := k));
        match o.result
        case Err(e) => Outcome(o.repo, Err(e))
        case Ok(key) => Outcome(o.repo, Ok(given.(id := key)))
  }

  /** `GetModule`: the module stored under `id`, with "module not found" for
      a missing one. */
  function GetModule(s: Repo<Module>, id: GoString): (r: Result<Module>)
    ensures r.Ok? <==> id != [] && !s.failing && id in s.records
    ensures r.Ok? ==> r.value == s.records[id]
    ensures id == [] ==> r == Err(IdRequired)
    ensures id != [] && s.failing ==> r == Err(DatabaseError)
    ensures id != [] && !s.failing && id !in s.records ==> r == Err(ModuleNotFound)
  {
    if id == [] then Err(IdRequired)
    else match Find(s, id)
      case Err(e) => Err(e)
      case Ok(None) => Err(ModuleNotFound)
      case Ok(Some(m)) => Ok(m)
  }

  /** The argument checks `UpdateModule` makes, as the code stands: an id,
      and a title that is either empty or valid. */
  function UpdateChecksAsWritten(m: Option<Module>): (r: Option<Error>)
    ensures r.None? <==> m.Some? && m.value.id != [] && |m.value.title| <= CourseService.MaxTitleLength
    ensures m.None? || m.value.id == [] ==> r == Some(ModuleIdRequired)
    ensures m.Some? && m.value.id != [] && |m.value.title| > CourseService.MaxTitleLength ==>
      r == Some(InvalidModuleTitle)
  {
    match m
    case None => Some(ModuleIdRequired)
    case Some(given) =>
      if given.id == [] then Some(ModuleIdRequired)
      else if given.title != [] && !ValidateTitle(given.title) then Some(InvalidModuleTitle)
      else None
  }

  /** `UpdateModule` as the code stands: an empty title passes the checks,
      and the whole module, empty title included, replaces the stored one. */
  function UpdateModuleAsWritten(s: Repo<Module>, m: Option<Module>): (r: Outcome<Module, ()>)
    ensures r.result.Err? ==> r.repo == s
    ensures UpdateChecksAsWritten(m).Some? ==> r.result == Err(UpdateChecksAsWritten(m).value)
    ensures UpdateChecksAsWritten(m).None? && s.failing ==> r.result == Err(DatabaseError)
    ensures UpdateChecksAsWritten(m).None? && !s.failing && m.value.id !in s.records ==>
      r.result == Err(ModuleNotFound)
    ensures r.result.Ok? <==> UpdateChecksAsWritten(m).None? && !s.failing && m.value.id in s.records
    ensures r.result.Ok? ==> r.repo.records == s.records[m.value.id := m.value]
  {
    match UpdateChecksAsWritten(m)
    case Some(e) => Outcome(s, Err(e))
    case None => Replace(s, m.value.id, m.value, ModuleNotFound)
  }

  /** The argument checks of `UpdateModule` with an empty title refused, as
      for courses: an id, and a valid title. */
  function UpdateChecks(m: Option<Module>): (r: Option<Error>)
    ensures r.None? <==> m.Some? && m.value.id != [] && ValidateTitle(m.value.title)
    ensures m.None? || m.value.id == [] ==> r == Some(ModuleIdRequired)
    ensures m.Some? && m.value.id != [] && !ValidateTitle(m.value.title) ==> r == Some(InvalidModuleTitle)
  {
    match m
    case None => Some(ModuleIdRequired)
    case Some(given) =>
      if given.id == [] then Some(ModuleIdRequired)
      else if !ValidateTitle(given.title) then Some(InvalidModuleTitle)
      else None
  }

  /** `UpdateModule`: the checks, then the stored module under the same id is
      replaced as a whole; no stored module ever gets an invalid title. */
  function UpdateModule(s: Repo<Module>, m: Option<Module>): (r: Outcome<Module, ()>)
    ensures r.result.Err? ==> r.repo == s
    ensures UpdateChecks(m).Some? ==> r.result == Err(UpdateChecks(m).value)
    ensures UpdateChecks(m).None? && s.failing ==> r.result == Err(DatabaseError)
    ensures UpdateChecks(m).None? && !s.failing && m.value.id !in s.records ==>
      r.result == Err(ModuleNotFound)
    ensures r.result.Ok? <==> UpdateChecks(m).None? && !s.failing && m.value.id in s.records
    ensures r.result.Ok? ==> r.repo.records == s.records[m.value.id := m.value]
    ensures r.result.Ok? ==> ValidateTitle(r.repo.records[m.value.id].title)
  {
    match UpdateChecks(m)
    case Some(e) => Outcome(s, Err(e))
    case None => Replace(s, m.value.id, m.value, ModuleNotFound)
  }

  /** `DeleteModule`: refuses an empty id; otherwise the store's delete. */
  function DeleteModule(s: Repo<Module>, id: GoString): (r: Outcome<Module, ()>)
    ensures r.result.Err? ==> r.repo == s
    ensures id == [] ==> r.result == Err(IdRequired)
    ensures id != [] && s.failing ==> r.result == Err(DatabaseError)
    ensures id != [] && !s.failing && id !in s.records ==> r.result == Err(ModuleNotFound)
    ensures r.result.Ok? <==> id != [] && !s.failing && id in s.records
    ensures r.result.Ok? ==> r.repo.records == s.records - {id}
  {
    if id == [] then Outcome(s, Err(IdRequired))
    else Remove(s, id, ModuleNotFound)
  }

  /** `ListModulesByCourse`: refuses an empty course id; otherwise exactly
      the stored modules of that course, in ascending `orderIndex`. */
  function ListModulesByCourse(s: Repo<Module>, scan: seq<GoString>, courseId: GoString): (r: Result<seq<Module>>)
    requires IsScanOf(scan, s.records)
    ensures r.Ok? <==> courseId != [] && !s.failing
    ensures courseId == [] ==> r == Err(CourseIdRequired)
    ensures courseId != [] && s.failing ==> r == Err(DatabaseError)
    ensures r.Ok? ==> SortedByOrder(r.value)
    ensures r.Ok? ==> forall x :: x in r.value <==> x in s.records.Values && x.courseId == courseId
    ensures r.Ok? ==> multiset(r.value) == multiset(OfCourse(Collect(s.records, scan), courseId))
  {
    if courseId == [] then Err(CourseIdRequired)
    else ListByCourse(s, scan, courseId)
  }

  // ---------------------------------------------------------------------
  // Properties across calls
  // ---------------------------------------------------------------------

  /** A created module can be read back under its new id, and it appears in
      the listing of its course. */
  lemma CreateModuleThenListed(s: Repo<Module>, m: Option<Module>, id: Uuid, scan: seq<GoString>)
    requires CreateModule(s, m, id).result.Ok?
    requires IsScanOf(scan, CreateModule(s, m, id).repo.records)
    ensures var r := CreateModule(s, m, id);
      && GetModule(r.repo, id) == Ok(r.result.value)
      && ListModulesByCourse(r.repo, scan, m.value.courseId).Ok?
      && r.result.value in ListModulesByCourse(r.repo, scan, m.value.courseId).value
  {
    var r := CreateModule(s, m, id);
    assert r.repo.records[id] == r.result.value;
    assert r.result.value in r.repo.records.Values;
  }

  /** Creating a module leaves the listing of every other course as it was. */
  lemma CreateModuleKeepsOtherCourses(s: Repo<Module>, m: Option<Module>, id: Uuid,
                                      scan: seq<GoString>, scan': seq<GoString>, other: GoString)
    requires CreateModule(s, m, id).result.Ok? && id !in s.records
    requires IsScanOf(scan, s.records)
    requires IsScanOf(scan', CreateModule(s, m, id).repo.records)
    requires other != [] && other != m.value.courseId
    ensures forall x ::
      x in ListModulesByCourse(CreateModule(s, m, id).repo, scan', other).value <==>
      x in ListModulesByCourse(s, scan, other).value
  {
  }

  /** After a delete the module is gone, and deleting it again fails. */
  lemma DeleteThenGetModule(s: Repo<Module>, id: GoString)
    requires DeleteModule(s, id).result.Ok?
    ensures GetModule(DeleteModule(s, id).repo, id) == Err(ModuleNotFound)
    ensures DeleteModule(DeleteModule(s, id).repo, id).result == Err(ModuleNotFound)
  {
  }

  /** Creating, updating and deleting keep every stored module title valid. */
  lemma ServiceKeepsTitlesValid(s: Repo<Module>, m: Option<Module>, id: Uuid, gone: GoString)
    requires TitlesValid(s.records)
    ensures TitlesValid(CreateModule(s, m, id).repo.records)
    ensures TitlesValid(UpdateModule(s, m).repo.records)
    ensures TitlesValid(DeleteModule(s, gone).repo.records)
  {
  }

  /** Creating, updating (as corrected and as written) and deleting file every
      module under its own id. */
  lemma ServiceKeepsModulesKeyedById(s: Repo<Module>, m: Option<Module>, id: Uuid, gone: GoString)
    requires KeyedById(s.records, IdOf)
    ensures KeyedById(CreateModule(s, m, id).repo.records, IdOf)
    ensures KeyedById(UpdateModule(s, m).repo.records, IdOf)
    ensures KeyedById(UpdateModuleAsWritten(s, m).repo.records, IdOf)
    ensures KeyedById(DeleteModule(s, gone).repo.records, IdOf)
  {
    UpdateAsWrittenKeepsModulesKeyedById(s, m);
  }

  /** The update as written writes the given module under its own id. */
  lemma UpdateAsWrittenKeepsModulesKeyedById(s: Repo<Module>, m: Option<Module>)
    requires KeyedById(s.records, IdOf)
    ensures KeyedById(UpdateModuleAsWritten(s, m).repo.records, IdOf)
  {
  }

  /** As the code stands, an update with an empty title is accepted and the
      stored module is left with a title `ValidateTitle` refuses. */
  lemma UpdateModuleAsWrittenStoresEmptyTitle(s: Repo<Module>, m: Module)
    requires !s.failing && m.id != [] && m.id in s.records && m.title == []
    ensures UpdateModuleAsWritten(s, Some(m)).result.Ok?
    ensures !TitlesValid(UpdateModuleAsWritten(s, Some(m)).repo.records)
    ensures UpdateModule(s, Some(m)).result == Err(InvalidModuleTitle)
  {
    assert !ValidateTitle(UpdateModuleAsWritten(s, Some(m)).repo.records[m.id].title);
  }
}
