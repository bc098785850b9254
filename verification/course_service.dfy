/** `CourseService`: creating, reading, updating, deleting and listing
    courses in front of the course store.

    The service receives a course by pointer; a nil pointer is `None`.  The
    id the service assigns, `uuid.New().String()`, is the parameter `id`,
    and `scan` is the order in which the store's map is visited.
 */
module CourseService {
  import opened GoText
  import opened Results
  import opened Store
  import opened CourseDomain
  import opened CourseStore

  const CourseRequired := Error("course is required")
  const InvalidCourseTitle := Error("invalid course title")
  const CreatedByRequired := Error("created_by is required")
  const IdRequired := Error("id is required")
  const CourseIdRequired := Error("course ID is required")

  /** The longest title, in bytes, that course and module titles may have. */
  const MaxTitleLength := 255

  /** `ValidateTitle`: a title is at least one and at most 255 bytes long.
      The count is of bytes, not characters. */
  function ValidateTitle(title: GoString): (ok: bool)
    ensures ok ==> title != [] && |title| <= MaxTitleLength
    ensures title == [] || |title| > MaxTitleLength ==> !ok
    ensures 1 <= |title| <= MaxTitleLength ==> ok
  {
    |title| > 0 && |title| <= MaxTitleLength
  }

  /** Only a title's length in bytes matters, never its content; and a valid
      title stays valid when shortened to any non-empty prefix. */
  lemma TitleCheckIsLengthOnly(a: GoString, b: GoString)
    ensures |a| == |b| ==> (ValidateTitle(a) <==> ValidateTitle(b))
    ensures ValidateTitle(a + b) && a != [] ==> ValidateTitle(a)
    ensures ValidateTitle(a) && |a| == MaxTitleLength && b != [] ==> !ValidateTitle(a + b)
  {
  }

  /** What `CreateCourse` demands of a course before it stores it. */
  predicate CourseInputOk(c: Course) {
    ValidateTitle(c.title) && c.createdBy != []
  }

  /** Every stored course has a title `ValidateTitle` accepts. */
  predicate TitlesValid(m: map<GoString, Course>) {
    forall k | k in m :: ValidateTitle(m[k].title)
  }

  function IdOf(c: Course): GoString {
    c.id
  }

  /** `CreateCourse`: checks the course, gives it the fresh id and stores it.
      The fresh id is never empty, so the store's counter is not used. */
  function CreateCourse(s: Repo<Course>, c: Option<Course>, id: Uuid): (r: Outcome<Course, Course>)
    ensures r.result.Err? ==> r.repo == s
    ensures c.None? ==> r.result == Err(CourseRequired)
    ensures c.Some? && !ValidateTitle(c.value.title) ==> r.result == Err(InvalidCourseTitle)
    ensures c.Some? && ValidateTitle(c.value.title) && c.value.createdBy == [] ==>
      r.result == Err(CreatedByRequired)
    ensures c.Some? && CourseInputOk(c.value) && s.failing ==> r.result == Err(DatabaseError)
    ensures r.result.Ok? <==> c.Some? && CourseInputOk(c.value) && !s.failing
    ensures r.result.Ok? ==>
      && r.result.value == c.value.(id := id)
      && r.repo.records == s.records[id := r.result.value]
      && r.repo.nextId == s.nextId
  {
    match c
    case None => Outcome(s, Err(CourseRequired))
    case Some(course) =>
      if !ValidateTitle(course.title) then Outcome(s, Err(InvalidCourseTitle))
      else if course.createdBy == [] then Outcome(s, Err(CreatedByRequired))
      else CourseStore.Create(s, course.(id := id))
  }

  /** `GetCourse`: the course stored under `id`, with "course not found" for
      a missing one. */
  function GetCourse(s: Repo<Course>, id: GoString): (r: Result<Course>)
    ensures r.Ok? <==> id != [] && !s.failing && id in s.records
    ensures r.Ok? ==> r.value == s.records[id]
    ensures id == [] ==> r == Err(IdRequired)
    ensures id != [] && s.failing ==> r == Err(DatabaseError)
    ensures id != [] && !s.failing && id !in s.records ==> r == Err(CourseNotFound)
  {
    if id == [] then Err(IdRequired)
    else match Find(s, id)
      case Err(e) => Err(e)
      case Ok(None) => Err(CourseNotFound)
      case Ok(Some(c)) => Ok(c)
  }

  /** The argument checks `UpdateCourse` makes, as the code stands: an id,
      and a title that is either empty or valid. */
  function UpdateChecksAsWritten(c: Option<Course>): (r: Option<Error>)
    ensures r.None? <==> c.Some? && c.value.id != [] && |c.value.title| <= MaxTitleLength
    ensures c.None? || c.value.id == [] ==> r == Some(CourseIdRequired)
    ensures c.Some? && c.value.id != [] && |c.value.title| > MaxTitleLength ==>
      r == Some(InvalidCourseTitle)
  {
    match c
    case None => Some(CourseIdRequired)
    case Some(course) =>
      if course.id == [] then Some(CourseIdRequired)
      else if course.title != [] && !ValidateTitle(course.title) then Some(InvalidCourseTitle)
      else None
  }

  /** `UpdateCourse` as the code stands: an empty title passes the checks,
      and the whole course, empty title included, replaces the stored one. */
  function UpdateCourseAsWritten(s: Repo<Course>, c: Option<Course>): (r: Outcome<Course, ()>)
    ensures r.result.Err? ==> r.repo == s
    ensures UpdateChecksAsWritten(c).Some? ==> r.result == Err(UpdateChecksAsWritten(c).value)
    ensures UpdateChecksAsWritten(c).None? && s.failing ==> r.result == Err(DatabaseError)
    ensures UpdateChecksAsWritten(c).None? && !s.failing && c.value.id !in s.records ==>
      r.result == Err(CourseNotFound)
    ensures r.result.Ok? <==> UpdateChecksAsWritten(c).None? && !s.failing && c.value.id in s.records
    ensures r.result.Ok? ==> r.repo.records == s.records[c.value.id := c.value]
  {
    match UpdateChecksAsWritten(c)
    case Some(e) => Outcome(s, Err(e))
    case None => Replace(s, c.value.id, c.value, CourseNotFound)
  }

  /** The argument checks of `UpdateCourse` with an empty title refused, as
      the service tests expect: an id, and a valid title. */
  function UpdateChecks(c: Option<Course>): (r: Option<Error>)
    ensures r.None? <==> c.Some? && c.value.id != [] && ValidateTitle(c.value.title)
    ensures c.None? || c.value.id == [] ==> r == Some(CourseIdRequired)
    ensures c.Some? && c.value.id != [] && !ValidateTitle(c.value.title) ==> r == Some(InvalidCourseTitle)
  {
    match c
    case None => Some(CourseIdRequired)
    case Some(course) =>
      if course.id == [] then Some(CourseIdRequired)
      else if !ValidateTitle(course.title) then Some(InvalidCourseTitle)
      else None
  }

  /** `UpdateCourse`: the checks, then the stored course under the same id is
      replaced as a whole; no stored course ever gets an invalid title. */
  function UpdateCourse(s: Repo<Course>, c: Option<Course>): (r: Outcome<Course, ()>)
    ensures r.result.Err? ==> r.repo == s
    ensures UpdateChecks(c).Some? ==> r.result == Err(UpdateChecks(c).value)
    ensures UpdateChecks(c).None? && s.failing ==> r.result == Err(DatabaseError)
    ensures UpdateChecks(c).None? && !s.failing && c.value.id !in s.records ==>
      r.result == Err(CourseNotFound)
    ensures r.result.Ok? <==> UpdateChecks(c).None? && !s.failing && c.value.id in s.records
    ensures r.result.Ok? ==> r.repo.records == s.records[c.value.id := c.value]
    ensures r.result.Ok? ==> ValidateTitle(r.repo.records[c.value.id].title)
  {
    match UpdateChecks(c)
    case Some(e) => Outcome(s, Err(e))
    case None => Replace(s, c.value.id, c.value, CourseNotFound)
  }

  /** `DeleteCourse`: refuses an empty id; otherwise the store's delete.  The
      course's modules are left in place. */
  function DeleteCourse(s: Repo<Course>, id: GoString): (r: Outcome<Course, ()>)
    ensures r.result.Err? ==> r.repo == s
    ensures id == [] ==> r.result == Err(IdRequired)
    ensures id != [] && s.failing ==> r.result == Err(DatabaseError)
    ensures id != [] && !s.failing && id !in s.records ==> r.result == Err(CourseNotFound)
    ensures r.result.Ok? <==> id != [] && !s.failing && id in s.records
    ensures r.result.Ok? ==> r.repo.records == s.records - {id}
  {
    if id == [] then Outcome(s, Err(IdRequired))
    else Remove(s, id, CourseNotFound)
  }

  /** `ListCourses`: every stored course once, or the store's error. */
  function ListCourses(s: Repo<Course>, scan: seq<GoString>): (r: Result<seq<Course>>)
    requires IsScanOf(scan, s.records)
    ensures s.failing <==> r.Err?
    ensures r.Err? ==> r.error == DatabaseError
    ensures r.Ok? ==>
      && |r.value| == |s.records|
      && (forall i | 0 <= i < |r.value| :: r.value[i] in s.records.Values)
      && (forall k | k in s.records :: s.records[k] in r.value)
      && (forall i | 0 <= i < |scan| :: r.value[i] == s.records[scan[i]])
  {
    Store.List(s, scan)
  }

  // ---------------------------------------------------------------------
  // Properties across calls
  // ---------------------------------------------------------------------

  /** A created course can be read back under its new id, and every other
      lookup answers as before. */
  lemma CreateThenGetCourse(s: Repo<Course>, c: Option<Course>, id: Uuid, other: GoString)
    requires CreateCourse(s, c, id).result.Ok?
    ensures var r := CreateCourse(s, c, id);
      GetCourse(r.repo, id) == Ok(c.value.(id := id))
    ensures other != id ==> GetCourse(CreateCourse(s, c, id).repo, other) == GetCourse(s, other)
  {
  }

  /** After an update, reading the course gives exactly what was written. */
  lemma UpdateThenGetCourse(s: Repo<Course>, c: Option<Course>)
    requires UpdateCourse(s, c).result.Ok?
    ensures GetCourse(UpdateCourse(s, c).repo, c.value.id) == Ok(c.value)
  {
  }

  /** After a delete the course is gone, and deleting it again fails. */
  lemma DeleteThenGetCourse(s: Repo<Course>, id: GoString)
    requires DeleteCourse(s, id).result.Ok?
    ensures GetCourse(DeleteCourse(s, id).repo, id) == Err(CourseNotFound)
    ensures DeleteCourse(DeleteCourse(s, id).repo, id).result == Err(CourseNotFound)
  {
  }

  /** Creating, updating and deleting keep every stored title valid. */
  lemma ServiceKeepsTitlesValid(s: Repo<Course>, c: Option<Course>, id: Uuid, gone: GoString)
    requires TitlesValid(s.records)
    ensures TitlesValid(CreateCourse(s, c, id).repo.records)
    ensures TitlesValid(UpdateCourse(s, c).repo.records)
    ensures TitlesValid(DeleteCourse(s, gone).repo.records)
  {
  }

  /** Creating, updating (as corrected and as written) and deleting file every
      course under its own id. */
  lemma ServiceKeepsCoursesKeyedById(s: Repo<Course>, c: Option<Course>, id: Uuid, gone: GoString)
    requires KeyedById(s.records, IdOf)
    ensures KeyedById(CreateCourse(s, c, id).repo.records, IdOf)
    ensures KeyedById(UpdateCourse(s, c).repo.records, IdOf)
    ensures KeyedById(UpdateCourseAsWritten(s, c).repo.records, IdOf)
    ensures KeyedById(DeleteCourse(s, gone).repo.records, IdOf)
  {
    UpdateAsWrittenKeepsCoursesKeyedById(s, c);
  }

  /** The update as written writes the given course under its own id. */
  lemma UpdateAsWrittenKeepsCoursesKeyedById(s: Repo<Course>, c: Option<Course>)
    requires KeyedById(s.records, IdOf)
    ensures KeyedById(UpdateCourseAsWritten(s, c).repo.records, IdOf)
  {
  }

  /** As the code stands, an update with an empty title is accepted and the
      stored course is left with a title `ValidateTitle` refuses. */
  lemma UpdateCourseAsWrittenStoresEmptyTitle(s: Repo<Course>, c: Course)
    requires !s.failing && c.id != [] && c.id in s.records && c.title == []
    ensures UpdateCourseAsWritten(s, Some(c)).result.Ok?
    ensures !TitlesValid(UpdateCourseAsWritten(s, Some(c)).repo.records)
  {
    assert !ValidateTitle(UpdateCourseAsWritten(s, Some(c)).repo.records[c.id].title);
  }

  /** The "Empty title" row of the update tests: the course filed as "1" is
      updated with an empty title.  The code accepts it; the corrected
      update refuses it, as the test expects. */
  lemma UpdateCourseEmptyTitleCounterexample()
    ensures var before := Repo(map["1" := Course("1", "Introduction to Go",
                                     "Learn the basics of Go programming", "Programming", "user123", false)], 1, false);
      var update := Course("1", "", "Learn the basics of Go programming - Updated",
                           "Programming", "user123", true);
      && UpdateCourseAsWritten(before, Some(update)).result == Ok(())
      && UpdateCourseAsWritten(before, Some(update)).repo.records["1"].title == []
      && UpdateCourse(before, Some(update)).result == Err(InvalidCourseTitle)
  {
  }

  /** The rows of the title table: the title of the tests, the empty title,
      256 and 255 zero bytes, and a single letter. */
  lemma ValidateTitleTable()
    ensures ValidateTitle("Introduction to Go")
    ensures !ValidateTitle("")
    ensures !ValidateTitle(seq(256, _ => 0 as char))
    ensures ValidateTitle("A")
    ensures ValidateTitle(seq(255, _ => 0 as char))
  {
  }

  /** The "List courses successfully" row: two courses created with ids "1"
      and "2" in a new store are both listed, whatever the visiting order. */
  lemma ListTwoCourses(c1: Course, c2: Course, scan: seq<GoString>)
    requires c1.id == "1" && c2.id == "2"
    requires var s := Repo(map[], 1, false);
      IsScanOf(scan, CourseStore.Create(CourseStore.Create(s, c1).repo, c2).repo.records)
    ensures var s := Repo(map[], 1, false);
      var r := ListCourses(CourseStore.Create(CourseStore.Create(s, c1).repo, c2).repo, scan);
      r.Ok? && |r.value| == 2 && c1 in r.value && c2 in r.value
  {
    var s: Repo<Course> := Repo(map[], 1, false);
    var m := CourseStore.Create(CourseStore.Create(s, c1).repo, c2).repo.records;
    assert m == map["1" := c1, "2" := c2];
    assert m.Keys == {"1", "2"};
    assert |m| == 2;
  }
}
