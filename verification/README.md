# training-portal backend core, modelled in Dafny

This project models the decision logic of the training portal's Go backend
and proves properties of it. The logic sits in front of an abstract record
store:

- **Roles and permissions** (`UserDomain`). There are three named roles, `employee`, `trainer` and `admin`. `Role` is an open string type. `HasPermission` is the fixed permission table, and `validateUser` is the record check used by the domain tests.
- **User accounts** (`Email`, `UserStore`, `UserService`):
  - the e-mail format check;
  - registration, with a duplicate-address check and bcrypt hashing;
  - login, which returns the same "invalid credentials" error for an unknown address and a wrong password;
  - reading, updating, re-passwording, deleting and listing users.
- **Courses and modules** (`CourseDomain`, `CourseStore`, `ModuleStore`, `CourseService`, `ModuleService`):
  - a 1..255-byte title check;
  - create, get, update, delete and list, each with argument checks made in a fixed order;
  - a fresh id assigned on creation;
  - modules listed per course in ascending `orderIndex`.
- **The store** (`Store`). This is the in-memory repository that the service tests inject in place of the database. The user and course stores are the same code over different records:
  - records live in a map from id to record;
  - a counter names records created without an id (`string(rune(nextID))`, modelled with its UTF-8 encoding in `GoText`);
  - a switch makes every call fail with "database error" and change nothing.

Each service operation is a pure function. It takes the store before the
call and returns the store after it, paired with the call's result. Go
errors are `Err(Error(message))` carrying the code's exact messages. A nil
pointer argument is `None`.

Go strings are byte sequences (`GoString`), so `|s|` is Go's `len(s)`.

Three library services are parameters rather than code:

- **bcrypt** is a function `hash` that yields a digest or an error. Checking a password means `hash(p) == Ok(digest)`.
- **`uuid.New().String()`** is an `id` argument of the 36-character UUID text type.
- **The order in which Go visits a map** is a `scan` argument. `scan` must list every key exactly once.

The main results:

- The deterministic e-mail check accepts exactly the strings the regular expression matches (`Email.ValidateEmailMatchesPattern`).
- On the named roles, permission is a rank order. Every other role is refused everything.
- After registering, logging in with the same address and password returns the new user, and a different password is refused with the same error as an unknown address.
- The corrected updates keep stored digests and titles valid. Every operation keeps each record filed under its own id.
- Listing a course's modules gives a sorted permutation of that course's stored modules. Its sequence of order indexes does not depend on the map's visiting order.

## Model

| member | source | states |
|---|---|---|
| GoText.ToInt32 | internal/usecase/user/service_test.go:31 | `rune(n)` lands in the signed 32-bit range, differs from `n` by a multiple of 2^32, and leaves values that already fit unchanged |
| GoText.EncodeRune | internal/usecase/user/service_test.go:31 | `string(r)` is one to four bytes long; it is one byte exactly for 0..127, and that byte is `r` itself |
| GoText.DecodeEncode | internal/usecase/user/service_test.go:31 | decoding the UTF-8 bytes of `string(r)` gives back `r` for every Unicode scalar value and U+FFFD for every other value |
| Store.CounterId | internal/usecase/user/service_test.go:30-33 | the id invented from the counter is never empty, and for counter values 1..127 it is the single byte with that value |
| Store.Create | internal/usecase/user/service_test.go:26-36 | a failing store answers "database error" and is unchanged; otherwise the key is the given id, or the counter id when the id is empty (and only then does the counter move); the record goes under the key, replacing any old one, and no other record changes |
| Store.Find | internal/usecase/user/service_test.go:38-46 | an absent id is "no record" and is distinct from the store error; a present id gives exactly the stored record |
| Store.Replace | internal/usecase/user/service_test.go:60-69 | update replaces the whole record under its id, with no merging; an absent id gives the not-found error and a failing store "database error", both leaving the store unchanged |
| Store.Remove | internal/usecase/user/service_test.go:71-80 | delete removes exactly that key and keeps the rest; an absent id or a failing store errors and changes nothing |
| Store.Collect | internal/usecase/user/service_test.go:86-89 | the range loop appends one record per visited key, in visiting order |
| Store.List | internal/usecase/user/service_test.go:82-91 | the listing has one entry per stored key: its i-th entry is the record under the i-th key visited, so it has as many entries as the map and lists a record once for each key it is stored under |
| Store.FindAfterCreate | internal/usecase/user/service_test.go:26-46 | a record just created is found under the key it was filed under |
| Store.FindAfterRemove | internal/usecase/user/service_test.go:38-80 | after a delete the id is absent, and every other lookup answers as before |
| Store.FailingStoreRefusesAll | internal/usecase/course/service_test.go:25-78 | a failing store refuses create, find, update, delete and list with "database error" and keeps its records |
| Store.ScanIsDistinct | internal/usecase/user/service_test.go:87 | a range over the map visits no key twice |
| Store.ScansArePermutations | internal/usecase/user/service_test.go:87 | any two visiting orders of one map are permutations of each other |
| Store.ListIgnoresMapOrder | internal/usecase/user/service_test.go:82-91 | whatever order the map is visited in, the listing holds the same records, each as often |
| UserDomain.User.HasPermission | internal/domain/user/model_test.go:165-176 | a grant implies a named actor role; only a non-employee reaches a role other than employee; only admin reaches admin; every named role reaches employee |
| UserDomain.ValidateUser | internal/domain/user/model_test.go:148-162 | no error exactly for a user with non-empty id, name and e-mail and a named role; otherwise the error of the first failing check, in the order id, name, e-mail, role |
| UserDomain.PermissionIsRankOrder | internal/domain/user/model_test.go:165-176 | on the named roles, the actor reaches the required role exactly when the rank employee < trainer < admin allows it; so permission is reflexive and transitive there |
| UserDomain.AdminReachesEverything | internal/domain/user/model_test.go:167-168 | admin reaches every role, named or not, and no other role reaches admin |
| UserDomain.TrainerAndEmployeeReach | internal/domain/user/model_test.go:169-172 | trainer reaches exactly employee and trainer; employee reaches exactly employee |
| UserDomain.PermissionFailsClosed | internal/domain/user/model_test.go:173-174 | an actor role outside the three named ones reaches nothing, not even itself |
| UserDomain.PermissionDependsOnRoleOnly | internal/domain/user/model_test.go:165-166 | the permission answer depends on the user's role and nothing else in the record |
| UserDomain.PermissionTable | internal/domain/user/model_test.go:126-134 | the nine cells of the permission table test |
| UserDomain.RoleValidityTable | internal/domain/user/model_test.go:35-43 | the three constants are valid roles; "invalid", "unknown" and the empty role are not |
| Email.ValidateEmail | internal/usecase/user/service.go:19-22 | an accepted address is at least six bytes long and holds at most one '@' |
| Email.AcceptedMatchesPattern | internal/usecase/user/service.go:20 | every address the check accepts splits as local part, '@', domain, '.', and a suffix of two or more letters, each part from its class |
| Email.PatternIsAccepted | internal/usecase/user/service.go:20 | every string that splits that way is accepted |
| Email.ValidateEmailMatchesPattern | internal/usecase/user/service.go:19-22 | the check accepts exactly the strings the anchored regular expression matches |
| Email.RejectsWithoutAt | internal/usecase/user/service.go:20 | a string without '@' is rejected |
| Email.RejectsBadLocalPart | internal/usecase/user/service.go:20 | a byte outside the local-part class before the only '@' makes the address invalid |
| Email.AcceptsParts | internal/usecase/user/service.go:20 | any local part, domain and suffix of the right classes and lengths, glued with '@' and '.', is accepted |
| Email.AcceptsPlain | internal/usecase/user/service_test.go:99 | "test@example.com" is accepted |
| Email.AcceptsSubdomain | internal/usecase/user/service_test.go:100 | "test@sub.example.com" is accepted |
| Email.AcceptsPlus | internal/usecase/user/service_test.go:101 | "test+tag@example.com" is accepted |
| Email.AcceptsUnderscore | internal/usecase/user/service_test.go:102 | "test_user@example.com" is accepted |
| Email.RejectsNoAt | internal/usecase/user/service_test.go:103 | "testexample.com" is rejected |
| Email.RejectsTooShort | internal/usecase/user/service_test.go:104-107 | every string shorter than six bytes is rejected, among them "test@" and the empty string |
| Email.RejectsNoLocalPart | internal/usecase/user/service_test.go:105 | "@example.com" is rejected |
| Email.RejectsSpace | internal/usecase/user/service_test.go:106 | "test @example.com" is rejected |
| Email.RejectsMalformed | internal/usecase/user/service_test.go:168 | "invalid-email", the registration tests' malformed address, is rejected |
| UserStore.Create | internal/usecase/user/service_test.go:26-36 | a stored user is the given one with its id filled in if empty; it lands under that id, and a failing store changes nothing |
| UserStore.FirstWithEmail | internal/usecase/user/service_test.go:52-56 | the range loop returns the first visited user with exactly the address (no earlier visited user has it), and finds none only when no visited user has it |
| UserStore.FindByEmail | internal/usecase/user/service_test.go:48-58 | "no user" exactly when no stored user has the address (exact, case-sensitive), distinct from the store error; a hit is a stored user with that address |
| UserStore.FindByEmailUnique | internal/usecase/user/service_test.go:48-58 | when one stored user holds the address, the lookup finds that user whatever the visiting order |
| UserStore.StoreKeepsUsersKeyedById | internal/usecase/user/service_test.go:26-80 | create, update and delete keep every user filed under its own id |
| UserService.Register | internal/usecase/user/service.go:25-54 | the checks come in order: missing field, bad address, store error, address taken, hash error; each error leaves the store unchanged; success stores and returns exactly (fresh id, name, address, digest of the password, role as given) |
| UserService.Login | internal/usecase/user/service.go:57-69 | unknown address and wrong password give the same "invalid credentials"; success returns a stored user with that address whose digest matches; with the address held once, success exactly when the password hashes to that user's digest |
| UserService.GetUser | internal/usecase/user/service.go:72-84 | empty id: "id is required"; absent: "user not found"; store errors passed on; otherwise exactly the stored user |
| UserService.RegisterThenGetUser | internal/usecase/user/service.go:25-84 | a registered user reads back under its fresh id, and every other lookup is unaffected |
| UserService.UpdateChecks | internal/usecase/user/service.go:88-93 | an update needs an id and an address that is either empty or valid, and reports the first failure |
| UserService.UpdateUserAsWritten | internal/usecase/user/service.go:87-95 | as the code stands: after the checks, the given record (password included) replaces the stored one, with the store's errors passed on |
| UserService.UpdateUser | internal/usecase/user/service.go:86-95 | as documented: same checks and errors, every field but the password replaced, and no stored digest ever changes |
| UserService.UpdatePassword | internal/usecase/user/service.go:98-115 | needs an id and a new password; absent user: "user not found"; hash errors passed on; the changed user is written back through the store's update under its own id field, so "user not found" also when that id is not a key; when every user is filed under its own id, success changes only that user's digest, to the digest of the new password |
| UserService.DeleteUser | internal/usecase/user/service.go:118-123 | empty id: "id is required"; otherwise exactly the store's delete |
| UserService.ListUsers | internal/usecase/user/service.go:126-128 | one entry per stored key, in visiting order, or "database error" |
| UserService.RegisterThenLogin | internal/usecase/user/service.go:25-69 | after a registration, logging in with the same address and password returns the registered user, whatever the visiting order |
| UserService.ChangeThenLogin | internal/usecase/user/service.go:57-115 | after a password change on a store that files every user under its own id, logging in with the user's address (held by that user alone) and the new password returns the user with the new digest; a password with any other digest is refused as invalid credentials, whatever the visiting order |
| UserService.RegisterTwiceConflicts | internal/usecase/user/service.go:32-38 | once an address is registered, registering it again is refused with "email already registered", whatever the role and the non-empty name and password |
| UserService.WrongPasswordRefused | internal/usecase/user/service.go:65-66 | with a hash that separates passwords, a different password after registration gives "invalid credentials" |
| UserService.StoredPasswordIsDigest | internal/domain/user/model.go:18 | with a hash that never returns its input, neither registration nor a password change stores the plaintext in the record it writes |
| UserService.RegisteredUserWellFormed | internal/usecase/user/service.go:43-49 | a registered user passes the record check exactly when the role given was a named one; the role is not checked |
| UserService.RegisterKeepsUsersKeyedById | internal/usecase/user/service.go:43-50 | registration and password change keep every user filed under its own id |
| UserService.UpdateKeepsUsersKeyedById | internal/usecase/user/service.go:87-123 | both updates and delete keep every user filed under its own id |
| UserService.UpdateUserAsWrittenWipesPassword | internal/usecase/user/service.go:86-95 | as the code stands, an update with an empty password leaves an empty digest, so no password whose digest is non-empty logs that user in |
| UserService.UpdateUserAsWrittenCounterexample | internal/interface/http/handler/user.go:98-104 | the update built by the HTTP handler empties the fixture user's digest under the code as written, and keeps it under the corrected update |
| CourseStore.Create | internal/usecase/course/service_test.go:25-35 | a stored course is the given one with its id filled in if empty; it lands under that id, and the counter moves only for an empty id; a failing store changes nothing |
| ModuleStore.OfCourse | internal/interface/repository/postgres/module.go:75 | `WHERE course_id = $1`: exactly the modules of the course, each as often as in the input |
| ModuleStore.ListByCourse | internal/interface/repository/postgres/module.go:73-93 | the listing is sorted by ascending order index, holds exactly the stored modules of the course, and is a permutation of the filtered records |
| ModuleStore.ListByCourseIgnoresMapOrder | internal/interface/repository/postgres/module.go:75 | two visiting orders give listings with the same modules and the same sequence of order indexes, so only modules sharing an index can swap |
| CourseService.ValidateTitle | internal/usecase/course/service.go:20-22 | a title passes exactly when it is 1 to 255 bytes long: the empty title and every title over 255 bytes fail |
| CourseService.TitleCheckIsLengthOnly | internal/usecase/course/service.go:20-22 | only the byte length decides, never the content; a non-empty prefix of a valid title is valid; nothing can be appended to a valid 255-byte title |
| CourseService.ValidateTitleTable | internal/usecase/course/service_test.go:518-522 | the title table: the sample title and "A" pass; the empty title and 256 zero bytes fail; 255 zero bytes pass |
| CourseService.CreateCourse | internal/usecase/course/service.go:25-42 | the checks come in order: nil, bad title, empty creator, store error; errors leave the store unchanged; success stores the course under the fresh id, with the counter untouched |
| CourseService.GetCourse | internal/usecase/course/service.go:45-58 | empty id: "id is required"; absent: "course not found"; store errors passed on; otherwise exactly the stored course |
| CourseService.UpdateChecksAsWritten | internal/usecase/course/service.go:62-68 | as the code stands: nil or empty id gives "course ID is required"; a title over 255 bytes gives "invalid course title"; an empty title passes |
| CourseService.UpdateCourseAsWritten | internal/usecase/course/service.go:61-72 | as the code stands: after those checks the whole course replaces the stored one, with store errors passed on |
| CourseService.UpdateChecks | internal/usecase/course/service.go:62-68 | corrected: nil or empty id gives "course ID is required"; any title that fails the title check gives "invalid course title" |
| CourseService.UpdateCourse | internal/usecase/course/service.go:61-72 | corrected: those checks, then the whole course replaces the stored one, and the stored title is always valid |
| CourseService.DeleteCourse | internal/usecase/course/service.go:75-82 | empty id: "id is required"; otherwise exactly the store's delete, with its errors passed on |
| CourseService.ListCourses | internal/usecase/course/service.go:85-88 | one entry per stored key, in visiting order, or "database error" |
| CourseService.CreateThenGetCourse | internal/usecase/course/service.go:25-58 | a created course reads back under its fresh id, and every other lookup is unaffected |
| CourseService.UpdateThenGetCourse | internal/usecase/course/service.go:45-72 | after an update, reading the course gives exactly what was written |
| CourseService.DeleteThenGetCourse | internal/usecase/course/service.go:45-82 | after a delete the course reads as "course not found", and deleting it again fails the same way |
| CourseService.ServiceKeepsTitlesValid | internal/usecase/course/service.go:20-82 | create, the corrected update and delete keep every stored course title valid |
| CourseService.ServiceKeepsCoursesKeyedById | internal/usecase/course/service.go:25-82 | create, update (corrected and as written) and delete keep every course filed under its own id |
| CourseService.UpdateCourseAsWrittenStoresEmptyTitle | internal/usecase/course/service.go:66-71 | as the code stands, an update with an empty title succeeds and leaves a stored title the title check refuses |
| CourseService.UpdateCourseEmptyTitleCounterexample | internal/usecase/course/service_test.go:293-306 | the "Empty title" update row: the code accepts it and stores an empty title; the corrected update refuses it, as the test expects |
| CourseService.ListTwoCourses | internal/usecase/course/service_test.go:468-506 | two courses created as "1" and "2" in a new store are both listed, and the list has two entries, whatever the visiting order |
| ModuleService.CreateModule | internal/usecase/course/module_service.go:25-46 | the checks come in order: nil, bad title, empty course id, store error; errors leave the store unchanged; success stores the module under the fresh id |
| ModuleService.GetModule | internal/usecase/course/module_service.go:49-63 | empty id: "id is required"; absent: "module not found"; store errors passed on; otherwise exactly the stored module |
| ModuleService.UpdateChecksAsWritten | internal/usecase/course/module_service.go:67-72 | as the code stands: nil or empty id gives "module ID is required"; a title over 255 bytes gives "invalid module title"; an empty title passes |
| ModuleService.UpdateModuleAsWritten | internal/usecase/course/module_service.go:66-83 | as the code stands: after those checks the whole module replaces the stored one, with store errors passed on |
| ModuleService.UpdateChecks | internal/usecase/course/module_service.go:67-72 | corrected: nil or empty id gives "module ID is required"; any title that fails the title check gives "invalid module title" |
| ModuleService.UpdateModule | internal/usecase/course/module_service.go:66-83 | corrected: those checks, then the whole module replaces the stored one, and the stored title is always valid |
| ModuleService.DeleteModule | internal/usecase/course/module_service.go:86-99 | empty id: "id is required"; otherwise exactly the store's delete, with its errors passed on |
| ModuleService.ListModulesByCourse | internal/usecase/course/module_service.go:102-114 | empty course id: "course_id is required"; a failing store: "database error"; otherwise the course's stored modules, sorted by order index, each exactly as often as the range over the store meets it |
| ModuleService.CreateModuleThenListed | internal/usecase/course/module_service.go:25-114 | a created module reads back under its fresh id and appears in its course's listing |
| ModuleService.CreateModuleKeepsOtherCourses | internal/usecase/course/module_service.go:25-114 | when the fresh id is not already a stored key, creating a module leaves the listing of every other course holding the same modules |
| ModuleService.DeleteThenGetModule | internal/usecase/course/module_service.go:49-99 | after a delete the module reads as "module not found", and deleting it again fails the same way |
| ModuleService.ServiceKeepsTitlesValid | internal/usecase/course/module_service.go:20-83 | create, the corrected update and delete keep every stored module title valid |
| ModuleService.ServiceKeepsModulesKeyedById | internal/usecase/course/module_service.go:25-99 | create, update (corrected and as written) and delete keep every module filed under its own id |
| ModuleService.UpdateModuleAsWrittenStoresEmptyTitle | internal/usecase/course/module_service.go:70-82 | as the code stands, an update with an empty title succeeds and leaves an invalid stored title; the corrected update refuses it |

## Left out

- HTTP handlers, router and middleware; JWT issuance and verification; the SQL repositories apart from the module listing order; configuration; the stub handlers and their domain structs; the web frontend. These are request plumbing, I/O or foreign libraries. The handler registers every user as employee and blanks the password before responding. Neither fact is modelled.
- bcrypt: it is a parameter. The model does not know that bcrypt reads only the first 72 bytes, that it salts at random, or its cost factor. The two facts the lemmas need are stated as hypotheses: a digest is never the plaintext, and different passwords get different digests. For real bcrypt, the second holds only for passwords of up to 72 bytes.
- uuid: the fresh id is a parameter. In the user and course stores, a fresh id equal to a stored key overwrites that record, exactly as their in-memory code would. The module store differs here; see the module store lines below.
- Go's randomised map order: it is a parameter, and results are stated for every order.
- Pointer aliasing: the store keeps the caller's pointers, and the model does not track that sharing. So the model does not show any of these:
  - A later change to a stored struct changes the store.
  - `CreateCourse` and `CreateModule` write the fresh id into the caller's struct even when the store then fails.
  - `UpdatePassword` writes the digest into the stored struct before it calls the store's update. So on a store holding a user under a key other than its own id, the Go code changes the stored digest even though the update then fails; the model leaves the store unchanged on that error. The success case differs too. Take a store where key "1" holds a user whose id is "2", and key "2" also exists. The Go code leaves both keys holding the new digest, because they share one struct. The model changes key "2" only and leaves key "1" as it was. Neither case can happen when every user is filed under its own id.
- Nil receivers and arguments that Go dereferences without a check, such as `validateUser(nil)` and `UpdateUser(nil)`, panic in Go. The model takes a value there, so it has no nil case.
- Store.CounterId: the 64-bit Go `int` counter is unbounded in the model; its wrap-around after 2^63 creations is not modelled. Its conversion to a 32-bit rune is modelled.
- The module service runs on the PostgreSQL store `postgres.ModuleRepository` (`internal/interface/repository/postgres/module.go`, wired in `internal/interface/http/router.go:47`), and there is no in-memory module store. The model stands the course store's in-memory shape in its place, plus a listing filtered by course and ordered by `order_index`, as the SQL query orders it. The order among modules with equal index is left open, as SQL leaves it. So the model differs from the SQL store in these ways:
  - Create: the SQL store runs an `INSERT` (`module.go:32-38`), which fails when the id is already a key. The modelled store overwrites that record instead.
  - Update and Delete of an absent id: the SQL store returns `sql.ErrNoRows` (`module.go:52-53`, `module.go:63-70`). The modelled store returns "module not found". The second clause of `ModuleService.DeleteThenGetModule` holds for the modelled store only; on the SQL store the second delete fails with `sql.ErrNoRows`.
  - The modelled store has a failing switch that stands for every database error. The SQL store has no such switch; its errors come from the driver and are not modelled one by one.
- `ValidateTitle` is declared twice in package `course`, once in `service.go` and once in `module_service.go`, which Go would refuse to compile. The two bodies are identical, so it is modelled once and shared.
- `UserService.Repo` is typed as the PostgreSQL repository, but the tests inject the mock. The model uses the abstract store whose behaviour the mock defines.
- `Register` stores the role it is given without checking it against the three named roles. The model does the same; `UserService.RegisteredUserWellFormed` states the consequence.
- The permission table is a fixed lookup. On the named roles it is a total rank order, employee < trainer < admin, and `UserDomain.PermissionIsRankOrder` proves that.
- The role-string table (`model_test.go:14-26`) holds by construction, because a role value is its string.
- `DeleteCourse` leaves the course's modules in place, as the code does. Cascading deletes are not modelled.

## Findings

| source | as written | input that shows it | evidently intended | confidence | as-written member | corrected member |
|---|---|---|---|---|---|---|
| internal/usecase/user/service.go:86-95 | `UpdateUser` passes the caller's record straight to the store's update, which replaces the whole record, password included | user "1" stored with digest d; the HTTP handler's update `{ID: "1", Name: "John Updated", Role: "admin"}` has an empty Password, and the stored digest becomes "" | "updates user fields except password": the stored digest is kept | high, not executed | UserService.UpdateUserAsWritten (shown by UserService.UpdateUserAsWrittenCounterexample and UserService.UpdateUserAsWrittenWipesPassword) | UserService.UpdateUser |
| internal/usecase/course/service.go:66-71 | an empty title skips the title check, and the whole course, empty title included, replaces the stored one | course "1" stored with title "Introduction to Go"; update `{ID: "1", Title: ""}` succeeds and the stored title becomes "" | the repository's own "Empty title" update test (service_test.go:293-306) expects "invalid course title"; a stored course never has a title the title check refuses | medium, not executed | CourseService.UpdateCourseAsWritten (shown by CourseService.UpdateCourseEmptyTitleCounterexample and CourseService.UpdateCourseAsWrittenStoresEmptyTitle) | CourseService.UpdateCourse |
| internal/usecase/course/module_service.go:70-82 | the same empty-title guard as for courses: an empty module title is accepted and stored | any stored module updated with the same id and `Title: ""` | as for courses: an empty title is refused with "invalid module title" | medium, not executed | ModuleService.UpdateModuleAsWritten (shown by ModuleService.UpdateModuleAsWrittenStoresEmptyTitle) | ModuleService.UpdateModule |
