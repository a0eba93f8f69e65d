# Course registration: a verified model

This project models the server core of a small school course-registration
web application. Students sign in with their email and student id. They
browse the subjects they have not yet taken and register for a subject in an
academic year and term. An administrator records grades, and an admin page
lists, searches and sorts all students. Rows live in four tables: students,
subjects (the catalogue, each with an optional prerequisite), subject
structures (course / major / term entries) and registrations (one per
student, subject, year and term, with an optional grade).

Each source file of the core is one Dafny module:

- `Auth`: the session cookie.
- `SignInRoute`: `POST /api/auth/signin`.
- `RegisterRoute`: `POST /api/course/register`.
- `AvailableRoute`: `GET /api/subjects/available`.
- `GradeRoute`: `POST /api/admin/grade`.
- `StudentsRoute`: `GET /api/students`.
- `StudentAllPage`: the admin student list's filtering, sorting and sort controls.
- `Seed`: the seeding script's record mappings.

Shared modules:

- `Domain`: the entities.
- `Database`: the tables as a class `Db` whose handlers update its sequences in place.
- `Age`: the age calculation.
- `Json`: parsed JSON values and property access.
- `Text`: trimming, lower-casing, substring search and string order.
- `Lists`: filtering and an in-place insertion sort on an array.
- `Consistency`: lemmas relating the routes to each other.

The register handler is a method. Its result and its new ledger are tied to
the decision function `Evaluate`, and the source's rules are proved about
that function:

- the checks run in source order;
- age 15 is reached on the 15th birthday;
- a prerequisite is judged by the first matching record;
- a repeat request is a duplicate;
- a successful insert keeps record ids and keys unique.

The available-subjects handler is a read-only method tied to
`AvailableItems`. Its listed subjects are never already registered, and
their ids ascend. The grade handler rewrites exactly one record. The
lemmas in `Consistency` show how the grade route interacts with the two
student routes: a passing grade on the first prerequisite record unlocks
registration, and a failing grade keeps it blocked. They also show that the
two routes can disagree: "eligible" in the list looks at any passing record,
while the register route looks only at the record `findFirst` returns. That
query has no `orderBy`, so which record comes first is up to the database.
The model takes the first record in ledger (insertion) order and applies
grade updates in place; under that choice a student with a failing first
record and a later passing one is listed as eligible and refused
(`Consistency.EligibleButRefused`).

The available-subjects handler reads the catalogue ordered by id, and the
model sorts it the same way. Comments in that handler say that without a
filter the whole catalogue is offered. The code instead branches on whether
any structure matched. With no filter and a non-empty structure table, only
the structures' required subject ids are candidates
(`AvailableRoute.NoFilterUsesStructures`).

The sign-in handler passes the body's `email` and `studentId` values to the
query's `where` clause unchanged. A missing field is no condition. A string
must be equal. An object is read as a string filter whose operators
(`equals`, `not`, `contains`, `startsWith`, `endsWith`, `in`, `notIn`) must
all hold.

In `GET /api/students` the handler computes a name ordering but never
passes it to the query. So rows come back in storage order unless
`sort=age`, and the model keeps that order.

The seeding script's `makeSSId` is commented as giving unique ids with no
spaces. The "no spaces" part holds whenever the required subject id has none
(`Seed.SSIdNoSpace`). The "unique" part does not: `Seed.SSIdCollision`
exhibits two different structures with one id: course "A B" with no
required subject, and course "A_B" whose required subject id is "NONE".

## Model

| member | source | states |
|---|---|---|
| Age.CalcAge | src/app/api/course/register/route.ts:8-14 | the age is the k whose k-th anniversary is on or before today while the (k+1)-th is after today |
| Age.AgeIsUnique | src/app/api/course/register/route.ts:8-14 | any k bracketed by its anniversaries that way is the computed age |
| Age.AnniversaryMonotone | src/app/api/course/register/route.ts:8-14 | later anniversaries fall on later or equal dates |
| Age.YoungerThanIff | src/app/api/course/register/route.ts:40-43 | the age is below a limit exactly when today is before the limit-th birthday |
| Age.DayBeforeFifteenthBirthday | src/app/api/course/register/route.ts:40-43 | concrete ages: 14 the day before the 15th birthday, 15 on it |
| Json.Get | src/app/api/auth/signin/route.tsx:9 | property access on `null` throws; on an object it is the field if present, else undefined; on any other value undefined, which holds for the keys read here (`email`, `studentId`, `role`) but not for built-ins such as `length` |
| Auth.Accept | src/lib/auth.ts:16-22 | a parsed cookie is the admin session iff role is "admin", a student session iff role is "student" and studentId is a string, and that studentId is kept |
| Auth.GetSession | src/lib/auth.ts:9-26 | a missing or empty cookie gives no session; a non-empty cookie that parses gives exactly the accepted form of the parsed value; a session only comes from such a cookie |
| Auth.MakeSessionCookie | src/lib/auth.ts:28-37 | cookie named "session", httpOnly, SameSite lax, path "/", secure exactly in production, value the serialised session |
| Auth.AcceptToJson | src/lib/auth.ts:16-22 | every session's own JSON form is accepted back as that session |
| Auth.CookieRoundTrip | src/lib/auth.ts:9-37 | reading a cookie made for a session returns that session, given that parsing inverts serialising |
| SignInRoute.ToFilter | src/app/api/auth/signin/route.tsx:9-21 | an absent field is no condition, a string is `equals`, an object whose keys are all string operators with well-typed arguments is that filter; `null`, a failed property access and every other value are rejected |
| SignInRoute.SignIn | src/app/api/auth/signin/route.tsx:7-39 | as written: 400 exactly for an unparsable or null body or, off the admin pair, a rejected filter value; the admin pair always gives the admin response and cookie; otherwise the first student in table order meeting both filters is signed in with its own id, and no match gives 200 without a session |
| SignInRoute.EqualsFilter | src/app/api/auth/signin/route.tsx:21 | a bare string field is met exactly by that string |
| SignInRoute.AdminShortcutIgnoresTable | src/app/api/auth/signin/route.tsx:11-17 | the admin email with student id "0" yields the admin session whatever the student table holds |
| SignInRoute.EmptyBodySignsInFirstStudent | src/app/api/auth/signin/route.tsx:20-30 | as written, the body `{}` signs in as the first student of a non-empty table |
| SignInRoute.OperatorBodySignsInFirstStudent | src/app/api/auth/signin/route.tsx:20-30 | as written, `{"email": {"contains": ""}, "studentId": {"contains": ""}}` signs in as the first student of a non-empty table |
| SignInRoute.SignInChecked | src/app/api/auth/signin/route.tsx:7-39 | intended decision: the admin pair gives the admin response and cookie; off the admin pair a student is signed in iff the email and id supplied are the strings of one student's email and id, and the cookie carries such a student's id |
| SignInRoute.StringBodyFacts | src/app/api/auth/signin/route.tsx:20-30 | with both fields strings, the query as written signs in a student iff one student has that email and that id, and the cookie carries such a student's id |
| SignInRoute.MatchSignsIn | src/app/api/auth/signin/route.tsx:20-30 | as written, a body whose email and id are one student's strings signs in a student |
| SignInRoute.CheckedRejectsEmptyBody | src/app/api/auth/signin/route.tsx:20-23 | the intended decision never signs in on an empty body |
| SignInRoute.CheckedRejectsOperatorBody | src/app/api/auth/signin/route.tsx:20-23 | the intended decision refuses the operator body with 400 |
| Domain.ParseSemester | src/app/api/course/register/route.ts:23-27 | only "S1" and "S2" are terms, and parsing inverts the term name |
| Domain.GradeName | src/app/api/admin/grade/route.ts:7 | the stored grade value is null exactly for an ungraded record |
| Domain.Prerequisite | src/app/api/course/register/route.ts:52 | a subject has a prerequisite iff its requiredBeforeId is a non-empty string |
| Database.FindStudent | src/app/api/course/register/route.ts:35-39 | the student with that id from the table, or none iff no row has that id |
| Database.FindSubject | src/app/api/course/register/route.ts:46-50 | the subject with that id from the catalogue, or none iff no row has that id |
| Database.FirstRegistration | src/app/api/course/register/route.ts:54-60 | the first record in ledger order for the student and subject, none iff there is no such record |
| Database.EnrolmentCount | src/app/api/course/register/route.ts:103 | the count of records for a subject is at most the ledger size and zero iff no record names the subject |
| Database.PermutationKeepsIdsUnique | src/app/api/subjects/available/route.ts:49-52 | any reordering of a catalogue with unique ids has unique ids |
| Database.IdOrderUnique | src/app/api/subjects/available/route.ts:49-52 | a catalogue has exactly one listing in strictly ascending id order |
| Database.EnrolmentCountAppend | src/app/api/course/register/route.ts:102-107 | appending a record raises a subject's count by one iff the record is for that subject |
| RegisterRoute.Status | src/app/api/course/register/route.ts:16-115 | 401 exactly for no student session, 404 exactly for a missing student or subject, 400 otherwise |
| RegisterRoute.NewRecord | src/app/api/course/register/route.ts:92-100 | the inserted record has the requested key, the next id and no grade |
| RegisterRoute.PrerequisiteMet | src/app/api/course/register/route.ts:52-74 | a subject without a prerequisite passes; otherwise the first record of the student for the prerequisite must exist with a grade that is neither null nor F (`PrerequisiteBlocks`, `FirstRegistrationAppend`, `PassingGradeUnlocks` and `FailingGradeBlocks` are proved about it) |
| RegisterRoute.Evaluate | src/app/api/course/register/route.ts:17-89 | the decision of the POST handler, the first failing check in source order or the key to insert; a success is for the session's student, the requested subject and year, a term that names the requested one, and a key not yet in the ledger; a duplicate means the student already has a record for the subject (`SuccessMeansEligible`, `MissingParametersFirst`, `UnderageRegardless`, `PrerequisiteBlocks`, `RepeatIsDuplicate`, `EligibleSucceeds` and `DuplicateWhenKeyExists` are proved about it) |
| RegisterRoute.EligibleSucceeds | src/app/api/course/register/route.ts:17-89 | a request with parameters, an adult student, an existing subject, a met prerequisite, a valid term and a fresh key succeeds with exactly that key |
| RegisterRoute.DuplicateWhenKeyExists | src/app/api/course/register/route.ts:76-89 | the same request whose key is already in the ledger is refused as a duplicate |
| RegisterRoute.Decide | src/app/api/course/register/route.ts:17-89 | the checks with early returns compute exactly `Evaluate`; a success is a key not yet in the ledger for the requested subject |
| RegisterRoute.Register | src/app/api/course/register/route.ts:16-115 | on failure nothing changes; on success exactly one ungraded record with the key is appended under the next id, that id is returned, the ledger stays valid and the subject's count rises by one |
| RegisterRoute.AppendPreservesLedger | src/app/api/course/register/route.ts:76-100 | appending a fresh id under a key not yet present keeps ids fresh and keys unique |
| RegisterRoute.SuccessMeansEligible | src/app/api/course/register/route.ts:29-89 | a success implies a student session, all parameters, an existing student at least 15, an existing subject, a met prerequisite, a valid term and a new key |
| RegisterRoute.MissingParametersFirst | src/app/api/course/register/route.ts:29-32 | missing parameters are reported before any lookup |
| RegisterRoute.UnderageRegardless | src/app/api/course/register/route.ts:40-43 | a student before the 15th birthday is refused whatever the subject or ledger |
| RegisterRoute.PrerequisiteBlocks | src/app/api/course/register/route.ts:52-74 | no first record for the prerequisite, or an ungraded or F first record, refuses the request |
| RegisterRoute.RepeatIsDuplicate | src/app/api/course/register/route.ts:76-89 | after a successful registration the same request is a duplicate |
| RegisterRoute.FirstRegistrationAppend | src/app/api/course/register/route.ts:54-66 | appending records never unmeets a met prerequisite |
| RegisterRoute.ScenarioPrerequisiteThenDuplicate | src/app/api/course/register/route.ts:52-89 | concrete run: refused without the prerequisite, accepted after a B, refused as duplicate on repeat |
| GradeRoute.Status | src/app/api/admin/grade/route.ts:10-39 | 401 exactly for a missing admin session, 400 for every other failure |
| GradeRoute.ParseGrade | src/app/api/admin/grade/route.ts:21-23 | an accepted grade is exactly the JSON form of a grade, null meaning no grade |
| GradeRoute.ParseGradeJson | src/app/api/admin/grade/route.ts:7 | every grade's JSON form is accepted as that grade |
| GradeRoute.ParseGradeAcceptsExactly | src/app/api/admin/grade/route.ts:21-23 | a value is accepted iff it is the JSON form of some grade in the allowed list |
| GradeRoute.SetGrade | src/app/api/admin/grade/route.ts:25-29 | records with the id get the grade, every other record is unchanged |
| GradeRoute.IndexOfId | src/app/api/admin/grade/route.ts:25-29 | the position of the record with the id, none iff no record has it |
| GradeRoute.AssignGrade | src/app/api/admin/grade/route.ts:10-39 | success iff admin, numeric non-negative id, allowed grade and an existing record; then the ledger is `SetGrade` of the old one and the response reports the record; on failure nothing changes |
| GradeRoute.SetGradeAt | src/app/api/admin/grade/route.ts:25-29 | updating the record at a position equals `SetGrade` by its id, and keeps the ledger valid |
| GradeRoute.SetGradeIdempotent | src/app/api/admin/grade/route.ts:25-29 | setting the same grade twice equals setting it once |
| GradeRoute.SetGradeFrame | src/app/api/admin/grade/route.ts:25-29 | ids and keys of all records are unchanged, and only the addressed record's grade changes |
| AvailableRoute.Supplied | src/app/api/subjects/available/route.ts:23-24 | an empty query parameter counts as absent |
| AvailableRoute.SemesterFilter | src/app/api/subjects/available/route.ts:25-31 | a supplied term that is neither S1 nor S2 is rejected; an accepted filter is the term named |
| AvailableRoute.FilterStructures | src/app/api/subjects/available/route.ts:28-38 | the structures kept are exactly those matching every supplied filter |
| AvailableRoute.NoFilterKeepsAll | src/app/api/subjects/available/route.ts:28-38 | with no filter every structure is kept |
| AvailableRoute.NoFilterUsesStructures | src/app/api/subjects/available/route.ts:66-79 | with no filter and a non-empty structure table, the candidates are the structures' required ids, not the whole catalogue |
| AvailableRoute.InStructureSet | src/app/api/subjects/available/route.ts:69-79 | the loops collect the required subject ids of the structures, or every catalogue id when there are none |
| AvailableRoute.Candidates | src/app/api/subjects/available/route.ts:69-79 | the required ids of the matching structures, or every catalogue id when none matched; `InStructureSet` computes it and `NoFilterUsesStructures` shows a non-empty table decides it even with no filter |
| AvailableRoute.PassedIds | src/app/api/subjects/available/route.ts:60-64 | the subjects with some record of the student graded neither null nor F; `MetImpliesEligible` and `EligibleAgreesWithRegister` relate it to the register rule |
| AvailableRoute.MyRegistrations | src/app/api/subjects/available/route.ts:55-58 | exactly the student's own records |
| AvailableRoute.ToItem | src/app/api/subjects/available/route.ts:84-96 | the item copies the subject's id, name, credit and teacher, carries its prerequisite id and the prerequisite's non-empty name (else null), and is eligible iff the prerequisite is absent or passed |
| AvailableRoute.AvailableItems | src/app/api/subjects/available/route.ts:82-97 | every listed subject is a candidate not yet registered, and every such catalogue subject is listed |
| AvailableRoute.AvailableItemsOrdered | src/app/api/subjects/available/route.ts:49-97 | listed ids are strictly ascending when the catalogue is |
| AvailableRoute.IdLeqTotalPreorder | src/app/api/subjects/available/route.ts:51 | the id comparator is total and transitive |
| AvailableRoute.CatalogueInIdOrder | src/app/api/subjects/available/route.ts:49-52 | the catalogue is read back as the same rows in strictly ascending id order |
| AvailableRoute.ListAvailable | src/app/api/subjects/available/route.ts:16-108 | 401 iff no student session; an invalid term filter is rejected; otherwise the items are `AvailableItems` of the catalogue in id order, the count is their number, none is already registered and ids ascend |
| Consistency.MetImpliesEligible | src/app/api/subjects/available/route.ts:60-64 | a prerequisite met for registration shows as eligible in the list |
| Consistency.EligibleAgreesWithRegister | src/app/api/subjects/available/route.ts:60-64 | with at most one record per student and prerequisite, eligible in the list implies met for registration |
| Consistency.EligibleButRefused | src/app/api/course/register/route.ts:54-66 | concrete case: an F followed by an A is eligible in the list but refused by registration |
| Consistency.ListedIsNeverDuplicate | src/app/api/subjects/available/route.ts:82-83 | a subject with no record for the student is never refused as a duplicate |
| Consistency.PassingGradeUnlocks | src/app/api/admin/grade/route.ts:25-29 | a passing grade on the first prerequisite record meets the prerequisite |
| Consistency.FailingGradeBlocks | src/app/api/admin/grade/route.ts:25-29 | an F or cleared grade on the first prerequisite record leaves it unmet |
| StudentsRoute.TrimmedParam | src/app/api/students/route.ts:28-29 | a missing parameter is empty; a present one gives the slice of it left after removing exactly its leading and trailing whitespace |
| StudentsRoute.OrDefault | src/app/api/students/route.ts:30-31 | a missing or empty parameter takes the default, any other is kept |
| StudentsRoute.ClampLimit | src/app/api/students/route.ts:32 | the limit is the requested value (default 100) capped at 200 |
| StudentsRoute.ClampOffset | src/app/api/students/route.ts:33 | the offset is the requested value (default 0) raised to at least 0 |
| StudentsRoute.Window | src/app/api/students/route.ts:58-63 | skip/take: exactly min(limit, rows left after the offset) rows, the matching rows from the offset on, in order |
| StudentsRoute.Enrich | src/app/api/students/route.ts:67-72 | an item keeps the student, its name is first name, space, last name, and its age is the anniversary age |
| StudentsRoute.EnrichAll | src/app/api/students/route.ts:67-72 | every row is enriched, order kept |
| StudentsRoute.AgeOrderIsPreorder | src/app/api/students/route.ts:75-79 | the age comparator is total and transitive in both directions |
| StudentsRoute.ListStudents | src/app/api/students/route.ts:25-82 | total counts every match; items are the enriched window in fetch order, or with sort=age a permutation of it sorted by age |
| StudentsRoute.AgeSortedMeans | src/app/api/students/route.ts:74-80 | the age sort gives non-decreasing ages for asc and non-increasing for desc |
| StudentAllPage.Schools | src/app/admin/student-all/page.tsx:46-50 | every school of the rows appears exactly once, sorted |
| StudentAllPage.SchoolsDistinct | src/app/admin/student-all/page.tsx:46-50 | no school is listed twice |
| StudentAllPage.BySchool | src/app/admin/student-all/page.tsx:56-59 | with a school selected, exactly the rows of that school, each kept as many times as it occurs; otherwise all rows |
| StudentAllPage.ByQuery | src/app/admin/student-all/page.tsx:61-72 | with a non-blank query, exactly the rows whose id, names or email contain it case-insensitively, each kept as many times as it occurs; otherwise all rows |
| StudentAllPage.Decorate | src/app/admin/student-all/page.tsx:74-78 | each row paired with its own age, order kept |
| StudentAllPage.ComparatorIsPreorder | src/app/admin/student-all/page.tsx:80-94 | each of the four column/order comparators is total and transitive |
| StudentAllPage.FilteredAndSorted | src/app/admin/student-all/page.tsx:53-97 | the result is a permutation of the filtered, age-decorated rows, sorted by the chosen comparator |
| StudentAllPage.AgeSortedMeans | src/app/admin/student-all/page.tsx:88-94 | sorted by age means non-decreasing for asc and non-increasing for desc |
| StudentAllPage.ShownRowsPassFilters | src/app/admin/student-all/page.tsx:53-97 | every row shown is a student of the list passing both filters with its own age |
| StudentAllPage.HasFilter | src/app/admin/student-all/page.tsx:100 | a filter is active iff the query or the school is non-empty |
| StudentAllPage.Flip | src/app/admin/student-all/page.tsx:102-104 | asc and desc swap |
| StudentAllPage.Clicked | src/app/admin/student-all/page.tsx:105-114 | clicking a column selects it; the same column flips the order, another starts ascending |
| StudentAllPage.ClickTwice | src/app/admin/student-all/page.tsx:105-114 | clicking the current column twice restores the order |
| StudentAllPage.SwitchThenClick | src/app/admin/student-all/page.tsx:105-114 | switching column starts ascending, a second click turns it descending |
| StudentAllPage.SortControls.constructor | src/app/admin/student-all/page.tsx:22-23 | the controls start at name, ascending |
| StudentAllPage.SortControls.ToggleOrder | src/app/admin/student-all/page.tsx:102-104 | the order flips and the column stays |
| StudentAllPage.SortControls.SetSortBy | src/app/admin/student-all/page.tsx:105-114 | the new column and order are those of `Clicked` on the old state |
| Seed.CollapseSpaces | prisma/seed.ts:50 | the result has no whitespace, is no longer than the input, and a whitespace-free string is unchanged |
| Seed.CollapseIdempotent | prisma/seed.ts:50 | collapsing twice equals collapsing once |
| Seed.CollapseKeeps | prisma/seed.ts:50 | a non-whitespace character is copied unchanged ahead of the collapsed rest |
| Seed.CollapseBlankHead | prisma/seed.ts:50 | a whole leading whitespace run, up to the end or a non-space, becomes one underscore |
| Seed.CollapseAppend | prisma/seed.ts:50 | collapsing distributes over concatenation at any point not inside a whitespace run |
| Seed.CollapseRun | prisma/seed.ts:50 | a maximal whitespace run between two whitespace-free borders becomes exactly one underscore, each side collapsing on its own |
| Seed.RequiredSegment | prisma/seed.ts:52 | only a missing required subject id is written as "NONE" |
| Seed.MakeSSId | prisma/seed.ts:42-55 | course and major with whitespace runs collapsed, the required id or "NONE", and the term, joined by `-`; `SSIdNoSpace` and `SSIdCollision` are proved about it |
| Seed.SSIdNoSpace | prisma/seed.ts:42-55 | the structure id has no whitespace when the required id has none |
| Seed.SSIdCollision | prisma/seed.ts:42-55 | two different structures can share one id: a space versus an underscore, and a missing id versus "NONE" |
| Seed.OrNull | prisma/seed.ts:81-82 | a missing or null field becomes null; a present value is kept |
| Seed.SeedSubject | prisma/seed.ts:76-84 | id, name and credit copied; teacher and prerequisite are null unless present, and a present value is kept |
| Seed.SeedStructure | prisma/seed.ts:87-96 | fields copied, the required subject id kept, and the id is `makeSSId` of the raw record |
| Seed.SeedRegistration | prisma/seed.ts:100-107 | fields copied; a missing or null grade becomes no grade |
| Text.Trim | src/app/api/students/route.ts:28 | the result is the slice of the input between its leading and trailing whitespace: everything before and after it is whitespace and its ends are not |
| Text.TrimUnique | src/app/api/students/route.ts:28 | a string has only one such slice, so the trim is determined |
| Text.Lower | src/app/admin/student-all/page.tsx:62 | lower-casing keeps length and maps each character |
| Text.LexLeqTotal | src/app/admin/student-all/page.tsx:49 | the string order relates every pair |
| Text.LexLeqTransitive | src/app/admin/student-all/page.tsx:49 | the string order is transitive |
| Lists.Filter | src/app/api/subjects/available/route.ts:82-83 | keeps exactly the elements satisfying the predicate, each as often as before |
| Lists.FilterCons | src/app/api/subjects/available/route.ts:82-83 | the head is kept exactly when it satisfies the predicate, ahead of the filtered tail |
| Lists.FilterAppend | src/app/api/subjects/available/route.ts:82-83 | filtering a concatenation is the concatenation of the filtered parts, so order is kept |
| Lists.SortedCopy | src/app/api/subjects/available/route.ts:49-52 | a sorted permutation of the input, for a total preorder; stands for the database's `orderBy` and for the comparator sorts of the students route and the admin page |
| Lists.InsertionSort | src/app/api/students/route.ts:77-79 | the array ends sorted by the comparator and a permutation of its old contents |

## Left out

- Database I/O: Prisma queries are reads and writes of the `Db` sequences. Transactions, connection failures and concurrent requests are not modelled.
- RegisterRoute.Register: the duplicate check and the insert happen in one step. Two concurrent requests racing on the unique key are not modelled.
- RegisterRoute.Register: the `count < 0` branch returning 500 cannot be taken. The model states the count instead (plus one after an insert).
- Database.FirstRegistration: `findFirst` without `orderBy` leaves the returned row to the database; the model fixes it as the first record in ledger (insertion) order, with grade updates in place, and `EligibleButRefused`, `PassingGradeUnlocks` and `FailingGradeBlocks` hold under that choice.
- RegisterRoute.Evaluate: a term other than S1/S2 makes the database throw at the duplicate lookup, and that is caught as 400. The model reports it as `InvalidSemester` at that point.
- Request bodies whose fields have other JSON types than declared are not modelled for the register route. It takes strings and an integer year. A register body that is not JSON or is `null` throws at the parse or the destructuring and is caught as 400; `RegisterRoute.Request` cannot represent it. The grade route's body is modelled as JSON.
- Age.CalcAge: dates are calendar triples. Time zones, the system clock (`today` is a parameter) and date-string parsing are not modelled.
- Text.Lower: lower-cases ASCII letters only. `toLowerCase` and the database's case-insensitive `contains` also fold other scripts.
- Text.LexLeq: orders strings by code unit. `localeCompare` and the database collation of `orderBy id` are locale-dependent.
- Text.Trim: ASCII whitespace only. JavaScript's `trim` and `\s` also cover Unicode spaces.
- Lists.InsertionSort: stable sorting of equal keys is not stated. `Array.prototype.sort` is stable.
- StudentsRoute.ListStudents: a negative limit is a `NegativeLimit` failure. The database would take rows from the end. `parseInt` results that are NaN are not modelled (limit and offset are integers or absent).
- Auth.GetSession: JSON parsing and serialising are parameters. Their text format is not modelled.
- Json.Value: numbers are integers. Fractional registration ids are not modelled.
- SignInRoute.SignIn: of the query's string filter operators only `equals`, `not` with a string, `contains`, `startsWith`, `endsWith`, `in` and `notIn` with arrays of strings are modelled. `lt`, `lte`, `gt`, `gte`, `mode`, `search`, a nested `not` object and a single string given to `in` are treated as rejected (400), as are `null` values. The database accepts some of these.
- React rendering, loading state and fetch plumbing of the admin page are not modelled. Only the state and computations are.
- The registrations route, the personal page, the course register page and the seeding script's file reading and insert loop are not part of this model.

## Findings

| source | as written | input that shows it | evidently intended | confidence | as-written member | corrected member |
|---|---|---|---|---|---|---|
| src/app/api/auth/signin/route.tsx:20-23 | `findFirst({ where: { email, id: studentId } })` with a field left out of the body passes `undefined`, which the query ignores as a filter | body `{}` with at least one student in the table signs in as the first student | sign in only when both the email and the student id are given and match one student | not executed | SignInRoute.EmptyBodySignsInFirstStudent | SignInRoute.SignInChecked |
| src/app/api/auth/signin/route.tsx:9-23 | an object value in the body reaches `where` unchecked and is read as a filter with operators | body `{"email": {"contains": ""}, "studentId": {"contains": ""}}` with at least one student signs in as the first student | only string values, compared for equality | not executed | SignInRoute.OperatorBodySignsInFirstStudent | SignInRoute.SignInChecked |
