# Registration engine of the course-registration server

This project models the registration engine of a course-registration server: the class
`Database` of the package `bgu.spl.net`. The class is an in-memory state object with five
containers:

- `students`: username to password;
- `administrators`: username to password;
- `studentCourses`: username to the list of course numbers the student holds;
- `courses`: course number to course;
- `loggedIn`: the list of logged-in usernames.

Around them sit sequential check-then-act operations, each answering with a result code:

- registration of students and administrators;
- login and logout;
- registration to a course, which checks login, course existence, capacity and kdams
  (prerequisites), in that order;
- unregistration;
- the read-only projections: kdam list, course stat, student stat and course list;
- `initialize`, which loads the course file line by line. Each line has the form
  `num|name|[k1,k2,...]|max`.

The model has four layers.

- `Text` and `Catalog` model the parts of `java.lang` the loader relies on,
  `String.split` with a one-character separator and `Integer.parseInt`, and `Course`.
  On top of these they model the record parser and the line-by-line load.
- `Engine` is the engine as a state machine over a value `Db` holding the five containers.
  Each operation is a function from the state and its arguments to a result code and a new
  state. The lemmas of `Engine` state what the operations promise.
- `Registration.Database` is a class with the five containers as fields. Each public method
  of the Java class is a method that reads or updates those fields in place. Each updating
  method is proved to do what the matching `Engine` function says, and to keep the database
  invariant `Engine.Consistent`. The two loops of the source are proved with their own
  invariants: the course-file loop of `initialize` and the kdam loop of `canRegisterToCourse`.
- `Intended` corrects the four places where the code departs from what it evidently means
  (see "## Findings"). It also answers `NotRegisteredToCourse` when a student unregisters
  from a listed course that does not exist, where the code throws at line 240 after line 239
  has already changed the list. On the corrected engine it proves the invariant the service relies on:
  a course is on a student's list exactly when the student is on the course's roster, after
  any sequence of registrations and unregistrations. It also proves two worked scenarios.
  In the first, course 101 has maximum 2: alice and bob get in, carol is refused as full,
  and carol gets in once alice has left. In the second, course 201 has kdam 101: dave is
  refused 201 until holding 101.

The model follows the code as written. In particular:

- a new student's stored password is the username;
- the capacity test reports "full" whenever the maximum is at least the roster size;
- a missing ledger entry is a `NullPointerException`, which the `requires` clauses rule out
  exactly on the paths that read it;
- `unregisterFromCourse` removes an element of the student's list by position.

The model also follows the code where a reader might expect something else:

- Unregistration does not check that the student is logged in.
- The load is not all-or-nothing. Lines before a bad line stay in the catalog, and `false`
  is returned (`Catalog.LoadStopsAtFirstBadLine`).
- A duplicate course number is not an error: a later record replaces the earlier one
  (`Catalog.LoadAppend`).
- The brackets of the kdam field are never checked. Any field other than `[]` loses its
  first and last characters, whatever they are (`Catalog.ParseKdamsIgnoresBrackets`,
  `Catalog.ParseKdamsWitnesses`).
- `registerStudent` never creates a ledger entry. So as written, no student can ever be
  enrolled: every path past the capacity test reads the missing entry.
- `studentStat` and `getStudentCourses` do not throw for a student without an entry. They
  return `null`, modelled as `Null` and `None`.

Result codes are the datatype `Codes.Code`. The integer values of the protocol's constants
class are not part of this model, and only the codes' distinctness matters. A `Course` is
modelled as a value of the datatype `Catalog.Course`. It has a number, a name, a kdam list, a
maximum and a roster. The roster is a multiset that keeps repeats. This is a modelling choice:
`Course` is not part of this model, and its own lists could refuse or drop a repeat (see
"## Left out"). The opcodes of the student-stat request (8) and of the error reply (13)
are recorded as the constants `Codes.StudentStatOpcode` and `Codes.ErrorOpcode`.

I/O is a parameter. `initialize` takes the lines of the course file already read, so the file
path and `Files.readAllLines` are outside the model.

## Model

| member | source | states |
|---|---|---|
| Seqs.RemoveFirst | src/main/java/bgu/spl/net/Database.java:152 | `ArrayList.remove(Object)` on the login list takes away exactly one occurrence of the value, if it is there. |
| Seqs.RemoveAt | src/main/java/bgu/spl/net/Database.java:239 | `ArrayList.remove(int)` takes away exactly the element at that position. The elements before it keep their positions, the elements after it move down by one, and the list is one shorter. |
| Seqs.RemoveFirstNoDuplicates | src/main/java/bgu/spl/net/Database.java:148-154 | On a list without repeats, removing the first occurrence of `u` removes `u` altogether. Every other element stays, and there are still no repeats. |
| Text.Split | src/main/java/bgu/spl/net/Database.java:54 | `split` with a one-character separator. It gives the text itself when the separator does not occur. Otherwise it gives the pieces between separators, with trailing empty pieces dropped. Characterised by `Text.SplitOfJoin`, `Text.JoinOfPieces` and `Text.DropTrailingEmptyShape`. |
| Text.JoinOfPieces | src/main/java/bgu/spl/net/Database.java:54 | The pieces between separators hold no separator. Joined again by it, they give back the text. |
| Text.DropTrailingEmptyShape | src/main/java/bgu/spl/net/Database.java:54 | `split` drops exactly the run of empty strings at the end. The result is a prefix of the pieces, does not end in an empty string, and everything after it is empty. |
| Text.PiecesOfJoin | src/main/java/bgu/spl/net/Database.java:54 | Cutting text joined from separator-free pieces gives back those pieces. |
| Text.SplitOfJoin | src/main/java/bgu/spl/net/Database.java:54 | `split` inverts joining, for separator-free pieces with a non-empty last piece. |
| Text.ParseInt | src/main/java/bgu/spl/net/Database.java:55 | `Integer.parseInt` only ever yields values in the range of a Java `int`. |
| Text.ParseIntOfIntToString | src/main/java/bgu/spl/net/Database.java:64 | `Integer.parseInt` reads back the decimal form of every `int`. |
| Text.IntToStringShape | src/main/java/bgu/spl/net/Database.java:62 | The decimal form of an `int` is non-empty and holds only digits and `-`, so it never holds a field or list separator. |
| Catalog.Course.WithStudent | src/main/java/bgu/spl/net/Database.java:186 | `course.registerStudent`: one more occurrence of the student on the roster, even a repeat; size grows by one; number, name, kdams and maximum unchanged. |
| Catalog.Course.WithoutStudent | src/main/java/bgu/spl/net/Database.java:240 | `course.unregisterStudent`: one occurrence fewer when the student is on the roster, no change otherwise; other students and the course's other fields unchanged. |
| Catalog.ParseInts | src/main/java/bgu/spl/net/Database.java:62 | The kdam list is parsed exactly when every piece parses. It then has one number per piece, each the piece's value. |
| Catalog.ParseRecord | src/main/java/bgu/spl/net/Database.java:54-65 | A parsed line gives a course with an empty roster and `int`-range number and maximum. |
| Catalog.ParseKdams | src/main/java/bgu/spl/net/Database.java:58-63 | The kdam field: `[]` is the empty list. A field of fewer than two characters is the exception `substring` throws. Any other field loses its first and last characters, and the rest is split on commas and parsed. Characterised by `Catalog.ParseKdamsOfFormat` and `Catalog.ParseKdamsIgnoresBrackets`. |
| Catalog.ParseKdamsIgnoresBrackets | src/main/java/bgu/spl/net/Database.java:58-63 | Any kdam field of three or more characters reads the same as its inner part between square brackets: the outer characters are never checked. |
| Catalog.ParseKdamsWitnesses | src/main/java/bgu/spl/net/Database.java:58-63 | The field `(5)` reads as the list `[5]`. The field `[,]` reads as the empty list, because `split` drops the two trailing empty pieces. |
| Catalog.Load | src/main/java/bgu/spl/net/Database.java:53-71 | The loop of `initialize` with the real record parser: each line in turn is parsed and put under its number, and the first bad line stops the load with `false`. Characterised by the `LoadWith` lemmas and `Registration.Database.Initialize`. |
| Catalog.LoadWith | src/main/java/bgu/spl/net/Database.java:53-67 | The same loop for any record parser. `Catalog.LoadOkIffAllParse`, `LoadStopsAtFirstBadLine`, `LoadConcat` and `LoadAppend` state its properties. |
| Catalog.ParseRecordOfFormat | src/main/java/bgu/spl/net/Database.java:54-65 | Every course with `int`-range numbers, a name free of the field separator and an empty roster, written as a record line, parses back to itself. In particular `[]` reads as the empty kdam list. |
| Catalog.SplitOfFormat | src/main/java/bgu/spl/net/Database.java:54 | A written record splits back into exactly its four fields. |
| Catalog.ParseKdamsOfFormat | src/main/java/bgu/spl/net/Database.java:58-63 | A kdam field written as `[]` or as `[k1,...,kn]` parses back to its list. |
| Catalog.ParseIntsOfFormat | src/main/java/bgu/spl/net/Database.java:62 | A list of `int`s written in decimal parses back to itself. |
| Catalog.LoadOkIffAllParse | src/main/java/bgu/spl/net/Database.java:53-71 | The load reports success exactly when every line parses. |
| Catalog.LoadStopsAtFirstBadLine | src/main/java/bgu/spl/net/Database.java:53-70 | At the first bad line the load returns `false`, keeping every course the lines before it put. |
| Catalog.LoadConcat | src/main/java/bgu/spl/net/Database.java:53-67 | Loading `pre + post` after a successful `pre` equals loading `post` into the catalog `pre` left. |
| Catalog.LoadAppend | src/main/java/bgu/spl/net/Database.java:66 | A later record overwrites an earlier one with the same number and leaves every other number alone. |
| Engine.IsRegisteredToServer | src/main/java/bgu/spl/net/Database.java:99-104 | `IsRegistered` exactly when the name is held under either role. |
| Engine.CheckLoggedIn | src/main/java/bgu/spl/net/Database.java:109-114 | `IsLoggedIn` exactly when the name is in the login list. |
| Engine.RegisterStudent | src/main/java/bgu/spl/net/Database.java:77-83 | `registerStudent` as written: a held name is refused, otherwise the student map gains the name with the name itself as password. Characterised by `Engine.RegisterStudentExclusive` and `Engine.StudentPasswordIsUsername`. |
| Engine.RegisterAdministrator | src/main/java/bgu/spl/net/Database.java:88-94 | `registerAdministrator`: a held name is refused, otherwise the administrator map gains the name with the password given. Characterised by `Engine.RegisterAdministratorExclusive` and `Engine.AdministratorPasswordKept`. |
| Engine.Login | src/main/java/bgu/spl/net/Database.java:119-143 | `login`: logged-in users first, then students, then administrators, then unknown names. Characterised by `Engine.LoginWhenLoggedIn` and `Engine.LoginWhenLoggedOut`. |
| Engine.Logout | src/main/java/bgu/spl/net/Database.java:148-154 | `logout`: refused when not logged in, otherwise the name leaves the login list. Characterised by `Engine.LogoutOutcome`. |
| Engine.HasKdams | src/main/java/bgu/spl/net/Database.java:159-167 | Every kdam of the course is on the student's list. The list is read only when there are kdams. |
| Engine.CanRegisterToCourse | src/main/java/bgu/spl/net/Database.java:159-167 | `HaveKdams` exactly when `Engine.HasKdams` holds. Its loop form is `Registration.Database.CanRegisterToCourse`. |
| Engine.FullAsWritten | src/main/java/bgu/spl/net/Database.java:180 | The capacity test as written: full whenever the maximum is at least the roster size. Compared with the corrected test in `Intended.CapacityTestsDisagree`. |
| Engine.RegisterCourseSafe | src/main/java/bgu/spl/net/Database.java:159-189 | The callers' obligation that rules out the `NullPointerException` at lines 162 and 187: past the login, existence and capacity checks, the student has a list. |
| Engine.RegisterCourse | src/main/java/bgu/spl/net/Database.java:172-189 | `registerCourse` as written: login, existence, capacity, kdams, then enrollment. Characterised by `Engine.RegisterCourseFirstFailure` and `Engine.RegisterCourseSuccess`. |
| Engine.Enroll | src/main/java/bgu/spl/net/Database.java:186-187 | The enrollment on both sides: the student joins the roster and the course is appended to the student's list. `Engine.EnrollKeepsMirrored` shows both sides stay in agreement. |
| Engine.CheckRegisteredToCourse | src/main/java/bgu/spl/net/Database.java:225-230 | `IsRegisteredToCourse` exactly when the course is on the student's list. |
| Engine.UnregisterSafe | src/main/java/bgu/spl/net/Database.java:235-240 | The callers' obligation ruling out the exceptions of `unregisterFromCourse`: the student has a list, and a listed course number is a valid position in it and an existing course. |
| Engine.UnregisterFromCourse | src/main/java/bgu/spl/net/Database.java:235-242 | `unregisterFromCourse` as written, removing by position. Characterised by `Engine.UnregisterOutcome` and `Engine.UnregisterByIndexBreaksMirror`. |
| Engine.RegisterStudentExclusive | src/main/java/bgu/spl/net/Database.java:77-83 | A username held under either role gets `IsRegistered` and no change. Otherwise exactly the student map gains the key, older entries are kept, and the invariant (roles disjoint, among others) holds. |
| Engine.RegisterAdministratorExclusive | src/main/java/bgu/spl/net/Database.java:88-94 | The same for administrators, who keep the password given. |
| Engine.SecondRegistrationRefused | src/main/java/bgu/spl/net/Database.java:77-104 | Registering a username a second time, under either role and in either order, is refused. |
| Engine.StudentPasswordIsUsername | src/main/java/bgu/spl/net/Database.java:77-129 | After `registerStudent(u, p)`, `login(u, u)` succeeds and logs `u` in. Every other password, the one given included, gets `WrongPassword`. |
| Engine.AdministratorPasswordKept | src/main/java/bgu/spl/net/Database.java:88-138 | After `registerAdministrator(u, p)`, `login(u, p)` succeeds and every other password is refused. |
| Engine.LoginWhenLoggedIn | src/main/java/bgu/spl/net/Database.java:119-122 | A logged-in user gets `IsLoggedIn`, whatever the password, and nothing changes. |
| Engine.LoginWhenLoggedOut | src/main/java/bgu/spl/net/Database.java:123-142 | Students are consulted before administrators, a wrong password changes nothing, and an unknown user gets `NotRegistered`. A success appends the user once, so the login list keeps no repeats. |
| Engine.LogoutOutcome | src/main/java/bgu/spl/net/Database.java:148-154 | A user not logged in gets `NotLoggedIn` and no change. Otherwise that user, and only that user, leaves the login list. |
| Engine.RegisterCourseFirstFailure | src/main/java/bgu/spl/net/Database.java:172-188 | Each result code holds exactly when its check is the first to fail, in the order login, existence, capacity (`max >= size` is full), kdams. Every failure leaves the state unchanged. |
| Engine.RegisterCourseSuccess | src/main/java/bgu/spl/net/Database.java:186-188 | A success appends the course to the student's list and the student to the roster, and changes nothing else. |
| Engine.RegisterCourseKeepsConsistent | src/main/java/bgu/spl/net/Database.java:172-189 | `registerCourse` keeps the database invariant. |
| Engine.KdamsOrderIrrelevant | src/main/java/bgu/spl/net/Database.java:159-167 | The kdam check is containment: permuting the kdam list does not change its answer. |
| Engine.UnregisterOutcome | src/main/java/bgu/spl/net/Database.java:235-241 | A course not on the list gets `NotRegisteredToCourse` and no change. Otherwise the new list is the old one without its element at position `n`. Course `n` loses one occurrence of the student and keeps its other fields. Every other list, every other course, both user maps and the login list are unchanged, and the invariant holds. |
| Engine.LoadKeepsConsistent | src/main/java/bgu/spl/net/Database.java:53-67 | Loading course lines keeps the database invariant. |
| Engine.PutCourseKeepsConsistent | src/main/java/bgu/spl/net/Database.java:66 | Putting a freshly parsed course keeps the database invariant. |
| Engine.EnrollKeepsMirrored | src/main/java/bgu/spl/net/Database.java:186-187 | Adding the same enrollment to the roster and to the student's list keeps the two sides in agreement. |
| Engine.RegisterCourseKeepsMirrored | src/main/java/bgu/spl/net/Database.java:172-189 | `registerCourse` as written keeps the roster and the student lists in agreement. |
| Engine.CourseWithRoomReportsFull | src/main/java/bgu/spl/net/Database.java:180-181 | Any course whose roster size is at most its maximum, an empty course included, answers `CourseIsFull` to every logged-in student and changes nothing. |
| Engine.IntroRecordLoads | src/main/java/bgu/spl/net/Database.java:53-67 | The record of course 101 (Intro, no kdams, maximum 2) loads as course 101 with capacity 2, no kdams and nobody registered. |
| Engine.IntroScenarioAsWritten | src/main/java/bgu/spl/net/Database.java:172-181 | With the record of course 101 (Intro, no kdams, maximum 2) loaded and alice registered and logged in, alice's first request is refused as full. |
| Engine.UnregisterByIndexBreaksMirror | src/main/java/bgu/spl/net/Database.java:239-240 | A student listing courses `[1, 0]` who unregisters from 0 keeps `[0]` but leaves course 0's roster. Roster and list agreed before and disagree after. |
| Engine.FreshStudentHasNoLedgerEntry | src/main/java/bgu/spl/net/Database.java:159-189 | A newly registered, logged-in student has no course list. So `registerCourse` on any course past the capacity test would dereference a missing entry. |
| Registration.Database.constructor | src/main/java/bgu/spl/net/Database.java:30-37 | All five containers start empty, and the invariant holds. |
| Registration.Database.Initialize | src/main/java/bgu/spl/net/Database.java:50-72 | The loop puts line after line and returns `false` at the first bad line. The result and catalog are those of `Catalog.Load`, nothing else changes, and the invariant is kept. |
| Registration.Database.IsRegisteredToServer | src/main/java/bgu/spl/net/Database.java:99-104 | `IsRegistered` exactly when the username is in either map, `NotRegistered` otherwise. |
| Registration.Database.RegisterStudent | src/main/java/bgu/spl/net/Database.java:77-83 | Result and new state are those of `Engine.RegisterStudent`, and the invariant is kept. |
| Registration.Database.RegisterAdministrator | src/main/java/bgu/spl/net/Database.java:88-94 | Result and new state are those of `Engine.RegisterAdministrator`, and the invariant is kept. |
| Registration.Database.CheckLoggedIn | src/main/java/bgu/spl/net/Database.java:109-114 | `IsLoggedIn` exactly when the user is in the login list, `NotLoggedIn` otherwise. |
| Registration.Database.Login | src/main/java/bgu/spl/net/Database.java:119-143 | Result and new state are those of `Engine.Login`, and the invariant is kept. |
| Registration.Database.Logout | src/main/java/bgu/spl/net/Database.java:148-154 | Result and new state are those of `Engine.Logout`, and the invariant is kept. |
| Registration.Database.CanRegisterToCourse | src/main/java/bgu/spl/net/Database.java:159-167 | The loop answers `HaveKdams` exactly when every kdam is on the student's list, `DontHaveKdams` otherwise. |
| Registration.Database.RegisterCourse | src/main/java/bgu/spl/net/Database.java:172-189 | Result and new state are those of `Engine.RegisterCourse`, and the invariant is kept. |
| Registration.Database.KdamCheck | src/main/java/bgu/spl/net/Database.java:194-196 | Returns the kdam list of the course. |
| Registration.Database.CourseStat | src/main/java/bgu/spl/net/Database.java:201-210 | Returns exactly `[num, name, kdams, max, roster size]`. |
| Registration.Database.StudentStat | src/main/java/bgu/spl/net/Database.java:215-220 | Returns `[username, course list]`, with `null` for a student without a list. |
| Registration.Database.CheckRegisteredToCourse | src/main/java/bgu/spl/net/Database.java:225-230 | `IsRegisteredToCourse` exactly when `n` is on the student's list. |
| Registration.Database.UnregisterFromCourse | src/main/java/bgu/spl/net/Database.java:235-242 | Result and new state are those of `Engine.UnregisterFromCourse` (removal by position), and the invariant is kept. |
| Registration.Database.GetStudentCourses | src/main/java/bgu/spl/net/Database.java:247-249 | The student's list, or `None` (null) exactly when the student has none. |
| Intended.RegisterStudent | src/main/java/bgu/spl/net/Database.java:77-83 | `registerStudent` corrected: the password given is stored, and the student gets an empty list. Characterised by `Intended.RegisteredStudentsHaveLedger` and `Intended.RegisteredStudentLogsInWithPassword`. |
| Intended.IsFull | src/main/java/bgu/spl/net/Database.java:180 | The capacity test corrected: full once the roster size has reached the maximum. |
| Intended.RegisterCourse | src/main/java/bgu/spl/net/Database.java:172-189 | `registerCourse` corrected: the same checks in the same order with the corrected capacity test, a missing list read as empty. Characterised by `Intended.RegisterCourseFirstFailure` and `Intended.RegisterCourseRespectsCapacity`. |
| Intended.UnregisterFromCourse | src/main/java/bgu/spl/net/Database.java:235-242 | `unregisterFromCourse` corrected: the course number itself leaves the list, and a listed course that does not exist answers `NotRegisteredToCourse` instead of the exception at line 240. Characterised by `Intended.UnregisterKeepsMirror`. |
| Intended.RegisteredStudentLogsInWithPassword | src/main/java/bgu/spl/net/Database.java:81 | Corrected: a new student logs in with the password given and with no other. |
| Intended.RegisteredStudentsHaveLedger | src/main/java/bgu/spl/net/Database.java:77-83 | Corrected: registration refuses a taken name with no change. Otherwise it stores the password given and an empty course list. It keeps "every student has a list" and the database invariant. |
| Intended.LedgerRulesOutMissingEntry | src/main/java/bgu/spl/net/Database.java:159-189 | When every student has a list, the code as written never reads a missing entry for a student. |
| Intended.RegisterCourseFirstFailure | src/main/java/bgu/spl/net/Database.java:172-188 | Corrected: the same first-failing-check order, with "full" exactly when the roster size is at least the maximum. Every refusal leaves the state unchanged. |
| Intended.RegisterCourseRespectsCapacity | src/main/java/bgu/spl/net/Database.java:180 | Corrected: an accepted registration finds the roster below the maximum and leaves it one larger, so never above the maximum. |
| Intended.CapacityTestsDisagree | src/main/java/bgu/spl/net/Database.java:180 | The test as written and the corrected test disagree exactly when the roster size differs from the maximum. |
| Intended.MirroredSymmetry | src/main/java/bgu/spl/net/Database.java:186-187 | In a state where roster and lists agree, `c` is on `s`'s list exactly when `s` is on `c`'s roster. |
| Intended.RegisterCourseKeepsMirrored | src/main/java/bgu/spl/net/Database.java:186-187 | The corrected `registerCourse` keeps roster and lists in agreement. |
| Intended.UnregisterKeepsMirror | src/main/java/bgu/spl/net/Database.java:235-241 | Corrected: unregistering succeeds exactly when the course is listed. It takes one occurrence of `n` off the list and one of the student off the roster, and keeps roster and lists in agreement. |
| Intended.RegisterCourseKeepsConsistent | src/main/java/bgu/spl/net/Database.java:172-189 | The corrected `registerCourse` keeps the database invariant for every user who is not an administrator. |
| Intended.UnregisterKeepsConsistent | src/main/java/bgu/spl/net/Database.java:235-242 | The corrected `unregisterFromCourse` keeps the database invariant. |
| Intended.DoubleRegistrationAccepted | src/main/java/bgu/spl/net/Database.java:172-189 | With room for two more, the same student registers twice successfully: the roster counts the student twice more and the list gains the course twice. |
| Intended.RunKeepsMirrored | src/main/java/bgu/spl/net/Database.java:172-242 | After any sequence of corrected registrations and unregistrations, roster and lists still agree. |
| Intended.ClassroomReached | src/main/java/bgu/spl/net/Database.java:50-143 | Loading the record of course 101, then registering and logging in alice, bob and carol, reaches the classroom state. |
| Intended.CapacityScenario | src/main/java/bgu/spl/net/Database.java:172-242 | On any empty course of capacity 2, the requests `a`, `b`, `c`, `a` leaves, `c` are answered success, success, full, success, success. |
| Intended.IntroScenario | src/main/java/bgu/spl/net/Database.java:172-242 | The same, for course 101 with alice, bob and carol. |
| Intended.AdvancedRecordLoads | src/main/java/bgu/spl/net/Database.java:53-67 | The records of course 101 (Intro, no kdams, maximum 2) and course 201 (Advanced, kdam 101, maximum 5) load as courses 101 and 201. |
| Intended.PrerequisitesReached | src/main/java/bgu/spl/net/Database.java:50-143 | Loading both records, then registering and logging in dave, reaches the prerequisites state. |
| Intended.PrerequisiteScenario | src/main/java/bgu/spl/net/Database.java:159-189 | dave is refused 201 for lacking kdam 101, gets into 101, and then gets into 201. |

## Left out

- File I/O: `Files.readAllLines` and the file path of `initialize` (`Database.java:52`). The
  model takes the lines already read. Any I/O error is a `false` the model does not produce.
- The singleton holder, `getInstance` and the thread-safety requirement (`Database.java:11`,
  `:23-44`). The model is sequential. The source has no locking.
- The internals of `Course` and the integer values of the constants class. Neither is part of
  this model: a course is an abstract record with a multiset roster, and codes are an
  enumeration.
- The message classes for the student-stat request and the error reply hold no behaviour.
  Only their opcodes are recorded as constants.
- Text.ParseInt (and `Catalog.ParseInts`, which uses it): `Integer.parseInt` is modelled on ASCII digits only. Java also accepts
  other Unicode decimal digits.
- Registration.Database.KdamCheck, Registration.Database.CourseStat and
  Registration.Database.StudentStat: `kdamCheck` (line 195) and `courseStat` (line 206)
  return the course's own `int[]`, and `studentStat` (line 218) and `getStudentCourses`
  return the student's live list. The model returns values, so aliasing, and later changes
  seen through the returned reference, are not captured.
- Catalog.Course: the roster is a multiset that keeps repeats. This is an assumption:
  `Course.registerStudent` and `Course.unregisterStudent` are not part of this model and may
  drop repeats. `registerCourse` (lines 172-189) never refuses a student already on the
  roster, so a second registration is accepted (`Intended.DoubleRegistrationAccepted`). With a
  roster that drops repeats, registering twice and unregistering once would leave the course
  on the student's list and the student off the roster. `Engine.Mirrored` and
  `Intended.RunKeepsMirrored` hold only under the multiset choice.
- Registration.Database.RegisterCourse (and `Engine.RegisterCourse`): the `requires` excludes
  the `NullPointerException` for a student without a list, at line 162 in the kdam loop or at
  line 187. At line 187 the Java code throws after `course.registerStudent` has already added
  the student to the roster. That exception and the half-done update are not modelled.
- Registration.Database.CanRegisterToCourse (and `Engine.CanRegisterToCourse`): the `requires`
  excludes the `NullPointerException` at line 162 for a student without a list when the
  course has kdams.
- Registration.Database.CheckRegisteredToCourse (and `Engine.CheckRegisteredToCourse`): the
  `requires` excludes the `NullPointerException` at line 226 for a student without a list.
- Registration.Database.UnregisterFromCourse (and `Engine.UnregisterFromCourse`): the `requires`
  excludes three exceptions. The first is the `NullPointerException` at line 226 for a student
  without a list. The second is the `IndexOutOfBoundsException` at line 239 when the course
  number is not a valid position in the student's list. That is the usual case: a student
  listing `[101]` who unregisters from 101 throws. The third is the `NullPointerException` at
  line 240 for a listed course that does not exist, which comes after line 239 has already
  removed an element from the list. These exceptions and that half-done update are not
  modelled.
- Registration.Database.KdamCheck: the `requires` excludes the `NullPointerException` at line
  195 for a course number with no course.
- Registration.Database.CourseStat: the `requires` excludes the `NullPointerException` at line
  203 for a course number with no course.
- The loop properties of the load (`Catalog.LoadWith`) are proved for any record parser passed
  as a function. `Catalog.Load` instantiates it with the real parser.
- Intended.RegisterCourseKeepsConsistent requires that the user is not an administrator. The
  engine lets a logged-in administrator register to a course, which the invariant that only
  students appear on rosters does not allow. The model enforces no role gating, because the
  source has none.

## Findings

| source | as written | input that shows it | evidently intended | confidence | as-written member | corrected member |
|---|---|---|---|---|---|---|
| src/main/java/bgu/spl/net/Database.java:81 | `students.put(studentUsername, studentUsername)`: the username is stored as the password | `registerStudent("u", "p")`, then `login("u", "p")` answers `WrongPassword` and `login("u", "u")` succeeds | store the password given | high, not executed | Engine.StudentPasswordIsUsername | Intended.RegisteredStudentLogsInWithPassword |
| src/main/java/bgu/spl/net/Database.java:180 | `max >= size` reports full | course 101 with maximum 2 and nobody registered: the first student's request is refused as full | full when `size >= max` | high, not executed | Engine.IntroScenarioAsWritten | Intended.IntroScenario |
| src/main/java/bgu/spl/net/Database.java:239 | `remove(courseNum)` with an `int` removes by position | student listing `[1, 0]` unregisters from 0: the list becomes `[0]` while course 0's roster loses the student | remove the course number itself (`remove(Integer.valueOf(courseNum))`) | high, not executed | Engine.UnregisterByIndexBreaksMirror | Intended.UnregisterKeepsMirror |
| src/main/java/bgu/spl/net/Database.java:77-83 | no ledger entry is ever created for a student, so lines 162 and 187 dereference a missing list | a freshly registered, logged-in student requests any course past the capacity test | registration creates an empty course list | high, not executed | Engine.FreshStudentHasNoLedgerEntry | Intended.RegisteredStudentsHaveLedger |
