/** The registration engine of `Database.java` as a state machine over a value: each
    operation maps the five containers (and its arguments) to a result code and the
    containers afterwards. The class `Registration.Database` is proved to follow these
    functions step for step; the lemmas here state what the operations promise. */
module Engine {
  import opened Maybe
  import opened Seqs
  import opened Codes
  import opened Catalog
  import opened Text

  /** The five containers of the database. */
  datatype Db = Db(
    students: map<string, string>,
    administrators: map<string, string>,
    studentCourses: map<string, seq<int>>,
    courses: map<int, Course>,
    loggedIn: seq<string>)

  /** A result code together with the state it leaves. */
  datatype Outcome = Outcome(code: Code, db: Db)

  /** The state the private constructor builds: every container empty. */
  const Empty: Db := Db(map[], map[], map[], map[], [])

  /** The database invariant: a username belongs to at most one role, the login list has no
      repeats and holds only registered users, and only students appear in the ledger and in
      course rosters. */
  ghost predicate Consistent(db: Db) {
    && db.students.Keys !! db.administrators.Keys
    && NoDuplicates(db.loggedIn)
    && (forall u :: u in db.loggedIn ==> IsUser(db, u))
    && db.studentCourses.Keys <= db.students.Keys
    && (forall n, u :: n in db.courses && u in db.courses[n].roster ==> u in db.students)
  }

  predicate IsUser(db: Db, u: string) {
    u in db.students || u in db.administrators
  }

  // ---------------------------------------------------------------- identity store

  function IsRegisteredToServer(db: Db, u: string): Code {
    if IsUser(db, u) then IsRegistered else NotRegistered
  }

  function CheckLoggedIn(db: Db, u: string): Code {
    if u in db.loggedIn then IsLoggedIn else NotLoggedIn
  }

  /** As written, the username, not the password given, is stored as the password. */
  function RegisterStudent(db: Db, u: string, password: string): Outcome {
    if IsRegisteredToServer(db, u) == IsRegistered then Outcome(IsRegistered, db)
    else Outcome(RegisteredStudentSuccessfully, db.(students := db.students[u := u]))
  }

  function RegisterAdministrator(db: Db, u: string, password: string): Outcome {
    if IsRegisteredToServer(db, u) == IsRegistered then Outcome(IsRegistered, db)
    else Outcome(RegisteredAdministratorSuccessfully, db.(administrators := db.administrators[u := password]))
  }

  function Login(db: Db, u: string, password: string): Outcome {
    if CheckLoggedIn(db, u) == IsLoggedIn then Outcome(IsLoggedIn, db)
    else if u in db.students then
      if db.students[u] == password then
        Outcome(RegisteredStudentSuccessfully, db.(loggedIn := db.loggedIn + [u]))
      else Outcome(WrongPassword, db)
    else if u in db.administrators then
      if db.administrators[u] == password then
        Outcome(RegisteredAdministratorSuccessfully, db.(loggedIn := db.loggedIn + [u]))
      else Outcome(WrongPassword, db)
    else Outcome(NotRegistered, db)
  }

  function Logout(db: Db, u: string): Outcome {
    if CheckLoggedIn(db, u) == NotLoggedIn then Outcome(NotLoggedIn, db)
    else Outcome(LoggedOutSuccessfully, db.(loggedIn := RemoveFirst(db.loggedIn, u)))
  }

  // ---------------------------------------------------------------- course registration

  /** Every kdam of the course is in the student's course list. With no kdams the list is
      never looked up, so a student without a ledger entry passes. */
  predicate HasKdams(db: Db, u: string, kdams: seq<int>)
    requires kdams != [] ==> u in db.studentCourses
  {
    forall k :: k in kdams ==> k in db.studentCourses[u]
  }

  function CanRegisterToCourse(db: Db, u: string, c: Course): Code
    requires c.kdams != [] ==> u in db.studentCourses
  {
    if HasKdams(db, u, c.kdams) then HaveKdams else DontHaveKdams
  }

  /** The capacity test as written: "full" whenever the maximum is at least the roster size. */
  predicate FullAsWritten(c: Course) {
    c.maxStudents >= c.Size()
  }

  /** What `registerCourse` needs of its caller: whenever it gets past the capacity test it
      reads the student's ledger entry (in the kdam loop, or when adding the course), which
      throws when the entry is missing. */
  predicate RegisterCourseSafe(db: Db, u: string, n: int) {
    u in db.loggedIn && n in db.courses && !FullAsWritten(db.courses[n]) ==> u in db.studentCourses
  }

  function RegisterCourse(db: Db, u: string, n: int): Outcome
    requires RegisterCourseSafe(db, u, n)
  {
    if CheckLoggedIn(db, u) == NotLoggedIn then Outcome(NotLoggedIn, db)
    else if n !in db.courses then Outcome(NoSuchCourse, db)
    else if FullAsWritten(db.courses[n]) then Outcome(CourseIsFull, db)
    else if CanRegisterToCourse(db, u, db.courses[n]) == DontHaveKdams then Outcome(DontHaveKdams, db)
    else Outcome(RegisteredCourseSuccessfully, Enroll(db, u, n))
  }

  /** Both sides of the ledger gain the enrollment: the roster and the student's list. */
  function Enroll(db: Db, u: string, n: int): Db
    requires u in db.studentCourses && n in db.courses
  {
    db.(courses := db.courses[n := db.courses[n].WithStudent(u)],
        studentCourses := db.studentCourses[u := db.studentCourses[u] + [n]])
  }

  function CheckRegisteredToCourse(db: Db, u: string, n: int): Code
    requires u in db.studentCourses
  {
    if n in db.studentCourses[u] then IsRegisteredToCourse else NotRegisteredToCourse
  }

  /** What `unregisterFromCourse` needs of its caller: a ledger entry, and, when the course is
      listed, `n` must also be a position in that list (it is removed by index) and the
      course must exist. */
  predicate UnregisterSafe(db: Db, u: string, n: int) {
    && u in db.studentCourses
    && (n in db.studentCourses[u] ==> 0 <= n < |db.studentCourses[u]| && n in db.courses)
  }

  /** As written, the student's list loses the element at POSITION `n`, while course `n`
      loses the student. */
  function UnregisterFromCourse(db: Db, u: string, n: int): Outcome
    requires UnregisterSafe(db, u, n)
  {
    if CheckRegisteredToCourse(db, u, n) == NotRegisteredToCourse then Outcome(NotRegisteredToCourse, db)
    else
      Outcome(UnregisteredFromCourseSuccessfully,
        db.(studentCourses := db.studentCourses[u := RemoveAt(db.studentCourses[u], n)],
            courses := db.courses[n := db.courses[n].WithoutStudent(u)]))
  }

  // ---------------------------------------------------------------- registration of users

  /** A username held under either role is refused and nothing changes; otherwise exactly the
      student map gains it, and the roles stay disjoint. */
  lemma RegisterStudentExclusive(db: Db, u: string, password: string)
    ensures var o := RegisterStudent(db, u, password);
      && (o.code == IsRegistered <==> IsUser(db, u))
      && (IsUser(db, u) ==> o.db == db)
      && (!IsUser(db, u) ==>
            && o.code == RegisteredStudentSuccessfully
            && o.db.students.Keys == db.students.Keys + {u}
            && (forall v :: v in db.students ==> o.db.students[v] == db.students[v])
            && o.db == db.(students := o.db.students))
      && (Consistent(db) ==> Consistent(o.db))
  {
  }

  /** The same for administrators, who keep the password they gave. */
  lemma RegisterAdministratorExclusive(db: Db, u: string, password: string)
    ensures var o := RegisterAdministrator(db, u, password);
      && (o.code == IsRegistered <==> IsUser(db, u))
      && (IsUser(db, u) ==> o.db == db)
      && (!IsUser(db, u) ==>
            && o.code == RegisteredAdministratorSuccessfully
            && o.db.administrators.Keys == db.administrators.Keys + {u}
            && o.db.administrators[u] == password
            && (forall v :: v in db.administrators ==> o.db.administrators[v] == db.administrators[v])
            && o.db == db.(administrators := o.db.administrators))
      && (Consistent(db) ==> Consistent(o.db))
  {
  }

  /** Registering one username under both roles, in either order: the second call is refused. */
  lemma SecondRegistrationRefused(db: Db, u: string, p: string, q: string)
    ensures RegisterAdministrator(RegisterStudent(db, u, p).db, u, q).code == IsRegistered
    ensures RegisterStudent(RegisterAdministrator(db, u, p).db, u, q).code == IsRegistered
    ensures RegisterStudent(RegisterStudent(db, u, p).db, u, q).code == IsRegistered
    ensures RegisterAdministrator(RegisterAdministrator(db, u, p).db, u, q).code == IsRegistered
  {
  }

  // ---------------------------------------------------------------- login and logout

  /** A new student logs in with the username as password, and with nothing else, not even
      the password given at registration. */
  lemma StudentPasswordIsUsername(db: Db, u: string, password: string, q: string)
    requires Consistent(db) && !IsUser(db, u)
    ensures var d := RegisterStudent(db, u, password).db;
      && Login(d, u, u) == Outcome(RegisteredStudentSuccessfully, d.(loggedIn := d.loggedIn + [u]))
      && (q != u ==> Login(d, u, q) == Outcome(WrongPassword, d))
  {
    assert u !in db.loggedIn;
  }

  /** A new administrator logs in with the password given, and with no other. */
  lemma AdministratorPasswordKept(db: Db, u: string, password: string, q: string)
    requires Consistent(db) && !IsUser(db, u)
    ensures var d := RegisterAdministrator(db, u, password).db;
      && Login(d, u, password) == Outcome(RegisteredAdministratorSuccessfully, d.(loggedIn := d.loggedIn + [u]))
      && (q != password ==> Login(d, u, q) == Outcome(WrongPassword, d))
  {
    assert u !in db.loggedIn;
  }

  /** A logged-in user gets `IsLoggedIn` whatever the password, and nothing changes. */
  lemma LoginWhenLoggedIn(db: Db, u: string, password: string)
    requires u in db.loggedIn
    ensures Login(db, u, password) == Outcome(IsLoggedIn, db)
  {
  }

  /** Login of a user not logged in: students are consulted before administrators, a wrong
      password changes nothing, an unknown user is `NotRegistered`, and a success appends the
      user once, so the login list stays free of repeats. */
  lemma LoginWhenLoggedOut(db: Db, u: string, password: string)
    requires u !in db.loggedIn
    ensures var o := Login(db, u, password);
      && (u in db.students ==>
            o == if db.students[u] == password
                 then Outcome(RegisteredStudentSuccessfully, db.(loggedIn := db.loggedIn + [u]))
                 else Outcome(WrongPassword, db))
      && (u !in db.students && u in db.administrators ==>
            o == if db.administrators[u] == password
                 then Outcome(RegisteredAdministratorSuccessfully, db.(loggedIn := db.loggedIn + [u]))
                 else Outcome(WrongPassword, db))
      && (!IsUser(db, u) ==> o == Outcome(NotRegistered, db))
      && (Consistent(db) ==> Consistent(o.db))
  {
    var o := Login(db, u, password);
    if Consistent(db) && o.db != db {
      assert o.db.loggedIn == db.loggedIn + [u];
      forall i, j | 0 <= i < j < |o.db.loggedIn| ensures o.db.loggedIn[i] != o.db.loggedIn[j] {
        if j == |db.loggedIn| {
          assert o.db.loggedIn[i] == db.loggedIn[i] && db.loggedIn[i] in db.loggedIn;
        }
      }
    }
  }

  /** Logout of a user who is not logged in changes nothing; otherwise the user, and only the
      user, leaves the login list. */
  lemma LogoutOutcome(db: Db, u: string)
    requires Consistent(db)
    ensures var o := Logout(db, u);
      && (u !in db.loggedIn ==> o == Outcome(NotLoggedIn, db))
      && (u in db.loggedIn ==>
            && o.code == LoggedOutSuccessfully
            && u !in o.db.loggedIn
            && (forall v :: v != u ==> (v in o.db.loggedIn <==> v in db.loggedIn))
            && o.db == db.(loggedIn := o.db.loggedIn))
      && Consistent(o.db)
  {
    RemoveFirstNoDuplicates(db.loggedIn, u);
  }

  // ---------------------------------------------------------------- course registration

  /** `registerCourse` answers with the first check that fails, in the order login, course
      existence, capacity (as written), kdams; every failure leaves the state as it was. */
  lemma RegisterCourseFirstFailure(db: Db, u: string, n: int)
    requires RegisterCourseSafe(db, u, n)
    ensures var o := RegisterCourse(db, u, n);
      && (o.code == NotLoggedIn <==> u !in db.loggedIn)
      && (o.code == NoSuchCourse <==> u in db.loggedIn && n !in db.courses)
      && (o.code == CourseIsFull <==>
            u in db.loggedIn && n in db.courses && db.courses[n].maxStudents >= db.courses[n].Size())
      && (o.code == DontHaveKdams <==>
            u in db.loggedIn && n in db.courses && !FullAsWritten(db.courses[n]) &&
            !HasKdams(db, u, db.courses[n].kdams))
      && (o.code == RegisteredCourseSuccessfully <==>
            u in db.loggedIn && n in db.courses && !FullAsWritten(db.courses[n]) &&
            HasKdams(db, u, db.courses[n].kdams))
      && (o.code != RegisteredCourseSuccessfully ==> o.db == db)
  {
  }

  /** A successful `registerCourse` appends the course to the student's list and the student
      to the course's roster, and changes nothing else. */
  lemma RegisterCourseSuccess(db: Db, u: string, n: int)
    requires RegisterCourseSafe(db, u, n)
    requires RegisterCourse(db, u, n).code == RegisteredCourseSuccessfully
    ensures u in db.studentCourses && n in db.courses
    ensures var d := RegisterCourse(db, u, n).db;
      && d.studentCourses.Keys == db.studentCourses.Keys
      && d.studentCourses[u] == db.studentCourses[u] + [n]
      && (forall v :: v in db.studentCourses && v != u ==> d.studentCourses[v] == db.studentCourses[v])
      && d.courses.Keys == db.courses.Keys
      && d.courses[n] == db.courses[n].(roster := db.courses[n].roster + multiset{u})
      && (forall m :: m in db.courses && m != n ==> d.courses[m] == db.courses[m])
      && d.students == db.students && d.administrators == db.administrators && d.loggedIn == db.loggedIn
  {
  }

  /** `registerCourse` keeps the database invariant: the student it adds to a roster is
      logged in with a ledger entry, hence a registered student. */
  lemma RegisterCourseKeepsConsistent(db: Db, u: string, n: int)
    requires RegisterCourseSafe(db, u, n) && Consistent(db)
    ensures Consistent(RegisterCourse(db, u, n).db)
  {
    var o := RegisterCourse(db, u, n);
    if o.code == RegisteredCourseSuccessfully {
      var d := o.db;
      forall m, v | m in d.courses && v in d.courses[m].roster ensures v in d.students {
        if m == n && v == u {
          assert u in db.studentCourses;
        } else {
          assert v in db.courses[m].roster;
        }
      }
    }
  }

  /** The kdam test is a containment test: permuting the kdam list, or repeating entries of
      it, does not change the answer. */
  lemma KdamsOrderIrrelevant(db: Db, u: string, kdams: seq<int>, other: seq<int>)
    requires u in db.studentCourses
    requires multiset(kdams) == multiset(other)
    ensures HasKdams(db, u, kdams) == HasKdams(db, u, other)
  {
    forall k ensures k in kdams <==> k in other {
      assert k in kdams <==> k in multiset(kdams);
      assert k in other <==> k in multiset(other);
    }
  }

  // ---------------------------------------------------------------- unregistration

  /** A course the student does not list is answered `NotRegisteredToCourse` with no change;
      otherwise the list loses the element at position `n`, course `n` loses one occurrence of
      the student, and nothing else changes. The student need not be logged in. */
  lemma UnregisterOutcome(db: Db, u: string, n: int)
    requires UnregisterSafe(db, u, n)
    ensures var o := UnregisterFromCourse(db, u, n);
      && (n !in db.studentCourses[u] ==> o == Outcome(NotRegisteredToCourse, db))
      && (n in db.studentCourses[u] ==>
            && o.code == UnregisteredFromCourseSuccessfully
            && o.db.studentCourses.Keys == db.studentCourses.Keys
            && o.db.studentCourses[u] == db.studentCourses[u][..n] + db.studentCourses[u][n + 1..]
            && multiset(o.db.studentCourses[u]) == multiset(db.studentCourses[u]) - multiset{db.studentCourses[u][n]}
            && (forall v :: v in db.studentCourses && v != u ==> o.db.studentCourses[v] == db.studentCourses[v])
            && o.db.courses.Keys == db.courses.Keys
            && o.db.courses[n] == db.courses[n].(roster := db.courses[n].roster - multiset{u})
            && (forall m :: m in db.courses && m != n ==> o.db.courses[m] == db.courses[m])
            && o.db.students == db.students && o.db.administrators == db.administrators
            && o.db.loggedIn == db.loggedIn)
      && (Consistent(db) ==> Consistent(o.db))
  {
    var o := UnregisterFromCourse(db, u, n);
    if Consistent(db) && o.code == UnregisteredFromCourseSuccessfully {
      forall m, v | m in o.db.courses && v in o.db.courses[m].roster ensures v in o.db.students {
        assert v in db.courses[m].roster;
      }
    }
  }

  // ---------------------------------------------------------------- loading the catalog

  /** Loading courses keeps the invariant: every course put by the loader has an empty roster. */
  lemma {:induction false} LoadKeepsConsistent(db: Db, lines: seq<string>)
    requires Consistent(db)
    ensures Consistent(db.(courses := Load(db.courses, lines).courses))
    decreases |lines|
  {
    if lines != [] {
      var r := ParseRecord(lines[0]);
      if r.Some? {
        var c := r.value;
        PutCourseKeepsConsistent(db, c);
        LoadKeepsConsistent(db.(courses := db.courses[c.num := c]), lines[1..]);
      }
    }
  }

  /** Putting a course with an empty roster keeps the invariant. */
  lemma PutCourseKeepsConsistent(db: Db, c: Course)
    requires Consistent(db) && c.roster == multiset{}
    ensures Consistent(db.(courses := db.courses[c.num := c]))
  {
    var next := db.(courses := db.courses[c.num := c]);
    forall m, v | m in next.courses && v in next.courses[m].roster ensures v in next.students {
      assert m != c.num;
      assert v in db.courses[m].roster;
    }
  }

  // ---------------------------------------------------------------- the two sides of the ledger

  /** The courses a student lists, an absent entry read as none. */
  function Taken(db: Db, s: string): seq<int> {
    if s in db.studentCourses then db.studentCourses[s] else []
  }

  /** Both sides of the enrollment relation agree, occurrence for occurrence: a student lists
      course `c` as often as `c`'s roster holds the student, and lists only existing courses. */
  ghost predicate Mirrored(db: Db) {
    && (forall s, c :: c in db.courses ==> multiset(Taken(db, s))[c] == db.courses[c].roster[s])
    && (forall s, c :: c in Taken(db, s) ==> c in db.courses)
  }

  /** Adding the same enrollment to both sides keeps them in agreement. */
  lemma EnrollKeepsMirrored(db: Db, u: string, n: int)
    requires Mirrored(db) && n in db.courses
    ensures var d := db.(courses := db.courses[n := db.courses[n].WithStudent(u)],
                         studentCourses := db.studentCourses[u := Taken(db, u) + [n]]);
      Mirrored(d)
  {
    EnrollKeepsCounts(db, u, n);
    EnrollKeepsListed(db, u, n);
  }

  lemma EnrollKeepsCounts(db: Db, u: string, n: int)
    requires Mirrored(db) && n in db.courses
    ensures var d := db.(courses := db.courses[n := db.courses[n].WithStudent(u)],
                         studentCourses := db.studentCourses[u := Taken(db, u) + [n]]);
      forall s, c :: c in d.courses ==> multiset(Taken(d, s))[c] == d.courses[c].roster[s]
  {
    var d := db.(courses := db.courses[n := db.courses[n].WithStudent(u)],
                 studentCourses := db.studentCourses[u := Taken(db, u) + [n]]);
    forall s, c | c in d.courses ensures multiset(Taken(d, s))[c] == d.courses[c].roster[s] {
      if s == u {
        assert Taken(d, s) == Taken(db, s) + [n];
      } else {
        assert Taken(d, s) == Taken(db, s);
      }
    }
  }

  lemma EnrollKeepsListed(db: Db, u: string, n: int)
    requires Mirrored(db) && n in db.courses
    ensures var d := db.(courses := db.courses[n := db.courses[n].WithStudent(u)],
                         studentCourses := db.studentCourses[u := Taken(db, u) + [n]]);
      forall s, c :: c in Taken(d, s) ==> c in d.courses
  {
    var d := db.(courses := db.courses[n := db.courses[n].WithStudent(u)],
                 studentCourses := db.studentCourses[u := Taken(db, u) + [n]]);
    forall s, c | c in Taken(d, s) ensures c in d.courses {
      if s == u {
        assert Taken(d, s) == Taken(db, s) + [n];
      } else {
        assert Taken(d, s) == Taken(db, s);
      }
    }
  }

  /** `registerCourse` keeps the two sides of the ledger in agreement. */
  lemma RegisterCourseKeepsMirrored(db: Db, u: string, n: int)
    requires RegisterCourseSafe(db, u, n) && Mirrored(db)
    ensures Mirrored(RegisterCourse(db, u, n).db)
  {
    if RegisterCourse(db, u, n).code == RegisteredCourseSuccessfully {
      EnrollKeepsMirrored(db, u, n);
      assert RegisterCourse(db, u, n).db ==
        db.(courses := db.courses[n := db.courses[n].WithStudent(u)],
            studentCourses := db.studentCourses[u := Taken(db, u) + [n]]);
    }
  }

  // ---------------------------------------------------------------- behaviour as written

  /** Line 180 as written: a course whose maximum is at least its roster size, for instance
      any course with a non-negative maximum that nobody has joined yet, answers
      `CourseIsFull` to every logged-in student and changes nothing. */
  lemma CourseWithRoomReportsFull(db: Db, u: string, n: int)
    requires u in db.loggedIn && n in db.courses
    requires db.courses[n].Size() <= db.courses[n].maxStudents
    ensures RegisterCourseSafe(db, u, n)
    ensures RegisterCourse(db, u, n) == Outcome(CourseIsFull, db)
  {
  }

  /** The record `101|Intro|[]|2` loads as course 101, capacity 2, no kdams, nobody registered. */
  lemma IntroRecordLoads()
    ensures Load(map[], ["101|Intro|[]|2"]) == LoadResult(true, map[101 := Course(101, "Intro", [], 2, multiset{})])
  {
    var intro := Course(101, "Intro", [], 2, multiset{});
    var line := "101|Intro|[]|2";
    assert ParseRecord(line) == Some(intro) by {
      IntroRecordText();
      ParseRecordOfFormat(intro);
    }
    assert Load(map[], [line]) == Load(map[101 := intro], [line][1..]);
    assert [line][1..] == [];
  }

  lemma IntroRecordText()
    ensures FormatRecord(Course(101, "Intro", [], 2, multiset{})) == "101|Intro|[]|2"
  {
    assert IntToString(101) == "101" by {
      assert NatToString(1) == "1";
      assert NatToString(10) == "10";
    }
    assert IntToString(2) == "2";
  }

  /** Course 101 of maximum 2, as written: the course `101|Intro|[]|2` loaded into an empty
      catalog and a student alice registered and logged in; alice's request is
      refused as full although nobody is registered. */
  lemma IntroScenarioAsWritten()
    ensures var loaded := Load(map[], ["101|Intro|[]|2"]);
      && loaded.ok
      && var d0 := Empty.(courses := loaded.courses);
      && var d1 := RegisterStudent(d0, "alice", "pw").db;
      && var d2 := Login(d1, "alice", "alice").db;
      && RegisterCourseSafe(d2, "alice", 101)
      && RegisterCourse(d2, "alice", 101).code == CourseIsFull
  {
    IntroRecordLoads();
    var d0 := Empty.(courses := map[101 := Course(101, "Intro", [], 2, multiset{})]);
    var d1 := RegisterStudent(d0, "alice", "pw").db;
    assert d1.students == map["alice" := "alice"];
    var d2 := Login(d1, "alice", "alice").db;
    assert d2.loggedIn == ["alice"];
    CourseWithRoomReportsFull(d2, "alice", 101);
  }

  /** A student listing courses 1 and 0, in that order, each of whose rosters holds the student. */
  const TwoCourseStudent: Db :=
    Db(map["u" := "u"], map[], map["u" := [1, 0]],
       map[0 := Course(0, "A", [], 5, multiset{"u"}), 1 := Course(1, "B", [], 5, multiset{"u"})],
       ["u"])

  lemma TwoCourseStudentMirrored()
    ensures Consistent(TwoCourseStudent) && Mirrored(TwoCourseStudent)
  {
    var db := TwoCourseStudent;
    assert Taken(db, "u") == [1, 0];
    assert multiset([1, 0])[0] == 1 && multiset([1, 0])[1] == 1;
    forall s, c | c in db.courses ensures multiset(Taken(db, s))[c] == db.courses[c].roster[s] {
      if s != "u" {
        assert Taken(db, s) == [];
      }
    }
    forall s, c | c in Taken(db, s) ensures c in db.courses {
      assert s == "u";
    }
  }

  /** Line 239 as written: `remove(courseNum)` on a list of course numbers removes by position.
      The student listing courses 1 and 0 who unregisters from 0 keeps 0 in the list and loses
      1, while course 0's roster loses the student: the two sides of the ledger, which agreed
      before, no longer do. */
  lemma UnregisterByIndexBreaksMirror()
    ensures UnregisterSafe(TwoCourseStudent, "u", 0)
    ensures Consistent(TwoCourseStudent) && Mirrored(TwoCourseStudent)
    ensures var d := UnregisterFromCourse(TwoCourseStudent, "u", 0).db;
      && d.studentCourses["u"] == [0]
      && "u" !in d.courses[0].roster
      && !Mirrored(d)
  {
    TwoCourseStudentMirrored();
    var d := UnregisterFromCourse(TwoCourseStudent, "u", 0).db;
    assert d.studentCourses["u"] == [0];
    assert Taken(d, "u") == [0];
    assert multiset(Taken(d, "u"))[0] == 1;
    assert d.courses[0].roster["u"] == 0;
  }

  /** Nothing in the engine creates a ledger entry: a student who has just registered and
      logged in has none, so `registerCourse` on any course that passes the capacity test as
      written would read a missing entry (a NullPointerException at line 162 or 187). */
  lemma FreshStudentHasNoLedgerEntry(db: Db, u: string, password: string)
    requires Consistent(db) && !IsUser(db, u)
    ensures var d := Login(RegisterStudent(db, u, password).db, u, u).db;
      && u in d.loggedIn && u !in d.studentCourses
      && d.studentCourses == db.studentCourses
      && forall n :: n in d.courses && !FullAsWritten(d.courses[n]) ==> !RegisterCourseSafe(d, u, n)
  {
    assert u !in db.loggedIn;
  }
}
