/** The registration engine corrected in the four places where the code evidently does not do
    what it means: a new student keeps the password given, and registration
    creates an empty course list for the student; a course is full once its roster has reached
    the maximum; and unregistering removes the course number itself from the student's list.
    A missing list is read as empty. One exception path is also given an answer: unregistering
    from a listed course that does not exist answers `NotRegisteredToCourse`, where the code
    throws after it has already changed the list. Everything else is `Engine` unchanged. */
module Intended {
  import opened Maybe
  import opened Seqs
  import opened Codes
  import opened Text
  import opened Catalog
  import Engine

  /** `registerStudent` corrected: the password given is stored, and the student starts with
      an empty course list. */
  function RegisterStudent(db: Engine.Db, u: string, password: string): Engine.Outcome {
    if Engine.IsRegisteredToServer(db, u) == IsRegistered then Engine.Outcome(IsRegistered, db)
    else
      Engine.Outcome(RegisteredStudentSuccessfully,
        db.(students := db.students[u := password], studentCourses := db.studentCourses[u := []]))
  }

  /** The capacity test corrected: full once the roster has reached the maximum. */
  predicate IsFull(c: Course) {
    c.Size() >= c.maxStudents
  }

  /** The kdam test on the student's list, a missing list read as empty. */
  predicate HasKdams(db: Engine.Db, u: string, kdams: seq<int>) {
    forall k :: k in kdams ==> k in Engine.Taken(db, u)
  }

  /** The enrollment added to both sides: the student to the roster, the course to the list. */
  function Enroll(db: Engine.Db, u: string, n: int): Engine.Db
    requires n in db.courses
  {
    db.(courses := db.courses[n := db.courses[n].WithStudent(u)],
        studentCourses := db.studentCourses[u := Engine.Taken(db, u) + [n]])
  }

  /** `registerCourse` corrected: the same checks in the same order, with the corrected
      capacity test, and no missing list to trip over. */
  function RegisterCourse(db: Engine.Db, u: string, n: int): Engine.Outcome {
    if u !in db.loggedIn then Engine.Outcome(NotLoggedIn, db)
    else if n !in db.courses then Engine.Outcome(NoSuchCourse, db)
    else if IsFull(db.courses[n]) then Engine.Outcome(CourseIsFull, db)
    else if !HasKdams(db, u, db.courses[n].kdams) then Engine.Outcome(DontHaveKdams, db)
    else Engine.Outcome(RegisteredCourseSuccessfully, Enroll(db, u, n))
  }

  /** `unregisterFromCourse` corrected: the course number, not the element at that position,
      leaves the list, and a listed course that does not exist is answered as not registered
      rather than by the exception of line 240. */
  function UnregisterFromCourse(db: Engine.Db, u: string, n: int): Engine.Outcome {
    if n !in Engine.Taken(db, u) || n !in db.courses then Engine.Outcome(NotRegisteredToCourse, db)
    else
      Engine.Outcome(UnregisteredFromCourseSuccessfully,
        db.(studentCourses := db.studentCourses[u := RemoveFirst(Engine.Taken(db, u), n)],
            courses := db.courses[n := db.courses[n].WithoutStudent(u)]))
  }

  // ---------------------------------------------------------------- passwords and lists

  /** A new student logs in with the password given at registration, and with no other. */
  lemma RegisteredStudentLogsInWithPassword(db: Engine.Db, u: string, password: string, q: string)
    requires Engine.Consistent(db) && !Engine.IsUser(db, u)
    ensures var d := RegisterStudent(db, u, password).db;
      && Engine.Login(d, u, password) ==
           Engine.Outcome(RegisteredStudentSuccessfully, d.(loggedIn := d.loggedIn + [u]))
      && (q != password ==> Engine.Login(d, u, q) == Engine.Outcome(WrongPassword, d))
  {
    assert u !in db.loggedIn;
  }

  /** Every registered student has a course list. */
  ghost predicate Ledgered(db: Engine.Db) {
    forall s :: s in db.students ==> s in db.studentCourses
  }

  /** Registration refuses a taken username and changes nothing; otherwise it adds the student
      with the password given and an empty list. It keeps both invariants. */
  lemma RegisteredStudentsHaveLedger(db: Engine.Db, u: string, password: string)
    ensures var o := RegisterStudent(db, u, password);
      && (o.code == IsRegistered <==> Engine.IsUser(db, u))
      && (Engine.IsUser(db, u) ==> o.db == db)
      && (!Engine.IsUser(db, u) ==>
            && o.code == RegisteredStudentSuccessfully
            && o.db.students == db.students[u := password]
            && o.db.studentCourses == db.studentCourses[u := []])
      && (Ledgered(db) ==> Ledgered(o.db))
      && (Engine.Consistent(db) ==> Engine.Consistent(o.db))
  {
  }

  /** With every student holding a list, the code as written never reads a missing list when
      a logged-in student registers to a course or unregisters. */
  lemma LedgerRulesOutMissingEntry(db: Engine.Db, u: string, n: int)
    requires Ledgered(db) && u in db.students
    ensures Engine.RegisterCourseSafe(db, u, n)
    ensures u in db.studentCourses
  {
  }

  // ---------------------------------------------------------------- capacity

  /** The corrected `registerCourse` answers with the first check that fails; a course is
      refused as full exactly when its roster has reached the maximum, and every refusal
      leaves the state as it was. */
  lemma RegisterCourseFirstFailure(db: Engine.Db, u: string, n: int)
    ensures var o := RegisterCourse(db, u, n);
      && (o.code == NotLoggedIn <==> u !in db.loggedIn)
      && (o.code == NoSuchCourse <==> u in db.loggedIn && n !in db.courses)
      && (o.code == CourseIsFull <==>
            u in db.loggedIn && n in db.courses && db.courses[n].Size() >= db.courses[n].maxStudents)
      && (o.code == DontHaveKdams <==>
            u in db.loggedIn && n in db.courses && !IsFull(db.courses[n]) &&
            exists k :: k in db.courses[n].kdams && k !in Engine.Taken(db, u))
      && (o.code == RegisteredCourseSuccessfully <==>
            u in db.loggedIn && n in db.courses && !IsFull(db.courses[n]) &&
            HasKdams(db, u, db.courses[n].kdams))
      && (o.code != RegisteredCourseSuccessfully ==> o.db == db)
  {
  }

  /** An accepted registration finds the roster below the maximum and leaves it one larger,
      so never above the maximum. */
  lemma RegisterCourseRespectsCapacity(db: Engine.Db, u: string, n: int)
    requires RegisterCourse(db, u, n).code == RegisteredCourseSuccessfully
    ensures n in db.courses
    ensures db.courses[n].Size() < db.courses[n].maxStudents
    ensures var d := RegisterCourse(db, u, n).db;
      && d.courses[n].Size() == db.courses[n].Size() + 1
      && d.courses[n].Size() <= d.courses[n].maxStudents
  {
  }

  /** Where the code as written and the corrected test disagree: exactly when the roster is
      strictly below the maximum (the code says full, there is room) or strictly above it
      (the code lets one more in). */
  lemma CapacityTestsDisagree(c: Course)
    ensures Engine.FullAsWritten(c) != IsFull(c) <==> c.Size() != c.maxStudents
  {
  }

  // ---------------------------------------------------------------- the two sides of the ledger

  /** In a mirrored state, `c` is on the student's list exactly when the student is on `c`'s
      roster. */
  lemma MirroredSymmetry(db: Engine.Db, s: string, c: int)
    requires Engine.Mirrored(db) && c in db.courses
    ensures c in Engine.Taken(db, s) <==> s in db.courses[c].roster
  {
    assert c in Engine.Taken(db, s) <==> c in multiset(Engine.Taken(db, s));
  }

  lemma RegisterCourseKeepsMirrored(db: Engine.Db, u: string, n: int)
    requires Engine.Mirrored(db)
    ensures Engine.Mirrored(RegisterCourse(db, u, n).db)
  {
    if RegisterCourse(db, u, n).code == RegisteredCourseSuccessfully {
      Engine.EnrollKeepsMirrored(db, u, n);
    }
  }

  /** Unregistering by value takes the same enrollment off both sides. */
  lemma UnregisterKeepsMirror(db: Engine.Db, u: string, n: int)
    requires Engine.Mirrored(db)
    ensures var o := UnregisterFromCourse(db, u, n);
      && (o.code == UnregisteredFromCourseSuccessfully <==> n in Engine.Taken(db, u))
      && (o.code == UnregisteredFromCourseSuccessfully ==>
            && multiset(Engine.Taken(o.db, u)) == multiset(Engine.Taken(db, u)) - multiset{n}
            && o.db.courses[n].roster == db.courses[n].roster - multiset{u})
      && Engine.Mirrored(o.db)
  {
    if n in Engine.Taken(db, u) {
      assert Engine.Taken(UnregisterFromCourse(db, u, n).db, u) == RemoveFirst(Engine.Taken(db, u), n);
      UnregisterKeepsCounts(db, u, n);
      UnregisterKeepsListed(db, u, n);
    }
  }

  lemma UnregisterKeepsCounts(db: Engine.Db, u: string, n: int)
    requires Engine.Mirrored(db) && n in Engine.Taken(db, u)
    ensures var d := UnregisterFromCourse(db, u, n).db;
      forall s, c :: c in d.courses ==> multiset(Engine.Taken(d, s))[c] == d.courses[c].roster[s]
  {
    var d := UnregisterFromCourse(db, u, n).db;
    assert Engine.Taken(d, u) == RemoveFirst(Engine.Taken(db, u), n);
    forall s, c | c in d.courses ensures multiset(Engine.Taken(d, s))[c] == d.courses[c].roster[s] {
      if s != u {
        assert Engine.Taken(d, s) == Engine.Taken(db, s);
      }
    }
  }

  lemma UnregisterKeepsListed(db: Engine.Db, u: string, n: int)
    requires Engine.Mirrored(db) && n in Engine.Taken(db, u)
    ensures var d := UnregisterFromCourse(db, u, n).db;
      forall s, c :: c in Engine.Taken(d, s) ==> c in d.courses
  {
    var d := UnregisterFromCourse(db, u, n).db;
    assert Engine.Taken(d, u) == RemoveFirst(Engine.Taken(db, u), n);
    forall s, c | c in Engine.Taken(d, s) ensures c in d.courses {
      if s == u {
        assert c in multiset(Engine.Taken(d, u));
        assert c in multiset(Engine.Taken(db, u));
      } else {
        assert Engine.Taken(d, s) == Engine.Taken(db, s);
      }
    }
  }

  /** The corrected `registerCourse` keeps the database invariant for any user who is not an
      administrator (the engine itself does not refuse administrators). */
  lemma RegisterCourseKeepsConsistent(db: Engine.Db, u: string, n: int)
    requires Engine.Consistent(db) && u !in db.administrators
    ensures Engine.Consistent(RegisterCourse(db, u, n).db)
  {
    var o := RegisterCourse(db, u, n);
    if o.code == RegisteredCourseSuccessfully {
      assert u in db.students;
      forall m, v | m in o.db.courses && v in o.db.courses[m].roster ensures v in o.db.students {
        if !(m == n && v == u) {
          assert v in db.courses[m].roster;
        }
      }
    }
  }

  /** The corrected `unregisterFromCourse` keeps the database invariant. */
  lemma UnregisterKeepsConsistent(db: Engine.Db, u: string, n: int)
    requires Engine.Consistent(db)
    ensures Engine.Consistent(UnregisterFromCourse(db, u, n).db)
  {
    var p := UnregisterFromCourse(db, u, n);
    if p.code == UnregisteredFromCourseSuccessfully {
      forall m, v | m in p.db.courses && v in p.db.courses[m].roster ensures v in p.db.students {
        assert v in db.courses[m].roster;
      }
    }
  }

  /** `registerCourse` never asks whether the student is already on the roster: with room for
      two more, the same student registers twice, the roster counts the student twice and the
      list carries the course twice. The ledger stays mirrored because the roster keeps the
      repeat. */
  lemma DoubleRegistrationAccepted(db: Engine.Db, u: string, n: int)
    requires u in db.loggedIn && n in db.courses
    requires HasKdams(db, u, db.courses[n].kdams)
    requires db.courses[n].Size() + 2 <= db.courses[n].maxStudents
    ensures var o1 := RegisterCourse(db, u, n);
      var o2 := RegisterCourse(o1.db, u, n);
      && o1.code == RegisteredCourseSuccessfully
      && o2.code == RegisteredCourseSuccessfully
      && o2.db.courses[n].roster[u] == db.courses[n].roster[u] + 2
      && Engine.Taken(o2.db, u) == Engine.Taken(db, u) + [n, n]
  {
  }

  // ---------------------------------------------------------------- sequences of requests

  datatype Request = Register(u: string, n: int) | Unregister(u: string, n: int)

  function Step(db: Engine.Db, r: Request): Engine.Outcome {
    match r
    case Register(u, n) => RegisterCourse(db, u, n)
    case Unregister(u, n) => UnregisterFromCourse(db, u, n)
  }

  /** The replies to a sequence of course requests, and the state after the last. */
  datatype Trace = Trace(replies: seq<Code>, db: Engine.Db)

  function Run(db: Engine.Db, reqs: seq<Request>): (t: Trace)
    ensures |t.replies| == |reqs|
    decreases |reqs|
  {
    if reqs == [] then Trace([], db)
    else
      var o := Step(db, reqs[0]);
      var rest := Run(o.db, reqs[1..]);
      Trace([o.code] + rest.replies, rest.db)
  }

  /** A run replies to its first request, then runs the rest from the state that left. */
  lemma RunCons(db: Engine.Db, r: Request, rest: seq<Request>)
    ensures Run(db, [r] + rest).replies == [Step(db, r).code] + Run(Step(db, r).db, rest).replies
  {
    assert ([r] + rest)[0] == r && ([r] + rest)[1..] == rest;
  }

  /** After any sequence of registrations and unregistrations the two sides of the ledger
      still agree: `c` is on a student's list exactly when the student is on `c`'s roster. */
  lemma {:induction false} RunKeepsMirrored(db: Engine.Db, reqs: seq<Request>)
    requires Engine.Mirrored(db)
    ensures Engine.Mirrored(Run(db, reqs).db)
    ensures var d := Run(db, reqs).db;
      forall s, c :: c in d.courses ==> (c in Engine.Taken(d, s) <==> s in d.courses[c].roster)
    decreases |reqs|
  {
    if reqs != [] {
      var o := Step(db, reqs[0]);
      match reqs[0] {
        case Register(u, n) => RegisterCourseKeepsMirrored(db, u, n);
        case Unregister(u, n) => UnregisterKeepsMirror(db, u, n);
      }
      RunKeepsMirrored(o.db, reqs[1..]);
    }
    var d := Run(db, reqs).db;
    forall s, c | c in d.courses ensures c in Engine.Taken(d, s) <==> s in d.courses[c].roster {
      MirroredSymmetry(d, s, c);
    }
  }

  // ---------------------------------------------------------------- two worked scenarios

  const IntroCourse: Course := Course(101, "Intro", [], 2, multiset{})

  /** alice, bob and carol registered with their passwords and logged in, course 101 loaded
      and nobody on its roster. */
  const Classroom: Engine.Db :=
    Engine.Db(map["alice" := "pa", "bob" := "pb", "carol" := "pc"], map[],
              map["alice" := [], "bob" := [], "carol" := []],
              map[101 := IntroCourse], ["alice", "bob", "carol"])

  lemma ClassroomRegistered()
    ensures var d0 := Engine.Empty.(courses := map[101 := IntroCourse]);
      RegisterStudent(RegisterStudent(RegisterStudent(d0, "alice", "pa").db, "bob", "pb").db, "carol", "pc").db ==
      Classroom.(loggedIn := [])
  {
    var d0 := Engine.Empty.(courses := map[101 := IntroCourse]);
    var d1 := RegisterStudent(d0, "alice", "pa").db;
    assert d1 == d0.(students := map["alice" := "pa"], studentCourses := map["alice" := []]);
    var d2 := RegisterStudent(d1, "bob", "pb").db;
    assert d2 == d0.(students := map["alice" := "pa", "bob" := "pb"], studentCourses := map["alice" := [], "bob" := []]);
  }

  lemma ClassroomLoggedIn()
    ensures var d := Classroom.(loggedIn := []);
      Engine.Login(Engine.Login(Engine.Login(d, "alice", "pa").db, "bob", "pb").db, "carol", "pc").db == Classroom
  {
    var d4 := Engine.Login(Classroom.(loggedIn := []), "alice", "pa").db;
    assert d4 == Classroom.(loggedIn := ["alice"]);
    var d5 := Engine.Login(d4, "bob", "pb").db;
    assert d5 == Classroom.(loggedIn := ["alice", "bob"]);
  }

  /** The record `101|Intro|[]|2` loaded, then alice, bob and carol registered and logged in. */
  lemma ClassroomReached()
    ensures var d0 := Engine.Empty.(courses := Load(map[], ["101|Intro|[]|2"]).courses);
      var d1 := RegisterStudent(RegisterStudent(RegisterStudent(d0, "alice", "pa").db, "bob", "pb").db, "carol", "pc").db;
      Engine.Login(Engine.Login(Engine.Login(d1, "alice", "pa").db, "bob", "pb").db, "carol", "pc").db == Classroom
  {
    Engine.IntroRecordLoads();
    ClassroomRegistered();
    ClassroomLoggedIn();
  }

  /** The capacity scenario for any course `n` of capacity 2 with no kdams and nobody on its
      roster, and any three distinct logged-in students `a`, `b`, `c` of whom `a` holds no
      course: `a` and `b` get in, `c` is refused as full, and gets in once `a` has left. */
  lemma CapacityScenario(db: Engine.Db, n: int, a: string, b: string, c: string)
    requires n in db.courses && db.courses[n].maxStudents == 2
    requires db.courses[n].kdams == [] && db.courses[n].roster == multiset{}
    requires a != b && b != c && a != c
    requires a in db.loggedIn && b in db.loggedIn && c in db.loggedIn
    requires Engine.Taken(db, a) == []
    ensures Run(db, [Register(a, n), Register(b, n), Register(c, n), Unregister(a, n), Register(c, n)]).replies ==
            [RegisteredCourseSuccessfully, RegisteredCourseSuccessfully, CourseIsFull,
             UnregisteredFromCourseSuccessfully, RegisteredCourseSuccessfully]
  {
    var rest := [Register(c, n), Unregister(a, n), Register(c, n)];
    var d2 := TwoJoin(db, n, a, b, rest);
    FullThenRoom(d2, n, a, b, c);
    var reqs := [Register(a, n), Register(b, n)] + rest;
    assert Run(db, reqs).replies == [RegisteredCourseSuccessfully, RegisteredCourseSuccessfully] +
      [CourseIsFull, UnregisteredFromCourseSuccessfully, RegisteredCourseSuccessfully];
    assert reqs == [Register(a, n), Register(b, n), Register(c, n), Unregister(a, n), Register(c, n)];
  }

  /** `a` then `b` join an empty course of capacity 2, whatever requests follow. */
  lemma TwoJoin(db: Engine.Db, n: int, a: string, b: string, rest: seq<Request>) returns (d2: Engine.Db)
    requires n in db.courses && db.courses[n].maxStudents == 2
    requires db.courses[n].kdams == [] && db.courses[n].roster == multiset{}
    requires a != b && a in db.loggedIn && b in db.loggedIn && Engine.Taken(db, a) == []
    ensures Run(db, [Register(a, n), Register(b, n)] + rest).replies ==
            [RegisteredCourseSuccessfully, RegisteredCourseSuccessfully] + Run(d2, rest).replies
    ensures n in d2.courses && d2.courses[n] == db.courses[n].(roster := multiset{a, b})
    ensures Engine.Taken(d2, a) == [n] && d2.loggedIn == db.loggedIn
  {
    var d1 := Enroll(db, a, n);
    assert d1.courses[n].roster == multiset{a};
    assert Step(db, Register(a, n)) == Engine.Outcome(RegisteredCourseSuccessfully, d1);
    d2 := Enroll(d1, b, n);
    assert d2.courses[n].roster == multiset{a} + multiset{b};
    assert Step(d1, Register(b, n)) == Engine.Outcome(RegisteredCourseSuccessfully, d2);
    assert Engine.Taken(d1, a) == [n];
    assert [Register(a, n), Register(b, n)] + rest == [Register(a, n)] + ([Register(b, n)] + rest);
    RunCons(db, Register(a, n), [Register(b, n)] + rest);
    RunCons(d1, Register(b, n), rest);
  }

  /** A course of capacity 2 holding `a` and `b`: `c` is refused, `a` leaves, `c` gets in. */
  lemma FullThenRoom(d: Engine.Db, n: int, a: string, b: string, c: string)
    requires n in d.courses && d.courses[n].maxStudents == 2 && d.courses[n].kdams == []
    requires a != b && d.courses[n].roster == multiset{a, b}
    requires Engine.Taken(d, a) == [n] && c in d.loggedIn
    ensures Run(d, [Register(c, n), Unregister(a, n), Register(c, n)]).replies ==
            [CourseIsFull, UnregisteredFromCourseSuccessfully, RegisteredCourseSuccessfully]
  {
    var r3 := Register(c, n);
    assert |d.courses[n].roster| == 2;
    assert Step(d, r3) == Engine.Outcome(CourseIsFull, d);
    LeaveThenJoin(d, n, a, b, c);
    RunCons(d, r3, [Unregister(a, n), Register(c, n)]);
    assert [r3] + [Unregister(a, n), Register(c, n)] == [r3, Unregister(a, n), Register(c, n)];
  }

  /** `a` leaves a course of capacity 2 holding `a` and `b`, and then `c` gets in. */
  lemma LeaveThenJoin(d: Engine.Db, n: int, a: string, b: string, c: string)
    requires n in d.courses && d.courses[n].maxStudents == 2 && d.courses[n].kdams == []
    requires a != b && d.courses[n].roster == multiset{a, b}
    requires Engine.Taken(d, a) == [n] && c in d.loggedIn
    ensures Run(d, [Unregister(a, n), Register(c, n)]).replies ==
            [UnregisteredFromCourseSuccessfully, RegisteredCourseSuccessfully]
  {
    var r4, r5 := Unregister(a, n), Register(c, n);
    ALeaves(d, n, a, b);
    var d3 := Step(d, r4).db;
    assert Step(d3, r5).code == RegisteredCourseSuccessfully;
    RunCons(d3, r5, []);
    assert [r5] + [] == [r5];
    assert Run(d3, [r5]).replies == [RegisteredCourseSuccessfully];
    RunCons(d, r4, [r5]);
    assert [r4] + [r5] == [r4, r5];
  }

  /** `a` leaves a course holding `a` and `b`, which then holds `b` alone. */
  lemma ALeaves(d: Engine.Db, n: int, a: string, b: string)
    requires n in d.courses && a != b && d.courses[n].roster == multiset{a, b}
    requires Engine.Taken(d, a) == [n]
    ensures var o := Step(d, Unregister(a, n));
      && o.code == UnregisteredFromCourseSuccessfully
      && n in o.db.courses && o.db.courses[n] == d.courses[n].(roster := multiset{b})
      && o.db.loggedIn == d.loggedIn
  {
    assert multiset{a, b} - multiset{a} == multiset{b};
  }

  /** Course 101 of maximum 2, corrected: alice and bob get in, carol is refused as full, and
      gets in once alice has left. */
  lemma IntroScenario()
    ensures Run(Classroom, [Register("alice", 101), Register("bob", 101), Register("carol", 101),
                            Unregister("alice", 101), Register("carol", 101)]).replies ==
            [RegisteredCourseSuccessfully, RegisteredCourseSuccessfully, CourseIsFull,
             UnregisteredFromCourseSuccessfully, RegisteredCourseSuccessfully]
  {
    CapacityScenario(Classroom, 101, "alice", "bob", "carol");
  }

  const AdvancedCourse: Course := Course(201, "Advanced", [101], 5, multiset{})

  /** dave registered and logged in, courses 101 and 201 loaded. */
  const Prerequisites: Engine.Db :=
    Engine.Db(map["dave" := "pd"], map[], map["dave" := []],
              map[101 := IntroCourse, 201 := AdvancedCourse], ["dave"])

  lemma IntroRecordParses()
    ensures ParseRecord("101|Intro|[]|2") == Some(IntroCourse)
  {
    Engine.IntroRecordText();
    ParseRecordOfFormat(IntroCourse);
  }

  lemma AdvancedRecordText()
    ensures FormatRecord(AdvancedCourse) == "201|Advanced|[101]|5"
  {
    var num := IntToString(201);
    var kdams := FormatKdams([101]);
    var max := IntToString(5);
    assert num == "201" by {
      assert NatToString(2) == "2";
      assert NatToString(20) == "20";
    }
    AdvancedKdamsText();
    assert max == "5";
    assert FormatRecord(AdvancedCourse) == num + "|" + "Advanced" + "|" + kdams + "|" + max;
  }

  lemma AdvancedKdamsText()
    ensures FormatKdams([101]) == "[101]"
  {
    assert IntToString(101) == "101" by {
      assert NatToString(1) == "1";
      assert NatToString(10) == "10";
    }
    assert FormatInts([101]) == ["101"];
    assert Join(["101"], ',') == "101";
  }

  lemma AdvancedRecordParses()
    ensures ParseRecord("201|Advanced|[101]|5") == Some(AdvancedCourse)
  {
    AdvancedRecordText();
    ParseRecordOfFormat(AdvancedCourse);
  }

  /** The two records `101|Intro|[]|2` and `201|Advanced|[101]|5` load as courses 101 and 201. */
  lemma AdvancedRecordLoads()
    ensures Load(map[], ["101|Intro|[]|2", "201|Advanced|[101]|5"]) ==
            LoadResult(true, map[101 := IntroCourse, 201 := AdvancedCourse])
  {
    IntroRecordParses();
    assert ["101|Intro|[]|2", "201|Advanced|[101]|5"][1..] == ["201|Advanced|[101]|5"];
    SecondRecordLoads();
  }

  lemma SecondRecordLoads()
    ensures Load(map[101 := IntroCourse], ["201|Advanced|[101]|5"]) ==
            LoadResult(true, map[101 := IntroCourse, 201 := AdvancedCourse])
  {
    var m := map[101 := IntroCourse];
    var line := "201|Advanced|[101]|5";
    AdvancedRecordParses();
    assert Load(m, [line]) == Load(m[201 := AdvancedCourse], [line][1..]);
    assert [line][1..] == [];
    assert m[201 := AdvancedCourse] == map[101 := IntroCourse, 201 := AdvancedCourse];
  }

  /** The records loaded, then dave registered and logged in. */
  lemma PrerequisitesReached()
    ensures var d0 := Engine.Empty.(courses := Load(map[], ["101|Intro|[]|2", "201|Advanced|[101]|5"]).courses);
      Engine.Login(RegisterStudent(d0, "dave", "pd").db, "dave", "pd").db == Prerequisites
  {
    AdvancedRecordLoads();
  }

  /** Course 201 with kdam 101: dave is refused 201 for lacking 101, and gets into 201 once
      registered to 101. */
  lemma PrerequisiteScenario()
    ensures Run(Prerequisites, [Register("dave", 201), Register("dave", 101), Register("dave", 201)]).replies ==
            [DontHaveKdams, RegisteredCourseSuccessfully, RegisteredCourseSuccessfully]
  {
    var reqs := [Register("dave", 201), Register("dave", 101), Register("dave", 201)];
    var d0 := Prerequisites;
    assert 101 !in Engine.Taken(d0, "dave");
    assert Step(d0, reqs[0]) == Engine.Outcome(DontHaveKdams, d0);
    var d1 := Enroll(d0, "dave", 101);
    assert Step(d0, reqs[1]) == Engine.Outcome(RegisteredCourseSuccessfully, d1);
    assert Engine.Taken(d1, "dave") == [101];
    assert Step(d1, reqs[2]).code == RegisteredCourseSuccessfully;
    assert reqs[1..][1..][1..] == [];
    assert Run(d1, reqs[1..][1..]).replies == [RegisteredCourseSuccessfully];
  }
}
