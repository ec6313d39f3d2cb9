/** The `Database` class of the registration server: the five containers as fields, and every
    public method as a method that reads or updates them in place. Each updating method is
    proved to do what the matching function of `Engine` says and to keep `Valid()`; the
    properties of those functions are the lemmas of `Engine`. */
module Registration {
  import opened Maybe
  import opened Seqs
  import opened Codes
  import opened Catalog
  import Engine

  /** One entry of the `ArrayList<Object>` that `courseStat` and `studentStat` return;
      `Null` is the null reference `studentCourses.get` yields for a missing entry. */
  datatype Value = Int(i: int) | Str(s: string) | Ints(xs: seq<int>) | Null

  class Database {
    var students: map<string, string>
    var administrators: map<string, string>
    var studentCourses: map<string, seq<int>>
    var courses: map<int, Course>
    var loggedIn: seq<string>

    /** The five containers as one value, the state `Engine` speaks about. */
    function State(): Engine.Db
      reads this
    {
      Engine.Db(students, administrators, studentCourses, courses, loggedIn)
    }

    ghost predicate Valid()
      reads this
    {
      Engine.Consistent(State())
    }

    constructor ()
      ensures State() == Engine.Empty && Valid()
    {
      students := map[];
      administrators := map[];
      studentCourses := map[];
      courses := map[];
      loggedIn := [];
    }

    /** `initialize` on the lines of the course file, already read: each line is parsed and
        put in turn; the first bad line returns `false` and keeps what came before. */
    method Initialize(lines: seq<string>) returns (ok: bool)
      requires Valid()
      modifies this
      ensures Valid()
      ensures LoadResult(ok, courses) == Load(old(courses), lines)
      ensures State() == old(State()).(courses := courses)
    {
      var i := 0;
      while i < |lines|
        invariant 0 <= i <= |lines|
        invariant Load(courses, lines[i..]) == Load(old(courses), lines)
        invariant State() == old(State()).(courses := courses)
        invariant Valid()
      {
        var record := ParseRecord(lines[i]);
        if record.None? {
          return false;
        }
        var c := record.value;
        Engine.PutCourseKeepsConsistent(State(), c);
        assert lines[i..][0] == lines[i] && lines[i..][1..] == lines[i + 1..];
        assert Load(courses, lines[i..]) == Load(courses[c.num := c], lines[i + 1..]);
        courses := courses[c.num := c];
        i := i + 1;
      }
      return true;
    }

    method IsRegisteredToServer(u: string) returns (r: Code)
      ensures r == IsRegistered <==> u in students || u in administrators
      ensures r == IsRegistered || r == NotRegistered
    {
      if u in students || u in administrators {
        return IsRegistered;
      }
      return NotRegistered;
    }

    method RegisterStudent(u: string, password: string) returns (r: Code)
      requires Valid()
      modifies this
      ensures Valid()
      ensures Engine.Outcome(r, State()) == Engine.RegisterStudent(old(State()), u, password)
    {
      Engine.RegisterStudentExclusive(State(), u, password);
      var status := IsRegisteredToServer(u);
      if status == IsRegistered {
        return IsRegistered;
      }
      students := students[u := u];
      return RegisteredStudentSuccessfully;
    }

    method RegisterAdministrator(u: string, password: string) returns (r: Code)
      requires Valid()
      modifies this
      ensures Valid()
      ensures Engine.Outcome(r, State()) == Engine.RegisterAdministrator(old(State()), u, password)
    {
      Engine.RegisterAdministratorExclusive(State(), u, password);
      var status := IsRegisteredToServer(u);
      if status == IsRegistered {
        return IsRegistered;
      }
      administrators := administrators[u := password];
      return RegisteredAdministratorSuccessfully;
    }

    /** `isLoggedIn` */
    method CheckLoggedIn(u: string) returns (r: Code)
      ensures r == IsLoggedIn <==> u in loggedIn
      ensures r == IsLoggedIn || r == NotLoggedIn
    {
      if u in loggedIn {
        return IsLoggedIn;
      }
      return NotLoggedIn;
    }

    method Login(u: string, password: string) returns (r: Code)
      requires Valid()
      modifies this
      ensures Valid()
      ensures Engine.Outcome(r, State()) == Engine.Login(old(State()), u, password)
    {
      var status := CheckLoggedIn(u);
      if status == IsLoggedIn {
        return IsLoggedIn;
      }
      Engine.LoginWhenLoggedOut(State(), u, password);
      if u in students {
        if students[u] == password {
          loggedIn := loggedIn + [u];
          return RegisteredStudentSuccessfully;
        } else {
          return WrongPassword;
        }
      } else if u in administrators {
        if administrators[u] == password {
          loggedIn := loggedIn + [u];
          return RegisteredAdministratorSuccessfully;
        } else {
          return WrongPassword;
        }
      } else {
        return NotRegistered;
      }
    }

    method Logout(u: string) returns (r: Code)
      requires Valid()
      modifies this
      ensures Valid()
      ensures Engine.Outcome(r, State()) == Engine.Logout(old(State()), u)
    {
      Engine.LogoutOutcome(State(), u);
      var status := CheckLoggedIn(u);
      if status == NotLoggedIn {
        return NotLoggedIn;
      }
      loggedIn := RemoveFirst(loggedIn, u);
      return LoggedOutSuccessfully;
    }

    /** Walks the kdam list and stops at the first course the student does not list. */
    method CanRegisterToCourse(u: string, course: Course) returns (r: Code)
      requires course.kdams != [] ==> u in studentCourses
      ensures r == HaveKdams <==> Engine.HasKdams(State(), u, course.kdams)
      ensures r == HaveKdams || r == DontHaveKdams
    {
      var kdams := course.kdams;
      for i := 0 to |kdams|
        invariant forall j :: 0 <= j < i ==> kdams[j] in studentCourses[u]
      {
        if kdams[i] !in studentCourses[u] {
          var db := State();
          var k := kdams[i];
          assert k in course.kdams && k !in db.studentCourses[u];
          assert !Engine.HasKdams(db, u, course.kdams);
          return DontHaveKdams;
        }
      }
      return HaveKdams;
    }

    method RegisterCourse(u: string, n: int) returns (r: Code)
      requires Valid() && Engine.RegisterCourseSafe(State(), u, n)
      modifies this
      ensures Valid()
      ensures Engine.Outcome(r, State()) == Engine.RegisterCourse(old(State()), u, n)
    {
      Engine.RegisterCourseKeepsConsistent(State(), u, n);
      var status := CheckLoggedIn(u);
      if status == NotLoggedIn {
        return NotLoggedIn;
      }
      if n !in courses {
        return NoSuchCourse;
      }
      var course := courses[n];
      if course.maxStudents >= course.Size() {
        return CourseIsFull;
      }
      var kdams := CanRegisterToCourse(u, course);
      if kdams == DontHaveKdams {
        return DontHaveKdams;
      }
      courses := courses[n := course.WithStudent(u)];
      studentCourses := studentCourses[u := studentCourses[u] + [n]];
      return RegisteredCourseSuccessfully;
    }

    /** The kdam list of an existing course; a missing course is a null dereference. */
    method KdamCheck(n: int) returns (kdams: seq<int>)
      requires n in courses
      ensures kdams == courses[n].kdams
    {
      kdams := courses[n].kdams;
    }

    /** `[number, name, kdams, maximum, number of students registered]` of an existing course. */
    method CourseStat(n: int) returns (stat: seq<Value>)
      requires n in courses
      ensures |stat| == 5
      ensures stat == [Int(courses[n].num), Str(courses[n].name), Ints(courses[n].kdams),
                       Int(courses[n].maxStudents), Int(|courses[n].roster|)]
    {
      var course := courses[n];
      stat := [];
      stat := stat + [Int(course.num)];
      stat := stat + [Str(course.name)];
      stat := stat + [Ints(course.kdams)];
      stat := stat + [Int(course.maxStudents)];
      stat := stat + [Int(course.Size())];
    }

    /** `[username, course list]`; the list is null when the student has no ledger entry. */
    method StudentStat(u: string) returns (stat: seq<Value>)
      ensures |stat| == 2 && stat[0] == Str(u)
      ensures u in studentCourses ==> stat[1] == Ints(studentCourses[u])
      ensures u !in studentCourses ==> stat[1] == Null
    {
      stat := [];
      stat := stat + [Str(u)];
      stat := stat + [if u in studentCourses then Ints(studentCourses[u]) else Null];
    }

    /** `isRegisteredToCourse` */
    method CheckRegisteredToCourse(u: string, n: int) returns (r: Code)
      requires u in studentCourses
      ensures r == IsRegisteredToCourse <==> n in studentCourses[u]
      ensures r == IsRegisteredToCourse || r == NotRegisteredToCourse
    {
      if n in studentCourses[u] {
        return IsRegisteredToCourse;
      }
      return NotRegisteredToCourse;
    }

    method UnregisterFromCourse(u: string, n: int) returns (r: Code)
      requires Valid() && Engine.UnregisterSafe(State(), u, n)
      modifies this
      ensures Valid()
      ensures Engine.Outcome(r, State()) == Engine.UnregisterFromCourse(old(State()), u, n)
    {
      Engine.UnregisterOutcome(State(), u, n);
      ghost var o := Engine.UnregisterFromCourse(State(), u, n);
      var status := CheckRegisteredToCourse(u, n);
      if status == NotRegisteredToCourse {
        return NotRegisteredToCourse;
      }
      studentCourses := studentCourses[u := RemoveAt(studentCourses[u], n)];
      courses := courses[n := courses[n].WithoutStudent(u)];
      assert State() == o.db;
      return UnregisteredFromCourseSuccessfully;
    }

    /** The student's course list, or `None` for the null a missing entry yields. */
    method GetStudentCourses(u: string) returns (r: Option<seq<int>>)
      ensures r.Some? <==> u in studentCourses
      ensures r.Some? ==> r.value == studentCourses[u]
    {
      if u in studentCourses {
        return Some(studentCourses[u]);
      }
      return None;
    }
  }
}
