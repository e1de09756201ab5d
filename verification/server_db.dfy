/** The three tables server.js works on (users, courses, registrations), its
    replies, and the invariants its handlers are meant to keep. Each table is a
    sequence of rows in primary-key order; `next...Id` is the AUTO_INCREMENT
    counter whose value an INSERT reports as `insertId`. */
module ServerDb {
  import opened Common
  import Gate
  import opened Users

  const REGISTERED := "registered"
  const DROPPED := "dropped"

  /** The columns an admin writes when creating or updating a course.
      `code == None` is an absent `course_code` (SQL NULL, equal to nothing). */
  datatype CourseFields = CourseFields(
    code: Option<string>, title: string, description: string, instructor: string,
    department: string, credits: int, schedule: string, maxStudents: int)

  datatype Course = Course(id: nat, fields: CourseFields)

  /** A row of the ledger. `status` is free text: the handlers write
      "registered" and "dropped", the admin status update writes whatever it is
      sent. */
  datatype Registration = Registration(id: nat, student: nat, course: nat, status: string)

  datatype Db = Db(
    users: seq<User>, courses: seq<Course>, regs: seq<Registration>,
    nextUserId: nat, nextCourseId: nat, nextRegId: nat)

  /** A fresh database: empty tables, counters at 1. */
  const EmptyDb := Db([], [], [], 1, 1, 1)

  /** Every refusal a server.js handler can send (store failures, the 500s,
      are not modelled). */
  datatype Error =
    | Refused(denial: Gate.Denial)   // 401/403 from the gate or the ownership check
    | EmailTaken                     // 400 "Email already registered"
    | UsernameTaken                  // 400 "Username already taken"
    | InvalidCredentials             // 401 "Invalid email or password"
    | CourseNotFound                 // 404 "Course not found"
    | RegistrationNotFound           // 404 "Registration not found"
    | CodeTaken                      // 400 "Course code already exists"
    | HasActiveRegistrations         // 400 "Cannot delete course with active registrations"
    | CourseFull                     // 400 "Course is full"
    | AlreadyRegistered              // 400 "Already registered for this course"

  function HttpStatus(e: Error): (code: nat)
    ensures code in {400, 401, 403, 404}
    ensures code == 404 <==> e == CourseNotFound || e == RegistrationNotFound
    ensures code == 401 <==> e == InvalidCredentials || e == Refused(Gate.TokenRequired)
    ensures code == 403 <==> e.Refused? && e.denial != Gate.TokenRequired
  {
    match e
    case Refused(d) => Gate.HttpStatus(d)
    case InvalidCredentials => 401
    case CourseNotFound => 404
    case RegistrationNotFound => 404
    case _ => 400
  }

  /** What a handler leaves behind: the database after it and its reply. */
  datatype Step<T> = Step(db: Db, reply: Result<T, Error>)

  // ----- the WHERE clauses of the handlers' queries -----

  function CourseIdIs(id: nat): Course -> bool
  {
    (c: Course) => c.id == id
  }

  function CodeIs(code: string): Course -> bool
  {
    (c: Course) => c.fields.code == Some(code)
  }

  /** `WHERE course_code = ? AND id != ?` */
  function CodeElsewhere(code: string, id: nat): Course -> bool
  {
    (c: Course) => c.fields.code == Some(code) && c.id != id
  }

  function RegIdIs(id: nat): Registration -> bool
  {
    (r: Registration) => r.id == id
  }

  function PairIs(student: nat, course: nat): Registration -> bool
  {
    (r: Registration) => r.student == student && r.course == course
  }

  function ActiveIn(course: nat): Registration -> bool
  {
    (r: Registration) => r.course == course && r.status == REGISTERED
  }

  /** `SET status = ?` */
  function WithStatus(status: string): Registration -> Registration
  {
    (r: Registration) => r.(status := status)
  }

  /** `SET course_code = ?, title = ?, ..., max_students = ?` */
  function WithFields(f: CourseFields): Course -> Course
  {
    (c: Course) => c.(fields := f)
  }

  /** `SELECT COUNT(*) FROM registrations WHERE course_id = ? AND status = "registered"` */
  function Enrolled(regs: seq<Registration>, course: nat): (n: nat)
    ensures n == 0 <==> forall r :: r in regs ==> !(r.course == course && r.status == REGISTERED)
  {
    Count(regs, ActiveIn(course))
  }

  // ----- invariants -----

  predicate HasNonEmptyCode(c: Course)
  {
    c.fields.code.Some? && c.fields.code.value != ""
  }

  /** Two different course rows: distinct ids, and no shared non-empty code.
      (An empty code slips past the update handler's `if (course_code)`, so
      only non-empty codes are kept unique.) */
  predicate DistinctCourses(a: Course, b: Course)
  {
    a.id != b.id && (HasNonEmptyCode(a) ==> a.fields.code != b.fields.code)
  }

  /** A ledger row and a later one: the later row has the larger id (ids are
      handed out in increasing order and rows are appended), and the two are
      not for the same student and course, so that the ledger holds at most
      one row per pair. */
  predicate DistinctRegistrations(a: Registration, b: Registration)
  {
    a.id < b.id && (a.student != b.student || a.course != b.course)
  }

  /** Keys are unique and below their counters, every registration names a
      course id that was once handed out, accounts and non-empty course codes
      are unique, ledger ids increase along the table, and each (student,
      course) pair has at most one row. */
  ghost predicate WellFormed(db: Db)
  {
    && (forall u :: u in db.users ==> u.id < db.nextUserId)
    && (forall c :: c in db.courses ==> c.id < db.nextCourseId)
    && (forall r :: r in db.regs ==> r.id < db.nextRegId && r.course < db.nextCourseId)
    && UniqueAccounts(db.users)
    && Pairwise(db.courses, DistinctCourses)
    && Pairwise(db.regs, DistinctRegistrations)
  }

  /** No course holds more `registered` rows than its `max_students` (a
      course whose limit is zero or negative holds none). */
  ghost predicate CapacityOk(db: Db)
  {
    forall c :: c in db.courses ==> Enrolled(db.regs, c.id) == 0 || Enrolled(db.regs, c.id) <= c.fields.maxStudents
  }

  /** Ledger rows have unique ids, so `UPDATE registrations SET status = ?
      WHERE id = ?` rewrites the one row found, and rewriting a status keeps
      every table invariant (statuses take no part in them). */
  lemma {:induction false} RestatusOne(db: Db, k: nat, status: string)
    requires WellFormed(db)
    requires k < |db.regs|
    ensures UpdateWhere(db.regs, RegIdIs(db.regs[k].id), WithStatus(status)) == db.regs[k := db.regs[k].(status := status)]
    ensures WellFormed(db.(regs := db.regs[k := db.regs[k].(status := status)]))
  {
    var id := db.regs[k].id;
    forall i | 0 <= i < |db.regs| && i != k ensures !RegIdIs(id)(db.regs[i]) {
      if i < k {
        assert DistinctRegistrations(db.regs[i], db.regs[k]);
      } else {
        assert DistinctRegistrations(db.regs[k], db.regs[i]);
      }
    }
    UpdateWhereOne(db.regs, RegIdIs(id), WithStatus(status), k);
    var regs := db.regs[k := db.regs[k].(status := status)];
    forall i, j | 0 <= i < j < |regs| ensures DistinctRegistrations(regs[i], regs[j]) {
      assert DistinctRegistrations(db.regs[i], db.regs[j]);
    }
    forall r | r in regs ensures r.id < db.nextRegId && r.course < db.nextCourseId {
      var i :| 0 <= i < |regs| && regs[i] == r;
      assert db.regs[i] in db.regs;
    }
  }

  /** Rewriting the status of row `k` moves the count of a course's
      `registered` rows by what that row contributed before and after. */
  lemma EnrolledAfterRestatus(regs: seq<Registration>, k: nat, status: string, course: nat)
    requires k < |regs|
    ensures Enrolled(regs[k := regs[k].(status := status)], course)
            == Enrolled(regs, course)
               - (if regs[k].course == course && regs[k].status == REGISTERED then 1 else 0)
               + (if regs[k].course == course && status == REGISTERED then 1 else 0)
  {
    CountUpdate(regs, k, regs[k].(status := status), ActiveIn(course));
  }

  /** At most one `registered` row per (student, course): a consequence of the
      ledger's one-row-per-pair invariant. */
  lemma OneActiveRowPerPair(db: Db, i: nat, j: nat)
    requires WellFormed(db)
    requires i < j < |db.regs|
    requires db.regs[i].status == REGISTERED && db.regs[j].status == REGISTERED
    ensures db.regs[i].student != db.regs[j].student || db.regs[i].course != db.regs[j].course
  {
    assert DistinctRegistrations(db.regs[i], db.regs[j]);
  }
}
