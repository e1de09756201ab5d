/** The server.js application object: the three tables and their counters as
    mutable state, and one method per state-changing endpoint, running the
    gate (`authenticateToken`, and `requireAdmin` on admin routes) and then
    the handler's checks and writes in the handler's own order. Each method
    is proved to leave the state and reply its step function describes, and
    to keep the table invariants. */
module ServerApp {
  import opened Common
  import Gate
  import opened Users
  import opened ServerDb
  import ServerAccounts
  import ServerCatalog
  import ServerLedger

  class App {
    var users: seq<User>
    var courses: seq<Course>
    var regs: seq<Registration>
    var nextUserId: nat
    var nextCourseId: nat
    var nextRegId: nat

    /** The tables as a value. */
    function Snapshot(): Db
      reads this
    {
      Db(users, courses, regs, nextUserId, nextCourseId, nextRegId)
    }

    ghost predicate Valid()
      reads this
    {
      WellFormed(Snapshot())
    }

    /** A fresh store: empty tables, counters at 1. */
    constructor()
      ensures Snapshot() == EmptyDb
      ensures Valid() && CapacityOk(Snapshot())
    {
      users := [];
      courses := [];
      regs := [];
      nextUserId := 1;
      nextCourseId := 1;
      nextRegId := 1;
    }

    /** POST /api/register */
    method SignUp(fullName: string, username: string, email: string, hashed: string) returns (reply: Result<nat, Error>)
      requires Valid()
      modifies this
      ensures Step(Snapshot(), reply) == ServerAccounts.SignUp(old(Snapshot()), fullName, username, email, hashed)
      ensures Valid()
      ensures courses == old(courses) && regs == old(regs)
    {
      ghost var before := Snapshot();
      if Count(users, EmailIs(email)) > 0 {
        reply := Err(EmailTaken);
        return;
      }
      if Count(users, UsernameIs(username)) > 0 {
        reply := Err(UsernameTaken);
        return;
      }
      users := users + [User(nextUserId, username, email, hashed, fullName, Gate.STUDENT)];
      reply := Ok(nextUserId);
      nextUserId := nextUserId + 1;
      assert Step(Snapshot(), reply) == ServerAccounts.SignUp(before, fullName, username, email, hashed);
      ServerAccounts.SignUpKeepsWellFormed(before, fullName, username, email, hashed);
    }

    /** POST /api/admin/courses */
    method CreateCourse(header: Option<string>, verify: string -> Option<Gate.Claims>, f: CourseFields)
      returns (reply: Result<nat, Error>)
      requires Valid()
      modifies this
      ensures Gate.AuthenticateAdmin(header, verify).Err? ==>
                Snapshot() == old(Snapshot()) && reply == Err(Refused(Gate.AuthenticateAdmin(header, verify).error))
      ensures Gate.AuthenticateAdmin(header, verify).Ok? ==>
                Step(Snapshot(), reply) == ServerCatalog.CreateCourse(old(Snapshot()), f)
      ensures Valid()
      ensures old(CapacityOk(Snapshot())) ==> CapacityOk(Snapshot())
    {
      var auth := Gate.AuthenticateAdmin(header, verify);
      if auth.Err? {
        reply := Err(Refused(auth.error));
        return;
      }
      ghost var before := Snapshot();
      if f.code.Some? && Count(courses, CodeIs(f.code.value)) > 0 {
        reply := Err(CodeTaken);
        return;
      }
      courses := courses + [Course(nextCourseId, f)];
      reply := Ok(nextCourseId);
      nextCourseId := nextCourseId + 1;
      assert Step(Snapshot(), reply) == ServerCatalog.CreateCourse(before, f);
      ServerCatalog.CreateCourseKeepsWellFormed(before, f);
      if CapacityOk(before) {
        ServerCatalog.CreateCourseKeepsCapacity(before, f);
      }
    }

    /** PUT /api/admin/courses/:id. Capacity survives only when the new
        limit still holds the course's registered rows. */
    method UpdateCourse(header: Option<string>, verify: string -> Option<Gate.Claims>, id: nat, f: CourseFields)
      returns (reply: Result<(), Error>)
      requires Valid()
      modifies this
      ensures Gate.AuthenticateAdmin(header, verify).Err? ==>
                Snapshot() == old(Snapshot()) && reply == Err(Refused(Gate.AuthenticateAdmin(header, verify).error))
      ensures Gate.AuthenticateAdmin(header, verify).Ok? ==>
                Step(Snapshot(), reply) == ServerCatalog.UpdateCourse(old(Snapshot()), id, f)
      ensures Valid()
      ensures old(CapacityOk(Snapshot())) && (Enrolled(old(regs), id) == 0 || Enrolled(old(regs), id) <= f.maxStudents)
              ==> CapacityOk(Snapshot())
    {
      var auth := Gate.AuthenticateAdmin(header, verify);
      if auth.Err? {
        reply := Err(Refused(auth.error));
        return;
      }
      ghost var before := Snapshot();
      if Count(courses, CourseIdIs(id)) == 0 {
        reply := Err(CourseNotFound);
        return;
      }
      if f.code.Some? && f.code.value != "" && Count(courses, CodeElsewhere(f.code.value, id)) > 0 {
        reply := Err(CodeTaken);
        return;
      }
      courses := UpdateWhere(courses, CourseIdIs(id), WithFields(f));
      reply := Ok(());
      assert Step(Snapshot(), reply) == ServerCatalog.UpdateCourse(before, id, f);
      ServerCatalog.UpdateCourseKeepsWellFormed(before, id, f);
      if CapacityOk(before) && (Enrolled(regs, id) == 0 || Enrolled(regs, id) <= f.maxStudents) {
        ServerCatalog.UpdateCourseKeepsCapacity(before, id, f);
      }
    }

    /** DELETE /api/admin/courses/:id */
    method DeleteCourse(header: Option<string>, verify: string -> Option<Gate.Claims>, id: nat)
      returns (reply: Result<(), Error>)
      requires Valid()
      modifies this
      ensures Gate.AuthenticateAdmin(header, verify).Err? ==>
                Snapshot() == old(Snapshot()) && reply == Err(Refused(Gate.AuthenticateAdmin(header, verify).error))
      ensures Gate.AuthenticateAdmin(header, verify).Ok? ==>
                Step(Snapshot(), reply) == ServerCatalog.DeleteCourse(old(Snapshot()), id)
      ensures Valid()
      ensures old(CapacityOk(Snapshot())) ==> CapacityOk(Snapshot())
    {
      var auth := Gate.AuthenticateAdmin(header, verify);
      if auth.Err? {
        reply := Err(Refused(auth.error));
        return;
      }
      ghost var before := Snapshot();
      if Count(courses, CourseIdIs(id)) == 0 {
        reply := Err(CourseNotFound);
        return;
      }
      if Enrolled(regs, id) > 0 {
        reply := Err(HasActiveRegistrations);
        return;
      }
      courses := DeleteWhere(courses, CourseIdIs(id));
      reply := Ok(());
      assert Step(Snapshot(), reply) == ServerCatalog.DeleteCourse(before, id);
      ServerCatalog.DeleteCourseKeepsWellFormed(before, id);
      if CapacityOk(before) {
        ServerCatalog.DeleteCourseKeepsCapacity(before, id);
      }
    }

    /** PUT /api/admin/registrations/:id. Keeps the table invariants, not
        capacity. */
    method SetStatus(header: Option<string>, verify: string -> Option<Gate.Claims>, id: nat, status: string)
      returns (reply: Result<(), Error>)
      requires Valid()
      modifies this
      ensures Gate.AuthenticateAdmin(header, verify).Err? ==>
                Snapshot() == old(Snapshot()) && reply == Err(Refused(Gate.AuthenticateAdmin(header, verify).error))
      ensures Gate.AuthenticateAdmin(header, verify).Ok? ==>
                Step(Snapshot(), reply) == ServerLedger.SetStatus(old(Snapshot()), id, status)
      ensures Valid()
    {
      var auth := Gate.AuthenticateAdmin(header, verify);
      if auth.Err? {
        reply := Err(Refused(auth.error));
        return;
      }
      ghost var before := Snapshot();
      if Count(regs, ServerLedger.RegIdJoined(courses, id)) == 0 {
        reply := Err(RegistrationNotFound);
        return;
      }
      regs := UpdateWhere(regs, RegIdIs(id), WithStatus(status));
      reply := Ok(());
      assert Step(Snapshot(), reply) == ServerLedger.SetStatus(before, id, status);
      ghost var i :| 0 <= i < |before.regs| && before.regs[i].id == id;
      ServerLedger.SetStatusOnlyThatRow(before, i, status);
    }

    /** POST /api/registrations, for the student the token names. */
    method Register(header: Option<string>, verify: string -> Option<Gate.Claims>, courseId: nat)
      returns (reply: Result<ServerLedger.Enrollment, Error>)
      requires Valid()
      modifies this
      ensures Gate.Authenticate(header, verify).Err? ==>
                Snapshot() == old(Snapshot()) && reply == Err(Refused(Gate.Authenticate(header, verify).error))
      ensures Gate.Authenticate(header, verify).Ok? ==>
                Step(Snapshot(), reply) == ServerLedger.Register(old(Snapshot()), Gate.Authenticate(header, verify).value.id, courseId)
      ensures Valid()
      ensures old(CapacityOk(Snapshot())) ==> CapacityOk(Snapshot())
    {
      var auth := Gate.Authenticate(header, verify);
      if auth.Err? {
        reply := Err(Refused(auth.error));
        return;
      }
      var student := auth.value.id;
      ghost var before := Snapshot();
      ghost var expected := ServerLedger.Register(before, student, courseId);
      var k := FirstWhere(courses, CourseIdIs(courseId));
      if k == |courses| {
        reply := Err(CourseNotFound);
        return;
      }
      if Enrolled(regs, courseId) >= courses[k].fields.maxStudents {
        reply := Err(CourseFull);
        return;
      }
      var j := FirstWhere(regs, PairIs(student, courseId));
      if j < |regs| {
        var row := regs[j];
        if row.status == REGISTERED {
          reply := Err(AlreadyRegistered);
          return;
        }
        regs := UpdateWhere(regs, RegIdIs(row.id), WithStatus(REGISTERED));
        reply := Ok(ServerLedger.Restored(row.id));
        assert Snapshot() == expected.db;
      } else {
        regs := regs + [Registration(nextRegId, student, courseId, REGISTERED)];
        reply := Ok(ServerLedger.NewRegistration(nextRegId));
        nextRegId := nextRegId + 1;
        assert Snapshot() == expected.db;
      }
      ServerLedger.RegisterKeepsWellFormed(before, student, courseId);
      if CapacityOk(before) {
        ServerLedger.RegisterKeepsCapacity(before, student, courseId);
      }
    }

    /** DELETE /api/registrations/:registrationId */
    method Drop(header: Option<string>, verify: string -> Option<Gate.Claims>, id: nat)
      returns (reply: Result<(), Error>)
      requires Valid()
      modifies this
      ensures Gate.Authenticate(header, verify).Err? ==>
                Snapshot() == old(Snapshot()) && reply == Err(Refused(Gate.Authenticate(header, verify).error))
      ensures Gate.Authenticate(header, verify).Ok? ==>
                Step(Snapshot(), reply) == ServerLedger.Drop(old(Snapshot()), Gate.Authenticate(header, verify).value, id)
      ensures Valid()
      ensures old(CapacityOk(Snapshot())) ==> CapacityOk(Snapshot())
    {
      var auth := Gate.Authenticate(header, verify);
      if auth.Err? {
        reply := Err(Refused(auth.error));
        return;
      }
      ghost var before := Snapshot();
      var k := FirstWhere(regs, RegIdIs(id));
      if k == |regs| {
        reply := Err(RegistrationNotFound);
        return;
      }
      if !Gate.MayActFor(auth.value, regs[k].student) {
        reply := Err(Refused(Gate.AccessDenied));
        return;
      }
      regs := UpdateWhere(regs, RegIdIs(id), WithStatus(DROPPED));
      reply := Ok(());
      assert Step(Snapshot(), reply) == ServerLedger.Drop(before, auth.value, id);
      ServerLedger.DropKeepsWellFormed(before, auth.value, id);
      if CapacityOk(before) {
        ServerLedger.DropKeepsCapacity(before, auth.value, id);
      }
    }
  }
}
