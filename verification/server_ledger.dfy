/** The registration ledger of server.js: a student's registration
    (`POST /api/registrations`), the drop (`DELETE /api/registrations/:id`),
    the admin status update (`PUT /api/admin/registrations/:id`) and the
    per-student listing (`GET /api/registrations/student/:studentId`).

    Per (student, course) pair the ledger is a small state machine: no row,
    then a `registered` row, which a drop turns `dropped` and a new
    registration turns `registered` again, reusing the row. */
module ServerLedger {
  import opened Common
  import Gate
  import opened ServerDb

  /** The two successful outcomes of a registration: a new row, or a dropped
      row restored; either way the reply carries the row's id. */
  datatype Enrollment = NewRegistration(id: nat) | Restored(id: nat)

  /** `JOIN courses c ON r.course_id = c.id WHERE r.id = ?`: a ledger row with
      that id whose course still exists. */
  function RegIdJoined(courses: seq<Course>, id: nat): Registration -> bool
  {
    (r: Registration) => r.id == id && Count(courses, CourseIdIs(r.course)) > 0
  }

  /** `JOIN courses c ON r.course_id = c.id WHERE r.student_id = ?` */
  function OwnJoined(courses: seq<Course>, student: nat): Registration -> bool
  {
    (r: Registration) => r.student == student && Count(courses, CourseIdIs(r.course)) > 0
  }

  /** POST /api/registrations for the authenticated `student`: 404 for an
      unknown course; then the capacity check against the course's
      `registered` rows, before the student's own row is looked at; then the
      student's row for the course, if any: refused if `registered`,
      otherwise restored; with no row, a new `registered` row. */
  function Register(db: Db, student: nat, courseId: nat): (s: Step<Enrollment>)
    ensures s.reply.Err? ==> s.db == db
    ensures s.reply == Err(CourseNotFound) <==> forall c :: c in db.courses ==> c.id != courseId
    ensures s.reply.Err? ==> s.reply.error in {CourseNotFound, CourseFull, AlreadyRegistered}
    ensures s.reply.Ok? ==> exists c :: c in db.courses && c.id == courseId && Enrolled(db.regs, courseId) < c.fields.maxStudents
    ensures s.reply.Ok? && s.reply.value.NewRegistration? ==>
              && s.reply.value.id == db.nextRegId
              && (forall r :: r in db.regs ==> !(r.student == student && r.course == courseId))
              && s.db == db.(regs := db.regs + [Registration(db.nextRegId, student, courseId, REGISTERED)],
                             nextRegId := db.nextRegId + 1)
    ensures s.reply.Ok? && s.reply.value.Restored? ==>
              && (exists r :: r in db.regs && r.student == student && r.course == courseId
                              && r.status != REGISTERED && r.id == s.reply.value.id)
              && s.db == db.(regs := UpdateWhere(db.regs, RegIdIs(s.reply.value.id), WithStatus(REGISTERED)))
  {
    var k := FirstWhere(db.courses, CourseIdIs(courseId));
    if k == |db.courses| then
      Step(db, Err(CourseNotFound))
    else if Enrolled(db.regs, courseId) >= db.courses[k].fields.maxStudents then
      Step(db, Err(CourseFull))
    else
      var j := FirstWhere(db.regs, PairIs(student, courseId));
      if j < |db.regs| then
        var row := db.regs[j];
        if row.status == REGISTERED then
          Step(db, Err(AlreadyRegistered))
        else
          Step(db.(regs := UpdateWhere(db.regs, RegIdIs(row.id), WithStatus(REGISTERED))), Ok(Restored(row.id)))
      else
        Step(db.(regs := db.regs + [Registration(db.nextRegId, student, courseId, REGISTERED)],
                 nextRegId := db.nextRegId + 1),
             Ok(NewRegistration(db.nextRegId)))
  }

  /** DELETE /api/registrations/:id: 404 for an unknown id, 403 unless the
      caller is an admin or the row's student, otherwise the row's status
      becomes `dropped`. */
  function Drop(db: Db, caller: Gate.Claims, id: nat): (s: Step<()>)
    ensures s.reply.Err? ==> s.db == db
    ensures s.reply == Err(RegistrationNotFound) <==> forall r :: r in db.regs ==> r.id != id
    ensures s.reply == Err(Refused(Gate.AccessDenied)) ==>
              exists r :: r in db.regs && r.id == id && !Gate.MayActFor(caller, r.student)
    ensures s.reply.Ok? ==>
              && (exists r :: r in db.regs && r.id == id && Gate.MayActFor(caller, r.student))
              && s.db == db.(regs := UpdateWhere(db.regs, RegIdIs(id), WithStatus(DROPPED)))
  {
    var k := FirstWhere(db.regs, RegIdIs(id));
    if k == |db.regs| then
      Step(db, Err(RegistrationNotFound))
    else if !Gate.MayActFor(caller, db.regs[k].student) then
      Step(db, Err(Refused(Gate.AccessDenied)))
    else
      Step(db.(regs := UpdateWhere(db.regs, RegIdIs(id), WithStatus(DROPPED))), Ok(()))
  }

  /** PUT /api/admin/registrations/:id: 404 unless a row with that id joins
      an existing course; otherwise the row gets whatever status was sent,
      with no capacity check. */
  function SetStatus(db: Db, id: nat, status: string): (s: Step<()>)
    ensures s.reply.Err? ==> s.db == db && s.reply.error == RegistrationNotFound
    ensures s.reply.Err? <==>
              forall r :: r in db.regs && r.id == id ==> forall c :: c in db.courses ==> c.id != r.course
    ensures s.reply.Ok? ==> s.db == db.(regs := UpdateWhere(db.regs, RegIdIs(id), WithStatus(status)))
  {
    if Count(db.regs, RegIdJoined(db.courses, id)) == 0 then
      Step(db, Err(RegistrationNotFound))
    else
      Step(db.(regs := UpdateWhere(db.regs, RegIdIs(id), WithStatus(status))), Ok(()))
  }

  /** GET /api/registrations/student/:studentId: 403 unless the caller is an
      admin or that student; otherwise the student's rows whose course
      exists, newest first. */
  function ListForStudent(db: Db, caller: Gate.Claims, studentId: nat): (r: Result<seq<Registration>, Error>)
    ensures r.Ok? <==> Gate.MayActFor(caller, studentId)
    ensures r.Err? ==> r.error == Refused(Gate.AccessDenied)
    ensures r.Ok? ==> forall x :: x in r.value <==>
              x in db.regs && x.student == studentId && exists c :: c in db.courses && c.id == x.course
  {
    if !Gate.MayActFor(caller, studentId) then Err(Refused(Gate.AccessDenied))
    else
      var rows := NewestFirst(db.regs, OwnJoined(db.courses, studentId));
      assert forall x :: x in rows <==> multiset(rows)[x] > 0;
      Ok(rows)
  }

  // ----- registration -----

  /** With unique course ids, the course row a registration reads is the
      course with that id. */
  lemma CourseLookup(db: Db, c: Course)
    requires WellFormed(db)
    requires c in db.courses
    ensures FirstWhere(db.courses, CourseIdIs(c.id)) < |db.courses|
    ensures db.courses[FirstWhere(db.courses, CourseIdIs(c.id))] == c
  {
    var i :| 0 <= i < |db.courses| && db.courses[i] == c;
    assert CourseIdIs(c.id)(db.courses[i]);
  }

  /** With one row per pair, the row a registration reads for the pair is
      that row. */
  lemma PairLookup(db: Db, i: nat)
    requires WellFormed(db)
    requires i < |db.regs|
    ensures FirstWhere(db.regs, PairIs(db.regs[i].student, db.regs[i].course)) == i
  {
    var p := PairIs(db.regs[i].student, db.regs[i].course);
    assert p(db.regs[i]);
  }

  /** A full course refuses every registration and changes nothing, even for
      a student whose dropped row could have been restored: the capacity
      check comes before the student's own row is looked at. */
  lemma RegisterFull(db: Db, student: nat, c: Course)
    requires WellFormed(db)
    requires c in db.courses && Enrolled(db.regs, c.id) >= c.fields.maxStudents
    ensures Register(db, student, c.id) == Step(db, Err(CourseFull))
  {
    CourseLookup(db, c);
  }

  /** A student whose row for the course is `registered` is refused, and
      nothing changes. */
  lemma RegisterAlready(db: Db, i: nat, c: Course)
    requires WellFormed(db)
    requires c in db.courses && Enrolled(db.regs, c.id) < c.fields.maxStudents
    requires i < |db.regs| && db.regs[i].course == c.id && db.regs[i].status == REGISTERED
    ensures Register(db, db.regs[i].student, c.id) == Step(db, Err(AlreadyRegistered))
  {
    CourseLookup(db, c);
    PairLookup(db, i);
  }

  /** A student whose row for the course is not `registered` gets that same
      row back as `registered` and its id: no row is added and no other row
      changes. */
  lemma {:induction false} RegisterRestores(db: Db, i: nat, c: Course)
    requires WellFormed(db)
    requires c in db.courses && Enrolled(db.regs, c.id) < c.fields.maxStudents
    requires i < |db.regs| && db.regs[i].course == c.id && db.regs[i].status != REGISTERED
    ensures Register(db, db.regs[i].student, c.id)
            == Step(db.(regs := db.regs[i := db.regs[i].(status := REGISTERED)]), Ok(Restored(db.regs[i].id)))
  {
    CourseLookup(db, c);
    PairLookup(db, i);
    RestatusOne(db, i, REGISTERED);
  }

  /** A student with no row for the course gets a new `registered` row with
      the next id, appended after every existing row. */
  lemma RegisterInserts(db: Db, student: nat, c: Course)
    requires WellFormed(db)
    requires c in db.courses && Enrolled(db.regs, c.id) < c.fields.maxStudents
    requires forall r :: r in db.regs ==> !(r.student == student && r.course == c.id)
    ensures Register(db, student, c.id)
            == Step(db.(regs := db.regs + [Registration(db.nextRegId, student, c.id, REGISTERED)], nextRegId := db.nextRegId + 1),
                    Ok(NewRegistration(db.nextRegId)))
  {
    CourseLookup(db, c);
    assert FirstWhere(db.regs, PairIs(student, c.id)) == |db.regs|;
  }

  /** Every successful registration raises the course's count of
      `registered` rows by exactly one and leaves every other course's count
      as it was. */
  lemma {:induction false} RegisterCountsOne(db: Db, student: nat, courseId: nat, other: nat)
    requires WellFormed(db)
    requires Register(db, student, courseId).reply.Ok?
    ensures Enrolled(Register(db, student, courseId).db.regs, courseId) == Enrolled(db.regs, courseId) + 1
    ensures other != courseId ==> Enrolled(Register(db, student, courseId).db.regs, other) == Enrolled(db.regs, other)
  {
    var s := Register(db, student, courseId);
    var row := Registration(db.nextRegId, student, courseId, REGISTERED);
    match s.reply.value
    case NewRegistration(_) =>
      CountAppend(db.regs, row, ActiveIn(courseId));
      CountAppend(db.regs, row, ActiveIn(other));
    case Restored(id) =>
      var i :| 0 <= i < |db.regs| && db.regs[i].student == student && db.regs[i].course == courseId
               && db.regs[i].status != REGISTERED && db.regs[i].id == id;
      RestatusOne(db, i, REGISTERED);
      EnrolledAfterRestatus(db.regs, i, REGISTERED, courseId);
      EnrolledAfterRestatus(db.regs, i, REGISTERED, other);
  }

  /** Registration keeps every table invariant. */
  lemma {:induction false} RegisterKeepsWellFormed(db: Db, student: nat, courseId: nat)
    requires WellFormed(db)
    ensures WellFormed(Register(db, student, courseId).db)
  {
    var s := Register(db, student, courseId);
    if s.reply.Ok? {
      match s.reply.value
      case NewRegistration(_) =>
        var row := Registration(db.nextRegId, student, courseId, REGISTERED);
        var c :| c in db.courses && c.id == courseId && Enrolled(db.regs, courseId) < c.fields.maxStudents;
        assert courseId < db.nextCourseId;
        PairwiseSnoc(db.regs, row, DistinctRegistrations);
      case Restored(id) =>
        var i :| 0 <= i < |db.regs| && db.regs[i].student == student && db.regs[i].course == courseId
                 && db.regs[i].status != REGISTERED && db.regs[i].id == id;
        RestatusOne(db, i, REGISTERED);
    }
  }

  /** In the sequential setting registration never overfills a course: it
      only succeeds below `max_students`, and adds one to that course only. */
  lemma {:induction false} RegisterKeepsCapacity(db: Db, student: nat, courseId: nat)
    requires WellFormed(db) && CapacityOk(db)
    ensures CapacityOk(Register(db, student, courseId).db)
  {
    var s := Register(db, student, courseId);
    if s.reply.Ok? {
      var c0 :| c0 in db.courses && c0.id == courseId && Enrolled(db.regs, courseId) < c0.fields.maxStudents;
      forall c | c in s.db.courses
        ensures Enrolled(s.db.regs, c.id) == 0 || Enrolled(s.db.regs, c.id) <= c.fields.maxStudents
      {
        RegisterCountsOne(db, student, courseId, c.id);
        if c.id == courseId {
          CourseLookup(db, c);
          CourseLookup(db, c0);
        }
      }
    }
  }

  // ----- drop -----

  /** The drop of an existing row: refused for a caller who is neither an
      admin nor the row's student; otherwise that row alone becomes
      `dropped`. */
  lemma {:induction false} DropOutcome(db: Db, caller: Gate.Claims, i: nat)
    requires WellFormed(db)
    requires i < |db.regs|
    ensures Drop(db, caller, db.regs[i].id)
            == if Gate.MayActFor(caller, db.regs[i].student)
               then Step(db.(regs := db.regs[i := db.regs[i].(status := DROPPED)]), Ok(()))
               else Step(db, Err(Refused(Gate.AccessDenied)))
  {
    var id := db.regs[i].id;
    assert RegIdIs(id)(db.regs[i]);
    RestatusOne(db, i, DROPPED);
  }

  /** Dropping a row that is already `dropped` succeeds and changes nothing;
      so a second drop of the same row is answered as the first was and
      leaves the ledger where the first left it. */
  lemma {:induction false} DropIdempotent(db: Db, caller: Gate.Claims, id: nat)
    requires WellFormed(db)
    ensures Drop(Drop(db, caller, id).db, caller, id) == Step(Drop(db, caller, id).db, Drop(db, caller, id).reply)
  {
    var s := Drop(db, caller, id);
    if s.reply != Err(RegistrationNotFound) {
      var i :| 0 <= i < |db.regs| && db.regs[i].id == id;
      DropOutcome(db, caller, i);
      if s.reply.Ok? {
        RestatusOne(db, i, DROPPED);
        DropOutcome(s.db, caller, i);
        assert s.db.regs[i].(status := DROPPED) == s.db.regs[i];
        WriteSame(s.db.regs, i);
      }
    }
  }

  /** A drop lowers the count of the row's course by one when the row was
      `registered`, and changes no other count. */
  lemma {:induction false} DropCountsOne(db: Db, caller: Gate.Claims, i: nat, course: nat)
    requires WellFormed(db)
    requires i < |db.regs| && Drop(db, caller, db.regs[i].id).reply.Ok?
    ensures Enrolled(Drop(db, caller, db.regs[i].id).db.regs, course)
            == Enrolled(db.regs, course) - (if db.regs[i].course == course && db.regs[i].status == REGISTERED then 1 else 0)
  {
    DropOutcome(db, caller, i);
    EnrolledAfterRestatus(db.regs, i, DROPPED, course);
  }

  /** Dropping rewrites one status only, so the tables stay well formed. */
  lemma {:induction false} DropKeepsWellFormed(db: Db, caller: Gate.Claims, id: nat)
    requires WellFormed(db)
    ensures WellFormed(Drop(db, caller, id).db)
  {
    var s := Drop(db, caller, id);
    if s.reply.Ok? {
      var i :| 0 <= i < |db.regs| && db.regs[i].id == id;
      DropOutcome(db, caller, i);
      RestatusOne(db, i, DROPPED);
    }
  }

  /** A drop only lowers a count, so capacity survives. */
  lemma {:induction false} DropKeepsCapacity(db: Db, caller: Gate.Claims, id: nat)
    requires WellFormed(db) && CapacityOk(db)
    ensures CapacityOk(Drop(db, caller, id).db)
  {
    var s := Drop(db, caller, id);
    if s.reply.Ok? {
      var i :| 0 <= i < |db.regs| && db.regs[i].id == id;
      DropOutcome(db, caller, i);
      forall c | c in s.db.courses
        ensures Enrolled(s.db.regs, c.id) == 0 || Enrolled(s.db.regs, c.id) <= c.fields.maxStudents
      {
        DropCountsOne(db, caller, i, c.id);
      }
    }
  }

  /** Dropping a `registered` row frees a seat in its course: afterwards the
      course's count is below `max_students`. */
  lemma {:induction false} DropFreesSeat(db: Db, caller: Gate.Claims, i: nat, c: Course)
    requires WellFormed(db) && CapacityOk(db)
    requires i < |db.regs| && db.regs[i].status == REGISTERED
    requires c in db.courses && c.id == db.regs[i].course
    requires Gate.MayActFor(caller, db.regs[i].student)
    ensures Drop(db, caller, db.regs[i].id) == Step(db.(regs := db.regs[i := db.regs[i].(status := DROPPED)]), Ok(()))
    ensures WellFormed(db.(regs := db.regs[i := db.regs[i].(status := DROPPED)]))
    ensures Enrolled(db.regs[i := db.regs[i].(status := DROPPED)], c.id) < c.fields.maxStudents
  {
    DropOutcome(db, caller, i);
    RestatusOne(db, i, DROPPED);
    EnrolledAfterRestatus(db.regs, i, DROPPED, c.id);
    assert ActiveIn(c.id)(db.regs[i]);
    assert Enrolled(db.regs, c.id) > 0;
  }

  /** Dropping a registration and registering again restores the ledger
      exactly: the same row comes back, with its id, and nothing else
      differs. (The seat freed by the drop is the one taken back, so the
      capacity check passes.) */
  lemma {:induction false} DropThenRegister(db: Db, caller: Gate.Claims, i: nat, c: Course)
    requires WellFormed(db) && CapacityOk(db)
    requires i < |db.regs| && db.regs[i].status == REGISTERED
    requires c in db.courses && c.id == db.regs[i].course
    requires Gate.MayActFor(caller, db.regs[i].student)
    ensures Drop(db, caller, db.regs[i].id).reply == Ok(())
    ensures Register(Drop(db, caller, db.regs[i].id).db, db.regs[i].student, c.id) == Step(db, Ok(Restored(db.regs[i].id)))
  {
    var row := db.regs[i];
    var mid := db.(regs := db.regs[i := row.(status := DROPPED)]);
    DropFreesSeat(db, caller, i, c);
    RegisterRestores(mid, i, c);
    assert mid.regs[i].(status := REGISTERED) == row;
    WriteBack(db.regs, i, row.(status := DROPPED));
  }

  // The states of the one-seat scenarios below.
  const OneSeat := Course(1, CourseFields(Some("CS101"), "Intro", "", "", "", 3, "", 1))
  const NoSeatTaken := Db([], [OneSeat], [], 1, 2, 1)
  const SeatTaken := Db([], [OneSeat], [Registration(1, 10, 1, REGISTERED)], 1, 2, 2)
  const SeatFreed := Db([], [OneSeat], [Registration(1, 10, 1, DROPPED)], 1, 2, 2)
  const SeatRetaken := Db([], [OneSeat], [Registration(1, 10, 1, DROPPED), Registration(2, 11, 1, REGISTERED)], 1, 2, 3)
  const SeatTakenAndDropped := Db([], [OneSeat], [Registration(1, 10, 1, REGISTERED), Registration(2, 11, 1, DROPPED)], 1, 2, 3)
  const BothRegistered := [Registration(1, 10, 1, REGISTERED), Registration(2, 11, 1, REGISTERED)]

  /** Student 10 takes the only seat with a new row, id 1. */
  lemma TakeSeat()
    ensures WellFormed(SeatTaken) && Enrolled(SeatTaken.regs, 1) == 1
    ensures Register(NoSeatTaken, 10, 1) == Step(SeatTaken, Ok(NewRegistration(1)))
  {
    assert WellFormed(NoSeatTaken);
    RegisterInserts(NoSeatTaken, 10, OneSeat);
    RegisterKeepsWellFormed(NoSeatTaken, 10, 1);
    CountSingle(SeatTaken.regs[0], ActiveIn(1));
  }

  /** Student 10 drops it, and the seat is free again. */
  lemma FreeSeat(a: Gate.Claims)
    requires a.id == 10
    ensures WellFormed(SeatFreed) && Enrolled(SeatFreed.regs, 1) == 0
    ensures Drop(SeatTaken, a, 1) == Step(SeatFreed, Ok(()))
  {
    TakeSeat();
    DropOutcome(SeatTaken, a, 0);
    RestatusOne(SeatTaken, 0, DROPPED);
    assert SeatTaken.regs[0 := SeatTaken.regs[0].(status := DROPPED)] == SeatFreed.regs;
    CountSingle(SeatFreed.regs[0], ActiveIn(1));
  }

  /** Student 11 then gets the freed seat with a new row, id 2. */
  lemma RetakeSeat()
    ensures Register(SeatFreed, 11, 1) == Step(SeatRetaken, Ok(NewRegistration(2)))
    ensures Enrolled(SeatRetaken.regs, 1) == 1
  {
    FreeSeat(Gate.Claims(10, "", Gate.STUDENT, "", ""));
    RegisterInserts(SeatFreed, 11, OneSeat);
    assert SeatFreed.regs + [Registration(2, 11, 1, REGISTERED)] == SeatRetaken.regs;
    CountPair(SeatRetaken.regs[0], SeatRetaken.regs[1], ActiveIn(1));
  }

  /** The last seat of a one-seat course: student 10 takes it, student 11 is
      refused as the course is full, student 10 drops, and then student 11
      gets in with a new row, leaving one registered student. */
  lemma LastSeat(a: Gate.Claims)
    requires a.id == 10
    ensures var s1 := Register(NoSeatTaken, 10, 1);
            var s2 := Register(s1.db, 11, 1);
            var s3 := Drop(s2.db, a, 1);
            var s4 := Register(s3.db, 11, 1);
            && s1.reply == Ok(NewRegistration(1))
            && s2.reply == Err(CourseFull)
            && s3.reply == Ok(())
            && s4.reply == Ok(NewRegistration(2))
            && Enrolled(s4.db.regs, 1) == 1
  {
    TakeSeat();
    RegisterFull(SeatTaken, 11, OneSeat);
    FreeSeat(a);
    RetakeSeat();
  }

  // ----- admin status update -----

  /** The status update rewrites that one row's status and nothing else, and
      keeps the table invariants. */
  lemma {:induction false} SetStatusOnlyThatRow(db: Db, i: nat, status: string)
    requires WellFormed(db)
    requires i < |db.regs| && SetStatus(db, db.regs[i].id, status).reply.Ok?
    ensures SetStatus(db, db.regs[i].id, status).db == db.(regs := db.regs[i := db.regs[i].(status := status)])
    ensures WellFormed(SetStatus(db, db.regs[i].id, status).db)
  {
    RestatusOne(db, i, status);
  }

  /** With no capacity check, setting a dropped row back to `registered`
      through the status update can overfill a course. */
  lemma SetStatusCanOverfill()
    ensures WellFormed(SeatTakenAndDropped) && CapacityOk(SeatTakenAndDropped)
    ensures SetStatus(SeatTakenAndDropped, 2, REGISTERED).reply == Ok(())
    ensures !CapacityOk(SetStatus(SeatTakenAndDropped, 2, REGISTERED).db)
  {
    TakenAndDroppedValid();
    RestoreDroppedSeat();
  }

  /** The state before: one seat, taken; a second student's row dropped. */
  lemma TakenAndDroppedValid()
    ensures WellFormed(SeatTakenAndDropped) && CapacityOk(SeatTakenAndDropped)
  {
    var regs := SeatTakenAndDropped.regs;
    assert DistinctRegistrations(regs[0], regs[1]);
    CountPair(regs[0], regs[1], ActiveIn(1));
  }

  /** The status update turns the dropped row back to `registered`. */
  lemma RestoreDroppedSeat()
    ensures SetStatus(SeatTakenAndDropped, 2, REGISTERED) == Step(SeatTakenAndDropped.(regs := BothRegistered), Ok(()))
    ensures Enrolled(BothRegistered, 1) == 2
  {
    var db := SeatTakenAndDropped;
    CountOne(db.courses, CourseIdIs(1), 0);
    assert RegIdJoined(db.courses, 2)(db.regs[1]);
    UpdateWhereOne(db.regs, RegIdIs(2), WithStatus(REGISTERED), 1);
    assert db.regs[1 := db.regs[1].(status := REGISTERED)] == BothRegistered;
    CountPair(BothRegistered[0], BothRegistered[1], ActiveIn(1));
  }

  // ----- listing -----

  /** The listing is newest first: ledger ids grow with insertion, and the
      listed ids strictly decrease. */
  lemma ListNewestFirst(db: Db, caller: Gate.Claims, studentId: nat)
    requires WellFormed(db)
    requires Gate.MayActFor(caller, studentId)
    ensures var rows := ListForStudent(db, caller, studentId).value;
            forall i, j :: 0 <= i < j < |rows| ==> rows[i].id > rows[j].id
  {
    NewestFirstReverses(db.regs, OwnJoined(db.courses, studentId), DistinctRegistrations);
  }
}
