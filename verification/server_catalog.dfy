/** Course management of server.js: the admin create, update and delete
    handlers (`POST`, `PUT`, `DELETE /api/admin/courses[/:id]`), behind the
    admin gate. Each is a step function on the database. */
module ServerCatalog {
  import opened Common
  import opened ServerDb

  /** POST /api/admin/courses: refused when some course already carries the
      same code (an absent code is SQL NULL and matches none); otherwise the
      course is inserted under the next course id. */
  function CreateCourse(db: Db, f: CourseFields): (s: Step<nat>)
    ensures s.reply.Err? ==> s.db == db && s.reply.error == CodeTaken
    ensures s.reply.Err? <==> f.code.Some? && exists c :: c in db.courses && c.fields.code == f.code
    ensures s.reply.Ok? ==>
              && s.reply.value == db.nextCourseId
              && s.db == db.(courses := db.courses + [Course(db.nextCourseId, f)], nextCourseId := db.nextCourseId + 1)
  {
    if f.code.Some? && Count(db.courses, CodeIs(f.code.value)) > 0 then
      Step(db, Err(CodeTaken))
    else
      Step(db.(courses := db.courses + [Course(db.nextCourseId, f)], nextCourseId := db.nextCourseId + 1),
           Ok(db.nextCourseId))
  }

  /** PUT /api/admin/courses/:id: 404 for an unknown id; otherwise refused
      only when a non-empty new code belongs to a different course (an empty
      or absent code skips the check); otherwise every column of that course
      is overwritten, including `max_students`. */
  function UpdateCourse(db: Db, id: nat, f: CourseFields): (s: Step<()>)
    ensures s.reply.Err? ==> s.db == db && s.reply.error in {CourseNotFound, CodeTaken}
    ensures s.reply == Err(CourseNotFound) <==> forall c :: c in db.courses ==> c.id != id
    ensures s.reply == Err(CodeTaken) <==>
              && (exists c :: c in db.courses && c.id == id)
              && f.code.Some? && f.code.value != ""
              && exists c :: c in db.courses && c.fields.code == f.code && c.id != id
    ensures s.reply.Ok? ==>
              && s.db == db.(courses := s.db.courses)
              && |s.db.courses| == |db.courses|
              && forall i :: 0 <= i < |db.courses| ==>
                   s.db.courses[i] == if db.courses[i].id == id then Course(id, f) else db.courses[i]
  {
    if Count(db.courses, CourseIdIs(id)) == 0 then
      Step(db, Err(CourseNotFound))
    else if f.code.Some? && f.code.value != "" && Count(db.courses, CodeElsewhere(f.code.value, id)) > 0 then
      Step(db, Err(CodeTaken))
    else
      Step(db.(courses := UpdateWhere(db.courses, CourseIdIs(id), WithFields(f))), Ok(()))
  }

  /** DELETE /api/admin/courses/:id: 404 for an unknown id; refused while the
      course has any `registered` row; otherwise the course row is deleted
      (its ledger rows, all dropped by then, stay). */
  function DeleteCourse(db: Db, id: nat): (s: Step<()>)
    ensures s.reply.Err? ==> s.db == db && s.reply.error in {CourseNotFound, HasActiveRegistrations}
    ensures s.reply == Err(CourseNotFound) <==> forall c :: c in db.courses ==> c.id != id
    ensures s.reply == Err(HasActiveRegistrations) <==>
              (exists c :: c in db.courses && c.id == id) && Enrolled(db.regs, id) > 0
    ensures s.reply.Ok? ==> s.db == db.(courses := DeleteWhere(db.courses, CourseIdIs(id)))
  {
    if Count(db.courses, CourseIdIs(id)) == 0 then
      Step(db, Err(CourseNotFound))
    else if Enrolled(db.regs, id) > 0 then
      Step(db, Err(HasActiveRegistrations))
    else
      Step(db.(courses := DeleteWhere(db.courses, CourseIdIs(id))), Ok(()))
  }

  /** A created course gets a fresh id and a code no other course has, so
      the tables stay well formed. */
  lemma {:induction false} CreateCourseKeepsWellFormed(db: Db, f: CourseFields)
    requires WellFormed(db)
    ensures WellFormed(CreateCourse(db, f).db)
  {
    var s := CreateCourse(db, f);
    if s.reply.Ok? {
      var nc := Course(db.nextCourseId, f);
      forall c | c in db.courses ensures DistinctCourses(c, nc) {
        if f.code.Some? {
          assert !CodeIs(f.code.value)(c);
        }
      }
      PairwiseSnoc(db.courses, nc, DistinctCourses);
    }
  }

  /** A created course starts with no registrations (no ledger row names an
      id the counter has not reached), so capacity survives. */
  lemma {:induction false} CreateCourseKeepsCapacity(db: Db, f: CourseFields)
    requires WellFormed(db) && CapacityOk(db)
    ensures CapacityOk(CreateCourse(db, f).db)
  {
    var s := CreateCourse(db, f);
    if s.reply.Ok? {
      var nc := Course(db.nextCourseId, f);
      forall r | r in db.regs ensures !ActiveIn(nc.id)(r) {
      }
      assert Enrolled(db.regs, nc.id) == 0;
    }
  }

  /** An update keeps the table invariants: ids are untouched and the code
      check keeps non-empty codes unique. */
  lemma {:induction false} UpdateCourseKeepsWellFormed(db: Db, id: nat, f: CourseFields)
    requires WellFormed(db)
    ensures WellFormed(UpdateCourse(db, id, f).db)
  {
    var s := UpdateCourse(db, id, f);
    if s.reply.Ok? {
      var cs := s.db.courses;
      forall i, j | 0 <= i < j < |cs| ensures DistinctCourses(cs[i], cs[j]) {
        assert DistinctCourses(db.courses[i], db.courses[j]);
        if db.courses[i].id == id {
          if HasNonEmptyCode(cs[i]) {
            assert !CodeElsewhere(f.code.value, id)(db.courses[j]);
          }
        } else if db.courses[j].id == id {
          if HasNonEmptyCode(cs[i]) && f.code.Some? && f.code.value != "" {
            assert !CodeElsewhere(f.code.value, id)(db.courses[i]);
          }
        }
      }
      forall c | c in cs ensures c.id < db.nextCourseId {
        var i :| 0 <= i < |cs| && cs[i] == c;
        assert db.courses[i] in db.courses;
      }
    }
  }

  /** An update keeps capacity when the new `max_students` still holds the
      course's registered rows. */
  lemma {:induction false} UpdateCourseKeepsCapacity(db: Db, id: nat, f: CourseFields)
    requires CapacityOk(db)
    requires Enrolled(db.regs, id) == 0 || Enrolled(db.regs, id) <= f.maxStudents
    ensures CapacityOk(UpdateCourse(db, id, f).db)
  {
    var s := UpdateCourse(db, id, f);
    if s.reply.Ok? {
      forall c | c in s.db.courses ensures Enrolled(db.regs, c.id) == 0 || Enrolled(db.regs, c.id) <= c.fields.maxStudents {
        var i :| 0 <= i < |s.db.courses| && s.db.courses[i] == c;
        assert db.courses[i] in db.courses;
      }
    }
  }

  // A two-seat course with both seats taken.
  const TwoSeats := CourseFields(Some("CS101"), "Intro", "", "", "", 3, "", 2)
  const BothTaken := Db([], [Course(1, TwoSeats)],
                        [Registration(1, 10, 1, REGISTERED), Registration(2, 11, 1, REGISTERED)], 1, 2, 3)

  /** The state before: well formed, and full to the limit. */
  lemma BothTakenValid()
    ensures WellFormed(BothTaken) && CapacityOk(BothTaken)
    ensures Enrolled(BothTaken.regs, 1) == 2
  {
    CountPair(BothTaken.regs[0], BothTaken.regs[1], ActiveIn(1));
    assert DistinctRegistrations(BothTaken.regs[0], BothTaken.regs[1]);
  }

  /** ... but `max_students` is not checked against the registered rows, so
      lowering it below them succeeds and breaks capacity. */
  lemma UpdateCourseCanOverfill()
    ensures WellFormed(BothTaken) && CapacityOk(BothTaken)
    ensures UpdateCourse(BothTaken, 1, TwoSeats.(maxStudents := 1)).reply == Ok(())
    ensures !CapacityOk(UpdateCourse(BothTaken, 1, TwoSeats.(maxStudents := 1)).db)
  {
    BothTakenValid();
    var after := UpdateCourse(BothTaken, 1, TwoSeats.(maxStudents := 1)).db;
    assert after.courses[0] == Course(1, TwoSeats.(maxStudents := 1));
  }

  /** A delete removes exactly the course with that id, which is one row
      since ids are unique, and touches nothing else. */
  lemma {:induction false} DeleteCourseRemovesOnlyIt(db: Db, id: nat)
    requires WellFormed(db)
    requires DeleteCourse(db, id).reply.Ok?
    ensures var after := DeleteCourse(db, id).db;
            && (forall c :: c in after.courses <==> c in db.courses && c.id != id)
            && |after.courses| == |db.courses| - 1
            && after.regs == db.regs && after.users == db.users
  {
    var rows := DeleteWhere(db.courses, CourseIdIs(id));
    DeleteWhereKeeps(db.courses, CourseIdIs(id));
    forall c ensures c in rows <==> c in db.courses && c.id != id {
      assert multiset(rows)[c] == if CourseIdIs(id)(c) then 0 else multiset(db.courses)[c];
    }
    var k := FirstWhere(db.courses, CourseIdIs(id));
    CourseOnlyAt(db, k);
    CountOne(db.courses, CourseIdIs(id), k);
  }

  /** With unique course ids, the course at `k` is the only one with its id. */
  lemma CourseOnlyAt(db: Db, k: nat)
    requires WellFormed(db)
    requires k < |db.courses|
    ensures forall i :: 0 <= i < |db.courses| && i != k ==> !CourseIdIs(db.courses[k].id)(db.courses[i])
  {
    forall i | 0 <= i < |db.courses| && i != k ensures !CourseIdIs(db.courses[k].id)(db.courses[i]) {
      if i < k {
        assert DistinctCourses(db.courses[i], db.courses[k]);
      } else {
        assert DistinctCourses(db.courses[k], db.courses[i]);
      }
    }
  }

  /** Deleting a course keeps the tables well formed: the surviving
      courses keep their distinct ids and codes. */
  lemma {:induction false} DeleteCourseKeepsWellFormed(db: Db, id: nat)
    requires WellFormed(db)
    ensures WellFormed(DeleteCourse(db, id).db)
  {
    var s := DeleteCourse(db, id);
    if s.reply.Ok? {
      DeleteKeepsPairwise(db.courses, CourseIdIs(id), DistinctCourses);
      DeleteWhereKeeps(db.courses, CourseIdIs(id));
      forall c | c in s.db.courses ensures c in db.courses {
        assert multiset(s.db.courses)[c] > 0;
      }
    }
  }

  /** Deleting a course leaves every other course and the ledger as they
      were, so capacity survives. */
  lemma {:induction false} DeleteCourseKeepsCapacity(db: Db, id: nat)
    requires CapacityOk(db)
    ensures CapacityOk(DeleteCourse(db, id).db)
  {
    var s := DeleteCourse(db, id);
    if s.reply.Ok? {
      DeleteWhereKeeps(db.courses, CourseIdIs(id));
      forall c | c in s.db.courses ensures c in db.courses {
        assert multiset(s.db.courses)[c] > 0;
      }
    }
  }
}
