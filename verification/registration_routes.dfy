/** The alternative registration routes (routes/registrations.js): a simpler
    ledger with no statuses. Any existing row for a (student, course) pair
    blocks a new registration, and a drop deletes the pair's rows.

    `NOW()` is a clock: each insert happens `elapsed` (chosen by the caller,
    never negative) after the previous one, so `registered_at` never
    decreases along the table. The session's user id is a parameter. */
module RegistrationRoutes {
  import opened Common

  datatype Row = Row(id: nat, student: nat, course: nat, registeredAt: nat)

  /** The registrations table, its AUTO_INCREMENT counter and the clock. */
  datatype Table = Table(rows: seq<Row>, nextId: nat, clock: nat)

  datatype RouteError =
    | CourseIdRequired    // 400 "Course ID is required"
    | AlreadyRegistered   // 400 "Already registered for this course"
    | NotFound            // 404 "Registration not found"

  function HttpStatus(e: RouteError): (code: nat)
    ensures code == 404 <==> e == NotFound
    ensures code != 404 ==> code == 400
  {
    if e == NotFound then 404 else 400
  }

  datatype Outcome<T> = Outcome(table: Table, reply: Result<T, RouteError>)

  /** `WHERE student_id = ? AND course_id = ?` */
  function PairIs(student: nat, course: nat): Row -> bool
  {
    (r: Row) => r.student == student && r.course == course
  }

  /** A row and a later one: a larger id, a timestamp no earlier, and not
      the same (student, course) pair. */
  predicate InOrder(a: Row, b: Row)
  {
    a.id < b.id && a.registeredAt <= b.registeredAt && (a.student != b.student || a.course != b.course)
  }

  /** `registered_at` of the first row is no later than that of the second. */
  predicate NotLater(a: Row, b: Row)
  {
    a.registeredAt <= b.registeredAt
  }

  /** Ids and timestamps below the counter and the clock, rows in insertion
      order, at most one row per pair. */
  ghost predicate Valid(t: Table)
  {
    && (forall r :: r in t.rows ==> r.id < t.nextId && r.registeredAt <= t.clock)
    && Pairwise(t.rows, InOrder)
  }

  /** POST /: a missing (or zero) `courseId` is refused; then any row for the
      pair, whatever it is, refuses the registration; otherwise one row is
      inserted with the next id at the current time. */
  function Register(t: Table, student: nat, courseId: nat, elapsed: nat): (o: Outcome<nat>)
    ensures o.reply.Err? ==> o.table == t && o.reply.error in {CourseIdRequired, AlreadyRegistered}
    ensures o.reply == Err(CourseIdRequired) <==> courseId == 0
    ensures o.reply == Err(AlreadyRegistered) <==> courseId != 0 && exists r :: r in t.rows && r.student == student && r.course == courseId
    ensures o.reply.Ok? ==>
              && o.reply.value == t.nextId
              && o.table == Table(t.rows + [Row(t.nextId, student, courseId, t.clock + elapsed)], t.nextId + 1, t.clock + elapsed)
  {
    if courseId == 0 then
      Outcome(t, Err(CourseIdRequired))
    else if Count(t.rows, PairIs(student, courseId)) > 0 then
      Outcome(t, Err(AlreadyRegistered))
    else
      var now := t.clock + elapsed;
      Outcome(Table(t.rows + [Row(t.nextId, student, courseId, now)], t.nextId + 1, now), Ok(t.nextId))
  }

  /** DELETE /:studentId/:courseId: the pair's rows are deleted; when the
      delete affected no row the reply is 404 (and the table is as it was).
      `affectedRows` only decides the 404: a success carries no count. */
  function Drop(t: Table, student: nat, courseId: nat): (o: Outcome<()>)
    ensures o.reply.Err? ==> o.table == t && o.reply.error == NotFound
    ensures o.reply.Err? <==> forall r :: r in t.rows ==> !(r.student == student && r.course == courseId)
    ensures o.reply.Ok? <==> |o.table.rows| < |t.rows|
    ensures o.table == t.(rows := DeleteWhere(t.rows, PairIs(student, courseId)))
  {
    var rows := DeleteWhere(t.rows, PairIs(student, courseId));
    if |t.rows| - |rows| == 0 then
      DeleteNothing(t.rows, PairIs(student, courseId));
      Outcome(t.(rows := rows), Err(NotFound))
    else
      Outcome(t.(rows := rows), Ok(()))
  }

  /** GET /student/:studentId: the student's rows whose course exists (the
      join with the courses table, whose ids are `courses`), newest first. */
  function ListForStudent(rows: seq<Row>, courses: set<nat>, studentId: nat): (r: seq<Row>)
    ensures forall x :: x in r <==> x in rows && x.student == studentId && x.course in courses
  {
    var keep := (x: Row) => x.student == studentId && x.course in courses;
    var r := NewestFirst(rows, keep);
    assert forall x :: x in r <==> multiset(r)[x] > 0;
    r
  }

  /** Registration keeps the table in order with one row per pair. */
  lemma {:induction false} RegisterKeepsValid(t: Table, student: nat, courseId: nat, elapsed: nat)
    requires Valid(t)
    ensures Valid(Register(t, student, courseId, elapsed).table)
  {
    var o := Register(t, student, courseId, elapsed);
    if o.reply.Ok? {
      var row := Row(t.nextId, student, courseId, t.clock + elapsed);
      forall y | y in t.rows ensures InOrder(y, row) {
        assert !PairIs(student, courseId)(y);
      }
      PairwiseSnoc(t.rows, row, InOrder);
    }
  }

  /** In a valid table a pair's row is the only row for that pair. */
  lemma PairOnlyAt(t: Table, k: nat)
    requires Valid(t)
    requires k < |t.rows|
    ensures forall i :: 0 <= i < |t.rows| && i != k ==> !PairIs(t.rows[k].student, t.rows[k].course)(t.rows[i])
  {
    forall i | 0 <= i < |t.rows| && i != k ensures !PairIs(t.rows[k].student, t.rows[k].course)(t.rows[i]) {
      if i < k {
        assert InOrder(t.rows[i], t.rows[k]);
      } else {
        assert InOrder(t.rows[k], t.rows[i]);
      }
    }
  }

  /** The drop removes exactly the pair's rows, at most one of them in a
      valid table, and keeps every other row. */
  lemma {:induction false} DropRemovesOnlyPair(t: Table, student: nat, courseId: nat)
    requires Valid(t)
    ensures var after := Drop(t, student, courseId).table;
            && (forall x :: x in after.rows <==> x in t.rows && !(x.student == student && x.course == courseId))
            && |t.rows| - |after.rows| <= 1
  {
    var p := PairIs(student, courseId);
    var rows := DeleteWhere(t.rows, p);
    DeleteWhereKeeps(t.rows, p);
    forall x ensures x in rows <==> x in t.rows && !(x.student == student && x.course == courseId) {
      assert multiset(rows)[x] == if p(x) then 0 else multiset(t.rows)[x];
    }
    var k := FirstWhere(t.rows, p);
    if k < |t.rows| {
      PairOnlyAt(t, k);
      CountOne(t.rows, p, k);
    }
  }

  /** The drop keeps the table valid. */
  lemma {:induction false} DropKeepsValid(t: Table, student: nat, courseId: nat)
    requires Valid(t)
    ensures Valid(Drop(t, student, courseId).table)
  {
    var p := PairIs(student, courseId);
    var rows := DeleteWhere(t.rows, p);
    DeleteWhereKeeps(t.rows, p);
    DeleteKeepsPairwise(t.rows, p, InOrder);
    forall r | r in rows ensures r.id < t.nextId && r.registeredAt <= t.clock {
      assert multiset(rows)[r] > 0;
    }
  }

  /** Registering and then dropping the same pair succeeds, removes the one
      new row and gives back the rows there were before (only the counter and
      the clock have moved on). */
  lemma {:induction false} RegisterThenDrop(t: Table, student: nat, courseId: nat, elapsed: nat)
    requires Register(t, student, courseId, elapsed).reply.Ok?
    ensures var mid := Register(t, student, courseId, elapsed).table;
            && Drop(mid, student, courseId) == Outcome(mid.(rows := t.rows), Ok(()))
            && |mid.rows| == |t.rows| + 1
  {
    var p := PairIs(student, courseId);
    var row := Row(t.nextId, student, courseId, t.clock + elapsed);
    var mid := Register(t, student, courseId, elapsed).table;
    assert mid.rows == t.rows + [row];
    DeleteWhereAppend(t.rows, [row], p);
    DeleteNothing(t.rows, p);
    assert [row] == [row] + [];
    DeleteWhereCons(row, [], p);
    assert t.rows + [] == t.rows;
  }

  /** The listing is ordered by `registered_at`, newest first. */
  lemma ListNewestFirst(t: Table, courses: set<nat>, studentId: nat)
    requires Valid(t)
    ensures var r := ListForStudent(t.rows, courses, studentId);
            forall i, j :: 0 <= i < j < |r| ==> r[i].registeredAt >= r[j].registeredAt
  {
    assert Pairwise(t.rows, NotLater) by {
      forall i, j | 0 <= i < j < |t.rows| ensures NotLater(t.rows[i], t.rows[j]) {
        assert InOrder(t.rows[i], t.rows[j]);
      }
    }
    NewestFirstReverses(t.rows, (x: Row) => x.student == studentId && x.course in courses, NotLater);
  }

  /** The registrations table behind the routes, changed in place. */
  class RegistrationStore {
    var rows: seq<Row>
    var nextId: nat
    var clock: nat

    function Snapshot(): Table
      reads this
    {
      Table(rows, nextId, clock)
    }

    constructor()
      ensures Snapshot() == Table([], 1, 0)
      ensures Valid(Snapshot())
    {
      rows := [];
      nextId := 1;
      clock := 0;
    }

    /** POST / for the session's student, `elapsed` after the last insert. */
    method Post(student: nat, courseId: nat, elapsed: nat) returns (reply: Result<nat, RouteError>)
      requires Valid(Snapshot())
      modifies this
      ensures Outcome(Snapshot(), reply) == Register(old(Snapshot()), student, courseId, elapsed)
      ensures Valid(Snapshot())
    {
      RegisterKeepsValid(Snapshot(), student, courseId, elapsed);
      if courseId == 0 {
        reply := Err(CourseIdRequired);
        return;
      }
      if Count(rows, PairIs(student, courseId)) > 0 {
        reply := Err(AlreadyRegistered);
        return;
      }
      clock := clock + elapsed;
      rows := rows + [Row(nextId, student, courseId, clock)];
      reply := Ok(nextId);
      nextId := nextId + 1;
    }

    /** DELETE /:studentId/:courseId; `affectedRows` decides the 404. */
    method DeletePair(student: nat, courseId: nat) returns (reply: Result<(), RouteError>)
      requires Valid(Snapshot())
      modifies this
      ensures Outcome(Snapshot(), reply) == Drop(old(Snapshot()), student, courseId)
      ensures Valid(Snapshot())
    {
      ghost var outcome := Drop(Snapshot(), student, courseId);
      DropKeepsValid(Snapshot(), student, courseId);
      var before := |rows|;
      rows := DeleteWhere(rows, PairIs(student, courseId));
      assert Snapshot() == outcome.table;
      var affected := before - |rows|;
      if affected == 0 {
        reply := Err(NotFound);
        assert outcome.reply == reply;
        return;
      }
      reply := Ok(());
      assert outcome.reply == reply;
    }
  }
}
