/** The alternative course routes (routes/courses.js): create, update and
    delete with required-field validation and not-found replies taken from
    `affectedRows`, lookup by id, and the listing by `created_at`. There is
    no check against registrations here. `NOW()` is a clock advanced by the
    caller-chosen `elapsed` at each insert; a missing body field is the
    empty string. */
module CourseRoutes {
  import opened Common

  datatype Course = Course(id: nat, title: string, description: string, createdAt: nat)

  /** The courses table, its AUTO_INCREMENT counter and the clock. */
  datatype Catalog = Catalog(rows: seq<Course>, nextId: nat, clock: nat)

  datatype RouteError =
    | FieldsRequired   // 400 "Title and description are required"
    | NotFound         // 404 "Course not found"

  function HttpStatus(e: RouteError): (code: nat)
    ensures code == 404 <==> e == NotFound
    ensures code == 400 <==> e == FieldsRequired
  {
    match e
    case NotFound => 404
    case FieldsRequired => 400
  }

  datatype Outcome<T> = Outcome(catalog: Catalog, reply: Result<T, RouteError>)

  /** `WHERE id = ?` */
  function IdIs(id: nat): Course -> bool
  {
    (c: Course) => c.id == id
  }

  /** `SET title = ?, description = ?` */
  function WithText(title: string, description: string): Course -> Course
  {
    (c: Course) => c.(title := title, description := description)
  }

  /** A row and a later one: a larger id and a creation time no earlier. */
  predicate InOrder(a: Course, b: Course)
  {
    a.id < b.id && a.createdAt <= b.createdAt
  }

  predicate NotLater(a: Course, b: Course)
  {
    a.createdAt <= b.createdAt
  }

  ghost predicate Valid(c: Catalog)
  {
    && (forall r :: r in c.rows ==> r.id < c.nextId && r.createdAt <= c.clock)
    && Pairwise(c.rows, InOrder)
  }

  /** GET /:id: the course with that id, or 404. */
  function Get(rows: seq<Course>, id: nat): (r: Result<Course, RouteError>)
    ensures r.Err? <==> forall c :: c in rows ==> c.id != id
    ensures r.Err? ==> r.error == NotFound
    ensures r.Ok? ==> r.value in rows && r.value.id == id
  {
    var k := FirstWhere(rows, IdIs(id));
    if k == |rows| then Err(NotFound) else Ok(rows[k])
  }

  /** GET /: every course, newest first. */
  function List(rows: seq<Course>): (r: seq<Course>)
    ensures multiset(r) == multiset(rows)
  {
    NewestFirst(rows, (c: Course) => true)
  }

  /** POST /: title and description required; the course is inserted under
      the next id at the current time. */
  function Create(c: Catalog, title: string, description: string, elapsed: nat): (o: Outcome<nat>)
    ensures o.reply.Err? <==> title == "" || description == ""
    ensures o.reply.Err? ==> o.catalog == c && o.reply.error == FieldsRequired
    ensures o.reply.Ok? ==>
              && o.reply.value == c.nextId
              && o.catalog == Catalog(c.rows + [Course(c.nextId, title, description, c.clock + elapsed)], c.nextId + 1, c.clock + elapsed)
  {
    if title == "" || description == "" then Outcome(c, Err(FieldsRequired))
    else
      var now := c.clock + elapsed;
      Outcome(Catalog(c.rows + [Course(c.nextId, title, description, now)], c.nextId + 1, now), Ok(c.nextId))
  }

  /** PUT /:id: title and description required; the update sets them on the
      course with that id, and 404 when it affected no row. */
  function Update(c: Catalog, id: nat, title: string, description: string): (o: Outcome<()>)
    ensures o.reply == Err(FieldsRequired) <==> title == "" || description == ""
    ensures o.reply == Err(NotFound) <==> title != "" && description != "" && forall r :: r in c.rows ==> r.id != id
    ensures o.reply.Err? ==> o.catalog == c
    ensures o.reply.Ok? ==>
              && o.catalog == c.(rows := o.catalog.rows)
              && |o.catalog.rows| == |c.rows|
              && forall i :: 0 <= i < |c.rows| ==>
                   o.catalog.rows[i] == if c.rows[i].id == id then c.rows[i].(title := title, description := description) else c.rows[i]
  {
    if title == "" || description == "" then Outcome(c, Err(FieldsRequired))
    else
      var rows := UpdateWhere(c.rows, IdIs(id), WithText(title, description));
      var affected := Count(c.rows, IdIs(id));
      if affected == 0 then
        UpdateNothing(c.rows, IdIs(id), WithText(title, description));
        Outcome(c.(rows := rows), Err(NotFound))
      else
        Outcome(c.(rows := rows), Ok(()))
  }

  /** DELETE /:id: the course with that id is deleted, and 404 when the
      delete affected no row. */
  function Delete(c: Catalog, id: nat): (o: Outcome<()>)
    ensures o.reply.Err? <==> forall r :: r in c.rows ==> r.id != id
    ensures o.reply.Err? ==> o.reply.error == NotFound && o.catalog == c
    ensures o.catalog == c.(rows := DeleteWhere(c.rows, IdIs(id)))
  {
    var rows := DeleteWhere(c.rows, IdIs(id));
    if |c.rows| - |rows| == 0 then
      DeleteNothing(c.rows, IdIs(id));
      Outcome(c.(rows := rows), Err(NotFound))
    else
      Outcome(c.(rows := rows), Ok(()))
  }

  /** In a valid catalog the course with a given id sits at one position. */
  lemma {:induction false} OnlyAt(c: Catalog, k: nat)
    requires Valid(c)
    requires k < |c.rows|
    ensures forall i :: 0 <= i < |c.rows| && i != k ==> c.rows[i].id != c.rows[k].id
    ensures Get(c.rows, c.rows[k].id) == Ok(c.rows[k])
  {
    forall i | 0 <= i < |c.rows| && i != k ensures c.rows[i].id != c.rows[k].id {
      if i < k {
        assert InOrder(c.rows[i], c.rows[k]);
      } else {
        assert InOrder(c.rows[k], c.rows[i]);
      }
    }
    FirstWhereIs(c.rows, IdIs(c.rows[k].id), k);
  }

  /** A created course can be read back at once under its new id. */
  lemma {:induction false} CreateThenGet(c: Catalog, title: string, description: string, elapsed: nat)
    requires Valid(c)
    requires title != "" && description != ""
    ensures var o := Create(c, title, description, elapsed);
            && Valid(o.catalog)
            && Get(o.catalog.rows, c.nextId) == Ok(Course(c.nextId, title, description, c.clock + elapsed))
  {
    var o := Create(c, title, description, elapsed);
    var row := Course(c.nextId, title, description, c.clock + elapsed);
    PairwiseSnoc(c.rows, row, InOrder);
    assert o.catalog.rows[|c.rows|] == row;
    OnlyAt(o.catalog, |c.rows|);
  }

  /** Rewriting the text of one course keeps the catalog valid: ids and
      creation times are untouched. */
  lemma {:induction false} RetextKeepsValid(c: Catalog, k: nat, title: string, description: string)
    requires Valid(c)
    requires k < |c.rows|
    ensures Valid(c.(rows := c.rows[k := c.rows[k].(title := title, description := description)]))
  {
    var rows := c.rows[k := c.rows[k].(title := title, description := description)];
    forall i, j | 0 <= i < j < |rows| ensures InOrder(rows[i], rows[j]) {
      assert InOrder(c.rows[i], c.rows[j]);
    }
    forall r | r in rows ensures r.id < c.nextId && r.createdAt <= c.clock {
      var i :| 0 <= i < |rows| && rows[i] == r;
      assert c.rows[i] in c.rows;
    }
  }

  /** An update changes only that course's title and description: reading
      it back gives the new text, and it keeps the catalog valid. */
  lemma {:induction false} UpdateThenGet(c: Catalog, id: nat, title: string, description: string)
    requires Valid(c)
    requires Update(c, id, title, description).reply.Ok?
    ensures var after := Update(c, id, title, description).catalog;
            && Valid(after)
            && Get(after.rows, id).Ok?
            && Get(after.rows, id).value == Get(c.rows, id).value.(title := title, description := description)
  {
    var k := FirstWhere(c.rows, IdIs(id));
    assert k < |c.rows|;
    OnlyAt(c, k);
    UpdateWhereOne(c.rows, IdIs(id), WithText(title, description), k);
    var after := c.(rows := c.rows[k := c.rows[k].(title := title, description := description)]);
    assert Update(c, id, title, description).catalog == after;
    RetextKeepsValid(c, k, title, description);
    OnlyAt(after, k);
  }

  /** A delete removes exactly the course with that id (one row in a valid
      catalog), keeps every other course, and afterwards the id is unknown. */
  lemma {:induction false} DeleteRemovesOnlyIt(c: Catalog, id: nat)
    requires Valid(c)
    ensures var after := Delete(c, id).catalog;
            && Valid(after)
            && (forall x :: x in after.rows <==> x in c.rows && x.id != id)
            && |c.rows| - |after.rows| <= 1
            && Get(after.rows, id) == Err(NotFound)
  {
    var p := IdIs(id);
    var after := Delete(c, id).catalog;
    DeleteWhereKeeps(c.rows, p);
    forall x ensures x in after.rows <==> x in c.rows && x.id != id {
      assert multiset(after.rows)[x] == if p(x) then 0 else multiset(c.rows)[x];
    }
    var k := FirstWhere(c.rows, p);
    if k < |c.rows| {
      OnlyAt(c, k);
      CountOne(c.rows, p, k);
    }
    DeleteKeepsPairwise(c.rows, p, InOrder);
  }

  /** The listing holds every course, ordered by `created_at`, newest first. */
  lemma ListNewestFirst(c: Catalog)
    requires Valid(c)
    ensures var r := List(c.rows);
            forall i, j :: 0 <= i < j < |r| ==> r[i].createdAt >= r[j].createdAt
  {
    assert Pairwise(c.rows, NotLater) by {
      forall i, j | 0 <= i < j < |c.rows| ensures NotLater(c.rows[i], c.rows[j]) {
        assert InOrder(c.rows[i], c.rows[j]);
      }
    }
    NewestFirstReverses(c.rows, (x: Course) => true, NotLater);
  }

  /** The courses table behind the routes, changed in place. */
  class CatalogStore {
    var rows: seq<Course>
    var nextId: nat
    var clock: nat

    function Snapshot(): Catalog
      reads this
    {
      Catalog(rows, nextId, clock)
    }

    constructor()
      ensures Snapshot() == Catalog([], 1, 0)
      ensures Valid(Snapshot())
    {
      rows := [];
      nextId := 1;
      clock := 0;
    }

    /** POST /, `elapsed` after the last insert. */
    method Post(title: string, description: string, elapsed: nat) returns (reply: Result<nat, RouteError>)
      requires Valid(Snapshot())
      modifies this
      ensures Outcome(Snapshot(), reply) == Create(old(Snapshot()), title, description, elapsed)
      ensures Valid(Snapshot())
    {
      if title == "" || description == "" {
        reply := Err(FieldsRequired);
        return;
      }
      CreateThenGet(Snapshot(), title, description, elapsed);
      clock := clock + elapsed;
      rows := rows + [Course(nextId, title, description, clock)];
      reply := Ok(nextId);
      nextId := nextId + 1;
    }

    /** PUT /:id */
    method Put(id: nat, title: string, description: string) returns (reply: Result<(), RouteError>)
      requires Valid(Snapshot())
      modifies this
      ensures Outcome(Snapshot(), reply) == Update(old(Snapshot()), id, title, description)
      ensures Valid(Snapshot())
    {
      if title == "" || description == "" {
        reply := Err(FieldsRequired);
        return;
      }
      ghost var outcome := Update(Snapshot(), id, title, description);
      if outcome.reply.Ok? {
        UpdateThenGet(Snapshot(), id, title, description);
      }
      var affected := Count(rows, IdIs(id));
      rows := UpdateWhere(rows, IdIs(id), WithText(title, description));
      assert Snapshot() == outcome.catalog;
      if affected == 0 {
        reply := Err(NotFound);
        return;
      }
      reply := Ok(());
    }

    /** DELETE /:id */
    method DeleteId(id: nat) returns (reply: Result<(), RouteError>)
      requires Valid(Snapshot())
      modifies this
      ensures Outcome(Snapshot(), reply) == Delete(old(Snapshot()), id)
      ensures Valid(Snapshot())
    {
      ghost var outcome := Delete(Snapshot(), id);
      DeleteRemovesOnlyIt(Snapshot(), id);
      var before := |rows|;
      rows := DeleteWhere(rows, IdIs(id));
      assert Snapshot() == outcome.catalog;
      if before - |rows| == 0 {
        reply := Err(NotFound);
        assert outcome.reply == reply;
        return;
      }
      reply := Ok(());
      assert outcome.reply == reply;
    }
  }
}
