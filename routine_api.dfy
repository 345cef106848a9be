/** The routine endpoint: create a routine with its exercises and sets, list
    the caller's routines, rename one, delete one. Every method first needs a
    verified token; reads, renames and deletes only touch routines whose
    `userId` is the caller's. */
module RoutineApi {
  import opened Base

  // ---- request bodies -------------------------------------------------

  /** One element of an exercise's `routineSets` array. */
  datatype SetInput = SetInput(repetitions: int, weight: real)

  /** One element of the `exercises` array. `notes` is "" when absent;
      `routineSets` is None when the field is missing or not an array. */
  datatype ExerciseInput = ExerciseInput(
    machineId: int, sets: int, restTime: int, order: int, notes: string,
    routineSets: Option<seq<SetInput>>)

  /** The create body. `name` is "" when absent; `exercises` is None when it
      is not an array. */
  datatype CreateBody = CreateBody(name: string, description: Option<string>, exercises: Option<seq<ExerciseInput>>)

  /** The rename body's `description`: absent (the column is left alone) or
      given (possibly null). */
  datatype DescriptionUpdate = Untouched | Replace(value: Option<string>)

  // ---- stored rows ----------------------------------------------------

  datatype RoutineSet = RoutineSet(setNumber: int, repetitions: int, weight: real)

  datatype RoutineExercise = RoutineExercise(
    machineId: int, sets: int, restTime: int, order: int, notes: Option<string>,
    routineSets: seq<RoutineSet>)

  datatype Routine = Routine(id: int, userId: int, name: string, description: Option<string>, exercises: seq<RoutineExercise>)

  // ---- the create tree ------------------------------------------------

  /** The sets of one exercise: the j-th submitted set is stored as set
      number j + 1 with its repetitions and weight, and no set is added or
      dropped. */
  function BuildSets(sets: seq<SetInput>): (r: seq<RoutineSet>)
    ensures |r| == |sets|
    ensures forall j :: 0 <= j < |r| ==>
      r[j].setNumber == j + 1 && r[j].repetitions == sets[j].repetitions && r[j].weight == sets[j].weight
  {
    seq(|sets|, j requires 0 <= j < |sets| => RoutineSet(j + 1, sets[j].repetitions, sets[j].weight))
  }

  /** The exercises of a new routine. The i-th submitted exercise is stored
      at position i + 1 whatever `order` the client sent, an empty `notes`
      becomes null, and its sets are numbered from 1. An exercise without a
      `routineSets` array makes the whole build fail (None), as the
      TypeError it raises does. */
  function BuildExercises(exs: seq<ExerciseInput>): (r: Option<seq<RoutineExercise>>)
    ensures r.Some? <==> forall i :: 0 <= i < |exs| ==> exs[i].routineSets.Some?
    ensures r.Some? ==> |r.value| == |exs|
    ensures r.Some? ==> forall i :: 0 <= i < |exs| ==>
      && r.value[i].order == i + 1
      && r.value[i].machineId == exs[i].machineId
      && r.value[i].sets == exs[i].sets
      && r.value[i].restTime == exs[i].restTime
      && r.value[i].notes == (if exs[i].notes == "" then None else Some(exs[i].notes))
      && r.value[i].routineSets == BuildSets(exs[i].routineSets.value)
  {
    if forall i :: 0 <= i < |exs| ==> exs[i].routineSets.Some? then
      Some(seq(|exs|, i requires 0 <= i < |exs| && exs[i].routineSets.Some? =>
        RoutineExercise(exs[i].machineId, exs[i].sets, exs[i].restTime, i + 1,
                        if exs[i].notes == "" then None else Some(exs[i].notes),
                        BuildSets(exs[i].routineSets.value))))
    else None
  }

  /** The `order` a client sends is never read: two submissions that differ
      only in it build the same exercises. */
  lemma {:induction false} ClientOrderIgnored(exs: seq<ExerciseInput>, orders: seq<int>)
    requires |orders| == |exs|
    ensures BuildExercises(exs)
         == BuildExercises(seq(|exs|, i requires 0 <= i < |exs| => exs[i].(order := orders[i])))
  {
    var other := seq(|exs|, i requires 0 <= i < |exs| => exs[i].(order := orders[i]));
    var a, b := BuildExercises(exs), BuildExercises(other);
    assert a.Some? <==> b.Some? by {
      assert forall i :: 0 <= i < |exs| ==> other[i].routineSets == exs[i].routineSets;
    }
    if a.Some? {
      assert |a.value| == |b.value|;
      forall i | 0 <= i < |exs| ensures a.value[i] == b.value[i] {
        assert other[i].routineSets == exs[i].routineSets;
      }
      assert a.value == b.value;
    }
  }

  // ---- the routine table ------------------------------------------------

  /** The routine table: rows in insertion order and the next id the
      database will hand out. */
  class RoutineTable {
    var rows: seq<Routine>
    var nextId: int

    ghost predicate Valid()
      reads this
    {
      && nextId >= 1
      && (forall i :: 0 <= i < |rows| ==> 1 <= rows[i].id < nextId)
      && (forall i, j :: 0 <= i < j < |rows| ==> rows[i].id != rows[j].id)
    }

    constructor ()
      ensures Valid() && rows == []
    {
      rows := [];
      nextId := 1;
    }
  }

  /** The routines owned by `userId`, in table order. */
  function OwnedBy(rows: seq<Routine>, userId: int): (r: seq<Routine>)
    ensures forall x <- r :: x in rows && x.userId == userId
    ensures forall x <- rows :: x.userId == userId ==> x in r
    ensures SubsequenceOf(r, rows)
  {
    Keep(rows, (x: Routine) => x.userId == userId)
  }

  /** The position of the routine with this `id` owned by `userId`, if any. */
  function FindOwned(rows: seq<Routine>, id: int, userId: int): (r: Option<nat>)
    ensures r.Some? ==> r.value < |rows| && rows[r.value].id == id && rows[r.value].userId == userId
    ensures r.None? ==> forall i :: 0 <= i < |rows| ==> !(rows[i].id == id && rows[i].userId == userId)
  {
    if rows == [] then None
    else if rows[0].id == id && rows[0].userId == userId then Some(0)
    else
      match FindOwned(rows[1..], id, userId)
      case None => None
      case Some(k) => Some(k + 1)
  }

  /** POST: 401 without a verified token; 400 when `name` is empty or
      `exercises` is not a non-empty array; 500 (nothing stored) when an
      exercise has no `routineSets` array; otherwise one routine owned by the
      caller is appended, with its exercises and sets numbered from 1. */
  method Post(table: RoutineTable, credential: Credential, body: CreateBody) returns (reply: Reply<Routine>)
    requires table.Valid()
    modifies table
    ensures table.Valid()
    ensures !credential.Verified? ==> reply == Fail(Unauthorized)
    ensures credential.Verified? && (body.name == "" || body.exercises.None? || body.exercises.value == [])
        ==> reply == Fail(BadRequest)
    ensures credential.Verified? && body.name != "" && body.exercises.Some? && body.exercises.value != []
        ==> match BuildExercises(body.exercises.value)
            case None => reply == Fail(ServerError)
            case Some(exs) =>
              reply == Ok(Routine(old(table.nextId), credential.principal.id, body.name, body.description, exs))
    ensures reply.Ok? ==> table.rows == old(table.rows) + [reply.value]
    ensures !reply.Ok? ==> table.rows == old(table.rows)
  {
    if !credential.Verified? {
      return Fail(Unauthorized);
    }
    if body.name == "" || body.exercises.None? || body.exercises.value == [] {
      return Fail(BadRequest);
    }
    var built := BuildExercises(body.exercises.value);
    if built.None? {
      return Fail(ServerError);
    }
    var routine := Routine(table.nextId, credential.principal.id, body.name, body.description, built.value);
    table.rows := table.rows + [routine];
    table.nextId := table.nextId + 1;
    reply := Ok(routine);
  }

  /** GET: 401 without a verified token; otherwise exactly the caller's
      routines. */
  method Get(table: RoutineTable, credential: Credential) returns (reply: Reply<seq<Routine>>)
    ensures !credential.Verified? ==> reply == Fail(Unauthorized)
    ensures credential.Verified? ==> reply == Ok(OwnedBy(table.rows, credential.principal.id))
  {
    if !credential.Verified? {
      return Fail(Unauthorized);
    }
    reply := Ok(OwnedBy(table.rows, credential.principal.id));
  }

  /** The routine after a rename. */
  function Renamed(r: Routine, name: string, description: DescriptionUpdate): (r': Routine)
    ensures r'.id == r.id && r'.userId == r.userId && r'.exercises == r.exercises
    ensures r'.name == name
    ensures r'.description == (if description.Replace? then description.value else r.description)
  {
    r.(name := name, description := if description.Replace? then description.value else r.description)
  }

  /** PUT: 401 without a verified token; 400 when `id` or `name` is missing;
      500 with nothing changed unless a routine with this `id` belongs to the
      caller; otherwise only that routine's name and description change. */
  method Put(table: RoutineTable, credential: Credential, id: int, name: string, description: DescriptionUpdate)
    returns (reply: Reply<Routine>)
    requires table.Valid()
    modifies table
    ensures table.Valid() && table.nextId == old(table.nextId)
    ensures !credential.Verified? ==> reply == Fail(Unauthorized)
    ensures credential.Verified? && (id == 0 || name == "") ==> reply == Fail(BadRequest)
    ensures credential.Verified? && id != 0 && name != "" ==>
      match FindOwned(old(table.rows), id, credential.principal.id)
      case None => reply == Fail(ServerError)
      case Some(k) =>
        && reply == Ok(Renamed(old(table.rows)[k], name, description))
        && table.rows == old(table.rows)[k := reply.value]
    ensures !reply.Ok? ==> table.rows == old(table.rows)
  {
    if !credential.Verified? {
      return Fail(Unauthorized);
    }
    if id == 0 || name == "" {
      return Fail(BadRequest);
    }
    var found := FindOwned(table.rows, id, credential.principal.id);
    if found.None? {
      return Fail(ServerError);
    }
    var k := found.value;
    var updated := Renamed(table.rows[k], name, description);
    table.rows := table.rows[k := updated];
    reply := Ok(updated);
  }

  /** DELETE: 401 without a verified token; 400 when `id` is missing; 500
      with nothing removed unless a routine with this `id` belongs to the
      caller; otherwise exactly that routine is removed. */
  method Delete(table: RoutineTable, credential: Credential, id: int) returns (reply: Reply<()>)
    requires table.Valid()
    modifies table
    ensures table.Valid() && table.nextId == old(table.nextId)
    ensures !credential.Verified? ==> reply == Fail(Unauthorized)
    ensures credential.Verified? && id == 0 ==> reply == Fail(BadRequest)
    ensures credential.Verified? && id != 0 ==>
      match FindOwned(old(table.rows), id, credential.principal.id)
      case None => reply == Fail(ServerError)
      case Some(k) => reply == Ok(()) && table.rows == old(table.rows)[..k] + old(table.rows)[k + 1..]
    ensures !reply.Ok? ==> table.rows == old(table.rows)
  {
    if !credential.Verified? {
      return Fail(Unauthorized);
    }
    if id == 0 {
      return Fail(BadRequest);
    }
    var found := FindOwned(table.rows, id, credential.principal.id);
    if found.None? {
      return Fail(ServerError);
    }
    var k := found.value;
    table.rows := table.rows[..k] + table.rows[k + 1..];
    reply := Ok(());
  }

  // ---- ownership isolation ------------------------------------------------

  /** A created routine shows up at the end of its owner's list and nowhere
      else. */
  lemma CreateShowsOnlyToOwner(rows: seq<Routine>, r: Routine, userId: int)
    ensures OwnedBy(rows + [r], userId) == OwnedBy(rows, userId) + (if r.userId == userId then [r] else [])
  {
    KeepAppend(rows, [r], (x: Routine) => x.userId == userId);
  }

  /** Renaming one user's routine leaves every other user's list as it was. */
  lemma {:induction false} RenameInvisibleToOthers(rows: seq<Routine>, k: nat, r: Routine, other: int)
    requires k < |rows| && r.userId == rows[k].userId && rows[k].userId != other
    ensures OwnedBy(rows[k := r], other) == OwnedBy(rows, other)
  {
    var p := (x: Routine) => x.userId == other;
    assert rows == rows[..k] + [rows[k]] + rows[k + 1..];
    assert rows[k := r] == rows[..k] + [r] + rows[k + 1..];
    KeepAppend(rows[..k] + [rows[k]], rows[k + 1..], p);
    KeepAppend(rows[..k], [rows[k]], p);
    KeepAppend(rows[..k] + [r], rows[k + 1..], p);
    KeepAppend(rows[..k], [r], p);
  }

  /** Deleting one user's routine leaves every other user's list as it was. */
  lemma {:induction false} DeleteInvisibleToOthers(rows: seq<Routine>, k: nat, other: int)
    requires k < |rows| && rows[k].userId != other
    ensures OwnedBy(rows[..k] + rows[k + 1..], other) == OwnedBy(rows, other)
  {
    KeepRemoveDropped(rows, k, (x: Routine) => x.userId == other);
  }

  /** Ids are unique, so the routine FindOwned picks is the only one with
      that id: a non-owner's id matches nothing of theirs. */
  lemma OwnedMatchIsUnique(table: RoutineTable, id: int, userId: int, k: nat)
    requires table.Valid()
    requires FindOwned(table.rows, id, userId) == Some(k)
    ensures forall i :: 0 <= i < |table.rows| && table.rows[i].id == id ==> i == k
  {
  }
}
