/** The routine editor on the dashboard: the machine search, the draft list
    of exercises (add, remove, move up or down, drag and drop) and the
    create request it sends. */
module RoutineDraft {
  import opened Base
  import opened Text
  import MachineApi
  import RoutineApi

  /** One exercise of the draft, with the machine picked in the dialog. */
  datatype ExerciseDraft = ExerciseDraft(
    machine: Option<MachineApi.MachineSummary>, machineId: int, notes: string, restTime: int, sets: int)

  /** No machine occurs twice in the draft list. */
  predicate DistinctMachines(xs: seq<ExerciseDraft>) {
    forall i, j :: 0 <= i < j < |xs| ==> xs[i].machineId != xs[j].machineId
  }

  // ---- machine search ---------------------------------------------------

  /** `filteredMachines`: the machines whose lower-cased name contains the
      lower-cased search text, in list order. */
  function FilterMachines(machines: seq<MachineApi.MachineSummary>, search: string): (r: seq<MachineApi.MachineSummary>)
    ensures forall m <- r :: m in machines && Contains(ToLower(m.name), ToLower(search))
    ensures forall m <- machines :: Contains(ToLower(m.name), ToLower(search)) ==> m in r
    ensures SubsequenceOf(r, machines)
  {
    Keep(machines, (m: MachineApi.MachineSummary) => Contains(ToLower(m.name), ToLower(search)))
  }

  /** An empty search lists every machine. */
  lemma EmptySearchKeepsAll(machines: seq<MachineApi.MachineSummary>)
    ensures FilterMachines(machines, "") == machines
  {
    KeepAll(machines, (m: MachineApi.MachineSummary) => Contains(ToLower(m.name), ToLower("")));
  }

  // ---- add, remove, move ----------------------------------------------

  /** Why the add button refuses a draft. */
  datatype AddError = NoMachineSelected | MachineAlreadyAdded

  /** The checks of `handleAddExercise`: a draft with a machine is needed,
      and its machine must not be in the list yet. */
  function AddCheck(exercises: seq<ExerciseDraft>, draft: Option<ExerciseDraft>): (r: Option<AddError>)
    ensures r == Some(NoMachineSelected) <==> draft.None? || draft.value.machineId == 0
    ensures r == Some(MachineAlreadyAdded) <==>
      draft.Some? && draft.value.machineId != 0 && exists e <- exercises :: e.machineId == draft.value.machineId
    ensures r.None? && DistinctMachines(exercises) ==> DistinctMachines(exercises + [draft.value])
  {
    if draft.None? || draft.value.machineId == 0 then Some(NoMachineSelected)
    else if exists e <- exercises :: e.machineId == draft.value.machineId then Some(MachineAlreadyAdded)
    else
      assert forall i :: 0 <= i < |exercises| ==> exercises[i] in exercises;
      None
  }

  /** `filter((_, i) => i !== idx)`: the list without position `idx`. */
  function RemoveAt(xs: seq<ExerciseDraft>, idx: int): (r: seq<ExerciseDraft>)
    ensures 0 <= idx < |xs| ==> r == xs[..idx] + xs[idx + 1..]
    ensures !(0 <= idx < |xs|) ==> r == xs
    decreases |xs|
  {
    if xs == [] then []
    else
      var rest := RemoveAt(xs[1..], idx - 1);
      assert 0 < idx < |xs| ==> xs[..idx] == [xs[0]] + xs[1..][..idx - 1];
      (if idx == 0 then [] else [xs[0]]) + rest
  }

  /** Removing an exercise keeps the machines distinct. */
  lemma RemoveKeepsDistinct(xs: seq<ExerciseDraft>, idx: int)
    requires DistinctMachines(xs)
    ensures DistinctMachines(RemoveAt(xs, idx))
  {
    if 0 <= idx < |xs| {
      var r := RemoveAt(xs, idx);
      forall i, j | 0 <= i < j < |r| ensures r[i].machineId != r[j].machineId {
        var i' := if i < idx then i else i + 1;
        var j' := if j < idx then j else j + 1;
        assert r[i] == xs[i'] && r[j] == xs[j'];
      }
    }
  }

  datatype Direction = Up | Down

  /** `moveExercise(idx, dir)`: "up" swaps `idx` with its predecessor when
      there is one, "down" with its successor when there is one; otherwise
      nothing moves. */
  function Moved(xs: seq<ExerciseDraft>, idx: int, dir: Direction): (r: seq<ExerciseDraft>)
    requires 0 <= idx < |xs|
    ensures |r| == |xs| && multiset(r) == multiset(xs)
    ensures dir == Up && idx > 0 ==>
      && r[idx - 1] == xs[idx] && r[idx] == xs[idx - 1]
      && forall k :: 0 <= k < |xs| && k != idx - 1 && k != idx ==> r[k] == xs[k]
    ensures dir == Down && idx < |xs| - 1 ==>
      && r[idx] == xs[idx + 1] && r[idx + 1] == xs[idx]
      && forall k :: 0 <= k < |xs| && k != idx && k != idx + 1 ==> r[k] == xs[k]
    ensures (dir == Up && idx == 0) || (dir == Down && idx == |xs| - 1) ==> r == xs
  {
    if dir == Up && idx > 0 then xs[idx - 1 := xs[idx]][idx := xs[idx - 1]]
    else if dir == Down && idx < |xs| - 1 then xs[idx := xs[idx + 1]][idx + 1 := xs[idx]]
    else xs
  }

  /** Moving an exercise up and then down from its new place restores the
      list. */
  lemma UpThenDownRestores(xs: seq<ExerciseDraft>, idx: int)
    requires 0 < idx < |xs|
    ensures Moved(Moved(xs, idx, Up), idx - 1, Down) == xs
  {
  }

  /** Moving an exercise down and then up from its new place restores the
      list. */
  lemma DownThenUpRestores(xs: seq<ExerciseDraft>, idx: int)
    requires 0 <= idx < |xs| - 1
    ensures Moved(Moved(xs, idx, Down), idx + 1, Up) == xs
  {
  }

  /** Moving keeps the machines distinct. */
  lemma MoveKeepsDistinct(xs: seq<ExerciseDraft>, idx: int, dir: Direction)
    requires 0 <= idx < |xs| && DistinctMachines(xs)
    ensures DistinctMachines(Moved(xs, idx, dir))
  {
    var r := Moved(xs, idx, dir);
    var lo := if dir == Up then idx - 1 else idx;
    if (dir == Up && idx > 0) || (dir == Down && idx < |xs| - 1) {
      forall i, j | 0 <= i < j < |r| ensures r[i].machineId != r[j].machineId {
        var i' := if i == lo then lo + 1 else if i == lo + 1 then lo else i;
        var j' := if j == lo then lo + 1 else if j == lo + 1 then lo else j;
        assert r[i] == xs[i'] && r[j] == xs[j'] && i' != j';
      }
    }
  }

  // ---- drag and drop ------------------------------------------------------

  /** `findIndex(ex => ex.machineId === id)`: the first position holding
      this machine, or -1. */
  function FindIndex(xs: seq<ExerciseDraft>, machineId: int): (i: int)
    ensures -1 <= i < |xs|
    ensures i >= 0 ==> xs[i].machineId == machineId && forall k :: 0 <= k < i ==> xs[k].machineId != machineId
    ensures i == -1 ==> forall k :: 0 <= k < |xs| ==> xs[k].machineId != machineId
  {
    if xs == [] then -1
    else if xs[0].machineId == machineId then 0
    else
      var k := FindIndex(xs[1..], machineId);
      if k == -1 then -1 else k + 1
  }

  /** What a drop does: nothing when dropped on itself, a move between two
      positions otherwise, and a TypeError when dropped outside any item
      (`over` is null and `over.id` is read). */
  datatype DropOutcome = NoMove | MoveBetween(from: int, to: int) | DropFails

  function DragEnd(xs: seq<ExerciseDraft>, activeId: int, overId: Option<int>): (r: DropOutcome)
    ensures overId == Some(activeId) <==> r == NoMove
    ensures overId.None? <==> r == DropFails
    ensures r.MoveBetween? ==> r.from == FindIndex(xs, activeId) && r.to == FindIndex(xs, overId.value)
  {
    if overId == Some(activeId) then NoMove
    else if overId.None? then DropFails
    else MoveBetween(FindIndex(xs, activeId), FindIndex(xs, overId.value))
  }

  /** With distinct machines, dragging the item at `i` onto the item at `j`
      moves exactly from `i` to `j`. */
  lemma DragFindsPositions(xs: seq<ExerciseDraft>, i: int, j: int)
    requires DistinctMachines(xs) && 0 <= i < |xs| && 0 <= j < |xs| && i != j
    ensures DragEnd(xs, xs[i].machineId, Some(xs[j].machineId)) == MoveBetween(i, j)
  {
  }

  // ---- the create request -------------------------------------------------

  /** `handleCreate`'s exercises as the server reads them: list order as
      `order` (from 1), and no `routineSets` field at all. */
  function Payload(xs: seq<ExerciseDraft>): (r: seq<RoutineApi.ExerciseInput>)
    ensures |r| == |xs|
    ensures forall i :: 0 <= i < |r| ==> r[i].routineSets.None?
    ensures forall i :: 0 <= i < |r| ==> r[i].order == i + 1 && r[i].machineId == xs[i].machineId
  {
    seq(|xs|, i requires 0 <= i < |xs| =>
      RoutineApi.ExerciseInput(xs[i].machineId, xs[i].sets, xs[i].restTime, i + 1, xs[i].notes, None))
  }

  /** As written, the server cannot build any routine the editor sends:
      with one exercise or more, the missing `routineSets` fails the build,
      and the create answers 500. */
  lemma EditorCreateAlwaysFails(xs: seq<ExerciseDraft>)
    requires xs != []
    ensures RoutineApi.BuildExercises(Payload(xs)) == None
  {
    assert Payload(xs)[0].routineSets.None?;
  }

  /** The payload with an explicit empty `routineSets` for each exercise. */
  function FixedPayload(xs: seq<ExerciseDraft>): (r: seq<RoutineApi.ExerciseInput>)
    ensures |r| == |xs|
    ensures forall i :: 0 <= i < |r| ==> r[i] == Payload(xs)[i].(routineSets := Some([]))
  {
    seq(|xs|, i requires 0 <= i < |xs| =>
      RoutineApi.ExerciseInput(xs[i].machineId, xs[i].sets, xs[i].restTime, i + 1, xs[i].notes, Some([])))
  }

  /** With the empty `routineSets` the server builds the routine: one stored
      exercise per draft entry, in list order, numbered from 1, with the
      draft's machine, sets, rest time and notes and no set rows. */
  lemma FixedPayloadBuilds(xs: seq<ExerciseDraft>)
    ensures RoutineApi.BuildExercises(FixedPayload(xs)).Some?
    ensures var built := RoutineApi.BuildExercises(FixedPayload(xs)).value;
      && |built| == |xs|
      && forall i :: 0 <= i < |xs| ==>
           && built[i].order == i + 1
           && built[i].machineId == xs[i].machineId
           && built[i].sets == xs[i].sets
           && built[i].restTime == xs[i].restTime
           && built[i].notes == (if xs[i].notes == "" then None else Some(xs[i].notes))
           && built[i].routineSets == []
  {
    var p := FixedPayload(xs);
    assert forall i :: 0 <= i < |p| ==> p[i].routineSets == Some([]);
    var built := RoutineApi.BuildExercises(p).value;
    forall i | 0 <= i < |xs| ensures built[i].routineSets == [] {
      assert RoutineApi.BuildSets([]) == [];
    }
  }

  // ---- the editor's state ---------------------------------------------------

  /** The editor: the fetched machines, the routine being drafted and the
      exercise in the add dialog. */
  class Editor {
    var machines: seq<MachineApi.MachineSummary>
    var name: string
    var description: string
    var exercises: seq<ExerciseDraft>
    var draft: Option<ExerciseDraft>

    /** The draft list never holds a machine twice. */
    ghost predicate Valid()
      reads this
    {
      DistinctMachines(exercises)
    }

    constructor (machines: seq<MachineApi.MachineSummary>)
      ensures Valid()
      ensures this.machines == machines && name == "" && description == "" && exercises == [] && draft.None?
    {
      this.machines := machines;
      name := "";
      description := "";
      exercises := [];
      draft := None;
    }

    /** `openExerciseModal`: a fresh draft on the first machine (machine id
        0 when there is none), 3 sets of 60 seconds' rest. */
    method OpenExerciseDialog()
      modifies this`draft
      ensures machines == [] ==> draft == Some(ExerciseDraft(None, 0, "", 60, 3))
      ensures machines != [] ==> draft == Some(ExerciseDraft(Some(machines[0]), machines[0].id, "", 60, 3))
    {
      if machines == [] {
        draft := Some(ExerciseDraft(None, 0, "", 60, 3));
      } else {
        draft := Some(ExerciseDraft(Some(machines[0]), machines[0].id, "", 60, 3));
      }
    }

    /** `handleAddExercise`: on a refusal nothing changes; otherwise the
        draft is appended and the dialog's draft cleared. */
    method AddExercise() returns (error: Option<AddError>)
      requires Valid()
      modifies this`exercises, this`draft
      ensures Valid()
      ensures error == AddCheck(old(exercises), old(draft))
      ensures error.Some? ==> exercises == old(exercises) && draft == old(draft)
      ensures error.None? ==> exercises == old(exercises) + [old(draft).value] && draft.None?
    {
      error := AddCheck(exercises, draft);
      if error.None? {
        exercises := exercises + [draft.value];
        draft := None;
      }
    }

    /** `handleRemoveExercise(idx)`. */
    method RemoveExercise(idx: int)
      requires Valid()
      modifies this`exercises
      ensures Valid()
      ensures exercises == RemoveAt(old(exercises), idx)
    {
      RemoveKeepsDistinct(exercises, idx);
      exercises := RemoveAt(exercises, idx);
    }

    /** `moveExercise(idx, dir)`: the list is copied into an array, two
        neighbours are swapped in place, and the array becomes the list. */
    method MoveExercise(idx: int, dir: Direction)
      requires Valid() && 0 <= idx < |exercises|
      modifies this`exercises
      ensures Valid()
      ensures exercises == Moved(old(exercises), idx, dir)
    {
      MoveKeepsDistinct(exercises, idx, dir);
      var arr := new ExerciseDraft[|exercises|](i requires 0 <= i < |exercises| reads this => exercises[i]);
      assert arr[..] == exercises;
      if dir == Up && idx > 0 {
        arr[idx - 1], arr[idx] := arr[idx], arr[idx - 1];
      }
      if dir == Down && idx < arr.Length - 1 {
        arr[idx], arr[idx + 1] := arr[idx + 1], arr[idx];
      }
      exercises := arr[..];
    }

    /** The create body the editor sends, with the empty `routineSets` each
        exercise needs. */
    function CreateBody(): (body: RoutineApi.CreateBody)
      reads this
      ensures body.name == name && body.description == Some(description)
      ensures body.exercises == Some(FixedPayload(exercises))
    {
      RoutineApi.CreateBody(name, Some(description), Some(FixedPayload(exercises)))
    }
  }

  /** Sending the editor's routine: with a verified caller, a name and at
      least one exercise, the routine is stored with the draft's machines
      in list order. */
  method Submit(editor: Editor, table: RoutineApi.RoutineTable, credential: Credential)
    returns (reply: Reply<RoutineApi.Routine>)
    requires table.Valid()
    modifies table
    ensures table.Valid()
    ensures credential.Verified? && editor.name != "" && editor.exercises != [] ==>
      && reply.Ok?
      && reply.value.id == old(table.nextId)
      && reply.value.userId == credential.principal.id
      && reply.value.name == editor.name
      && reply.value.description == Some(editor.description)
      && |reply.value.exercises| == |editor.exercises|
      && forall i :: 0 <= i < |editor.exercises| ==>
           && reply.value.exercises[i].machineId == editor.exercises[i].machineId
           && reply.value.exercises[i].order == i + 1
           && reply.value.exercises[i].sets == editor.exercises[i].sets
           && reply.value.exercises[i].restTime == editor.exercises[i].restTime
           && reply.value.exercises[i].notes == (if editor.exercises[i].notes == "" then None else Some(editor.exercises[i].notes))
           && reply.value.exercises[i].routineSets == []
    ensures !credential.Verified? ==> reply == Fail(Unauthorized)
    ensures credential.Verified? && (editor.name == "" || editor.exercises == []) ==> reply == Fail(BadRequest)
    ensures reply.Ok? ==> table.rows == old(table.rows) + [reply.value]
    ensures !reply.Ok? ==> table.rows == old(table.rows)
  {
    FixedPayloadBuilds(editor.exercises);
    reply := RoutineApi.Post(table, credential, editor.CreateBody());
  }

  /** Sending the request as the editor builds it: with a verified caller,
      a name and at least one exercise, the server answers 500 and stores
      nothing. */
  method SubmitAsWritten(editor: Editor, table: RoutineApi.RoutineTable, credential: Credential)
    returns (reply: Reply<RoutineApi.Routine>)
    requires table.Valid()
    modifies table
    ensures table.Valid()
    ensures credential.Verified? && editor.name != "" && editor.exercises != [] ==>
      reply == Fail(ServerError) && table.rows == old(table.rows)
  {
    if editor.exercises != [] {
      EditorCreateAlwaysFails(editor.exercises);
    }
    reply := RoutineApi.Post(table, credential,
      RoutineApi.CreateBody(editor.name, Some(editor.description), Some(Payload(editor.exercises))));
  }
}
