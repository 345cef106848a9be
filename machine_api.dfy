/** The machine (exercise) endpoint: a public listing and an admin-only
    create, reached with a multipart form or, as a fallback, a JSON body. */
module MachineApi {
  import opened Base
  import opened Text

  /** A stored machine; its muscles are the set of connected muscle ids. */
  datatype Machine = Machine(
    id: int, name: string, typeId: int, imageUrl: Option<string>,
    description: Option<string>, muscleIds: set<int>)

  /** The `{id, name, imageUrl}` projection of the listing. */
  datatype MachineSummary = MachineSummary(id: int, name: string, imageUrl: Option<string>)

  /** A form or JSON value as `Number(...)` sees it. */
  datatype FieldValue = NumberValue(n: int) | StringValue(s: string) | NullValue | BoolValue(b: bool) | FileValue

  /** `Number(v)`, with `None` for NaN. */
  function ToNumber(v: FieldValue): (r: Option<int>)
    ensures v.NumberValue? ==> r == Some(v.n)
    ensures v.FileValue? ==> r.None?
  {
    match v
    case NumberValue(n) => Some(n)
    case StringValue(s) => JsNumber(s)
    case NullValue => Some(0)
    case BoolValue(b) => Some(if b then 1 else 0)
    case FileValue => None
  }

  /** The values that are numbers. */
  function NumericOnly(raw: seq<FieldValue>): seq<FieldValue> {
    Keep(raw, (v: FieldValue) => ToNumber(v).Some?)
  }

  /** `raw.map(Number).filter(id => !isNaN(id))`: the numbers among the
      submitted values, in their original order. It equals first keeping the
      numeric values and then converting them. */
  function MuscleIds(raw: seq<FieldValue>): (ids: seq<int>)
    ensures |ids| == |NumericOnly(raw)|
    ensures forall i :: 0 <= i < |ids| ==> Some(ids[i]) == ToNumber(NumericOnly(raw)[i])
  {
    if raw == [] then []
    else
      var rest := MuscleIds(raw[1..]);
      match ToNumber(raw[0])
      case Some(v) => [v] + rest
      case None => rest
  }

  /** The machine table, in insertion order. */
  class MachineTable {
    var rows: seq<Machine>
    var nextId: int

    ghost predicate Valid()
      reads this
    {
      && nextId >= 1
      && (forall i :: 0 <= i < |rows| ==> 1 <= rows[i].id < nextId)
    }

    constructor ()
      ensures Valid() && rows == []
    {
      rows := [];
      nextId := 1;
    }
  }

  /** No two machines' names are equal ignoring case. */
  ghost predicate NamesDistinctIgnoringCase(rows: seq<Machine>) {
    forall i, j :: 0 <= i < j < |rows| ==> !EqualsIgnoringCase(rows[i].name, rows[j].name)
  }

  /** Some machine's name equals `name` ignoring case (`mode: "insensitive"`). */
  predicate NameTaken(rows: seq<Machine>, name: string) {
    exists m <- rows :: EqualsIgnoringCase(m.name, name)
  }

  /** GET: `?all=1` lists every machine as `{id, name, imageUrl}`; any other
      query answers an empty list. */
  method Get(table: MachineTable, all: Option<string>) returns (list: seq<MachineSummary>)
    ensures all == Some("1") ==> |list| == |table.rows|
    ensures all == Some("1") ==> forall i :: 0 <= i < |list| ==>
      list[i] == MachineSummary(table.rows[i].id, table.rows[i].name, table.rows[i].imageUrl)
    ensures all != Some("1") ==> list == []
  {
    if all == Some("1") {
      list := seq(|table.rows|, i requires 0 <= i < |table.rows| reads table =>
        MachineSummary(table.rows[i].id, table.rows[i].name, table.rows[i].imageUrl));
    } else {
      list := [];
    }
  }

  /** The multipart form. `name` and `description` are "" when absent;
      `typeId` is the raw field (null when absent); `image` is the uploaded
      file's name, if a file was sent. */
  datatype MachineForm = MachineForm(
    name: string, typeId: FieldValue, description: string, image: Option<string>,
    muscles: seq<FieldValue>)

  /** POST with a multipart form, `now` standing for `Date.now()`. After the
      admin guard: 400 for an empty name, a zero or NaN type id, or no numeric
      muscle id; then the image (if any) is written; then 409 when the name
      is taken ignoring case; otherwise the machine is appended. */
  method PostForm(table: MachineTable, images: ImageFolder, credential: Credential, form: MachineForm, now: nat)
    returns (reply: Reply<Machine>)
    requires table.Valid()
    modifies table, images
    ensures table.Valid()
    ensures AdminGuard(credential).Some? ==> reply == Fail(AdminGuard(credential).value)
    ensures AdminGuard(credential).None? && (form.name == "" || ToNumber(form.typeId) in {None, Some(0)} || MuscleIds(form.muscles) == [])
        ==> reply == Fail(BadRequest)
    ensures reply.Fail? && reply.status != Conflict ==> images.written == old(images.written)
    ensures reply.Ok? || reply == Fail(Conflict) ==>
      images.written == old(images.written) + (if form.image.Some? then [ImageName(form.image.value, now)] else [])
    ensures reply == Fail(Conflict) <==>
      AdminGuard(credential).None? && form.name != "" && ToNumber(form.typeId) !in {None, Some(0)}
      && MuscleIds(form.muscles) != [] && NameTaken(old(table.rows), form.name)
    ensures reply.Ok? ==> && !NameTaken(old(table.rows), form.name)
                          && reply.value == Machine(old(table.nextId), form.name, ToNumber(form.typeId).value,
                               if form.image.Some? then Some("/images/machine/" + ImageName(form.image.value, now)) else None,
                               if form.description == "" then None else Some(form.description),
                               SetOf(MuscleIds(form.muscles)))
    ensures reply.Ok? ==> table.rows == old(table.rows) + [reply.value]
    ensures !reply.Ok? ==> table.rows == old(table.rows)
    ensures NamesDistinctIgnoringCase(old(table.rows)) ==> NamesDistinctIgnoringCase(table.rows)
  {
    var guard := AdminGuard(credential);
    if guard.Some? {
      return Fail(guard.value);
    }
    var typeId := ToNumber(form.typeId);
    var muscleIds := MuscleIds(form.muscles);
    if form.name == "" || typeId in {None, Some(0)} || muscleIds == [] {
      return Fail(BadRequest);
    }
    var imageUrl: Option<string> := None;
    if form.image.Some? {
      var fileName := ImageName(form.image.value, now);
      images.written := images.written + [fileName];
      imageUrl := Some("/images/machine/" + fileName);
    }
    if NameTaken(table.rows, form.name) {
      return Fail(Conflict);
    }
    reply := Insert(table, form.name, typeId.value, imageUrl, form.description, muscleIds);
  }

  /** The JSON fallback body. `name`, `imageUrl` and `description` are ""
      when absent, `typeId` is 0 when absent, `muscles` is None when it is
      not an array. */
  datatype MachineJson = MachineJson(
    name: string, typeId: int, muscles: Option<seq<FieldValue>>, imageUrl: string, description: string)

  /** The muscle ids of the JSON body: none unless `muscles` is an array;
      otherwise the numeric entries converted by `Number`, in their order. */
  function JsonMuscleIds(body: MachineJson): (ids: seq<int>)
    ensures body.muscles.None? ==> ids == []
    ensures body.muscles.Some? ==> |ids| == |NumericOnly(body.muscles.value)|
    ensures body.muscles.Some? ==> forall i :: 0 <= i < |ids| ==>
      Some(ids[i]) == ToNumber(NumericOnly(body.muscles.value)[i])
  {
    if body.muscles.Some? then MuscleIds(body.muscles.value) else []
  }

  /** POST with a JSON body: the same guards and checks without a file
      write; an empty `imageUrl` is stored as null. */
  method PostJson(table: MachineTable, credential: Credential, body: MachineJson) returns (reply: Reply<Machine>)
    requires table.Valid()
    modifies table
    ensures table.Valid()
    ensures AdminGuard(credential).Some? ==> reply == Fail(AdminGuard(credential).value)
    ensures AdminGuard(credential).None? && (body.name == "" || body.typeId == 0 || JsonMuscleIds(body) == [])
        ==> reply == Fail(BadRequest)
    ensures reply == Fail(Conflict) <==>
      AdminGuard(credential).None? && body.name != "" && body.typeId != 0 && JsonMuscleIds(body) != []
      && NameTaken(old(table.rows), body.name)
    ensures reply.Ok? ==> && !NameTaken(old(table.rows), body.name)
                          && reply.value == Machine(old(table.nextId), body.name, body.typeId,
                               if body.imageUrl == "" then None else Some(body.imageUrl),
                               if body.description == "" then None else Some(body.description),
                               SetOf(JsonMuscleIds(body)))
    ensures reply.Ok? ==> table.rows == old(table.rows) + [reply.value]
    ensures !reply.Ok? ==> table.rows == old(table.rows)
    ensures NamesDistinctIgnoringCase(old(table.rows)) ==> NamesDistinctIgnoringCase(table.rows)
  {
    var guard := AdminGuard(credential);
    if guard.Some? {
      return Fail(guard.value);
    }
    var muscleIds := JsonMuscleIds(body);
    if body.name == "" || body.typeId == 0 || muscleIds == [] {
      return Fail(BadRequest);
    }
    if NameTaken(table.rows, body.name) {
      return Fail(Conflict);
    }
    var imageUrl := if body.imageUrl == "" then None else Some(body.imageUrl);
    reply := Insert(table, body.name, body.typeId, imageUrl, body.description, muscleIds);
  }

  /** The name `machine_<now>.<ext>` an uploaded image is written under. */
  function ImageName(fileName: string, now: nat): (name: string)
    ensures "machine_" <= name
    ensures Extension(name) == Extension(fileName)
  {
    ExtensionOf("machine_" + ShowNat(now), Extension(fileName));
    "machine_" + ShowNat(now) + "." + Extension(fileName)
  }

  function SetOf(ids: seq<int>): (s: set<int>)
    ensures forall x :: x in s <==> x in ids
  {
    set x | x in ids
  }

  /** The create both paths end with. */
  method Insert(table: MachineTable, name: string, typeId: int, imageUrl: Option<string>, description: string, muscleIds: seq<int>)
    returns (reply: Reply<Machine>)
    requires table.Valid() && !NameTaken(table.rows, name)
    modifies table
    ensures table.Valid()
    ensures reply == Ok(Machine(old(table.nextId), name, typeId, imageUrl,
                                if description == "" then None else Some(description), SetOf(muscleIds)))
    ensures table.rows == old(table.rows) + [reply.value]
    ensures NamesDistinctIgnoringCase(old(table.rows)) ==> NamesDistinctIgnoringCase(table.rows)
  {
    var machine := Machine(table.nextId, name, typeId, imageUrl,
                           if description == "" then None else Some(description), SetOf(muscleIds));
    ghost var before := table.rows;
    table.rows := table.rows + [machine];
    table.nextId := table.nextId + 1;
    reply := Ok(machine);
    forall i, j | 0 <= i < j < |table.rows| && NamesDistinctIgnoringCase(before)
      ensures !EqualsIgnoringCase(table.rows[i].name, table.rows[j].name)
    {
      if j == |before| {
        assert table.rows[i] in before;
      }
    }
  }
}
