/** The machine-type endpoint: a listing sorted by name and an admin-only
    create that refuses an exact duplicate name. */
module MachineTypeApi {
  import opened Base
  import opened Text
  import opened Ordering

  datatype MachineType = MachineType(id: int, name: string)

  /** The type table, in insertion order. Names are unique, exactly as
      written. */
  class TypeTable {
    var rows: seq<MachineType>
    var nextId: int

    ghost predicate Valid()
      reads this
    {
      && nextId >= 1
      && (forall i :: 0 <= i < |rows| ==> 1 <= rows[i].id < nextId)
      && (forall i, j :: 0 <= i < j < |rows| ==> rows[i].name != rows[j].name)
    }

    constructor ()
      ensures Valid() && rows == []
    {
      rows := [];
      nextId := 1;
    }
  }

  /** `orderBy: { name: "asc" }`. */
  function ByName(a: MachineType, b: MachineType): bool {
    LexLe(a.name, b.name)
  }

  lemma ByNameTotal()
    ensures Total(ByName)
  {
    forall a: MachineType, b: MachineType ensures ByName(a, b) || ByName(b, a) {
      LexTotal(a.name, b.name);
    }
  }

  /** GET: every type, in ascending name order. */
  method Get(table: TypeTable) returns (list: seq<MachineType>)
    ensures multiset(list) == multiset(table.rows)
    ensures Sorted(list, ByName)
  {
    ByNameTotal();
    list := SortBy(table.rows, ByName);
  }

  /** The name checks a create passes: a string of at least two UTF-16 code units
      once trimmed that no stored type has exactly. */
  predicate Accepts(rows: seq<MachineType>, name: JsonField) {
    name.Str? && Utf16Length(Trim(name.s)) >= 2 && forall t <- rows :: t.name != name.s
  }

  /** POST `{ name }`. After the admin guard: 400 for a falsy name or one
      shorter than two code units once trimmed; a present name that is not
      a string fails in `trim` (500); 409 when a type has exactly this
      name; otherwise the name is stored as sent, untrimmed. */
  method Post(table: TypeTable, credential: Credential, name: JsonField) returns (reply: Reply<MachineType>)
    requires table.Valid()
    modifies table
    ensures table.Valid()
    ensures AdminGuard(credential).Some? ==> reply == Fail(AdminGuard(credential).value)
    ensures AdminGuard(credential).None? && Falsy(name) ==> reply == Fail(BadRequest)
    ensures AdminGuard(credential).None? && name == Other(true) ==> reply == Fail(ServerError)
    ensures AdminGuard(credential).None? && name.Str? && Utf16Length(Trim(name.s)) < 2 ==> reply == Fail(BadRequest)
    ensures reply == Fail(Conflict) <==>
      && AdminGuard(credential).None? && name.Str? && Utf16Length(Trim(name.s)) >= 2
      && exists t <- old(table.rows) :: t.name == name.s
    ensures reply.Ok? <==> AdminGuard(credential).None? && Accepts(old(table.rows), name)
    ensures reply.Ok? ==> && reply.value == MachineType(old(table.nextId), name.s)
                          && table.rows == old(table.rows) + [reply.value]
    ensures !reply.Ok? ==> table.rows == old(table.rows)
  {
    var guard := AdminGuard(credential);
    if guard.Some? {
      return Fail(guard.value);
    }
    if Falsy(name) {
      return Fail(BadRequest);
    }
    if !name.Str? {
      return Fail(ServerError);
    }
    if Utf16Length(Trim(name.s)) < 2 {
      return Fail(BadRequest);
    }
    if exists t <- table.rows :: t.name == name.s {
      return Fail(Conflict);
    }
    var created := MachineType(table.nextId, name.s);
    table.rows := table.rows + [created];
    table.nextId := table.nextId + 1;
    reply := Ok(created);
  }
}
