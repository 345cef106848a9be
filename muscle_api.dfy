/** The muscle endpoint: a listing sorted by name and an open create that
    stores the trimmed name and refuses one already present ignoring case. */
module MuscleApi {
  import opened Base
  import opened Text
  import opened Ordering

  datatype Muscle = Muscle(id: int, name: string)

  /** The muscle table, in insertion order. */
  class MuscleTable {
    var rows: seq<Muscle>
    var nextId: int

    ghost predicate Valid()
      reads this
    {
      && nextId >= 1
      && (forall i :: 0 <= i < |rows| ==> 1 <= rows[i].id < nextId)
    }

    constructor ()
      ensures Valid() && rows == []
    {
      rows := [];
      nextId := 1;
    }
  }

  /** What the create keeps true of the names it stores: each is trimmed and
      at least two UTF-16 code units long, and no two are equal ignoring case. */
  ghost predicate WellNamed(rows: seq<Muscle>) {
    && (forall m <- rows :: Trim(m.name) == m.name && Utf16Length(m.name) >= 2)
    && (forall i, j :: 0 <= i < j < |rows| ==> !EqualsIgnoringCase(rows[i].name, rows[j].name))
  }

  /** `orderBy: { name: "asc" }`. */
  function ByName(a: Muscle, b: Muscle): bool {
    LexLe(a.name, b.name)
  }

  lemma ByNameTotal()
    ensures Total(ByName)
  {
    forall a: Muscle, b: Muscle ensures ByName(a, b) || ByName(b, a) {
      LexTotal(a.name, b.name);
    }
  }

  /** GET: every muscle, in ascending name order. */
  method Get(table: MuscleTable) returns (list: seq<Muscle>)
    ensures multiset(list) == multiset(table.rows)
    ensures Sorted(list, ByName)
  {
    ByNameTotal();
    list := SortBy(table.rows, ByName);
  }

  /** Trimming a trimmed string changes nothing. */
  lemma TrimIdempotent(s: string)
    ensures Trim(Trim(s)) == Trim(s)
  {
  }

  /** Appending the trimmed form of a name that is at least two code units
      long once trimmed, and that no stored name equals ignoring case, keeps
      the table well named. */
  lemma AppendWellNamed(rows: seq<Muscle>, id: int, name: string)
    requires WellNamed(rows)
    requires Utf16Length(Trim(name)) >= 2 && !NameTaken(rows, Trim(name))
    ensures WellNamed(rows + [Muscle(id, Trim(name))])
  {
    TrimIdempotent(name);
    var all := rows + [Muscle(id, Trim(name))];
    forall i, j | 0 <= i < j < |all|
      ensures !EqualsIgnoringCase(all[i].name, all[j].name)
    {
      if j == |rows| {
        assert all[i] in rows;
      }
    }
  }

  /** The name checks a create passes: a string whose trimmed `length` (in
      UTF-16 code units) is at least two and that no stored name equals
      ignoring case. */
  predicate Accepts(rows: seq<Muscle>, name: JsonField) {
    name.Str? && Utf16Length(Trim(name.s)) >= 2 && !NameTaken(rows, Trim(name.s))
  }

  /** A single character outside the Basic Multilingual Plane, such as an
      emoji, already has length 2 and is accepted. */
  lemma AstralNameAccepted()
    ensures Accepts([], Str("\U{1F4AA}"))
  {
    var name := "\U{1F4AA}";
    IsSpaceExactly(name[0]);
    assert !IsSpace(name[0]) && !IsSpace(name[|name| - 1]);
    assert Trim(name) == name;
    AstralLength(name[0]);
    assert [name[0]] == name;
  }

  /** Some muscle's name equals `name` ignoring case. */
  predicate NameTaken(rows: seq<Muscle>, name: string) {
    exists m <- rows :: EqualsIgnoringCase(m.name, name)
  }

  /** POST `{ name }`, with no authentication. 400 for a falsy name or one
      shorter than two code units once trimmed; a present name that is not a
      string fails in `trim` and is caught as 500; 409 when a muscle's name
      equals the trimmed name ignoring case; otherwise the trimmed name is
      stored. */
  method Post(table: MuscleTable, name: JsonField) returns (reply: Reply<Muscle>)
    requires table.Valid()
    modifies table
    ensures table.Valid()
    ensures Falsy(name) ==> reply == Fail(BadRequest)
    ensures name == Other(true) ==> reply == Fail(ServerError)
    ensures name.Str? && Utf16Length(Trim(name.s)) < 2 ==> reply == Fail(BadRequest)
    ensures reply == Fail(Conflict) <==>
      name.Str? && Utf16Length(Trim(name.s)) >= 2 && NameTaken(old(table.rows), Trim(name.s))
    ensures reply.Ok? <==> Accepts(old(table.rows), name)
    ensures reply.Ok? ==> && reply.value == Muscle(old(table.nextId), Trim(name.s))
                          && table.rows == old(table.rows) + [reply.value]
    ensures !reply.Ok? ==> table.rows == old(table.rows)
    ensures WellNamed(old(table.rows)) ==> WellNamed(table.rows)
  {
    if Falsy(name) {
      return Fail(BadRequest);
    }
    if !name.Str? {
      return Fail(ServerError);
    }
    var trimmed := Trim(name.s);
    if Utf16Length(trimmed) < 2 {
      return Fail(BadRequest);
    }
    if NameTaken(table.rows, trimmed) {
      return Fail(Conflict);
    }
    var created := Muscle(table.nextId, trimmed);
    if WellNamed(table.rows) {
      AppendWellNamed(table.rows, table.nextId, name.s);
    }
    table.rows := table.rows + [created];
    table.nextId := table.nextId + 1;
    reply := Ok(created);
  }
}
