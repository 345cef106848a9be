/** The admin form that creates a machine: the `normalize` used to spot
    existing names, the duplicate highlight and "similar" list, the set of
    selected muscles, and the checks of the add-type and add-muscle dialogs. */
module AddMachineForm {
  import opened Base
  import opened Text
  import MachineApi
  import MachineTypeApi
  import MuscleApi

  // ---- normalize ------------------------------------------------------

  /** A combining diacritical mark, U+0300 to U+036F. */
  predicate IsMark(c: char) {
    '\U{300}' <= c <= '\U{36F}'
  }

  const SixMarks: seq<char> := ['\U{300}', '\U{301}', '\U{302}', '\U{303}', '\U{308}', '\U{30A}']
  const FourMarks: seq<char> := ['\U{300}', '\U{301}', '\U{302}', '\U{308}']

  /** The canonical decomposition of the upper-case Latin-1 letters that
      have one (U+00C0 to U+00DD): base letter and combining mark. */
  function UpperDecomposition(c: char): (r: Option<(char, char)>)
    ensures r.Some? ==> 'A' <= r.value.0 <= 'Z' && IsMark(r.value.1)
    ensures r.Some? ==> '\U{C0}' <= c <= '\U{DD}'
  {
    var k := c as int;
    if 0xC0 <= k <= 0xC5 then Some(('A', SixMarks[k - 0xC0]))
    else if k == 0xC7 then Some(('C', '\U{327}'))
    else if 0xC8 <= k <= 0xCB then Some(('E', FourMarks[k - 0xC8]))
    else if 0xCC <= k <= 0xCF then Some(('I', FourMarks[k - 0xCC]))
    else if k == 0xD1 then Some(('N', '\U{303}'))
    else if 0xD2 <= k <= 0xD6 then Some(('O', SixMarks[k - 0xD2]))
    else if 0xD9 <= k <= 0xDC then Some(('U', FourMarks[k - 0xD9]))
    else if k == 0xDD then Some(('Y', '\U{301}'))
    else None
  }

  /** Canonical decomposition (NFD) of one character, for the Latin-1
      letters: an accented letter becomes its base letter followed by a
      combining mark; every other character stands for itself. */
  function Decompose(c: char): (r: string)
    ensures |r| == 1 || |r| == 2
    ensures |r| == 1 ==> r == [c]
    ensures |r| == 2 ==> ('A' <= r[0] <= 'Z' || 'a' <= r[0] <= 'z') && IsMark(r[1])
  {
    if '\U{C0}' <= c <= '\U{DD}' && UpperDecomposition(c).Some? then
      [UpperDecomposition(c).value.0, UpperDecomposition(c).value.1]
    else if '\U{E0}' <= c <= '\U{FD}' && UpperDecomposition((c as int - 32) as char).Some? then
      var d := UpperDecomposition((c as int - 32) as char).value;
      [LowerChar(d.0), d.1]
    else if c == '\U{FF}' then ['y', '\U{308}']
    else [c]
  }

  /** `normalize("NFD")` on a string, character by character. */
  function Nfd(s: string): (r: string)
    ensures |s| <= |r| <= 2 * |s|
    ensures (forall i :: 0 <= i < |s| ==> Decompose(s[i]) == [s[i]]) ==> r == s
  {
    if s == [] then [] else Decompose(s[0]) + Nfd(s[1..])
  }

  /** `.replace(/[\u0300-\u036f]/g, "")`: the combining marks removed. */
  function StripMarks(s: string): (r: string)
    ensures MarkFree(r)
  {
    var r := Keep(s, (c: char) => !IsMark(c));
    assert forall i :: 0 <= i < |r| ==> r[i] in r;
    r
  }

  /** Every white-space character of `s` is a plain space, and no two
      spaces are adjacent. */
  predicate Spaced(s: string) {
    && (forall i :: 0 <= i < |s| && IsSpace(s[i]) ==> s[i] == ' ')
    && (forall i :: 0 < i < |s| ==> !(s[i - 1] == ' ' && s[i] == ' '))
  }

  /** No character of `s` is a combining mark. */
  predicate MarkFree(s: string) {
    forall i :: 0 <= i < |s| ==> !IsMark(s[i])
  }

  /** The shape of a normalized name: spaced, free of combining marks, and
      without white space at either end. */
  predicate Clean(s: string) {
    Spaced(s) && MarkFree(s) && (s == [] || (!IsSpace(s[0]) && !IsSpace(s[|s| - 1])))
  }

  /** `.replace(/\s+/g, " ")`: every run of white space becomes one space. */
  function Collapse(s: string): (r: string)
    ensures Spaced(r)
    ensures s == [] <==> r == []
    ensures s != [] && !IsSpace(s[0]) ==> r[0] == s[0]
    decreases |s|
  {
    if s == [] then []
    else if IsSpace(s[0]) then [' '] + Collapse(TrimStart(s[1..]))
    else
      var rest := Collapse(s[1..]);
      assert s[1..] != [] && !IsSpace(s[1]) ==> rest[0] == s[1];
      [s[0]] + rest
  }

  /** Collapsing white space introduces no combining mark. */
  lemma {:induction false} CollapseMarkFree(s: string)
    requires MarkFree(s)
    ensures MarkFree(Collapse(s))
    decreases |s|
  {
    if s != [] {
      if IsSpace(s[0]) {
        var t := TrimStart(s[1..]);
        assert MarkFree(t) by {
          assert forall i :: 0 <= i < |t| ==> t[i] == s[1..][|s[1..]| - |t| + i];
        }
        CollapseMarkFree(t);
      } else {
        CollapseMarkFree(s[1..]);
      }
    }
  }

  /** Trimming a spaced, mark-free string leaves a clean one. */
  lemma TrimClean(s: string)
    requires Spaced(s) && MarkFree(s)
    ensures Clean(Trim(s))
  {
    var t := Trim(s);
    var k := TrimOffset(s);
    assert t == s[k..k + |t|];
    forall i | 0 <= i < |t|
      ensures t[i] == s[k + i] && (IsSpace(t[i]) ==> t[i] == ' ') && !IsMark(t[i])
    {
    }
    forall i | 0 < i < |t|
      ensures !(t[i - 1] == ' ' && t[i] == ' ')
    {
      assert t[i - 1] == s[k + i - 1];
    }
  }

  /** Lower-casing keeps a string clean. */
  lemma LowerClean(s: string)
    requires Clean(s)
    ensures Clean(ToLower(s))
  {
    var r := ToLower(s);
    forall i | 0 <= i < |s| ensures IsSpace(r[i]) <==> IsSpace(s[i]) {
      LowerKeepsSpace(s[i]);
    }
    forall i | 0 <= i < |s| ensures (r[i] == ' ' <==> s[i] == ' ') && (IsMark(r[i]) <==> IsMark(s[i])) {
      LowerKeepsSpace(s[i]);
      LowerCharIdempotent(s[i]);
    }
  }

  /** `normalize`: accents dropped after decomposition, white-space runs
      collapsed to one space, trimmed, lower-cased. */
  function Normalize(s: string): (r: string)
    ensures Clean(r)
  {
    var stripped := StripMarks(Nfd(s));
    CollapseMarkFree(stripped);
    TrimClean(Collapse(stripped));
    LowerClean(Trim(Collapse(stripped)));
    ToLower(Trim(Collapse(stripped)))
  }

  // ---- normalize ignores case and accents ------------------------------

  lemma LowerCharIdempotent(c: char)
    ensures LowerChar(LowerChar(c)) == LowerChar(c)
    ensures IsMark(LowerChar(c)) <==> IsMark(c)
  {
  }

  lemma ToLowerAppend(a: string, b: string)
    ensures ToLower(a + b) == ToLower(a) + ToLower(b)
  {
  }

  /** Decomposing a lower-cased character gives the lower-cased
      decomposition. */
  lemma DecomposeLower(c: char)
    ensures Decompose(LowerChar(c)) == ToLower(Decompose(c))
  {
    if '\U{C0}' <= c <= '\U{DD}' && c != '\U{D7}' {
      var l := LowerChar(c);
      assert (l as int - 32) as char == c;
      if UpperDecomposition(c).Some? {
        var d := UpperDecomposition(c).value;
        LowerCharIdempotent(d.1);
        assert ToLower([d.0, d.1]) == [LowerChar(d.0), LowerChar(d.1)];
      }
    } else if '\U{E0}' <= c <= '\U{FD}' && UpperDecomposition((c as int - 32) as char).Some? {
      var d := UpperDecomposition((c as int - 32) as char).value;
      LowerCharIdempotent(d.0);
      LowerCharIdempotent(d.1);
      assert ToLower([LowerChar(d.0), d.1]) == [LowerChar(LowerChar(d.0)), LowerChar(d.1)];
    } else if c == '\U{FF}' {
      assert ToLower(['y', '\U{308}']) == ['y', '\U{308}'];
    }
  }

  lemma {:induction false} NfdAppend(a: string, b: string)
    ensures Nfd(a + b) == Nfd(a) + Nfd(b)
  {
    if a == [] {
      assert a + b == b;
    } else {
      assert (a + b)[0] == a[0];
      assert (a + b)[1..] == a[1..] + b;
      NfdAppend(a[1..], b);
    }
  }

  lemma {:induction false} NfdLower(s: string)
    ensures Nfd(ToLower(s)) == ToLower(Nfd(s))
  {
    if s != [] {
      var l := ToLower(s);
      assert l[0] == LowerChar(s[0]) && l[1..] == ToLower(s[1..]);
      NfdLower(s[1..]);
      DecomposeLower(s[0]);
      ToLowerAppend(Decompose(s[0]), Nfd(s[1..]));
    }
  }

  lemma {:induction false} StripMarksLower(s: string)
    ensures StripMarks(ToLower(s)) == ToLower(StripMarks(s))
  {
    if s != [] {
      var l := ToLower(s);
      assert l[0] == LowerChar(s[0]) && l[1..] == ToLower(s[1..]);
      StripMarksLower(s[1..]);
      LowerCharIdempotent(s[0]);
      var p := (c: char) => !IsMark(c);
      assert StripMarks(l) == (if p(l[0]) then [l[0]] else []) + StripMarks(l[1..]);
      assert StripMarks(s) == (if p(s[0]) then [s[0]] else []) + StripMarks(s[1..]);
      ToLowerAppend(if p(s[0]) then [s[0]] else [], StripMarks(s[1..]));
    }
  }

  lemma {:induction false} TrimStartLower(s: string)
    ensures TrimStart(ToLower(s)) == ToLower(TrimStart(s))
  {
    if s != [] {
      var l := ToLower(s);
      assert l[0] == LowerChar(s[0]) && l[1..] == ToLower(s[1..]);
      LowerKeepsSpace(s[0]);
      TrimStartLower(s[1..]);
    }
  }

  lemma {:induction false} TrimEndLower(s: string)
    ensures TrimEnd(ToLower(s)) == ToLower(TrimEnd(s))
  {
    if s != [] {
      var l := ToLower(s);
      assert l[|l| - 1] == LowerChar(s[|s| - 1]) && l[..|l| - 1] == ToLower(s[..|s| - 1]);
      LowerKeepsSpace(s[|s| - 1]);
      TrimEndLower(s[..|s| - 1]);
    }
  }

  lemma {:induction false} CollapseLower(s: string)
    ensures Collapse(ToLower(s)) == ToLower(Collapse(s))
    decreases |s|
  {
    if s != [] {
      var l := ToLower(s);
      assert l[0] == LowerChar(s[0]) && l[1..] == ToLower(s[1..]);
      LowerKeepsSpace(s[0]);
      if IsSpace(s[0]) {
        TrimStartLower(s[1..]);
        CollapseLower(TrimStart(s[1..]));
        ToLowerAppend([' '], Collapse(TrimStart(s[1..])));
      } else {
        CollapseLower(s[1..]);
        ToLowerAppend([s[0]], Collapse(s[1..]));
      }
    }
  }

  lemma ToLowerIdempotent(s: string)
    ensures ToLower(ToLower(s)) == ToLower(s)
  {
    forall i | 0 <= i < |s| ensures ToLower(ToLower(s))[i] == ToLower(s)[i] {
      LowerCharIdempotent(s[i]);
    }
  }

  lemma TrimLower(s: string)
    ensures Trim(ToLower(s)) == ToLower(Trim(s))
  {
    TrimStartLower(s);
    TrimEndLower(TrimStart(s));
  }

  /** The duplicate test ignores case: a name and its lower-cased form
      normalize alike. */
  lemma NormalizeIgnoresCase(s: string)
    ensures Normalize(ToLower(s)) == Normalize(s)
  {
    var n := Nfd(s);
    var c := Collapse(StripMarks(n));
    calc {
      Normalize(ToLower(s));
      ToLower(Trim(Collapse(StripMarks(Nfd(ToLower(s))))));
      { NfdLower(s); }
      ToLower(Trim(Collapse(StripMarks(ToLower(n)))));
      { StripMarksLower(n); }
      ToLower(Trim(Collapse(ToLower(StripMarks(n)))));
      { CollapseLower(StripMarks(n)); }
      ToLower(Trim(ToLower(c)));
      { TrimLower(c); }
      ToLower(ToLower(Trim(c)));
      { ToLowerIdempotent(Trim(c)); }
      ToLower(Trim(c));
    }
  }

  /** The duplicate test ignores accents: replacing an accented Latin-1
      letter by its base letter leaves the normalized name unchanged. */
  lemma NormalizeIgnoresAccent(p: string, c: char, q: string)
    requires |Decompose(c)| == 2
    ensures Normalize(p + [c] + q) == Normalize(p + [Decompose(c)[0]] + q)
  {
    StripAccent(p, c, q);
  }

  /** Once the marks are stripped, an accented letter and its base letter
      leave the same text. */
  lemma StripAccent(p: string, c: char, q: string)
    requires |Decompose(c)| == 2
    ensures StripMarks(Nfd(p + [c] + q)) == StripMarks(Nfd(p + [Decompose(c)[0]] + q))
  {
    var b := Decompose(c)[0];
    assert Decompose(b) == [b];
    NfdAround(p, c, q);
    NfdAround(p, b, q);
    var keep := (x: char) => !IsMark(x);
    assert Keep(Decompose(c), keep) == Keep([b], keep) by {
      assert Decompose(c) == [b] + [Decompose(c)[1]];
      KeepAppend([b], [Decompose(c)[1]], keep);
    }
    KeepAround(Nfd(p), Decompose(c), [b], Nfd(q), keep);
  }

  /** Decomposing a text with one character singled out. */
  lemma NfdAround(p: string, c: char, q: string)
    ensures Nfd(p + [c] + q) == Nfd(p) + Decompose(c) + Nfd(q)
  {
    assert Nfd([c]) == Decompose(c) by {
      assert [c][1..] == [];
    }
    NfdAppend(p, [c]);
    NfdAppend(p + [c], q);
  }

  /** Names equal ignoring case normalize alike. */
  lemma EqualIgnoringCaseNormalizesAlike(a: string, b: string)
    requires EqualsIgnoringCase(a, b)
    ensures Normalize(a) == Normalize(b)
  {
    NormalizeIgnoresCase(a);
    NormalizeIgnoresCase(b);
  }

  // ---- duplicate and similar names ---------------------------------------

  /** A listed machine's normalized name equals the normalized `name`. */
  predicate SameName(m: MachineApi.MachineSummary, name: string) {
    Normalize(m.name) == Normalize(name)
  }

  /** A listed machine's normalized name contains the normalized `name`. */
  predicate Resembles(m: MachineApi.MachineSummary, name: string) {
    Contains(Normalize(m.name), Normalize(name))
  }

  /** Some listed machine has the same normalized name as `name`. */
  predicate DuplicateName(machines: seq<MachineApi.MachineSummary>, name: string) {
    exists m <- machines :: SameName(m, name)
  }

  /** Every name the server refuses as a case-insensitive duplicate is
      already flagged by the form, so the form's test is the stricter one. */
  lemma ServerDuplicateIsFlagged(machines: seq<MachineApi.MachineSummary>, name: string)
    requires exists m <- machines :: EqualsIgnoringCase(m.name, name)
    ensures DuplicateName(machines, name)
  {
    var m :| m in machines && EqualsIgnoringCase(m.name, name);
    EqualIgnoringCaseNormalizesAlike(m.name, name);
    assert SameName(m, name);
  }

  /** One entry of the "similar" list, flagged when it is the same name. */
  datatype Suggestion = Suggestion(machine: MachineApi.MachineSummary, alreadyExists: bool)

  /** The machines whose normalized name contains the normalized `name`,
      in list order, each flagged exactly when the normalized names are
      equal; none is missed. */
  function Suggestions(machines: seq<MachineApi.MachineSummary>, name: string): (r: seq<Suggestion>)
    ensures forall s <- r :: s.machine in machines && Resembles(s.machine, name)
                             && (s.alreadyExists <==> SameName(s.machine, name))
    ensures forall m <- machines :: Resembles(m, name) ==> Suggestion(m, SameName(m, name)) in r
    ensures SubsequenceOf(Listed(r), machines)
  {
    if machines == [] then []
    else
      var m := machines[0];
      var rest := Suggestions(machines[1..], name);
      assert forall x <- machines :: x == m || x in machines[1..];
      if Resembles(m, name) then
        var r := [Suggestion(m, SameName(m, name))] + rest;
        assert r[1..] == rest;
        r
      else rest
  }

  /** The machines of a list of suggestions, in order. */
  function Listed(r: seq<Suggestion>): (ms: seq<MachineApi.MachineSummary>)
    ensures |ms| == |r| && forall i :: 0 <= i < |r| ==> ms[i] == r[i].machine
  {
    if r == [] then [] else [r[0].machine] + Listed(r[1..])
  }

  /** The "similar" list under the name field: shown only while the trimmed
      input is not empty. */
  function Similar(machines: seq<MachineApi.MachineSummary>, name: string): (r: seq<Suggestion>)
    ensures Trim(name) == [] ==> r == []
    ensures Trim(name) != [] ==> r == Suggestions(machines, name)
  {
    if Trim(name) == [] then [] else Suggestions(machines, name)
  }

  /** For a non-empty input, a duplicate exists exactly when the "similar"
      list shows a flagged entry. */
  lemma FlaggedIffDuplicate(machines: seq<MachineApi.MachineSummary>, name: string)
    ensures Trim(name) != [] ==>
      (DuplicateName(machines, name) <==> exists s <- Similar(machines, name) :: s.alreadyExists)
    ensures (exists m <- machines :: EqualsIgnoringCase(m.name, name)) ==> DuplicateName(machines, name)
  {
    if exists m <- machines :: EqualsIgnoringCase(m.name, name) {
      ServerDuplicateIsFlagged(machines, name);
    }
    if Trim(name) != [] && DuplicateName(machines, name) {
      var m :| m in machines && SameName(m, name);
      DuplicateIsListed(machines, name, m);
    }
  }

  /** Whatever disables the submit button shows up, flagged, in the
      "similar" list. */
  lemma DuplicateIsListed(machines: seq<MachineApi.MachineSummary>, name: string, m: MachineApi.MachineSummary)
    requires Trim(name) != [] && m in machines && SameName(m, name)
    ensures Suggestion(m, true) in Similar(machines, name)
  {
    assert Normalize(name) <= Normalize(m.name);
    assert Resembles(m, name);
  }

  // ---- selected muscles --------------------------------------------------

  /** The muscle toggle: an id already selected is removed, any other is
      appended. */
  function Toggled(ids: seq<string>, id: string): (r: seq<string>)
    ensures forall x :: x in r <==> (if x == id then id !in ids else x in ids)
  {
    if id in ids then Keep(ids, (x: string) => x != id) else ids + [id]
  }

  /** Toggling keeps the selection free of repetitions. */
  lemma ToggledDistinct(ids: seq<string>, id: string)
    requires Distinct(ids)
    ensures Distinct(Toggled(ids, id))
  {
    if id in ids {
      KeepDistinct(ids, (x: string) => x != id);
    } else {
      var r := ids + [id];
      forall i, j | 0 <= i < j < |r| ensures r[i] != r[j] {
        if j == |ids| {
          assert r[i] in ids;
        }
      }
    }
  }

  /** Toggling an unselected id twice restores the selection exactly. */
  lemma ToggleTwiceAbsent(ids: seq<string>, id: string)
    requires id !in ids
    ensures Toggled(Toggled(ids, id), id) == ids
  {
    var p := (x: string) => x != id;
    KeepAppend(ids, [id], p);
    KeepAll(ids, p);
    assert Keep([id], p) == [];
  }

  /** Toggling a selected id twice selects the same ids again, the toggled
      one now last. */
  lemma ToggleTwicePresent(ids: seq<string>, id: string)
    requires id in ids
    ensures Toggled(Toggled(ids, id), id) == Keep(ids, (x: string) => x != id) + [id]
    ensures forall x :: x in Toggled(Toggled(ids, id), id) <==> x in ids
  {
  }

  // ---- the add-type and add-muscle dialogs ------------------------------

  /** What a dialog's "Agregar" button does: refuse with a message, or send
      the request. */
  datatype DialogCheck = NameTooShort | DescriptionTooShort | AlreadyListed | Send

  /** The add-type dialog: the trimmed name and the trimmed description
      need two UTF-16 code units each, and the trimmed name must not equal a
      listed type's name ignoring case. */
  function TypeDialogCheck(types: seq<MachineTypeApi.MachineType>, newType: string, description: string): (r: DialogCheck)
    ensures r == NameTooShort <==> Utf16Length(Trim(newType)) < 2
    ensures r == DescriptionTooShort <==> Utf16Length(Trim(newType)) >= 2 && Utf16Length(Trim(description)) < 2
    ensures r == Send ==> Utf16Length(Trim(description)) >= 2 && forall t <- types :: !EqualsIgnoringCase(t.name, Trim(newType))
    ensures r == AlreadyListed ==> exists t <- types :: EqualsIgnoringCase(t.name, Trim(newType))
    ensures (forall t <- types :: Trim(t.name) == t.name) && r == Send
        ==> MachineTypeApi.Accepts(types, Str(newType))
  {
    if Utf16Length(Trim(newType)) < 2 then NameTooShort
    else if Utf16Length(Trim(description)) < 2 then DescriptionTooShort
    else if exists t <- types :: EqualsIgnoringCase(t.name, Trim(newType)) then AlreadyListed
    else Send
  }

  /** The add-muscle dialog: the trimmed name needs two UTF-16 code units and must
      not equal a listed muscle's name ignoring case. It sends exactly the
      names the server accepts against the same list. */
  function MuscleDialogCheck(muscles: seq<MuscleApi.Muscle>, newMuscle: string): (r: DialogCheck)
    ensures r == NameTooShort <==> Utf16Length(Trim(newMuscle)) < 2
    ensures r != DescriptionTooShort
    ensures r == Send <==> MuscleApi.Accepts(muscles, Str(newMuscle))
  {
    if Utf16Length(Trim(newMuscle)) < 2 then NameTooShort
    else if exists m <- muscles :: EqualsIgnoringCase(m.name, Trim(newMuscle)) then AlreadyListed
    else Send
  }

  // ---- the form's state --------------------------------------------------

  /** The component state the form changes. */
  class FormState {
    var machines: seq<MachineApi.MachineSummary>
    var types: seq<MachineTypeApi.MachineType>
    var muscles: seq<MuscleApi.Muscle>
    var name: string
    var selectedMuscles: seq<string>
    var loading: bool

    /** The selection never names a muscle twice. */
    ghost predicate Valid()
      reads this
    {
      Distinct(selectedMuscles)
    }

    /** The form once the three lists are fetched. */
    constructor (machines: seq<MachineApi.MachineSummary>, types: seq<MachineTypeApi.MachineType>, muscles: seq<MuscleApi.Muscle>)
      ensures Valid()
      ensures this.machines == machines && this.types == types && this.muscles == muscles
      ensures name == "" && selectedMuscles == [] && !loading
    {
      this.machines := machines;
      this.types := types;
      this.muscles := muscles;
      name := "";
      selectedMuscles := [];
      loading := false;
    }

    /** The submit button is disabled while a request runs and whenever a
        listed machine has the same normalized name. */
    predicate SubmitDisabled(): (disabled: bool)
      reads this
      ensures !loading && Trim(name) != [] ==>
        (disabled <==> exists s <- Similar(machines, name) :: s.alreadyExists)
      ensures (exists m <- machines :: EqualsIgnoringCase(m.name, name)) ==> disabled
    {
      FlaggedIffDuplicate(machines, name);
      loading || DuplicateName(machines, name)
    }

    /** A click on a muscle of the dropdown. */
    method ToggleMuscle(muscleId: int)
      requires Valid()
      modifies this`selectedMuscles
      ensures Valid()
      ensures selectedMuscles == Toggled(old(selectedMuscles), ShowInt(muscleId))
    {
      ToggledDistinct(selectedMuscles, ShowInt(muscleId));
      if ShowInt(muscleId) in selectedMuscles {
        selectedMuscles := Keep(selectedMuscles, (x: string) => x != ShowInt(muscleId));
      } else {
        selectedMuscles := selectedMuscles + [ShowInt(muscleId)];
      }
    }

    /** The add-type dialog's button, `reply` standing for the server's
        answer when the request is sent: a created type is appended to the
        list. */
    method AddType(newType: string, description: string, reply: Reply<MachineTypeApi.MachineType>)
      returns (check: DialogCheck)
      modifies this`types
      ensures check == TypeDialogCheck(old(types), newType, description)
      ensures check == Send && reply.Ok? ==> types == old(types) + [reply.value]
      ensures !(check == Send && reply.Ok?) ==> types == old(types)
    {
      check := TypeDialogCheck(types, newType, description);
      if check == Send && reply.Ok? {
        types := types + [reply.value];
      }
    }

    /** The add-muscle dialog's button, `reply` standing for the server's
        answer when the request is sent: a created muscle is appended. */
    method AddMuscle(newMuscle: string, reply: Reply<MuscleApi.Muscle>)
      returns (check: DialogCheck)
      modifies this`muscles
      ensures check == MuscleDialogCheck(old(muscles), newMuscle)
      ensures check == Send && reply.Ok? ==> muscles == old(muscles) + [reply.value]
      ensures !(check == Send && reply.Ok?) ==> muscles == old(muscles)
    {
      check := MuscleDialogCheck(muscles, newMuscle);
      if check == Send && reply.Ok? {
        muscles := muscles + [reply.value];
      }
    }
  }
}
