/** The profile page: the birth-date dialog (validation, formatting and the
    pre-filled fields), the birth-date display, the gender helpers, the rule
    that disables saving a record, and the local history list. */
module ProfilePage {
  import opened Base
  import opened Text
  import opened Calendar
  import opened UserDataApi

  // ---- parseInt ------------------------------------------------------------

  /** The longest run of digits `s` starts with. */
  function DigitPrefix(s: string): (p: string)
    ensures AllDigits(p) && p <= s
    ensures |p| == |s| || !IsDigit(s[|p|])
  {
    if s != [] && IsDigit(s[0]) then [s[0]] + DigitPrefix(s[1..]) else []
  }

  /** `parseInt` after the leading white space: an optional sign, then the
      leading digits; NaN (`None`) when there are none. */
  function ParseSigned(t: string): (r: Option<int>) {
    if t != [] && (t[0] == '-' || t[0] == '+') then
      var p := DigitPrefix(t[1..]);
      var v: int := if p == [] then 0 else DigitsValue(p);
      if p == [] then None else Some(if t[0] == '-' then -v else v)
    else
      var p := DigitPrefix(t);
      if p == [] then None else Some(DigitsValue(p))
  }

  /** `parseInt(s, 10)`. */
  function ParseInt(s: string): (r: Option<int>)
    ensures s != [] && IsDigit(s[0]) ==> r == Some(DigitsValue(DigitPrefix(s)))
    ensures s == [] || (!IsSpace(s[0]) && !IsDigit(s[0]) && s[0] != '+' && s[0] != '-') ==> r.None?
  {
    ParseSigned(TrimStart(s))
  }

  /** The digit prefix of digits followed by a non-digit is those digits. */
  lemma {:induction false} DigitPrefixOf(p: string, q: string)
    requires AllDigits(p)
    requires q == [] || !IsDigit(q[0])
    ensures DigitPrefix(p + q) == p
  {
    if p != [] {
      assert (p + q)[0] == p[0] && (p + q)[1..] == p[1..] + q;
      DigitPrefixOf(p[1..], q);
    } else {
      assert p + q == q;
    }
  }

  /** `parseInt` reads the leading digits of a string and ignores what
      follows them. */
  lemma ParseIntDigits(p: string, q: string)
    requires AllDigits(p) && p != []
    requires q == [] || !IsDigit(q[0])
    ensures ParseInt(p + q) == Some(DigitsValue(p))
  {
    assert (p + q)[0] == p[0];
    assert TrimStart(p + q) == p + q;
    DigitPrefixOf(p, q);
  }

  // ---- the birth-date dialog --------------------------------------------

  /** The outcomes of the dialog's checks. */
  datatype DateCheck = Incomplete | OutOfRange | NotADate | Accepted(date: Date)

  /** The range check: all three fields are numbers, the day within 1..31,
      the month within 1..12 and the year from 1900 to this year. */
  predicate InRange(day: string, month: string, year: string, thisYear: int) {
    && ParseInt(day).Some? && ParseInt(month).Some? && ParseInt(year).Some?
    && 1 <= ParseInt(day).value <= 31
    && 1 <= ParseInt(month).value <= 12
    && 1900 <= ParseInt(year).value <= thisYear
  }

  /** `EditBirthDateModal.handleSave`'s checks, `thisYear` standing for the
      clock's year: all three fields filled in, then the ranges, then the
      round trip through `new Date(year, month - 1, day)`. */
  function CheckBirthDate(day: string, month: string, year: string, thisYear: int): (r: DateCheck)
    ensures r == Incomplete <==> day == "" || month == "" || year == ""
    ensures r == OutOfRange <==>
      day != "" && month != "" && year != "" && !InRange(day, month, year, thisYear)
    ensures r == NotADate <==>
      && day != "" && month != "" && year != "" && InRange(day, month, year, thisYear)
      && var d := Date(ParseInt(year).value, ParseInt(month).value, ParseInt(day).value);
         !(IsCalendarDate(d) && InTimeRange(d))
    ensures r.Accepted? ==>
      && InRange(day, month, year, thisYear)
      && r.date == Date(ParseInt(year).value, ParseInt(month).value, ParseInt(day).value)
      && IsCalendarDate(r.date) && InTimeRange(r.date)
  {
    if day == "" || month == "" || year == "" then Incomplete
    else if !InRange(day, month, year, thisYear) then OutOfRange
    else
      var y, m, d := ParseInt(year).value, ParseInt(month).value, ParseInt(day).value;
      if RoundTrips(y, m, d) then Accepted(Date(y, m, d)) else NotADate
  }

  /** The `birthDate` the dialog sends: the year, then the month and the day
      padded to two digits, joined by `-`. */
  function FormatBirthDate(date: Date): (r: string)
    requires date.year >= 0 && date.month >= 0 && date.day >= 0
    ensures var parts := Split(r, '-');
      && |parts| == 3
      && AllDigits(parts[0]) && AllDigits(parts[1]) && AllDigits(parts[2])
      && parts[0] != [] && parts[1] != [] && parts[2] != []
      && DigitsValue(parts[0]) == date.year && DigitsValue(parts[1]) == date.month
      && DigitsValue(parts[2]) == date.day
    ensures Split(r, '-') == [ShowNat(date.year), PadTwo(ShowNat(date.month)), PadTwo(ShowNat(date.day))]
  {
    PiecesShape(date);
    SplitThree(ShowNat(date.year), PadTwo(ShowNat(date.month)), PadTwo(ShowNat(date.day)), '-');
    ShowNat(date.year) + "-" + PadTwo(ShowNat(date.month)) + "-" + PadTwo(ShowNat(date.day))
  }

  /** The time part of a date stored at midnight, in ISO form. */
  const Midnight := "T00:00:00.000Z"

  lemma MidnightShape()
    ensures Midnight == "T" + Midnight[1..]
    ensures '-' !in Midnight && 'T' !in Midnight[1..] && !IsDigit(Midnight[0])
  {
  }

  /** The birth date as the page reads it back: the stored date at midnight
      in ISO form. */
  function StoredBirthDate(date: Date): (stored: string)
    requires date.year >= 0 && date.month >= 0 && date.day >= 0
    ensures Split(stored, 'T') == [FormatBirthDate(date), Midnight[1..]]
  {
    var format := FormatBirthDate(date);
    PiecesShape(date);
    MidnightShape();
    assert 'T' !in format;
    assert format + Midnight == format + ['T'] + Midnight[1..];
    SplitTwo(format, Midnight[1..], 'T');
    format + Midnight
  }

  /** A padded two-digit field reads back as its number. */
  lemma PadTwoDigits(n: nat)
    ensures AllDigits(PadTwo(ShowNat(n))) && PadTwo(ShowNat(n)) != []
    ensures DigitsValue(PadTwo(ShowNat(n))) == n
  {
    if |ShowNat(n)| < 2 {
      LeadingZero(ShowNat(n));
      assert PadTwo(ShowNat(n)) == ['0'] + ShowNat(n);
    }
  }

  /** Digits are neither separator. */
  lemma NoDigitIsSeparator(p: string)
    requires AllDigits(p)
    ensures '-' !in p && 'T' !in p
  {
  }

  /** The pieces of a formatted date: digits, no separator, and the values. */
  lemma PiecesShape(date: Date)
    requires date.year >= 0 && date.month >= 0 && date.day >= 0
    ensures var y, m, d := ShowNat(date.year), PadTwo(ShowNat(date.month)), PadTwo(ShowNat(date.day));
      && AllDigits(y) && AllDigits(m) && AllDigits(d) && y != [] && m != [] && d != []
      && '-' !in y && '-' !in m && '-' !in d && 'T' !in y && 'T' !in m && 'T' !in d
      && DigitsValue(y) == date.year && DigitsValue(m) == date.month && DigitsValue(d) == date.day
  {
    PadTwoDigits(date.month);
    PadTwoDigits(date.day);
    NoDigitIsSeparator(ShowNat(date.year));
    NoDigitIsSeparator(PadTwo(ShowNat(date.month)));
    NoDigitIsSeparator(PadTwo(ShowNat(date.day)));
  }

  /** The server accepts a formatted calendar date from 1900 on, and its
      split on `-` recovers the same year, month and day. */
  lemma ServerAcceptsFormatted(date: Date)
    requires IsCalendarDate(date) && InTimeRange(date) && date.year >= 1900
    ensures ParseBirthDate(FormatBirthDate(date)) == Some(date)
  {
    var y, m, d := ShowNat(date.year), PadTwo(ShowNat(date.month)), PadTwo(ShowNat(date.day));
    PiecesShape(date);
    assert JsNumber(y) == Some(date.year) && JsNumber(m) == Some(date.month) && JsNumber(d) == Some(date.day);
    ParseBirthDateIff(FormatBirthDate(date), date.year, date.month, date.day);
  }

  /** Every date the dialog accepts is accepted by the server as well. */
  lemma ServerAcceptsDialogDate(day: string, month: string, year: string, thisYear: int)
    requires CheckBirthDate(day, month, year, thisYear).Accepted?
    ensures var date := CheckBirthDate(day, month, year, thisYear).date;
      ParseBirthDate(FormatBirthDate(date)) == Some(date)
  {
    ServerAcceptsFormatted(CheckBirthDate(day, month, year, thisYear).date);
  }

  /** The fields the dialog starts with: the stored date's `-`-separated
      pieces, empty when there is no stored date or a piece is missing. */
  function InitialFields(current: Option<string>): (fields: (string, string, string))
    ensures '-' !in fields.0 && '-' !in fields.1 && '-' !in fields.2
    ensures current.None? || current.value == "" ==> fields == ("", "", "")
    ensures current.Some? && |Split(current.value, '-')| == 3 ==>
      Join([fields.2, fields.1, fields.0], '-') == current.value
  {
    if current.None? || current.value == "" then ("", "", "")
    else
      var parts := Split(current.value, '-');
      assert |parts| == 3 ==> parts == [parts[0], parts[1], parts[2]];
      (if |parts| > 2 then parts[2] else "", if |parts| > 1 then parts[1] else "", parts[0])
  }

  /** The stored form split on `-`: the year, the month, and the day with
      the time after it. */
  lemma SplitStored(date: Date)
    requires date.year >= 0 && date.month >= 0 && date.day >= 0
    ensures Split(StoredBirthDate(date), '-')
         == [ShowNat(date.year), PadTwo(ShowNat(date.month)), PadTwo(ShowNat(date.day)) + Midnight]
  {
    var y, m, d := ShowNat(date.year), PadTwo(ShowNat(date.month)), PadTwo(ShowNat(date.day));
    PiecesShape(date);
    MidnightShape();
    assert '-' !in d + Midnight;
    Reassociate(y, m, d, Midnight);
    SplitThree(y, m, d + Midnight, '-');
  }

  /** Moving the time onto the day piece. */
  lemma Reassociate(y: string, m: string, d: string, t: string)
    ensures y + "-" + m + "-" + d + t == y + ['-'] + m + ['-'] + (d + t)
  {
  }

  /** Reopening the dialog on a stored birth date pre-fills fields that the
      checks accept as that same date: `parseInt` skips the time that follows
      the day. */
  lemma ReopenAcceptsStoredDate(date: Date, thisYear: int)
    requires IsCalendarDate(date) && InTimeRange(date) && 1900 <= date.year <= thisYear
    ensures var (d, m, y) := InitialFields(Some(StoredBirthDate(date)));
      CheckBirthDate(d, m, y, thisYear) == Accepted(date)
  {
    StoredFields(date);
    StoredFieldsParse(date);
    var (d, m, y) := InitialFields(Some(StoredBirthDate(date)));
    assert InRange(d, m, y, thisYear);
  }

  /** The fields pre-filled from a stored date: the day with the time after
      it, the padded month, and the year. */
  lemma StoredFields(date: Date)
    requires date.year >= 0 && date.month >= 0 && date.day >= 0
    ensures InitialFields(Some(StoredBirthDate(date)))
         == (PadTwo(ShowNat(date.day)) + Midnight, PadTwo(ShowNat(date.month)), ShowNat(date.year))
  {
    SplitStored(date);
  }

  /** `parseInt` reads the pre-filled fields as the stored day, month and
      year. */
  lemma StoredFieldsParse(date: Date)
    requires date.year >= 0 && date.month >= 0 && date.day >= 0
    ensures ParseInt(PadTwo(ShowNat(date.day)) + Midnight) == Some(date.day)
    ensures ParseInt(PadTwo(ShowNat(date.month))) == Some(date.month)
    ensures ParseInt(ShowNat(date.year)) == Some(date.year)
  {
    var y, m, d := ShowNat(date.year), PadTwo(ShowNat(date.month)), PadTwo(ShowNat(date.day));
    PiecesShape(date);
    MidnightShape();
    ParseIntDigits(d, Midnight);
    ParseIntDigits(m, []);
    ParseIntDigits(y, []);
    assert m + [] == m && y + [] == y;
  }

  // ---- the birth-date display ----------------------------------------------

  /** A missing piece renders as "undefined". */
  function Piece(parts: seq<string>, i: nat): string {
    if i < |parts| then parts[i] else "undefined"
  }

  /** The displayed birth date: the part before `T`, its `-`-separated pieces
      in reverse order; nothing without a birth date. */
  function DisplayBirthDate(birthDate: Option<string>): (shown: Option<string>)
    ensures birthDate.None? || birthDate == Some("") ==> shown.None?
  {
    if birthDate.None? || birthDate.value == "" then None
    else
      var raw := Split(birthDate.value, 'T')[0];
      if raw == "" then None
      else
        var parts := Split(raw, '-');
        Some(Piece(parts, 2) + "-" + Piece(parts, 1) + "-" + Piece(parts, 0))
  }

  /** A stored birth date is displayed as day-month-year, day and month on
      two digits. */
  lemma DisplayOfStored(date: Date)
    requires date.year >= 0 && date.month >= 0 && date.day >= 0
    ensures DisplayBirthDate(Some(StoredBirthDate(date)))
         == Some(PadTwo(ShowNat(date.day)) + "-" + PadTwo(ShowNat(date.month)) + "-" + ShowNat(date.year))
  {
  }

  // ---- gender ----------------------------------------------------------------

  /** `getGender`: the stored gender when it is "M" or "F", otherwise "". */
  function GetGender(gender: string): (shown: string)
    ensures shown == gender || shown == ""
    ensures shown != "" <==> GetGenderSaved(gender)
  {
    if GetGenderSaved(gender) then gender else ""
  }

  /** `getGenderSaved`: the page counts a gender as saved exactly when
      it is one the server's JSON POST takes down the gender branch and
      stores (`AcceptedGender` of a truthy gender). */
  predicate GetGenderSaved(gender: string): (saved: bool)
    ensures saved <==> !Falsy(Str(gender)) && AcceptedGender(Str(gender))
  {
    gender == "M" || gender == "F"
  }

  /** Whatever gender the server stores is counted as saved on reload. */
  lemma StoredGenderCountsAsSaved(gender: JsonField)
    requires !Falsy(gender) && AcceptedGender(gender)
    ensures GetGenderSaved(gender.s)
  {
  }

  // ---- the record form --------------------------------------------------------

  /** `UserDataForm`'s save button: disabled while saving, without a birth
      date, and, when there is no record yet (so height is asked for), while
      the height is empty, not a number or not positive. */
  function SaveDisabled(loading: bool, birthDate: Option<string>, recordCount: nat, height: string): (disabled: bool)
    ensures loading || birthDate in {None, Some("")} ==> disabled
    ensures recordCount == 0 && (height == "" || JsNumber(height).None? || JsNumber(height).value <= 0) ==> disabled
    ensures !loading && birthDate !in {None, Some("")} && recordCount > 0 ==> !disabled
  {
    var noBirthDate := birthDate.None? || birthDate.value == "";
    var heightInvalid := recordCount == 0 && (height == "" || JsNumber(height).None? || JsNumber(height).value <= 0);
    loading || noBirthDate || heightInvalid
  }

  /** The `height` the form sends: `parseInt(height)` when height is asked
      for (NaN is sent as null), nothing otherwise. */
  function HeightSent(recordCount: nat, height: string): (sent: Option<real>)
    ensures recordCount > 0 ==> sent.None?
  {
    if recordCount == 0 && ParseInt(height).Some? then Some(ParseInt(height).value as real) else None
  }

  /** After the leading white space, `parseInt` reads the leading digits. */
  lemma ParseSignedDigits(p: string, q: string)
    requires AllDigits(p) && p != []
    requires q == [] || !IsDigit(q[0])
    ensures ParseSigned(p + q) == Some(DigitsValue(p))
  {
    assert (p + q)[0] == p[0];
    DigitPrefixOf(p, q);
  }

  /** ... and the leading digits after a plus sign. */
  lemma ParseSignedPlus(t: string, q: string)
    requires |t| > 1 && t[0] == '+' && AllDigits(t[1..])
    requires q == [] || !IsDigit(q[0])
    ensures ParseSigned(t + q) == Some(DigitsValue(t[1..]))
  {
    DigitPrefixOf(t[1..], q);
    assert (t + q)[0] == '+' && (t + q)[1..] == t[1..] + q;
  }

  /** `s` after its leading white space is the trimmed text followed by
      white space only. */
  lemma TrimStartIsTrimThenSpace(s: string)
    ensures var u, n := TrimStart(s), |Trim(s)|;
      n <= |u| && u == Trim(s) + u[n..] && (n == |u| || IsSpace(u[n]))
  {
    TrimIsTrimEndOfTrimStart(s);
    TrimEndThenSpace(TrimStart(s));
  }

  /** What `Number` saw in a string it reads as a positive integer: digits,
      or a plus sign and digits, once trimmed. */
  lemma PositiveNumberShape(s: string)
    requires JsNumber(s).Some? && JsNumber(s).value > 0
    ensures AllDigits(Trim(s)) && Trim(s) != [] ==> JsNumber(s).value == DigitsValue(Trim(s))
    ensures !(AllDigits(Trim(s)) && Trim(s) != []) ==>
      var t := Trim(s);
      |t| > 1 && t[0] == '+' && AllDigits(t[1..]) && JsNumber(s).value == DigitsValue(t[1..])
  {
  }

  /** `parseInt` agrees with `Number` on a string `Number` reads as a
      positive integer. */
  lemma ParseIntAgrees(s: string)
    requires JsNumber(s).Some? && JsNumber(s).value > 0
    ensures ParseInt(s) == JsNumber(s)
  {
    PositiveNumberShape(s);
    if AllDigits(Trim(s)) && Trim(s) != [] {
      ParseIntTrimmedDigits(s);
    } else {
      ParseIntTrimmedPlus(s);
    }
  }

  /** `parseInt` of a string whose trimmed text is digits. */
  lemma ParseIntTrimmedDigits(s: string)
    requires AllDigits(Trim(s)) && Trim(s) != []
    ensures ParseInt(s) == Some(DigitsValue(Trim(s)))
  {
    var t := Trim(s);
    var q := TrimStart(s)[|t|..];
    TrimStartIsTrimThenSpace(s);
    SpaceIsNoDigit(q);
    ParseSignedDigits(t, q);
    ParseIntOf(s, t + q);
  }

  /** `parseInt` of a string whose trimmed text is a plus sign and digits. */
  lemma ParseIntTrimmedPlus(s: string)
    requires |Trim(s)| > 1 && Trim(s)[0] == '+' && AllDigits(Trim(s)[1..])
    ensures ParseInt(s) == Some(DigitsValue(Trim(s)[1..]))
  {
    var t := Trim(s);
    var q := TrimStart(s)[|t|..];
    TrimStartIsTrimThenSpace(s);
    SpaceIsNoDigit(q);
    ParseSignedPlus(t, q);
    ParseIntOf(s, t + q);
  }

  /** White space does not start with a digit. */
  lemma SpaceIsNoDigit(q: string)
    requires q == [] || IsSpace(q[0])
    ensures q == [] || !IsDigit(q[0])
  {
  }

  /** `parseInt` works on the text after the leading white space. */
  lemma ParseIntOf(s: string, rest: string)
    requires TrimStart(s) == rest
    ensures ParseInt(s) == ParseSigned(rest)
  {
  }

  /** When the form can save the first record, the height it sends is a
      positive number, so the server stores a positive height. */
  lemma FirstRecordHeightPositive(loading: bool, birthDate: Option<string>, height: string)
    requires !SaveDisabled(loading, birthDate, 0, height)
    ensures HeightSent(0, height).Some? && HeightSent(0, height).value > 0.0
    ensures NewHeight(HeightSent(0, height), None) > 0.0
  {
    ParseIntAgrees(height);
  }

  // ---- the history list ----------------------------------------------------------

  /** A row of the page's history list: a record, or just an age when a
      birth-date answer had no record to return. */
  datatype Row = Row(record: Option<Record>, age: Option<int>)

  /** The history as GET answers it, as rows. */
  function ServerRows(records: seq<Record>, user: Users.User, today: Date): (rows: seq<Row>)
    ensures |rows| == |History(records, user.id)|
    ensures forall i :: 0 <= i < |rows| ==> rows[i] == Row(Some(History(records, user.id)[i]), AgeOf(user, today))
  {
    var h := History(records, user.id);
    seq(|h|, i requires 0 <= i < |h| => Row(Some(h[i]), AgeOf(user, today)))
  }

  /** Prepending the saved record to the rows the page loaded gives the rows
      the server would now answer, when the new record is newer than the
      user's others. */
  lemma PrependMatchesServer(records: seq<Record>, user: Users.User, today: Date, r: Record)
    requires r.userId == user.id
    requires forall x <- records :: x.userId == user.id ==> x.date < r.date
    ensures [Row(Some(r), AgeOf(user, today))] + ServerRows(records, user, today)
         == ServerRows(records + [r], user, today)
  {
    NewestRecordFirst(records, r);
    var before := ServerRows(records, user, today);
    var after := ServerRows(records + [r], user, today);
    assert |after| == |before| + 1;
    forall i | 0 <= i < |after|
      ensures after[i] == ([Row(Some(r), AgeOf(user, today))] + before)[i]
    {
      if i > 0 {
        assert History(records + [r], user.id)[i] == History(records, user.id)[i - 1];
      }
    }
  }

  /** The page's list of history rows. */
  class HistoryView {
    var rows: seq<Row>

    constructor (loaded: seq<Row>)
      ensures rows == loaded
    {
      rows := loaded;
    }

    /** `handleUserDataSuccess`: the new record goes first, the earlier rows
        follow in order. */
    method RecordSaved(record: Record, age: Option<int>)
      modifies this
      ensures rows == [Row(Some(record), age)] + old(rows)
      ensures rows[1..] == old(rows)
    {
      rows := [Row(Some(record), age)] + rows;
    }

    /** `handleBirthDateSave`: the first row is replaced by the answer (the
        newest record with the new age); an empty list stays empty. */
    method BirthDateSaved(latest: Option<Record>, newAge: int)
      modifies this
      ensures old(rows) == [] ==> rows == []
      ensures old(rows) != [] ==> rows == old(rows)[0 := Row(latest, Some(newAge))]
    {
      if rows != [] {
        rows := rows[0 := Row(latest, Some(newAge))];
      }
    }

    /** `userData[0]?.age || null`: the first row's age; an age of 0 shows
        as none. */
    function CurrentAge(): (age: Option<int>)
      reads this
      ensures age.Some? ==> rows != [] && rows[0].age == age && age.value != 0
      ensures rows != [] && rows[0].age.Some? && rows[0].age.value != 0 ==> age == rows[0].age
    {
      if rows != [] && rows[0].age.Some? && rows[0].age.value != 0 then rows[0].age else None
    }
  }
}
