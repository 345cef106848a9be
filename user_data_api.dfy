/** The body-metric endpoint: the caller's history with the age computed
    from the birth date, and a POST that sets the avatar, the gender or the
    birth date, or appends a weight record. */
module UserDataApi {
  import opened Base
  import opened Text
  import opened Calendar
  import opened Ordering
  import opened Users

  /** A body-metric record, dated by the clock when it was created. */
  datatype Record = Record(id: int, userId: int, weight: real, height: real, notes: Option<string>, date: int)

  /** The history store, in insertion order. */
  class RecordTable {
    var rows: seq<Record>
    var nextId: int

    ghost predicate Valid()
      reads this
    {
      && nextId >= 1
      && (forall i :: 0 <= i < |rows| ==> 1 <= rows[i].id < nextId)
    }

    constructor ()
      ensures Valid() && rows == []
    {
      rows := [];
      nextId := 1;
    }
  }

  // ---- the history in date order ----------------------------------------

  /** `orderBy: { date: "desc" }`. */
  function NewestFirst(a: Record, b: Record): bool {
    a.date >= b.date
  }

  lemma NewestFirstTotal()
    ensures Total(NewestFirst)
  {
  }

  predicate OwnedBy(r: Record, userId: int) {
    r.userId == userId
  }

  /** `where: { userId }` as a filter. */
  function Owner(userId: int): Record -> bool {
    (r: Record) => OwnedBy(r, userId)
  }

  /** A user's records, newest first. */
  function History(records: seq<Record>, userId: int): (h: seq<Record>)
    ensures multiset(h) == multiset(Keep(records, Owner(userId)))
    ensures Sorted(h, NewestFirst)
  {
    NewestFirstTotal();
    SortBy(Keep(records, Owner(userId)), NewestFirst)
  }

  /** Sorting a list with one more element, newer than all the others, puts
      it first and leaves the rest as sorted before. */
  lemma {:induction false} SortWithNewest(xs: seq<Record>, n: Record)
    requires Total(NewestFirst)
    requires forall x <- xs :: x.date < n.date
    ensures SortBy(xs + [n], NewestFirst) == [n] + SortBy(xs, NewestFirst)
  {
    var ys := xs + [n];
    if xs == [] {
      assert ys == [n];
      assert ys[1..] == [];
    } else {
      assert ys[0] == xs[0] && ys[1..] == xs[1..] + [n];
      SortWithNewest(xs[1..], n);
      var rest := SortBy(xs[1..], NewestFirst);
      assert ([n] + rest)[0] == n && ([n] + rest)[1..] == rest;
      assert !NewestFirst(xs[0], n);
    }
  }

  /** A record newer than all of its owner's records heads the owner's
      history, before the history as it was. */
  lemma NewestRecordFirst(records: seq<Record>, r: Record)
    requires forall x <- records :: x.userId == r.userId ==> x.date < r.date
    ensures History(records + [r], r.userId) == [r] + History(records, r.userId)
  {
    KeepAppend(records, [r], Owner(r.userId));
    assert Keep([r], Owner(r.userId)) == [r];
    NewestFirstTotal();
    SortWithNewest(Keep(records, Owner(r.userId)), r);
  }

  /** In a list sorted newest first, the head is at least as new as any
      element. */
  lemma {:induction false} HeadIsNewest(h: seq<Record>)
    requires h != [] && Sorted(h, NewestFirst)
    ensures forall r <- h :: r.date <= h[0].date
  {
    if |h| > 1 {
      var tail := h[1..];
      assert Sorted(tail, NewestFirst) by {
        forall i | 0 < i < |tail| ensures NewestFirst(tail[i - 1], tail[i]) {
          assert tail[i - 1] == h[i] && tail[i] == h[i + 1];
        }
      }
      HeadIsNewest(tail);
      assert NewestFirst(h[0], h[1]);
      forall r <- h ensures r.date <= h[0].date {
        if r != h[0] {
          assert r in tail;
        }
      }
    }
  }

  /** `findFirst({ where: { userId }, orderBy: { date: "desc" } })`: the
      user's newest record, if the user has any. */
  function Latest(records: seq<Record>, userId: int): (r: Option<Record>)
    ensures r.None? <==> forall x <- records :: x.userId != userId
    ensures r.Some? ==> && r.value in records && r.value.userId == userId
                        && forall x <- records :: x.userId == userId ==> x.date <= r.value.date
  {
    var own := Keep(records, Owner(userId));
    var h := History(records, userId);
    assert forall x <- records :: x.userId == userId ==> x in h by {
      forall x <- records | x.userId == userId ensures x in h {
        assert x in own;
        assert x in multiset(own);
      }
    }
    if h == [] then None
    else
      HeadIsNewest(h);
      assert h[0] in multiset(own);
      assert h[0] in own;
      Some(h[0])
  }

  // ---- age ----------------------------------------------------------------

  /** The age shown with the records: none without a birth date. */
  function AgeOf(user: User, today: Date): (age: Option<int>)
    ensures age.None? <==> user.birthDate.None?
    ensures age.Some? ==> age.value == CalculateAge(user.birthDate.value, today)
  {
    if user.birthDate.Some? then Some(CalculateAge(user.birthDate.value, today)) else None
  }

  /** A history record as GET answers it, with the owner's age. */
  datatype Entry = Entry(record: Record, age: Option<int>)

  /** GET, `today` standing for the clock. 401 without a verified token, 404
      when no user has the token's email; otherwise the user's records
      newest first, each carrying the same age. */
  method Get(users: UserTable, records: RecordTable, credential: Credential, today: Date)
    returns (reply: Reply<seq<Entry>>)
    ensures !credential.Verified? ==> reply == Fail(Unauthorized)
    ensures credential.Verified? && FindByEmail(users.rows, credential.principal.email).None?
        ==> reply == Fail(NotFound)
    ensures credential.Verified? && FindByEmail(users.rows, credential.principal.email).Some? ==>
      var user := users.rows[FindByEmail(users.rows, credential.principal.email).value];
      var h := History(records.rows, user.id);
      && reply.Ok? && |reply.value| == |h|
      && forall i :: 0 <= i < |h| ==> reply.value[i] == Entry(h[i], AgeOf(user, today))
  {
    if !credential.Verified? {
      return Fail(Unauthorized);
    }
    var found := FindByEmail(users.rows, credential.principal.email);
    if found.None? {
      return Fail(NotFound);
    }
    var user := users.rows[found.value];
    var age := AgeOf(user, today);
    var h := History(records.rows, user.id);
    reply := Ok(seq(|h|, i requires 0 <= i < |h| => Entry(h[i], age)));
  }

  // ---- the birth-date check -------------------------------------------------

  /** `Number` of a piece without a minus sign is never negative. */
  lemma NoMinusNotNegative(s: string)
    requires '-' !in s
    ensures JsNumber(s).Some? ==> JsNumber(s).value >= 0
  {
    var t := Trim(s);
    if |t| > 1 {
      assert t[0] == s[TrimOffset(s)];
    }
  }

  /** The `-`-separated part `i` of a birth date read by `Number`, with
      `None` standing for a missing part or NaN. */
  function PartNumber(parts: seq<string>, i: nat): (n: Option<int>)
    requires forall p <- parts :: '-' !in p
    ensures n.Some? ==> n.value >= 0
    ensures i < |parts| ==> n == JsNumber(parts[i])
    ensures i >= |parts| ==> n.None?
  {
    if i < |parts| then
      assert parts[i] in parts;
      NoMinusNotNegative(parts[i]);
      JsNumber(parts[i])
    else None
  }

  /** The birth-date check of POST: the first three `-`-separated parts must
      read as non-zero numbers, and building a date from them must give the
      same year, month and day back. */
  function ParseBirthDate(s: string): (r: Option<Date>)
    ensures r.Some? ==> IsCalendarDate(r.value) && InTimeRange(r.value) && !(0 <= r.value.year <= 99)
    ensures r.Some? ==>
      var parts := Split(s, '-');
      && |parts| >= 3
      && JsNumber(parts[0]) == Some(r.value.year)
      && JsNumber(parts[1]) == Some(r.value.month)
      && JsNumber(parts[2]) == Some(r.value.day)
  {
    var parts := Split(s, '-');
    var y, m, d := PartNumber(parts, 0), PartNumber(parts, 1), PartNumber(parts, 2);
    if y.None? || m.None? || d.None? || y.value == 0 || m.value == 0 || d.value == 0 then None
    else CheckDate(y.value, m.value, d.value)
  }

  /** The round trip through `new Date(year, month - 1, day)`. */
  function CheckDate(y: int, m: int, d: int): (r: Option<Date>)
    requires m >= 1 && d >= 1
    ensures r.Some? <==> !(0 <= y <= 99) && IsCalendarDate(Date(y, m, d)) && InTimeRange(Date(y, m, d))
    ensures r.Some? ==> r.value == Date(y, m, d)
  {
    if RoundTrips(y, m, d) then Some(Date(y, m, d)) else None
  }

  /** A date passes the check exactly when its parts are non-zero numbers
      naming a real calendar day, in the time range, outside the years 0 to
      99. */
  lemma ParseBirthDateIff(s: string, y: int, m: int, d: int)
    requires |Split(s, '-')| >= 3
    requires JsNumber(Split(s, '-')[0]) == Some(y)
    requires JsNumber(Split(s, '-')[1]) == Some(m)
    requires JsNumber(Split(s, '-')[2]) == Some(d)
    ensures ParseBirthDate(s) == Some(Date(y, m, d))
        <==> y != 0 && m >= 1 && d >= 1 && IsCalendarDate(Date(y, m, d))
             && InTimeRange(Date(y, m, d)) && !(0 <= y <= 99)
  {
  }

  // ---- POST --------------------------------------------------------------

  /** The JSON body. `weight` and `height` hold a number when one was sent
      (`parseFloat` and `parseInt` give NaN, sent as null, otherwise);
      `updateBirthDate` is the flag's truthiness. */
  datatype JsonBody = JsonBody(
    email: string, weight: Option<real>, notes: Option<string>, height: Option<real>,
    birthDate: JsonField, updateBirthDate: bool, gender: JsonField)

  /** The multipart body: the email and the name of the avatar file, when a
      file was sent. */
  datatype AvatarForm = AvatarForm(email: string, avatar: Option<string>)

  /** What a successful POST answers with. */
  datatype Saved =
    | AvatarSet(avatarUrl: string)
    | GenderSet(gender: string)
    | BirthDateSet(latest: Option<Record>, newAge: int)
    | RecordAdded(record: Record, age: Option<int>)

  /** The height of a new record: the one sent when it is a number, else the
      newest record's height, else 0. */
  function NewHeight(sent: Option<real>, latest: Option<Record>): (h: real)
    ensures sent.Some? ==> h == sent.value
    ensures sent.None? && latest.Some? ==> h == latest.value.height
    ensures sent.None? && latest.None? ==> h == 0.0
  {
    if sent.Some? then sent.value
    else if latest.Some? then latest.value.height
    else 0.0
  }

  /** `user_<id>_<now>.<ext>`, the avatar's file name. */
  function AvatarName(userId: int, now: nat, fileName: string): (name: string)
    ensures "user_" <= name
    ensures Extension(name) == Extension(fileName)
  {
    ExtensionOf("user_" + ShowInt(userId) + "_" + ShowNat(now), Extension(fileName));
    "user_" + ShowInt(userId) + "_" + ShowNat(now) + "." + Extension(fileName)
  }

  /** Replaces the user at `k` by one with the same id and email. */
  method UpdateUser(users: UserTable, k: nat, user: User)
    requires users.Valid() && k < |users.rows|
    requires user.id == users.rows[k].id && user.email == users.rows[k].email
    modifies users
    ensures users.Valid()
    ensures users.rows == old(users.rows)[k := user]
  {
    users.rows := users.rows[k := user];
    assert forall i :: 0 <= i < |users.rows| ==> users.rows[i].email == old(users.rows)[i].email;
  }

  /** POST with a multipart body, `now` standing for `Date.now()`. 400
      without an email, 404 for an unknown email, 400 without a file;
      otherwise the file is written as `user_<id>_<now>.<ext>` and the user's
      avatar URL points at it. No token is asked for. */
  method PostAvatar(users: UserTable, folder: ImageFolder, form: AvatarForm, now: nat)
    returns (reply: Reply<Saved>)
    requires users.Valid()
    modifies users, folder
    ensures users.Valid()
    ensures form.email == "" ==> reply == Fail(BadRequest)
    ensures form.email != "" && FindByEmail(old(users.rows), form.email).None? ==> reply == Fail(NotFound)
    ensures form.email != "" && FindByEmail(old(users.rows), form.email).Some? && form.avatar.None?
        ==> reply == Fail(BadRequest)
    ensures reply.Fail? ==> users.rows == old(users.rows) && folder.written == old(folder.written)
    ensures form.email != "" && FindByEmail(old(users.rows), form.email).Some? && form.avatar.Some? ==>
      var k := FindByEmail(old(users.rows), form.email).value;
      var name := AvatarName(old(users.rows)[k].id, now, form.avatar.value);
      && reply == Ok(AvatarSet("/images/user/" + name))
      && folder.written == old(folder.written) + [name]
      && users.rows == old(users.rows)[k := old(users.rows)[k].(avatarUrl := Some("/images/user/" + name))]
  {
    if form.email == "" {
      return Fail(BadRequest);
    }
    var found := FindByEmail(users.rows, form.email);
    if found.None? {
      return Fail(NotFound);
    }
    if form.avatar.None? {
      return Fail(BadRequest);
    }
    var user := users.rows[found.value];
    var name := AvatarName(user.id, now, form.avatar.value);
    folder.written := folder.written + [name];
    var url := "/images/user/" + name;
    UpdateUser(users, found.value, user.(avatarUrl := Some(url)));
    reply := Ok(AvatarSet(url));
  }

  /** The genders the JSON POST stores: exactly "M" and "F". */
  predicate AcceptedGender(gender: JsonField) {
    gender == Str("M") || gender == Str("F")
  }

  /** POST with a JSON body, `now` and `today` standing for the clock. After
      400 without an email and 404 for an unknown one, exactly one branch
      runs, in this order: a truthy gender sets the gender ("M" or "F",
      otherwise 400); else a truthy `updateBirthDate` sets the birth date
      (400 unless the date passes the check) and answers the newest record
      with the new age; else a falsy weight is 400 and any other weight
      appends a record. No token is asked for. */
  method PostJson(users: UserTable, records: RecordTable, body: JsonBody, now: int, today: Date)
    returns (reply: Reply<Saved>)
    requires users.Valid() && records.Valid()
    modifies users, records
    ensures users.Valid() && records.Valid()
    ensures body.email == "" ==> reply == Fail(BadRequest)
    ensures body.email != "" && FindByEmail(old(users.rows), body.email).None? ==> reply == Fail(NotFound)
    ensures reply.Fail? ==> users.rows == old(users.rows) && records.rows == old(records.rows)
    ensures body.email != "" && FindByEmail(old(users.rows), body.email).Some? ==>
      var k := FindByEmail(old(users.rows), body.email).value;
      var user := old(users.rows)[k];
      if !Falsy(body.gender) then
        if AcceptedGender(body.gender) then
          && reply == Ok(GenderSet(body.gender.s))
          && users.rows == old(users.rows)[k := user.(gender := Some(body.gender.s))]
          && records.rows == old(records.rows)
        else reply == Fail(BadRequest)
      else if body.updateBirthDate then
        if body.birthDate.Str? && ParseBirthDate(body.birthDate.s).Some? then
          var date := ParseBirthDate(body.birthDate.s).value;
          && reply == Ok(BirthDateSet(Latest(old(records.rows), user.id), CalculateAge(date, today)))
          && users.rows == old(users.rows)[k := user.(birthDate := Some(date))]
          && records.rows == old(records.rows)
        else reply == Fail(BadRequest)
      else if body.weight in {None, Some(0.0)} then
        reply == Fail(BadRequest)
      else
        var record := Record(old(records.nextId), user.id, body.weight.value,
                             NewHeight(body.height, Latest(old(records.rows), user.id)), body.notes, now);
        && reply == Ok(RecordAdded(record, AgeOf(user, today)))
        && records.rows == old(records.rows) + [record]
        && users.rows == old(users.rows)
  {
    if body.email == "" {
      return Fail(BadRequest);
    }
    var found := FindByEmail(users.rows, body.email);
    if found.None? {
      return Fail(NotFound);
    }
    var k := found.value;
    var user := users.rows[k];
    if !Falsy(body.gender) {
      if !AcceptedGender(body.gender) {
        return Fail(BadRequest);
      }
      UpdateUser(users, k, user.(gender := Some(body.gender.s)));
      return Ok(GenderSet(body.gender.s));
    }
    if body.updateBirthDate {
      if !body.birthDate.Str? || body.birthDate.s == "" {
        return Fail(BadRequest);
      }
      var date := ParseBirthDate(body.birthDate.s);
      if date.None? {
        return Fail(BadRequest);
      }
      UpdateUser(users, k, user.(birthDate := date));
      return Ok(BirthDateSet(Latest(records.rows, user.id), CalculateAge(date.value, today)));
    }
    if body.weight == None || body.weight == Some(0.0) {
      return Fail(BadRequest);
    }
    var latest := Latest(records.rows, user.id);
    var record := Record(records.nextId, user.id, body.weight.value, NewHeight(body.height, latest), body.notes, now);
    records.rows := records.rows + [record];
    records.nextId := records.nextId + 1;
    reply := Ok(RecordAdded(record, AgeOf(user, today)));
  }
}
