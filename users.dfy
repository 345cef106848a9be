/** The user store and its two public endpoints: registration (a
    uniqueness-checked insert with a hashed password) and login (a guarded
    lookup followed by a password comparison). */
module Users {
  import opened Base
  import opened Calendar

  /** A bcrypt hash, kept symbolic: the password it was computed from, the
      cost factor and the random salt. Only `Matches` looks inside it. */
  datatype PasswordHash = Bcrypt(password: string, cost: nat, salt: nat)

  /** `bcrypt.hash(password, 10)`, the salt being the library's random
      choice. */
  function Hash(password: string, salt: nat): (h: PasswordHash)
    ensures h.cost == 10
    ensures Matches(password, h)
  {
    Bcrypt(password, 10, salt)
  }

  /** The UTF-8 encoding of one character, as byte values. */
  function Utf8Char(c: char): (bytes: seq<int>)
    ensures 1 <= |bytes| <= 4
    ensures c as int < 0x80 <==> |bytes| == 1
    ensures |bytes| == 1 ==> bytes[0] == c as int
  {
    var n := c as int;
    if n < 0x80 then [n]
    else if n < 0x800 then [0xC0 + n / 64, 0x80 + n % 64]
    else if n < 0x10000 then [0xE0 + n / 4096, 0x80 + n / 64 % 64, 0x80 + n % 64]
    else [0xF0 + n / 262144, 0x80 + n / 4096 % 64, 0x80 + n / 64 % 64, 0x80 + n % 64]
  }

  /** The UTF-8 encoding of a string. */
  function Utf8(s: string): (bytes: seq<int>)
    ensures |s| <= |bytes| <= 4 * |s|
  {
    if s == [] then [] else Utf8Char(s[0]) + Utf8(s[1..])
  }

  /** An ASCII string encodes to its own character codes. */
  lemma {:induction false} Utf8Ascii(s: string)
    requires forall i :: 0 <= i < |s| ==> s[i] as int < 0x80
    ensures |Utf8(s)| == |s| && forall i :: 0 <= i < |s| ==> Utf8(s)[i] == s[i] as int
  {
    if s != [] {
      Utf8Ascii(s[1..]);
    }
  }

  /** What bcrypt hashes: the password's first 72 UTF-8 bytes. */
  function BcryptKey(password: string): (key: seq<int>)
    ensures |key| <= 72 && key <= Utf8(password)
    ensures |Utf8(password)| <= 72 ==> key == Utf8(password)
  {
    var bytes := Utf8(password);
    if |bytes| <= 72 then bytes else bytes[..72]
  }

  /** `bcrypt.compare(password, hash)`: the attempt matches when its first
      72 bytes are those of the hashed password. Two ASCII passwords of at
      most 72 characters match exactly when they are equal. */
  predicate Matches(password: string, hash: PasswordHash): (m: bool)
    ensures hash.password == password ==> m
    ensures Ascii72(password) && Ascii72(hash.password) ==> (m <==> password == hash.password)
  {
    AsciiKeys(password, hash.password);
    BcryptKey(hash.password) == BcryptKey(password)
  }

  /** Short ASCII passwords have equal keys only when they are equal. */
  lemma AsciiKeys(a: string, b: string)
    ensures Ascii72(a) && Ascii72(b) ==> (BcryptKey(a) == BcryptKey(b) <==> a == b)
  {
    if Ascii72(a) && Ascii72(b) && BcryptKey(a) == BcryptKey(b) {
      Utf8Ascii(a);
      Utf8Ascii(b);
      assert forall i :: 0 <= i < |a| ==> a[i] as int == BcryptKey(a)[i];
    }
  }

  /** An ASCII string of at most 72 characters. */
  predicate Ascii72(s: string) {
    |s| <= 72 && forall i :: 0 <= i < |s| ==> s[i] as int < 0x80
  }

  /** bcrypt ignores everything after byte 72: a password of 73 `a`s matches
      an attempt of 72 `a`s followed by `b`. */
  lemma LongPasswordsShareKey(salt: nat)
    ensures var stored, attempt := seq(73, _ => 'a'), seq(72, _ => 'a') + ['b'];
      stored != attempt && Matches(attempt, Hash(stored, salt))
  {
    var stored, attempt := seq(73, _ => 'a'), seq(72, _ => 'a') + ['b'];
    assert stored[72] != attempt[72];
    Utf8Ascii(stored);
    Utf8Ascii(attempt);
    assert BcryptKey(stored) == BcryptKey(attempt);
  }

  /** A user row. `birthDate`, `gender` and `avatarUrl` are set later by the
      profile endpoint. */
  datatype User = User(
    id: int, name: string, email: string, password: PasswordHash,
    birthDate: Option<Date>, gender: Option<string>, avatarUrl: Option<string>)

  /** What registration answers with: the new user without the password. */
  datatype UserView = UserView(id: int, name: string, email: string)

  /** The user table, in insertion order: ids below `nextId`, and no email
      used twice. */
  class UserTable {
    var rows: seq<User>
    var nextId: int

    ghost predicate Valid()
      reads this
    {
      && nextId >= 1
      && (forall i :: 0 <= i < |rows| ==> 1 <= rows[i].id < nextId)
      && EmailsDistinct(rows)
    }

    constructor ()
      ensures Valid() && rows == []
    {
      rows := [];
      nextId := 1;
    }
  }

  predicate EmailsDistinct(rows: seq<User>) {
    forall i, j :: 0 <= i < j < |rows| ==> rows[i].email != rows[j].email
  }

  /** `findUnique({ where: { email } })`: the position of the user with this
      email, if any. */
  function FindByEmail(rows: seq<User>, email: string): (i: Option<nat>)
    ensures i.Some? ==> i.value < |rows| && rows[i.value].email == email
    ensures i.None? <==> forall k :: 0 <= k < |rows| ==> rows[k].email != email
  {
    if rows == [] then None
    else if rows[0].email == email then Some(0)
    else
      var k := FindByEmail(rows[1..], email);
      if k.None? then None else Some(k.value + 1)
  }

  /** With distinct emails the lookup finds the only user with that email. */
  lemma FindByEmailExact(rows: seq<User>, k: nat)
    requires EmailsDistinct(rows) && k < |rows|
    ensures FindByEmail(rows, rows[k].email) == Some(k)
  {
  }

  /** POST /api/register with `{ name, email, password }`, absent fields read
      as "" and `salt` standing for bcrypt's random salt. 400 when any field
      is empty, 409 when the email is registered, otherwise one user is
      appended with the hash of the password, and only its id, name and email
      are answered. */
  method Register(table: UserTable, name: string, email: string, password: string, salt: nat)
    returns (reply: Reply<UserView>)
    requires table.Valid()
    modifies table
    ensures table.Valid()
    ensures name == "" || email == "" || password == "" ==> reply == Fail(BadRequest)
    ensures reply == Fail(Conflict) <==>
      name != "" && email != "" && password != "" && FindByEmail(old(table.rows), email).Some?
    ensures reply.Ok? <==>
      name != "" && email != "" && password != "" && FindByEmail(old(table.rows), email).None?
    ensures reply.Ok? ==>
      && reply.value == UserView(old(table.nextId), name, email)
      && table.rows == old(table.rows) + [User(old(table.nextId), name, email, Hash(password, salt), None, None, None)]
    ensures !reply.Ok? ==> table.rows == old(table.rows)
  {
    if name == "" || email == "" || password == "" {
      return Fail(BadRequest);
    }
    if FindByEmail(table.rows, email).Some? {
      return Fail(Conflict);
    }
    var user := User(table.nextId, name, email, Hash(password, salt), None, None, None);
    table.rows := table.rows + [user];
    table.nextId := table.nextId + 1;
    reply := Ok(UserView(user.id, user.name, user.email));
  }

  /** The body of a successful login: a message, no token. */
  datatype LoginBody = LoggedIn

  /** POST /api/login with `{ email, password }`, absent fields read as "".
      400 when either is empty, 404 for an unknown email, 401 when the
      password does not match the stored hash. Nothing is changed. */
  function Login(rows: seq<User>, email: string, password: string): (reply: Reply<LoginBody>)
    ensures reply == Fail(BadRequest) <==> email == "" || password == ""
    ensures reply == Fail(NotFound) <==>
      email != "" && password != "" && forall u <- rows :: u.email != email
    ensures reply == Fail(Unauthorized) <==>
      email != "" && password != "" && FindByEmail(rows, email).Some?
      && !Matches(password, rows[FindByEmail(rows, email).value].password)
    ensures reply.Ok? <==>
      email != "" && password != "" && FindByEmail(rows, email).Some?
      && Matches(password, rows[FindByEmail(rows, email).value].password)
  {
    if email == "" || password == "" then Fail(BadRequest)
    else
      var found := FindByEmail(rows, email);
      if found.None? then
        assert forall u <- rows :: u.email != email;
        Fail(NotFound)
      else if !Matches(password, rows[found.value].password) then
        assert rows[found.value] in rows;
        Fail(Unauthorized)
      else
        assert rows[found.value] in rows;
        Ok(LoggedIn)
  }

  /** Once a registration succeeds, logging in with the same email succeeds
      exactly when the attempt agrees with the registered password on its
      first 72 bytes, and is refused with 401 otherwise. For ASCII passwords
      of at most 72 characters that means exactly the registered one. */
  lemma LoginAfterRegister(rows: seq<User>, user: User, password: string, salt: nat, attempt: string)
    requires EmailsDistinct(rows) && FindByEmail(rows, user.email).None?
    requires user.email != "" && attempt != "" && user.password == Hash(password, salt)
    ensures BcryptKey(attempt) == BcryptKey(password) ==> Login(rows + [user], user.email, attempt) == Ok(LoggedIn)
    ensures BcryptKey(attempt) != BcryptKey(password) ==> Login(rows + [user], user.email, attempt) == Fail(Unauthorized)
    ensures Ascii72(attempt) && Ascii72(password) ==>
      (attempt == password <==> Login(rows + [user], user.email, attempt) == Ok(LoggedIn))
  {
    var all := rows + [user];
    assert EmailsDistinct(all);
    FindByEmailExact(all, |rows|);
  }
}
