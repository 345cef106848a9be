# Gym routines and catalog: a verified model

This project models the rule-carrying core of a Next.js gym application.

- **Routines.** Users build a routine from machines and store it. Only the owner lists, renames or deletes it.
- **Body metrics.** Users keep a history of weight and height records, set a birth date and a gender, and see their age.
- **Catalog.** Administrators add machines with a machine type and the muscles they work. Anyone may add muscles; only administrators add types.
- **Accounts.** Registration and login.

The model keeps each piece in the form the application gives it:

- **Stores.** Database tables become classes holding `rows: seq<...>` and the next id, with a `Valid()` invariant. Each HTTP handler is a method that `modifies` exactly the tables it touches and answers `Ok(value)` or `Fail(status)`.
- **Client state.** The editors' component state is a class whose methods change only the fields the component changes.
- **Pure code.** Checks, formatting and parsing become functions, with lemmas relating them.

The application relies on several JavaScript built-ins, and these are written out:

- `String.prototype.trim` and its definition of white space;
- `toLowerCase` and the NFD decomposition, over Latin-1;
- `split`, `padStart`, `Number` and `parseInt` on decimal text;
- `new Date(y, m - 1, d)` with its overflow carry and its 0..99 ⇒ 19xx rule, plus the age arithmetic built on top.

Modules:

- `Base`: shared vocabulary. Option, reply and status codes, the caller's credential, the admin guard, JSON fields and falsiness, and the list filter.
- `Text`: the string built-ins.
- `Calendar`: dates and age.
- `Ordering`: the sort standing for `orderBy`.
- `Users`: register and login.
- `MachineApi`, `MachineTypeApi`, `MuscleApi`: the catalog endpoints.
- `RoutineApi`: the routine endpoint.
- `RoutineDraft`: the routine editor.
- `UserDataApi`: the body-metric endpoint.
- `ProfilePage`: the profile page.
- `AddMachineForm`: the machine form.

## Model

| member | source | states |
|---|---|---|
| Base.AdminGuard | src/app/api/machinetype/route.ts:15-28 | No token or a bad token gives 401. A verified non-admin gives 403. The handler may go on exactly when the caller is a verified admin. |
| Base.Keep | src/app/api/machine/route.ts:53 | `filter` keeps exactly the elements that satisfy the test, without reordering them. |
| Text.IsSpace | src/app/api/muscle/route.ts:18 | JavaScript white space as `trim` and `\s` see it. Its exact set is stated by `Text.IsSpaceExactly`. |
| Text.IsSpaceExactly | src/app/api/muscle/route.ts:18 | `IsSpace` holds of exactly the listed ECMAScript white space: tab, line tabulation, form feed, space, no-break space, the byte-order mark, the Unicode space separators and the four line terminators. |
| Text.Utf16Length | src/app/api/muscle/route.ts:18 | `length` counts UTF-16 code units: it is between the number of characters and twice that, and equals it when no character lies above U+FFFF. |
| Text.AstralLength | src/app/api/machinetype/route.ts:31 | A character above U+FFFF has length 2. |
| Text.Trim | src/app/api/muscle/route.ts:18 | The result neither starts nor ends with JavaScript white space. It is empty exactly when the input is all white space. An input with no white space at either end is returned unchanged. |
| Text.TrimIsSlice | src/app/api/muscle/route.ts:25 | The trimmed string is the contiguous piece of the input that starts after the leading white space. |
| Text.TrimDropsTrailingSpace | src/app/api/muscle/route.ts:25 | Everything after the trimmed piece is white space, so trimming removes only white space. |
| Text.TrimEndThenSpace | src/app/dashboard/perfil/page.tsx:26 | A string is its right-trimmed part followed by a suffix that is empty or starts with white space. |
| Text.ToLower | src/app/dashboard/components/RoutineManager.tsx:55 | Lowercasing keeps the length and maps every character through the Latin-1 lowercase mapping. |
| Text.LowerChar | src/app/dashboard/components/RoutineManager.tsx:55 | No ASCII capital survives lowercasing, and a character either stays or moves down by the case offset 32. |
| Text.LowerKeepsSpace | src/app/dashboard/components/AddMachineForm.tsx:13 | Lowercasing neither creates nor destroys white space or plain spaces. |
| Text.EqualsIgnoringCase | src/app/dashboard/components/AddMachineForm.tsx:271 | Two names are equal ignoring case exactly when they have the same length and lowercase alike character by character. Equal names are always equal ignoring case. |
| Text.Contains | src/app/dashboard/components/RoutineManager.tsx:55 | `includes`, defined by scanning. Its meaning is stated by `Text.ContainsExactly`. |
| Text.ContainsExactly | src/app/dashboard/components/RoutineManager.tsx:55 | `s.includes(sub)` holds exactly when `sub` occurs in `s` at some position. |
| Text.Split | src/app/dashboard/perfil/page.tsx:8 | `split` yields at least one piece. No piece contains the separator. Joining the pieces with it rebuilds the input. |
| Text.SplitJoin | src/app/dashboard/perfil/page.tsx:8 | Splitting a join of separator-free pieces gives those pieces back. This is the inverse of `Text.Split`. |
| Text.SplitThree | src/app/api/userdata/route.ts:112 | Three separator-free pieces joined by `-` split back into exactly those three pieces. |
| Text.Extension | src/app/api/machine/route.ts:61 | `name.split('.').pop()` contains no dot. A name without a dot is its own extension. |
| Text.ShowNat | src/app/dashboard/perfil/page.tsx:50 | `String(n)` is a non-empty digit string with no leading zero whose decimal value is `n`. |
| Text.ShowInt | src/app/dashboard/components/AddMachineForm.tsx:326 | `String(id)` of a non-negative id is a digit string worth the id. A negative id gives `-` followed by the digits of its magnitude. |
| Text.PadTwo | src/app/dashboard/perfil/page.tsx:50 | `padStart(2, "0")` leaves strings of length two or more alone. A shorter string gets zeros on the left up to length two. |
| Text.JsNumber | src/app/api/userdata/route.ts:112 | `Number` of a digit string is its decimal value. `Number` of an all-white-space string is 0. |
| Text.LexLe | src/app/api/machinetype/route.ts:10 | Code-point lexicographic order on names. A prefix sorts first. |
| Text.LexAntisymmetric | src/app/api/machinetype/route.ts:10 | Two names that each sort no later than the other are equal, so the name order is antisymmetric. |
| Text.LexTotal | src/app/api/machinetype/route.ts:10 | The name order is total, so a sort by name is well defined. |
| Ordering.SortBy | src/app/api/machinetype/route.ts:10 | The sorted list is a permutation of the input and is sorted by the given total order. |
| Calendar.DaysInMonth | src/app/api/userdata/route.ts:116 | A month has 28 to 31 days. |
| Calendar.CarryDays | src/app/api/userdata/route.ts:116 | Day overflow carries into following months and lands on a real calendar date. An in-range day is kept as given. |
| Calendar.NewDate | src/app/api/userdata/route.ts:116 | `new Date(y, m - 1, d)` yields a real calendar date inside the representable range, or an invalid date. Its year is at least the constructor's year, where 0..99 reads as 1900..1999. |
| Calendar.RoundTrips | src/app/api/userdata/route.ts:116-122 | Reading back the built date gives the same year, month and day exactly when the triple is a real calendar date in range whose year is outside 0..99. February 30 is rejected. |
| Calendar.CalculateAge | src/app/api/userdata/route.ts:14-22 | The age is the number of birthdays passed. Today is on or after the `age`-th anniversary and before the next. |
| Calendar.AgeIsUnique | src/app/api/userdata/route.ts:14-22 | Only one number has that property, so the age is fully determined by the birth date and today. |
| Calendar.AgeMonotone | src/app/api/userdata/route.ts:16-20 | For a fixed birth date the age never decreases as today advances. |
| Calendar.AgeWithinYear | src/app/api/userdata/route.ts:16-20 | Within a calendar year the age is `year - birthYear - 1` before the birthday and `year - birthYear` from it on. |
| Users.Hash | src/app/api/register/route.ts:25 | The stored hash has cost 10 and matches the password it was computed from. |
| Users.BcryptKey | src/app/api/register/route.ts:25 | What bcrypt hashes is at most 72 bytes and a prefix of the password's UTF-8 encoding. It is the whole encoding when that fits in 72 bytes. |
| Users.Matches | src/app/api/login/route.ts:25 | `bcrypt.compare` compares the first 72 UTF-8 bytes. The hashed password itself always matches. Two ASCII passwords of at most 72 characters match exactly when they are equal. |
| Users.LongPasswordsShareKey | src/app/api/login/route.ts:25 | A password of 73 `a`s is matched by 72 `a`s followed by `b`. |
| Users.FindByEmail | src/app/api/register/route.ts:16 | The lookup finds a user with exactly this email, or reports that none has it. |
| Users.Register | src/app/api/register/route.ts:8-36 | An empty name, email or password gives 400. A taken email gives 409, and exactly then. Otherwise one user is appended with the hashed password, and the answer is only id, name and email. The table changes only on success, and emails stay distinct. |
| Users.Login | src/app/api/login/route.ts:9-35 | 400 exactly when the email or password is empty. Then 404 exactly when no user has the email. Then 401 exactly when the password does not match. Success carries no token. |
| Users.LoginAfterRegister | src/app/api/register/route.ts:25-34 | After a successful registration, logging in with that email succeeds exactly when the attempt agrees with the password on its first 72 UTF-8 bytes, and gives 401 otherwise. For ASCII passwords of at most 72 characters, only the registered one succeeds. |
| MachineApi.ToNumber | src/app/api/machine/route.ts:53 | `Number` of a numeric field is its value. A file field is NaN. |
| MachineApi.MuscleIds | src/app/api/machine/route.ts:50-54 | The muscle ids are the numeric submitted values, in submission order, with NaN entries dropped. |
| MachineApi.Get | src/app/api/machine/route.ts:9-24 | With `all=1` every machine comes back, in table order, as `{id, name, imageUrl}`. Any other query gets an empty list. |
| MachineApi.PostForm | src/app/api/machine/route.ts:26-95 | The admin guard runs first. Then 400 for an empty name, a 0 or NaN type id, or no numeric muscle id. The image is written before the duplicate check, so a 409 still leaves the file. 409 exactly when a machine has the name ignoring case. Otherwise one machine is appended, with a null description when empty and the image URL when a file came. Case-insensitively distinct names stay distinct. |
| MachineApi.JsonMuscleIds | src/app/api/machine/route.ts:100 | A `muscles` field that is not an array gives no ids. For an array, the ids are its numeric entries converted by `Number`, one per entry and in order, with NaN entries dropped. |
| MachineApi.PostJson | src/app/api/machine/route.ts:98-127 | Same guard order and 400 rule as the form path, with no file written. 409 exactly when the name is taken ignoring case. Empty `imageUrl` and `description` are stored as null. Distinct names stay distinct. |
| MachineApi.SetOf | src/app/api/machine/route.ts:88 | The connected muscles are exactly the submitted ids. |
| MachineApi.ImageName | src/app/api/machine/route.ts:61-62 | The image is written under a name that starts with `machine_` and keeps the upload's extension. |
| MachineApi.Insert | src/app/api/machine/route.ts:80-91 | An untaken name becomes one new row with the next id. Case-insensitively distinct names stay distinct. |
| MachineTypeApi.ByNameTotal | src/app/api/machinetype/route.ts:10 | Ordering types by name is total. |
| MachineTypeApi.Get | src/app/api/machinetype/route.ts:8-12 | Every type is returned, none added or lost, sorted by name ascending. |
| MachineTypeApi.Post | src/app/api/machinetype/route.ts:14-41 | The admin guard runs first. 400 for a falsy name or one whose trimmed `length` is below 2 UTF-16 code units. 409 exactly when a type has this exact, case-sensitive, untrimmed name. Otherwise the name is stored as sent, and exactly then. Stored names stay pairwise different. |
| MuscleApi.ByNameTotal | src/app/api/muscle/route.ts:8 | Ordering muscles by name is total. |
| MuscleApi.Get | src/app/api/muscle/route.ts:6-13 | Every muscle is returned, sorted by name ascending. |
| MuscleApi.TrimIdempotent | src/app/api/muscle/route.ts:25 | Trimming a trimmed name changes nothing, so stored names are trimmed. |
| MuscleApi.AppendWellNamed | src/app/api/muscle/route.ts:21-25 | Storing the trimmed form of an accepted name keeps every name trimmed, at least two code units long and distinct ignoring case. |
| MuscleApi.Post | src/app/api/muscle/route.ts:15-30 | There is no authentication. 400 for a falsy name or one whose trimmed `length` is below 2 UTF-16 code units, and 500 for a non-string name. 409 exactly when a stored name equals the trimmed name ignoring case. Otherwise the trimmed name is appended, and the table stays well named. |
| MuscleApi.AstralNameAccepted | src/app/api/muscle/route.ts:18 | A one-emoji name such as U+1F4AA already has `length` 2 and is accepted. |
| RoutineApi.BuildSets | src/app/api/routine/route.ts:33-39 | The j-th submitted set is stored as set number j + 1 with its repetitions and weight. No set is added or dropped. |
| RoutineApi.BuildExercises | src/app/api/routine/route.ts:26-41 | The build succeeds exactly when every exercise has a `routineSets` array. Then the i-th exercise gets `order` i + 1, an empty note becomes null, and its sets are built as above. |
| RoutineApi.ClientOrderIgnored | src/app/api/routine/route.ts:27-31 | Two submissions that differ only in the client's `order` build the same exercises. |
| RoutineApi.OwnedBy | src/app/api/routine/route.ts:59-60 | `where: { userId }` keeps exactly the caller's routines, in table order. |
| RoutineApi.FindOwned | src/app/api/routine/route.ts:83 | Finds a row matching both `id` and the caller's `userId`, or reports that none matches. |
| RoutineApi.Renamed | src/app/api/routine/route.ts:82-85 | The update keeps the id, the owner and the exercises. It sets the name, and replaces the description only when one was sent. |
| RoutineApi.Post | src/app/api/routine/route.ts:9-49 | 401 without a verified token. 400 for an empty name or a missing or empty exercise array. 500 with nothing stored when an exercise lacks `routineSets`. Otherwise exactly one routine owned by the caller is appended. |
| RoutineApi.Get | src/app/api/routine/route.ts:52-69 | 401 without a verified token. Otherwise exactly the caller's routines. |
| RoutineApi.Put | src/app/api/routine/route.ts:72-90 | 401 without a verified token. 400 without `id` or `name`. 500 and nothing changed unless the caller owns a routine with this id. Otherwise only that routine's name and description change. |
| RoutineApi.Delete | src/app/api/routine/route.ts:93-108 | 401 without a verified token. 400 without `id`. 500 and nothing removed unless the caller owns it. Otherwise exactly that row is removed. |
| RoutineApi.CreateShowsOnlyToOwner | src/app/api/routine/route.ts:25 | A created routine appears at the end of its owner's list and in no other user's list. |
| RoutineApi.RenameInvisibleToOthers | src/app/api/routine/route.ts:82-85 | A rename leaves every other user's list unchanged. |
| RoutineApi.DeleteInvisibleToOthers | src/app/api/routine/route.ts:103 | A delete leaves every other user's list unchanged. |
| RoutineApi.OwnedMatchIsUnique | src/app/api/routine/route.ts:83 | Ids are unique, so the matched routine is the only row with that id. |
| RoutineDraft.FilterMachines | src/app/dashboard/components/RoutineManager.tsx:55 | Exactly the machines whose lowercased name contains the lowercased search, in original order. |
| RoutineDraft.EmptySearchKeepsAll | src/app/dashboard/components/RoutineManager.tsx:55 | An empty search lists every machine. |
| RoutineDraft.AddCheck | src/app/dashboard/components/RoutineManager.tsx:167-175 | Refused with "select a machine" exactly when there is no draft or its machine id is 0. Refused as a duplicate exactly when the id is already listed. Accepting keeps machine ids distinct. |
| RoutineDraft.RemoveAt | src/app/dashboard/components/RoutineManager.tsx:182 | Exactly the element at `idx` goes and the rest keep their order. An out-of-range index changes nothing. |
| RoutineDraft.RemoveKeepsDistinct | src/app/dashboard/components/RoutineManager.tsx:181-183 | Removing keeps machine ids distinct. |
| RoutineDraft.Moved | src/app/dashboard/components/RoutineManager.tsx:184-193 | A move yields a permutation of the same length. "up" from idx > 0 swaps the entries at idx - 1 and idx. "down" from below the last place swaps idx and idx + 1. Every other entry stays put, and at either end the list is unchanged. |
| RoutineDraft.UpThenDownRestores | src/app/dashboard/components/RoutineManager.tsx:186-191 | Moving an element up from idx > 0, then down from its new place, restores the list. |
| RoutineDraft.DownThenUpRestores | src/app/dashboard/components/RoutineManager.tsx:186-191 | Moving down from below the last place, then up from the new place, restores the list. |
| RoutineDraft.MoveKeepsDistinct | src/app/dashboard/components/RoutineManager.tsx:184-193 | Moving keeps machine ids distinct. |
| RoutineDraft.FindIndex | src/app/dashboard/components/RoutineManager.tsx:152-153 | `findIndex` gives the first position with the machine id, or -1 when none. |
| RoutineDraft.DragEnd | src/app/dashboard/components/RoutineManager.tsx:149-159 | Dropping on itself does nothing. Dropping on nothing fails on `over.id`. Otherwise the move goes between the `findIndex` positions of the two ids. |
| RoutineDraft.DragFindsPositions | src/app/dashboard/components/RoutineManager.tsx:151-153 | With distinct ids, dragging entry i onto entry j moves from i to j. |
| RoutineDraft.Payload | src/app/dashboard/components/RoutineManager.tsx:81-91 | The payload has one entry per draft entry, with `order` i + 1 and the draft's machine id, and no `routineSets`. |
| RoutineDraft.EditorCreateAlwaysFails | src/app/dashboard/components/RoutineManager.tsx:84-90 | For any non-empty draft the server's tree build fails on that payload (see Findings). |
| RoutineDraft.FixedPayload | src/app/dashboard/components/RoutineManager.tsx:84-90 | The corrected payload is the same as the original plus an empty `routineSets`. |
| RoutineDraft.FixedPayloadBuilds | src/app/dashboard/components/RoutineManager.tsx:84-90 | The corrected payload always builds. There is one stored exercise per draft entry, in list order, numbered from 1, with the draft's machine, sets, rest time and notes. |
| RoutineDraft.Editor.OpenExerciseDialog | src/app/dashboard/components/RoutineManager.tsx:162-166 | The draft starts on the first machine (machine id 0 when none is loaded), with 60 s of rest and 3 sets. |
| RoutineDraft.Editor.AddExercise | src/app/dashboard/components/RoutineManager.tsx:167-180 | A refusal changes nothing. An accepted draft is appended at the end and cleared. Machine ids stay distinct. |
| RoutineDraft.Editor.RemoveExercise | src/app/dashboard/components/RoutineManager.tsx:181-183 | The list becomes `RemoveAt` of the old list, and ids stay distinct. |
| RoutineDraft.Editor.MoveExercise | src/app/dashboard/components/RoutineManager.tsx:184-193 | The list becomes `Moved` of the old list, and ids stay distinct. |
| RoutineDraft.Editor.CreateBody | src/app/dashboard/components/RoutineManager.tsx:81-91 | The corrected request carries the name, the description and the corrected payload. |
| RoutineDraft.Submit | src/app/dashboard/components/RoutineManager.tsx:73-92 | With the correction, a verified caller with a name and at least one exercise creates a routine they own, with the next id, the editor's name and description. It holds one exercise per entry, in order, numbered from 1, with the entry's machine, sets, rest time and notes and no sets rows. 401 without a verified token, 400 without a name or an exercise. The routine is appended to the table on success, and the table is unchanged otherwise. |
| RoutineDraft.SubmitAsWritten | src/app/dashboard/components/RoutineManager.tsx:73-92 | As written, that same submission gets 500 and nothing is stored. |
| UserDataApi.NewestFirstTotal | src/app/api/userdata/route.ts:38 | Ordering by date descending is total. |
| UserDataApi.History | src/app/api/userdata/route.ts:36-39 | The user's history holds exactly that user's records, newest first. |
| UserDataApi.SortWithNewest | src/app/api/userdata/route.ts:38 | Sorting with a record newer than all others puts it first, with the rest sorted after it. |
| UserDataApi.NewestRecordFirst | src/app/api/userdata/route.ts:38 | A record newer than its owner's others heads the owner's history, and the old history follows it. |
| UserDataApi.HeadIsNewest | src/app/api/userdata/route.ts:38 | The head of a newest-first list is at least as new as every element. |
| UserDataApi.Latest | src/app/api/userdata/route.ts:148-151 | The latest record is absent exactly when the user has none. Otherwise it is one of the user's records, no older than any other. |
| UserDataApi.AgeOf | src/app/api/userdata/route.ts:43-50 | The age is null exactly when there is no birth date. Otherwise it is `CalculateAge`. |
| UserDataApi.Get | src/app/api/userdata/route.ts:26-57 | 401 without a verified token, and 404 for an unknown email. Otherwise the user's history, newest first, with every row carrying the same age. |
| UserDataApi.NoMinusNotNegative | src/app/api/userdata/route.ts:112 | A `-`-separated part holds no minus sign, so its `Number` is never negative. |
| UserDataApi.PartNumber | src/app/api/userdata/route.ts:112 | A part is read with `Number`. A missing part is undefined and counts as falsy. |
| UserDataApi.ParseBirthDate | src/app/api/userdata/route.ts:107-124 | An accepted birth date has three non-zero numeric parts that form a real calendar date in range, with a year outside 0..99. |
| UserDataApi.CheckDate | src/app/api/userdata/route.ts:116-122 | The round trip accepts exactly the real in-range dates whose year is outside 0..99, and returns that date. |
| UserDataApi.ParseBirthDateIff | src/app/api/userdata/route.ts:112-124 | Parts that read as y, m and d are accepted exactly when they pass the calendar round trip. |
| UserDataApi.NewHeight | src/app/api/userdata/route.ts:156 | The new height is the one sent when it is a number, else the latest record's height, else 0. |
| UserDataApi.PostAvatar | src/app/api/userdata/route.ts:63-86 | Checks run in order: empty email gives 400, unknown user 404, no file 400. Then the file `user_<id>_<now>.<ext>` is written and only that user's `avatarUrl` changes. A failure changes nothing. |
| UserDataApi.AvatarName | src/app/api/userdata/route.ts:79-80 | The avatar is written under a name that starts with `user_` and keeps the upload's extension. |
| UserDataApi.UpdateUser | src/app/api/userdata/route.ts:84 | `prisma.user.update` by id replaces exactly that user's row, keeping its id and email, so ids stay below the next id and emails stay distinct. |
| UserDataApi.PostJson | src/app/api/userdata/route.ts:88-166 | Gender goes before birth date, which goes before a new record. A truthy gender other than "M" or "F" gives 400. A bad birth date gives 400, and a valid one is stored and answered with the latest record and the new age. A falsy weight gives 400. Otherwise one record is appended with the carried-forward height. Failures change nothing. |
| ProfilePage.DigitPrefix | src/app/dashboard/perfil/page.tsx:26 | The digits `parseInt` reads are the longest all-digit prefix. |
| ProfilePage.ParseInt | src/app/dashboard/perfil/page.tsx:26-28 | A string starting with a digit reads as the value of its leading digit run. An empty string, or one starting with a character that is not white space, a digit or a sign, is NaN. |
| ProfilePage.DigitPrefixOf | src/app/dashboard/perfil/page.tsx:26 | Digits followed by a non-digit are read up to the non-digit. |
| ProfilePage.ParseIntDigits | src/app/dashboard/perfil/page.tsx:26-28 | `parseInt` of digits followed by junk is the value of the digits. |
| ProfilePage.CheckBirthDate | src/app/dashboard/perfil/page.tsx:19-43 | Refused exactly when a field is empty. Then refused exactly when the day is outside 1..31, the month outside 1..12 or the year outside 1900 up to this year. Then refused exactly when the triple is not a real date. An accepted triple is that date. |
| ProfilePage.FormatBirthDate | src/app/dashboard/perfil/page.tsx:50 | The formatted date splits on `-` into exactly three non-empty digit pieces: the year, the padded month and the padded day. Their values are the year, month and day. |
| ProfilePage.PadTwoDigits | src/app/dashboard/perfil/page.tsx:50 | A padded `String(n)` is a non-empty digit string whose value is n. |
| ProfilePage.PiecesShape | src/app/dashboard/perfil/page.tsx:50 | The three pieces of the formatted date are digit strings holding the year, month and day. |
| ProfilePage.ServerAcceptsFormatted | src/app/dashboard/perfil/page.tsx:49-56 | The server's birth-date parse reads the formatted date back as the same date. |
| ProfilePage.ServerAcceptsDialogDate | src/app/dashboard/perfil/page.tsx:34-56 | Every date the dialog accepts is accepted by the server unchanged. |
| ProfilePage.SplitStored | src/app/dashboard/perfil/page.tsx:8 | Splitting a stored `year-MM-DDT00:00:00.000Z` on `-` gives the year, the month and the day with the time attached. |
| ProfilePage.StoredFields | src/app/dashboard/perfil/page.tsx:7-12 | Reopening the dialog on a stored date fills in those pieces. |
| ProfilePage.InitialFields | src/app/dashboard/perfil/page.tsx:5-12 | No pre-filled field holds a `-`. Without a stored date all three are empty. When the stored text has exactly three `-`-pieces, joining year, month and day with `-` rebuilds it. |
| ProfilePage.StoredFieldsParse | src/app/dashboard/perfil/page.tsx:26-28 | `parseInt` reads those fields back as the day, month and year. |
| ProfilePage.ReopenAcceptsStoredDate | src/app/dashboard/perfil/page.tsx:6-12 | Reopening the dialog on a stored date from 1900 to this year and saving accepts that same date. |
| ProfilePage.DisplayBirthDate | src/app/dashboard/perfil/page.tsx:372-377 | Nothing is shown without a birth date. |
| ProfilePage.DisplayOfStored | src/app/dashboard/perfil/page.tsx:372-377 | A stored date is shown as `DD-MM-year`. |
| ProfilePage.StoredBirthDate | src/app/dashboard/perfil/page.tsx:372 | A stored date at midnight splits on `T` into the formatted date and the time, so `split('T')[0]` is the formatted date. |
| ProfilePage.GetGender | src/app/dashboard/perfil/page.tsx:350 | The gender shown is the stored one or "". It is non-empty exactly when `getGenderSaved` holds. |
| ProfilePage.GetGenderSaved | src/app/dashboard/perfil/page.tsx:351 | The page counts a gender as saved exactly when it is truthy and the JSON POST's gender check (`AcceptedGender`) takes it. |
| ProfilePage.StoredGenderCountsAsSaved | src/app/api/userdata/route.ts:100-104 | Every gender the JSON POST stores counts as saved when the page reloads. |
| ProfilePage.SaveDisabled | src/app/dashboard/perfil/page.tsx:219-221 | Disabled while loading or without a birth date. Disabled with no records and an empty, non-numeric or non-positive height. Enabled otherwise once records exist. |
| ProfilePage.HeightSent | src/app/dashboard/perfil/page.tsx:194 | A height is sent only when no record exists yet. |
| ProfilePage.ParseSignedDigits | src/app/dashboard/perfil/page.tsx:194 | `parseInt` of a digit run followed by a non-digit is the run's value. |
| ProfilePage.ParseSignedPlus | src/app/dashboard/perfil/page.tsx:194 | A leading `+` is skipped. |
| ProfilePage.PositiveNumberShape | src/app/dashboard/perfil/page.tsx:220 | Over the integer-only `Number` model, a positive `Number` is a trimmed digit string, or such a string after a `+`. |
| ProfilePage.ParseIntAgrees | src/app/dashboard/perfil/page.tsx:194 | Over the integer-only `Number` model, for a height the enabling rule accepts, `parseInt` gives the same value as `Number`. |
| ProfilePage.ParseIntTrimmedDigits | src/app/dashboard/perfil/page.tsx:194 | `parseInt` of a string whose trimmed form is digits is their value. |
| ProfilePage.ParseIntTrimmedPlus | src/app/dashboard/perfil/page.tsx:194 | The same holds with a leading `+`. |
| ProfilePage.ParseIntOf | src/app/dashboard/perfil/page.tsx:194 | `parseInt` skips leading white space. |
| ProfilePage.FirstRecordHeightPositive | src/app/dashboard/perfil/page.tsx:219-221 | Over the integer-only `Number` model, when the first record can be saved, the height sent is a positive number, so the server stores a positive height. |
| ProfilePage.ServerRows | src/app/dashboard/perfil/page.tsx:320-329 | The rows the page loads are the server's history, newest first, each with the user's age. |
| ProfilePage.PrependMatchesServer | src/app/dashboard/perfil/page.tsx:402-409 | Prepending the saved record to the loaded rows gives what the server would now answer. |
| ProfilePage.HistoryView.RecordSaved | src/app/dashboard/perfil/page.tsx:402-409 | The new record goes first and the earlier rows follow in order. |
| ProfilePage.HistoryView.BirthDateSaved | src/app/dashboard/perfil/page.tsx:382-387 | The first row is replaced by the server's answer. An empty list stays empty. |
| ProfilePage.HistoryView.CurrentAge | src/app/dashboard/perfil/page.tsx:379 | The current age is the first row's age, and an age of 0 shows as none. |
| AddMachineForm.UpperDecomposition | src/app/dashboard/components/AddMachineForm.tsx:9 | An accented Latin-1 capital decomposes into a base letter A..Z and a combining mark. |
| AddMachineForm.Decompose | src/app/dashboard/components/AddMachineForm.tsx:9 | NFD maps a character to itself, or to a base letter followed by one combining mark. |
| AddMachineForm.Nfd | src/app/dashboard/components/AddMachineForm.tsx:9 | NFD at most doubles the length and never shortens it. A string whose characters all decompose to themselves is unchanged. |
| AddMachineForm.StripMarks | src/app/dashboard/components/AddMachineForm.tsx:10 | The result holds no combining mark. |
| AddMachineForm.Normalize | src/app/dashboard/components/AddMachineForm.tsx:7-14 | A normalized name has no combining mark, no white space but single inner spaces, and no space at either end. |
| AddMachineForm.Collapse | src/app/dashboard/components/AddMachineForm.tsx:11 | No white space is left except single spaces, never two in a row. The result is empty only when the input is. |
| AddMachineForm.CollapseMarkFree | src/app/dashboard/components/AddMachineForm.tsx:10-11 | Collapsing white space adds no combining mark. |
| AddMachineForm.TrimClean | src/app/dashboard/components/AddMachineForm.tsx:12 | Trimming a collapsed, mark-free string gives one without spaces at either end. |
| AddMachineForm.LowerClean | src/app/dashboard/components/AddMachineForm.tsx:13 | Lowercasing keeps that shape. |
| AddMachineForm.NfdAppend | src/app/dashboard/components/AddMachineForm.tsx:9 | NFD works character by character. |
| AddMachineForm.NfdLower | src/app/dashboard/components/AddMachineForm.tsx:9 | NFD commutes with lowercasing. |
| AddMachineForm.StripMarksLower | src/app/dashboard/components/AddMachineForm.tsx:10 | Mark removal commutes with lowercasing. |
| AddMachineForm.CollapseLower | src/app/dashboard/components/AddMachineForm.tsx:11 | White-space collapsing commutes with lowercasing. |
| AddMachineForm.TrimLower | src/app/dashboard/components/AddMachineForm.tsx:12 | Trimming commutes with lowercasing. |
| AddMachineForm.ToLowerIdempotent | src/app/dashboard/components/AddMachineForm.tsx:13 | Lowercasing twice is lowercasing once. |
| AddMachineForm.NormalizeIgnoresCase | src/app/dashboard/components/AddMachineForm.tsx:7-14 | Normalizing a lowercased name gives the same as normalizing the name. |
| AddMachineForm.NormalizeIgnoresAccent | src/app/dashboard/components/AddMachineForm.tsx:9-10 | Replacing an accented letter by its base letter does not change the normalized name. |
| AddMachineForm.EqualIgnoringCaseNormalizesAlike | src/app/dashboard/components/AddMachineForm.tsx:7-14 | Names equal ignoring case normalize alike. |
| AddMachineForm.ServerDuplicateIsFlagged | src/app/dashboard/components/AddMachineForm.tsx:138 | Every name the server refuses as a case-insensitive duplicate is already flagged by the form. |
| AddMachineForm.Suggestions | src/app/dashboard/components/AddMachineForm.tsx:146-153 | The similar list holds exactly the machines whose normalized name contains the normalized input, in list order. An entry is flagged exactly when the normalized names are equal. |
| AddMachineForm.Similar | src/app/dashboard/components/AddMachineForm.tsx:142-147 | The list is shown only while the trimmed input is non-empty. |
| AddMachineForm.DuplicateIsListed | src/app/dashboard/components/AddMachineForm.tsx:150-153 | A machine that disables submit appears, flagged, in the similar list. |
| AddMachineForm.FlaggedIffDuplicate | src/app/dashboard/components/AddMachineForm.tsx:146-153 | For a non-empty trimmed input, a machine with the same normalized name exists exactly when the similar list shows a flagged entry. A case-insensitive match is such a machine. |
| AddMachineForm.Toggled | src/app/dashboard/components/AddMachineForm.tsx:329-331 | The toggled id is present exactly when it was absent. Every other id keeps its membership. |
| AddMachineForm.ToggledDistinct | src/app/dashboard/components/AddMachineForm.tsx:325-332 | Toggling never repeats an id. |
| AddMachineForm.ToggleTwiceAbsent | src/app/dashboard/components/AddMachineForm.tsx:329-331 | Toggling an absent id twice restores the list exactly. |
| AddMachineForm.ToggleTwicePresent | src/app/dashboard/components/AddMachineForm.tsx:329-331 | Toggling a present id twice restores the same set of ids, with that id moved to the end. |
| AddMachineForm.TypeDialogCheck | src/app/dashboard/components/AddMachineForm.tsx:263-274 | Refused exactly when the trimmed name's `length` (UTF-16 code units) is below 2. Then refused exactly when the trimmed description's is. Then refused when a listed type matches the trimmed name ignoring case. When every listed type name is already trimmed, what it sends the server also accepts. |
| AddMachineForm.MuscleDialogCheck | src/app/dashboard/components/AddMachineForm.tsx:392-399 | Refused exactly when the trimmed name's `length` (UTF-16 code units) is below 2. The request is sent exactly when the muscle endpoint accepts it. |
| AddMachineForm.FormState.ToggleMuscle | src/app/dashboard/components/AddMachineForm.tsx:325-332 | The selection becomes the toggled selection and never names a muscle twice. |
| AddMachineForm.FormState.AddType | src/app/dashboard/components/AddMachineForm.tsx:261-289 | The dialog check decides. A created type is appended to the list, and otherwise the list is unchanged. |
| AddMachineForm.FormState.AddMuscle | src/app/dashboard/components/AddMachineForm.tsx:390-416 | The dialog check decides. A created muscle is appended, and otherwise the list is unchanged. |
| AddMachineForm.FormState.SubmitDisabled | src/app/dashboard/components/AddMachineForm.tsx:441 | When not loading and the trimmed name is non-empty, the button is disabled exactly when the similar list shows a flagged entry. A name the server would refuse as a case-insensitive duplicate always disables it. |

## Left out

- **Tokens and cookies.** Cookie reading and JWT signing and verification are left out. The caller is a `Credential` parameter: no token, an invalid token, or a verified principal `{id, email, isAdmin}`.
- **bcrypt.** The hash is symbolic: it records the password, the cost and a salt passed in as a parameter. `compare` is modelled as bcrypt uses the password: only its first 72 UTF-8 bytes count.
- **Prisma.** Its storage constraints, cascades and foreign keys are not modelled. A `typeId` or muscle id naming no row would fail in the database with 500, and that is not modelled. Database failures are not modelled either.
- **Clock.** `Date.now()`, `new Date()` and the current year are parameters (`now`, `today`, `thisYear`).
- **File writes.** They are recorded in `ImageFolder.written`, and the file contents are left out.
- **Time zones.** Dates are (year, month, day) triples. A stored birth date is rendered as the formatted date followed by `T00:00:00.000Z`, assuming UTC midnight and years written with four digits.
- **Float weights.** They are JSON numbers passed through unchanged. `parseFloat` of the weight field is not modelled.
- **UI plumbing.** React rendering, messages and loading flags are left out, apart from the submit rule. Also left out: the confirmation dialog on the first birth date, the machine form's submit handler, the userinfo refresh in `handleBirthDateSave`, `getAvatarUrl`, and the read-only endpoints `me`, `userinfo`, `users` and `logout`.
- **Concurrency.** The check-then-insert races in the duplicate checks are not modelled.
- Text.ToLower: follows `toLowerCase` only on Latin-1. Other characters are left unchanged.
- AddMachineForm.Decompose: decomposes only accented Latin-1 letters. Other characters are treated as their own decomposition.
- Text.JsNumber: reads only optionally signed decimal integers surrounded by white space. Text with an exponent, a fraction, a hexadecimal prefix or `Infinity` is read as NaN, where JavaScript reads a number.
- ProfilePage.PositiveNumberShape: holds only for the integer-only `Number`. In JavaScript, `Number("1e2")` and `Number("0.5")` are positive too.
- ProfilePage.ParseIntAgrees: holds only for the integer-only `Number`. For the height "1e2", which a number input allows, the page's `Number` gives 100 and `parseInt` gives 1.
- ProfilePage.FirstRecordHeightPositive: holds only for the integer-only `Number`. For the height "0.5e1" the page enables saving and sends `parseInt` = 0, and the server stores a height of 0 because 0 is a number (src/app/api/userdata/route.ts:156).
- MachineApi.PostForm: a fractional `typeId` such as "1.5" is read as NaN, so the model answers 400. The source passes the 400 check and fails inside `prisma.machine.create` with 500.
- MachineApi.PostJson: a truthy JSON `name` that is not a string is not modelled. In the source it passes the 400 check, and the `findFirst` outside the try then throws, giving 500.
- RoutineApi.Put: the JSON `id` is an integer. An id such as "5" or 1.5 passes the `!id` check and makes Prisma fail inside the try with 500. That case is not modelled.
- RoutineApi.Delete: the same holds for its `id`.
- Ordering.SortBy: sorts names by code points (`Text.LexLe`). The database's `orderBy: { name }` follows its collation, which may order names differently.
- AddMachineForm.TypeDialogCheck: the server-acceptance clause needs every listed type name to be trimmed. The type endpoint stores names untrimmed and the dialog sends `newType` untrimmed (AddMachineForm.tsx:278). So after " ab" is stored, typing " ab" again passes the dialog's trimmed, case-insensitive check, and the server's exact match answers 409.
- Users.Register: a present field that is not a string is not modelled. Fields are strings, and an absent field is "".
- Users.Login: a present field that is not a string is not modelled. Passwords are sequences of Unicode scalar values, so a JavaScript string with an unpaired surrogate, which `Buffer` would encode as U+FFFD, is not modelled.
- Users.LoginAfterRegister: the same restriction to Unicode scalar values applies to the password and the attempt.
- MachineApi.Get: `findMany` without `orderBy` promises no order. The model fixes the table's insertion order.
- RoutineApi.OwnedBy: the same holds for the routine list, and so for RoutineApi.Get.
- MachineApi.PostJson: the JSON `typeId` is an integer, and a non-numeric `typeId` is not modelled.
- MachineApi.PostForm: an `image` field sent as text is treated as an absent file, as the source does.
- UserDataApi.Get: the age for a stored birth date that is not a valid date is not modelled, because stored dates are always valid dates here.
- UserDataApi.History: the order among records with equal dates is left to the sort.
- RoutineDraft.DragEnd: computes the `arrayMove` positions only. The move itself belongs to an external drag-and-drop library.
- ProfilePage.HistoryView.BirthDateSaved: updates only the first row's age, as the page does. Older rows keep their previous age until the page reloads.

## Findings

| source | as written | input that shows it | evidently intended | confidence | as-written member | corrected member |
|---|---|---|---|---|---|---|
| src/app/dashboard/components/RoutineManager.tsx:84-90 | The create payload's exercises carry no `routineSets`. The server maps over `ex.routineSets` (src/app/api/routine/route.ts:33-39) and turns the resulting TypeError into a 500 (46-48). | Any routine with a name and one exercise, e.g. machine 1 with 3 sets and 60 s of rest, created from the editor | Each exercise sends `routineSets` (at least an empty array), so the routine is stored | not executed | RoutineDraft.EditorCreateAlwaysFails | RoutineDraft.FixedPayloadBuilds |
