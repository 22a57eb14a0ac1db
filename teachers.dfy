/** The teachers table and the five request handlers that read and change it
    (server/server/controllers/teachers.controller.ts). The SQL each handler
    sends is replaced by its meaning on an in-memory sequence of rows kept in
    insertion order; `createdAt` is a logical clock that ticks on every insert
    and update. */
module Teachers {
  import opened Common

  /** A teacher may teach at most this many subjects. */
  const MaxSubjects: nat := 5

  /** One row of the table, with the fields of the client's Teacher record. */
  datatype Teacher = Teacher(
    id: nat,
    firstName: string,
    lastName: string,
    profilePicture: Option<string>,
    email: string,
    phone: Option<string>,
    roomNumber: Option<string>,
    subjects: seq<string>,
    createdAt: nat,
    updatedAt: nat)

  /** The `subjects` member of a request body. */
  datatype SubjectsField =
    | Undefined                    // the member is absent
    | NotArray(truthy: bool)       // null, a string, a number, an object, ...
    | Items(items: seq<string>)    // a JSON array

  /** The JSON body of a create or update request. A string member is None
      when it is absent or null. */
  datatype TeacherBody = TeacherBody(
    firstName: Option<string>,
    lastName: Option<string>,
    profilePicture: Option<string>,
    email: Option<string>,
    phone: Option<string>,
    roomNumber: Option<string>,
    subjects: SubjectsField)

  datatype Failure =
    | MissingRequired     // 400: a name or the email is missing
    | SubjectsNotArray    // 400
    | TooManySubjects     // 400
    | DuplicateEmail      // 400: the unique index on email refused the write
    | NotFound            // 404

  datatype Result<T> = Ok(value: T) | Err(failure: Failure)

  datatype Outcome = Done | Failed(failure: Failure)

  datatype Operation = Create | Read | Update | Delete

  /** The HTTP status each failure is answered with. */
  function Status(f: Failure): (status: nat)
    ensures status == 404 <==> f == NotFound
    ensures status != 404 ==> status == 400
  {
    if f == NotFound then 404 else 400
  }

  /** The message each failure is answered with; two of them depend on the handler. */
  function Message(op: Operation, f: Failure): (m: string)
    ensures m != ""
    ensures f == NotFound ==> StartsWith(m, "Teacher not found")
  {
    match f
    case MissingRequired => "First name, last name, and email are required"
    case SubjectsNotArray => "Subjects must be an array"
    case TooManySubjects => "A teacher can teach no more than 5 subjects"
    case DuplicateEmail =>
      if op == Update then "Email already in use by another teacher" else "Email already exists"
    case NotFound =>
      if op == Update then "Teacher not found (or no changes made)" else "Teacher not found"
  }

  // ---------------------------------------------------------------------
  // The table invariant

  /** An optional column never holds the empty string: falsy values are stored as null. */
  predicate NotBlank(o: Option<string>) {
    o.Some? ==> o.value != ""
  }

  /** What every stored row satisfies. */
  predicate StoredRow(t: Teacher) {
    && t.id >= 1
    && t.firstName != "" && t.lastName != "" && t.email != ""
    && NotBlank(t.profilePicture) && NotBlank(t.phone) && NotBlank(t.roomNumber)
    && |t.subjects| <= MaxSubjects
    && t.createdAt <= t.updatedAt
  }

  /** Ids and emails are unique, ids come from the counter `nextId`, timestamps
      from the clock, and the sequence is in creation order. */
  ghost predicate TableInvariant(rows: seq<Teacher>, nextId: nat, clock: nat) {
    && nextId >= 1
    && (forall i :: 0 <= i < |rows| ==>
          StoredRow(rows[i]) && rows[i].id < nextId && rows[i].updatedAt < clock)
    && (forall i, j :: 0 <= i < j < |rows| ==>
          rows[i].id != rows[j].id && rows[i].email != rows[j].email &&
          rows[i].createdAt < rows[j].createdAt)
  }

  predicate HasId(rows: seq<Teacher>, id: nat) {
    exists i :: 0 <= i < |rows| && rows[i].id == id
  }

  predicate EmailInUse(rows: seq<Teacher>, email: string) {
    exists i :: 0 <= i < |rows| && rows[i].email == email
  }

  predicate EmailInUseByOther(rows: seq<Teacher>, email: string, id: nat) {
    exists i :: 0 <= i < |rows| && rows[i].email == email && rows[i].id != id
  }

  /** The position of the row with this id (`WHERE id = ?`). */
  function FindIndex(rows: seq<Teacher>, id: nat): (r: Option<nat>)
    ensures r.None? <==> !HasId(rows, id)
    ensures r.Some? ==> r.value < |rows| && rows[r.value].id == id
    ensures r.Some? ==> forall i :: 0 <= i < r.value ==> rows[i].id != id
  {
    if rows == [] then None
    else if rows[0].id == id then Some(0)
    else match FindIndex(rows[1..], id)
      case None => None
      case Some(k) => Some(k + 1)
  }

  // ---------------------------------------------------------------------
  // Listing (getTeachers)

  /** A query-string parameter: absent, one string, or something else (a
      repeated parameter arrives as an array). */
  datatype Query = NoParam | Text(text: string) | NotText

  /** One `AND ...` clause of the listing query. */
  datatype Condition =
    | LastNameLike(letter: char)      // lastName LIKE 'X%'
    | SubjectsContain(subject: string) // JSON_CONTAINS(subjects, '"s"')

  /** ASCII upper-casing, as `toUpperCase` and the case-insensitive collation do it on letters. */
  function Upper(c: char): (u: char)
    ensures 'a' <= c <= 'z' ==> 'A' <= u <= 'Z' && u as int == c as int - 32
    ensures !('a' <= c <= 'z') ==> u == c
    ensures Upper(u) == u
  {
    if 'a' <= c <= 'z' then (c as int - 32) as char else c
  }

  predicate Holds(c: Condition, t: Teacher) {
    match c
    case LastNameLike(letter) => |t.lastName| > 0 && Upper(t.lastName[0]) == Upper(letter)
    case SubjectsContain(s) => s in t.subjects
  }

  predicate HoldsAll(conds: seq<Condition>, t: Teacher) {
    forall i :: 0 <= i < |conds| ==> Holds(conds[i], t)
  }

  lemma HoldsAllSnoc(conds: seq<Condition>, c: Condition)
    ensures forall t :: HoldsAll(conds + [c], t) <==> HoldsAll(conds, t) && Holds(c, t)
  {
    forall t ensures HoldsAll(conds + [c], t) <==> HoldsAll(conds, t) && Holds(c, t) {
      if HoldsAll(conds, t) && Holds(c, t) {
        forall i | 0 <= i < |conds + [c]| ensures Holds((conds + [c])[i], t) {
          if i < |conds| { assert (conds + [c])[i] == conds[i]; }
        }
      }
      if HoldsAll(conds + [c], t) {
        forall i | 0 <= i < |conds| ensures Holds(conds[i], t) {
          assert (conds + [c])[i] == conds[i];
        }
        assert (conds + [c])[|conds|] == c;
      }
    }
  }

  /** What the letter parameter means: the first character of a non-empty
      string, compared case-insensitively with the first letter of the last
      name; anything else admits every row. */
  predicate LetterAdmits(q: Query, t: Teacher)
    ensures !(q.Text? && q.text != "") ==> LetterAdmits(q, t)
    ensures q.Text? && q.text != "" && LetterAdmits(q, t) ==> t.lastName != ""
  {
    q.Text? && q.text != "" ==> |t.lastName| > 0 && Upper(t.lastName[0]) == Upper(q.text[0])
  }

  /** What the subject parameter means: a non-empty string must be one of the row's subjects. */
  predicate SubjectAdmits(q: Query, t: Teacher)
    ensures !(q.Text? && q.text != "") ==> SubjectAdmits(q, t)
    ensures q.Text? && q.text != "" && SubjectAdmits(q, t) ==> t.subjects != []
  {
    q.Text? && q.text != "" ==> q.text in t.subjects
  }

  /** Rows in creation order. */
  predicate Ascending(s: seq<Teacher>) {
    forall i, j :: 0 <= i < j < |s| ==> s[i].createdAt < s[j].createdAt
  }

  /** The tail of a sequence in creation order is in creation order and newer than its head. */
  lemma AscendingTail(s: seq<Teacher>)
    requires s != [] && Ascending(s)
    ensures Ascending(s[1..])
    ensures forall t :: t in s[1..] ==> s[0].createdAt < t.createdAt
  {
    forall t | t in s[1..] ensures s[0].createdAt < t.createdAt {
      var i :| 0 <= i < |s[1..]| && s[1..][i] == t;
      assert s[i + 1] == t;
    }
  }

  /** A row older than every row of a sequence in creation order can go in front. */
  lemma AscendingCons(x: Teacher, s: seq<Teacher>)
    requires Ascending(s) && forall t :: t in s ==> x.createdAt < t.createdAt
    ensures Ascending([x] + s)
  {
    var r := [x] + s;
    forall i, j | 0 <= i < j < |r| ensures r[i].createdAt < r[j].createdAt {
      assert r[j] == s[j - 1];
      if i > 0 { assert r[i] == s[i - 1]; }
    }
  }

  /** The rows that satisfy every condition (`WHERE 1=1 AND ...`), in table order. */
  function Where(rows: seq<Teacher>, conds: seq<Condition>): (r: seq<Teacher>)
    ensures |r| <= |rows|
    ensures forall t :: t in r <==> t in rows && HoldsAll(conds, t)
    ensures Ascending(rows) ==> Ascending(r)
  {
    if rows == [] then []
    else
      var rest := Where(rows[1..], conds);
      assert rows == [rows[0]] + rows[1..];
      if HoldsAll(conds, rows[0]) then
        (if Ascending(rows) then AscendingTail(rows); AscendingCons(rows[0], rest); [rows[0]] + rest
         else [rows[0]] + rest)
      else
        (if Ascending(rows) then AscendingTail(rows); rest else rest)
  }

  function Reverse(s: seq<Teacher>): (r: seq<Teacher>)
    ensures |r| == |s|
    ensures forall i :: 0 <= i < |s| ==> r[i] == s[|s| - 1 - i]
    ensures forall t :: t in r <==> t in s
  {
    if s == [] then [] else
      assert s == [s[0]] + s[1..];
      Reverse(s[1..]) + [s[0]]
  }

  // ---------------------------------------------------------------------
  // Creating (addTeacher)

  predicate HasRequired(b: TeacherBody) {
    Truthy(b.firstName) && Truthy(b.lastName) && Truthy(b.email)
  }

  /** The subjects addTeacher stores, or the 400 it answers with: the required
      fields are checked first, then the `subjects` member, which only counts
      when it is truthy. */
  function CheckCreate(b: TeacherBody): (r: Result<seq<string>>)
    ensures r == Err(MissingRequired) <==> !HasRequired(b)
    ensures r == Err(SubjectsNotArray) <==> HasRequired(b) && b.subjects == NotArray(true)
    ensures r == Err(TooManySubjects) <==>
              HasRequired(b) && b.subjects.Items? && |b.subjects.items| > MaxSubjects
    ensures r.Err? ==> r.failure in {MissingRequired, SubjectsNotArray, TooManySubjects}
    ensures r.Ok? ==> HasRequired(b) && |r.value| <= MaxSubjects
    ensures r.Ok? ==> r.value == if b.subjects.Items? then b.subjects.items else []
  {
    if !HasRequired(b) then Err(MissingRequired)
    else match b.subjects
      case Undefined => Ok([])
      case NotArray(truthy) => if truthy then Err(SubjectsNotArray) else Ok([])
      case Items(s) => if |s| > MaxSubjects then Err(TooManySubjects) else Ok(s)
  }

  /** The row the INSERT writes: falsy optional fields become null. */
  function NewRow(b: TeacherBody, subjects: seq<string>, id: nat, tick: nat): (t: Teacher)
    requires HasRequired(b)
    ensures t.profilePicture.Some? <==> Truthy(b.profilePicture)
    ensures t.phone.Some? <==> Truthy(b.phone)
    ensures t.roomNumber.Some? <==> Truthy(b.roomNumber)
    ensures id >= 1 && |subjects| <= MaxSubjects ==> StoredRow(t)
  {
    Teacher(id, b.firstName.value, b.lastName.value, OrNull(b.profilePicture), b.email.value,
            OrNull(b.phone), OrNull(b.roomNumber), subjects, tick, tick)
  }

  // ---------------------------------------------------------------------
  // Updating (updateTeacher)

  /** The subjects to store (None: keep the column), or the 400 updateTeacher
      answers with. Any member other than undefined that is not an array is
      refused, null included. */
  function CheckUpdate(f: SubjectsField): (r: Result<Option<seq<string>>>)
    ensures r.Ok? <==> f.Undefined? || (f.Items? && |f.items| <= MaxSubjects)
    ensures r == Ok(None) <==> f.Undefined?
    ensures r.Ok? && r.value.Some? ==> r.value.value == f.items && |r.value.value| <= MaxSubjects
    ensures r.Err? ==> r.failure == if f.NotArray? then SubjectsNotArray else TooManySubjects
  {
    match f
    case Undefined => Ok(None)
    case NotArray(_) => Err(SubjectsNotArray)
    case Items(s) => if |s| > MaxSubjects then Err(TooManySubjects) else Ok(Some(s))
  }

  /** `col = COALESCE(x || null, col)` on a NOT NULL column. */
  function Coalesce(given: Option<string>, current: string): (r: string)
    ensures r == current || Some(r) == given
    ensures Truthy(given) ==> Some(r) == given
    ensures current != "" ==> r != ""
  {
    if Truthy(given) then given.value else current
  }

  /** `col = COALESCE(x || null, col)` on a nullable column: it can never be cleared. */
  function CoalesceOpt(given: Option<string>, current: Option<string>): (r: Option<string>)
    ensures r == current || r == given
    ensures Truthy(given) ==> r == given
    ensures current.Some? ==> r.Some?
    ensures NotBlank(current) ==> NotBlank(r)
  {
    if Truthy(given) then given else current
  }

  /** The row after the UPDATE. */
  function Merge(t: Teacher, b: TeacherBody, subjects: Option<seq<string>>, tick: nat): (u: Teacher)
    ensures u.id == t.id && u.createdAt == t.createdAt && u.updatedAt == tick
    ensures Truthy(b.email) ==> u.email == b.email.value
    ensures !Truthy(b.email) ==> u.email == t.email
    ensures t.profilePicture.Some? ==> u.profilePicture.Some?
    ensures t.phone.Some? ==> u.phone.Some?
    ensures t.roomNumber.Some? ==> u.roomNumber.Some?
    ensures subjects.Some? ==> u.subjects == subjects.value
    ensures subjects.None? ==> u.subjects == t.subjects
  {
    t.(firstName := Coalesce(b.firstName, t.firstName),
       lastName := Coalesce(b.lastName, t.lastName),
       profilePicture := CoalesceOpt(b.profilePicture, t.profilePicture),
       email := Coalesce(b.email, t.email),
       phone := CoalesceOpt(b.phone, t.phone),
       roomNumber := CoalesceOpt(b.roomNumber, t.roomNumber),
       subjects := if subjects.Some? then subjects.value else t.subjects,
       updatedAt := tick)
  }

  // ---------------------------------------------------------------------
  // Lemmas about the table operations

  lemma AppendKeepsInvariant(rows: seq<Teacher>, nextId: nat, clock: nat, t: Teacher)
    requires TableInvariant(rows, nextId, clock)
    requires StoredRow(t) && t.id == nextId && t.createdAt == clock && t.updatedAt == clock
    requires !EmailInUse(rows, t.email)
    ensures TableInvariant(rows + [t], nextId + 1, clock + 1)
  {
    var rows' := rows + [t];
    forall i, j | 0 <= i < j < |rows'|
      ensures rows'[i].id != rows'[j].id && rows'[i].email != rows'[j].email
      ensures rows'[i].createdAt < rows'[j].createdAt
    {
      if j == |rows| {
        assert rows'[i] == rows[i];
        assert rows[i].createdAt <= rows[i].updatedAt < clock;
      }
    }
  }

  lemma ReplaceKeepsInvariant(rows: seq<Teacher>, nextId: nat, clock: nat, k: nat, u: Teacher)
    requires TableInvariant(rows, nextId, clock)
    requires k < |rows| && u.id == rows[k].id && u.createdAt == rows[k].createdAt
    requires StoredRow(u) && u.updatedAt == clock
    requires forall i :: 0 <= i < |rows| && i != k ==> rows[i].email != u.email
    ensures TableInvariant(rows[k := u], nextId, clock + 1)
  {
  }

  lemma RemoveKeepsInvariant(rows: seq<Teacher>, nextId: nat, clock: nat, k: nat)
    requires TableInvariant(rows, nextId, clock)
    requires k < |rows|
    ensures TableInvariant(rows[..k] + rows[k + 1..], nextId, clock)
  {
    var rows' := rows[..k] + rows[k + 1..];
    assert forall i :: 0 <= i < |rows'| ==> rows'[i] == rows[if i < k then i else i + 1];
  }

  /** A successful create followed by a fetch of the new id finds exactly the
      row that was written, with the subjects in the order they were sent. */
  lemma CreateThenFetch(rows: seq<Teacher>, nextId: nat, clock: nat, b: TeacherBody)
    requires TableInvariant(rows, nextId, clock)
    requires CheckCreate(b).Ok? && b.subjects.Items?
    ensures var rows' := rows + [NewRow(b, CheckCreate(b).value, nextId, clock)];
            && FindIndex(rows', nextId) == Some(|rows|)
            && rows'[|rows|].subjects == b.subjects.items
            && rows'[|rows|].firstName == b.firstName.value
            && rows'[|rows|].email == b.email.value
  {
    var rows' := rows + [NewRow(b, CheckCreate(b).value, nextId, clock)];
    assert forall i :: 0 <= i < |rows| ==> rows'[i].id != nextId by {
      forall i | 0 <= i < |rows| ensures rows'[i].id != nextId {
        assert rows'[i] == rows[i];
      }
    }
    assert rows'[|rows|].id == nextId;
  }

  /** Every row left after cutting out position `k` was at another position. */
  lemma CutKeepsOthersOnly(rows: seq<Teacher>, k: nat, t: Teacher)
    requires k < |rows| && t in rows[..k] + rows[k + 1..]
    ensures exists p :: 0 <= p < |rows| && p != k && rows[p] == t
  {
    if t in rows[..k] {
      var p :| 0 <= p < k && rows[..k][p] == t;
      assert rows[p] == t;
    } else {
      var i :| 0 <= i < |rows[k + 1..]| && rows[k + 1..][i] == t;
      assert rows[k + 1 + i] == t;
    }
  }

  /** Every row at another position than `k` is left after cutting it out. */
  lemma CutKeepsOthers(rows: seq<Teacher>, k: nat, p: nat)
    requires k < |rows| && p < |rows| && p != k
    ensures rows[p] in rows[..k] + rows[k + 1..]
  {
    if p < k {
      assert rows[..k][p] == rows[p];
    } else {
      assert rows[k + 1..][p - k - 1] == rows[p];
    }
  }

  /** Cutting out the row at `k` of a table with unique ids leaves exactly the
      rows whose id differs from its id. */
  lemma {:induction false} CutMembership(rows: seq<Teacher>, k: nat)
    requires k < |rows|
    requires forall i, j :: 0 <= i < j < |rows| ==> rows[i].id != rows[j].id
    ensures forall t :: t in rows[..k] + rows[k + 1..] <==> t in rows && t.id != rows[k].id
  {
    forall t | t in rows[..k] + rows[k + 1..]
      ensures t in rows && t.id != rows[k].id
    {
      CutKeepsOthersOnly(rows, k, t);
    }
    forall t | t in rows && t.id != rows[k].id
      ensures t in rows[..k] + rows[k + 1..]
    {
      var p :| 0 <= p < |rows| && rows[p] == t;
      CutKeepsOthers(rows, k, p);
    }
  }

  /** A delete of a present id leaves exactly the other rows. */
  lemma {:induction false} RemoveExactlyThatRow(rows: seq<Teacher>, nextId: nat, clock: nat, id: nat)
    requires TableInvariant(rows, nextId, clock)
    requires HasId(rows, id)
    ensures var k := FindIndex(rows, id).value;
            forall t :: t in rows[..k] + rows[k + 1..] <==> t in rows && t.id != id
  {
    CutMembership(rows, FindIndex(rows, id).value);
  }

  /** Only truthy values overwrite: an update that sends "" for a field is the
      same update as one that leaves the field out. */
  lemma EmptyStringsKeepFields(t: Teacher, b: TeacherBody, subjects: Option<seq<string>>, tick: nat)
    ensures Merge(t, b, subjects, tick) ==
            Merge(t, b.(firstName := OrNull(b.firstName), lastName := OrNull(b.lastName),
                        profilePicture := OrNull(b.profilePicture), email := OrNull(b.email),
                        phone := OrNull(b.phone), roomNumber := OrNull(b.roomNumber)),
                  subjects, tick)
  {
  }

  /** An update that sends only a phone number changes the phone (when it is
      non-empty) and the update time, and nothing else. */
  lemma PhoneOnlyUpdate(t: Teacher, phone: string, tick: nat)
    ensures var u := Merge(t, TeacherBody(None, None, None, None, Some(phone), None, Undefined),
                           CheckUpdate(Undefined).value, tick);
            && u.(phone := t.phone, updatedAt := t.updatedAt) == t
            && u.phone == (if phone == "" then t.phone else Some(phone))
  {
  }

  /** An empty array clears the subjects; only an absent member keeps them. */
  lemma EmptyArrayClearsSubjects(t: Teacher, b: TeacherBody, tick: nat)
    requires b.subjects == Items([])
    ensures Merge(t, b, CheckUpdate(b.subjects).value, tick).subjects == []
  {
  }

  /** Applying the same update twice changes nothing the first one did not. */
  lemma MergeIdempotent(t: Teacher, b: TeacherBody, subjects: Option<seq<string>>, tick1: nat, tick2: nat)
    ensures Merge(Merge(t, b, subjects, tick1), b, subjects, tick2) == Merge(t, b, subjects, tick2)
  {
  }

  /** The merged row is again a valid stored row. */
  lemma MergeKeepsStoredRow(t: Teacher, b: TeacherBody, subjects: Option<seq<string>>, tick: nat)
    requires StoredRow(t) && t.updatedAt <= tick
    requires subjects.Some? ==> |subjects.value| <= MaxSubjects
    ensures StoredRow(Merge(t, b, subjects, tick))
  {
  }

  /** The letter filter looks at the first character of the parameter only. */
  lemma LetterFirstCharOnly(s1: string, s2: string, t: Teacher)
    requires s1 != "" && s2 != "" && Upper(s1[0]) == Upper(s2[0])
    ensures LetterAdmits(Text(s1), t) <==> LetterAdmits(Text(s2), t)
  {
  }

  // ---------------------------------------------------------------------
  // The table

  class TeacherTable {
    var rows: seq<Teacher>
    var nextId: nat
    var clock: nat

    ghost predicate Valid()
      reads this
    {
      TableInvariant(rows, nextId, clock)
    }

    /** An empty table; AUTO_INCREMENT starts at 1. */
    constructor ()
      ensures Valid() && rows == [] && nextId == 1 && clock == 0
    {
      rows, nextId, clock := [], 1, 0;
    }

    /** GET /teachers: the WHERE clause is built one optional condition at a
        time, then the matching rows come back newest first, with their count. */
    method GetTeachers(lastNameStartsWith: Query, subject: Query) returns (count: nat, data: seq<Teacher>)
      requires Valid()
      ensures count == |data|
      ensures forall t :: t in data <==>
                t in rows && LetterAdmits(lastNameStartsWith, t) && SubjectAdmits(subject, t)
      ensures forall i, j :: 0 <= i < j < |data| ==> data[i].createdAt > data[j].createdAt
    {
      var conds: seq<Condition> := [];
      if lastNameStartsWith.Text? && lastNameStartsWith.text != "" {
        var letter := Upper(lastNameStartsWith.text[0]);
        assert Upper(letter) == letter;
        HoldsAllSnoc(conds, LastNameLike(letter));
        conds := conds + [LastNameLike(letter)];
      }
      assert forall t :: HoldsAll(conds, t) <==> LetterAdmits(lastNameStartsWith, t);
      if subject.Text? && subject.text != "" {
        HoldsAllSnoc(conds, SubjectsContain(subject.text));
        conds := conds + [SubjectsContain(subject.text)];
      }
      assert forall t :: HoldsAll(conds, t) <==>
               LetterAdmits(lastNameStartsWith, t) && SubjectAdmits(subject, t);
      assert Ascending(rows);
      var selected := Where(rows, conds);
      data := Reverse(selected);
      count := |data|;
    }

    /** GET /teachers/:id. */
    method GetTeacher(id: nat) returns (r: Option<Teacher>)
      ensures r.Some? <==> HasId(rows, id)
      ensures r.Some? ==> r.value in rows && r.value.id == id
    {
      var k := FindIndex(rows, id);
      if k.Some? {
        r := Some(rows[k.value]);
      } else {
        r := None;
      }
    }

    /** POST /teachers: the new id on success; a refused create changes nothing. */
    method AddTeacher(b: TeacherBody) returns (r: Result<nat>)
      requires Valid()
      modifies this
      ensures Valid()
      ensures CheckCreate(b).Err? ==> r == Err(CheckCreate(b).failure)
      ensures CheckCreate(b).Ok? && EmailInUse(old(rows), b.email.value) ==> r == Err(DuplicateEmail)
      ensures r.Ok? <==> CheckCreate(b).Ok? && !EmailInUse(old(rows), b.email.value)
      ensures r.Err? ==> rows == old(rows) && nextId == old(nextId) && clock == old(clock)
      ensures r.Ok? ==>
                && r.value == old(nextId)
                && rows == old(rows) + [NewRow(b, CheckCreate(b).value, old(nextId), old(clock))]
                && nextId == old(nextId) + 1 && clock == old(clock) + 1
    {
      var check := CheckCreate(b);
      if check.Err? {
        return Err(check.failure);
      }
      if EmailInUse(rows, b.email.value) {
        return Err(DuplicateEmail);
      }
      var t := NewRow(b, check.value, nextId, clock);
      AppendKeepsInvariant(rows, nextId, clock, t);
      rows := rows + [t];
      r := Ok(nextId);
      nextId, clock := nextId + 1, clock + 1;
    }

    /** PUT /teachers/:id: the subjects member is checked first, then the id,
        then the unique email; on success only that row changes. */
    method UpdateTeacher(id: nat, b: TeacherBody) returns (r: Outcome)
      requires Valid()
      modifies this
      ensures Valid()
      ensures nextId == old(nextId)
      ensures r.Failed? ==> rows == old(rows) && clock == old(clock)
      ensures CheckUpdate(b.subjects).Err? ==> r == Failed(CheckUpdate(b.subjects).failure)
      ensures CheckUpdate(b.subjects).Ok? && !HasId(old(rows), id) ==> r == Failed(NotFound)
      ensures CheckUpdate(b.subjects).Ok? && HasId(old(rows), id) ==>
                (r == Failed(DuplicateEmail) <==>
                   Truthy(b.email) && EmailInUseByOther(old(rows), b.email.value, id))
      ensures r.Done? <==>
                && CheckUpdate(b.subjects).Ok? && HasId(old(rows), id)
                && !(Truthy(b.email) && EmailInUseByOther(old(rows), b.email.value, id))
      ensures r.Done? ==>
                && CheckUpdate(b.subjects).Ok? && HasId(old(rows), id)
                && clock == old(clock) + 1
                && var k := FindIndex(old(rows), id).value;
                   rows == old(rows)[k := Merge(old(rows)[k], b, CheckUpdate(b.subjects).value, old(clock))]
    {
      var check := CheckUpdate(b.subjects);
      if check.Err? {
        return Failed(check.failure);
      }
      var found := FindIndex(rows, id);
      if found.None? {
        return Failed(NotFound);
      }
      var k := found.value;
      if Truthy(b.email) && EmailInUseByOther(rows, b.email.value, id) {
        return Failed(DuplicateEmail);
      }
      var u := Merge(rows[k], b, check.value, clock);
      MergeKeepsStoredRow(rows[k], b, check.value, clock);
      forall i | 0 <= i < |rows| && i != k
        ensures rows[i].email != u.email
      {
        assert rows[i].id != id;
      }
      ReplaceKeepsInvariant(rows, nextId, clock, k, u);
      rows := rows[k := u];
      clock := clock + 1;
      r := Done;
    }

    /** DELETE /teachers/:id: removes exactly that row, keeping the order of the others. */
    method DeleteTeacher(id: nat) returns (r: Outcome)
      requires Valid()
      modifies this
      ensures Valid()
      ensures nextId == old(nextId) && clock == old(clock)
      ensures r.Done? <==> HasId(old(rows), id)
      ensures r.Failed? ==> r.failure == NotFound && rows == old(rows)
      ensures r.Done? ==> var k := FindIndex(old(rows), id).value;
                          rows == old(rows)[..k] + old(rows)[k + 1..]
    {
      var found := FindIndex(rows, id);
      if found.None? {
        return Failed(NotFound);
      }
      var k := found.value;
      RemoveKeepsInvariant(rows, nextId, clock, k);
      rows := rows[..k] + rows[k + 1..];
      r := Done;
    }
  }
}
