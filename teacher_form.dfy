/** The client's teacher form (client/src/components/TeacherForm.tsx): the
    schema the form data must satisfy, the initial values taken from an
    existing record, and the small editor that adds and removes subjects. */
module TeacherForm {
  import opened Common
  import Teachers

  /** The form lets a teacher have at most this many subjects. */
  const MaxSubjects: nat := 5

  // ---------------------------------------------------------------------
  // String.prototype.trim

  /** The characters `trim` removes: ECMAScript's WhiteSpace and LineTerminator. */
  predicate IsWhitespace(c: char) {
    || c == '\t' || c == '\n' || c == '\U{000B}' || c == '\U{000C}' || c == '\r'
    || c == ' ' || c == '\U{00A0}' || c == '\U{1680}'
    || ('\U{2000}' <= c <= '\U{200A}')
    || c == '\U{2028}' || c == '\U{2029}' || c == '\U{202F}' || c == '\U{205F}'
    || c == '\U{3000}' || c == '\U{FEFF}'
  }

  predicate AllWhitespace(s: string) {
    forall i :: 0 <= i < |s| ==> IsWhitespace(s[i])
  }

  /** The length of the whitespace run that starts `s`. */
  function LeadingWhitespace(s: string): (n: nat)
    ensures n <= |s|
    ensures AllWhitespace(s[..n])
    ensures n < |s| ==> !IsWhitespace(s[n])
  {
    if s == [] || !IsWhitespace(s[0]) then 0
    else
      var n := 1 + LeadingWhitespace(s[1..]);
      assert forall i :: 1 <= i < n ==> s[..n][i] == s[1..][..n - 1][i - 1];
      n
  }

  /** The length of the whitespace run that ends `s`. */
  function TrailingWhitespace(s: string): (n: nat)
    ensures n <= |s|
    ensures AllWhitespace(s[|s| - n..])
    ensures n < |s| ==> !IsWhitespace(s[|s| - 1 - n])
  {
    if s == [] || !IsWhitespace(s[|s| - 1]) then 0
    else
      var init := s[..|s| - 1];
      var n := 1 + TrailingWhitespace(init);
      assert s[|s| - n..] == init[|init| - (n - 1)..] + [s[|s| - 1]];
      n
  }

  /** `s.trim()`: `s` without its leading and trailing whitespace. The result
      is the window of `s` that starts after the leading whitespace; it is
      empty exactly when `s` is all whitespace, and otherwise it starts and
      ends with a character that is not whitespace. */
  function Trim(s: string): (r: string)
    ensures LeadingWhitespace(s) + |r| <= |s|
    ensures r == s[LeadingWhitespace(s)..LeadingWhitespace(s) + |r|]
    ensures AllWhitespace(s[..LeadingWhitespace(s)]) && AllWhitespace(s[LeadingWhitespace(s) + |r|..])
    ensures r == "" <==> AllWhitespace(s)
    ensures r != "" ==> !IsWhitespace(r[0]) && !IsWhitespace(r[|r| - 1])
  {
    var a := LeadingWhitespace(s);
    var rest := s[a..];
    var r := rest[..|rest| - TrailingWhitespace(rest)];
    assert s[a + |r|..] == rest[|rest| - TrailingWhitespace(rest)..];
    if a < |s| then
      assert r != "" by { assert !IsWhitespace(rest[0]); }
      r
    else
      assert s[..a] == s;
      r
  }

  /** Trimming twice is trimming once. */
  lemma TrimIdempotent(s: string)
    ensures Trim(Trim(s)) == Trim(s)
  {
    var r := Trim(s);
    if r != "" {
      assert LeadingWhitespace(r) == 0;
      assert TrailingWhitespace(r) == 0;
    }
  }

  // ---------------------------------------------------------------------
  // The schema (teacherSchema)

  /** The form's values. An optional member is None when it is null or undefined. */
  datatype FormData = FormData(
    firstName: string,
    lastName: string,
    email: string,
    phone: Option<string>,
    roomNumber: Option<string>,
    profilePicture: Option<string>,
    subjects: seq<string>)

  /** Whether the schema accepts the data. The email and URL checks are the
      validation library's own and are passed in. */
  function SchemaAccepts(d: FormData, isEmail: string -> bool, isUrl: string -> bool): (ok: bool)
    ensures ok ==> d.firstName != "" && d.lastName != "" && |d.subjects| <= MaxSubjects
    ensures ok ==> isEmail(d.email)
    ensures ok ==> d.profilePicture.None? || d.profilePicture.value == "" || isUrl(d.profilePicture.value)
  {
    && |d.firstName| >= 1
    && |d.lastName| >= 1
    && isEmail(d.email)
    && (d.profilePicture.None? || d.profilePicture.value == "" || isUrl(d.profilePicture.value))
    && |d.subjects| <= MaxSubjects
  }

  /** Phone and room number never make the data invalid, and an empty picture
      never consults the URL check. */
  lemma SchemaIgnoresOptionals(d: FormData, phone: Option<string>, room: Option<string>,
                               isEmail: string -> bool, isUrl: string -> bool, isUrl': string -> bool)
    requires d.profilePicture.None? || d.profilePicture == Some("")
    ensures SchemaAccepts(d.(phone := phone, roomNumber := room), isEmail, isUrl) == SchemaAccepts(d, isEmail, isUrl')
  {
  }

  /** `x || ""` on a nullable string. */
  function OrEmpty(o: Option<string>): string {
    if o.Some? then o.value else ""
  }

  /** The form's default values: those of the record being edited, or blanks. */
  function InitialForm(initial: Option<Teachers.Teacher>): (d: FormData)
    ensures initial.None? ==> d == FormData("", "", "", Some(""), Some(""), Some(""), [])
    ensures initial.Some? ==> d.subjects == initial.value.subjects && d.email == initial.value.email
  {
    match initial
    case None => FormData("", "", "", Some(""), Some(""), Some(""), [])
    case Some(t) =>
      FormData(t.firstName, t.lastName, t.email, Some(OrEmpty(t.phone)), Some(OrEmpty(t.roomNumber)),
               Some(OrEmpty(t.profilePicture)), t.subjects)
  }

  /** A blank form is never accepted: it has no names. */
  lemma BlankFormRejected(isEmail: string -> bool, isUrl: string -> bool)
    ensures !SchemaAccepts(InitialForm(None), isEmail, isUrl)
  {
  }

  /** A record as the server stores it opens a form that the schema accepts
      exactly when the library accepts its email and its picture. */
  lemma StoredRecordOpensValidForm(t: Teachers.Teacher, isEmail: string -> bool, isUrl: string -> bool)
    requires Teachers.StoredRow(t)
    ensures SchemaAccepts(InitialForm(Some(t)), isEmail, isUrl) <==>
              isEmail(t.email) && (t.profilePicture.None? || isUrl(t.profilePicture.value))
  {
  }

  // ---------------------------------------------------------------------
  // The subject editor

  /** The editor's state: the subjects in the form and the text in the input box. */
  datatype EditorState = EditorState(subjects: seq<string>, input: string)

  /** What handleAddSubject does to the state. Blank input, or a list that
      already has MaxSubjects entries, changes nothing; otherwise the trimmed
      input is appended unless present, and the input box is cleared. */
  function Added(st: EditorState): (r: EditorState)
    ensures Trim(st.input) == "" || |st.subjects| >= MaxSubjects ==> r == st
    ensures Trim(st.input) != "" && |st.subjects| < MaxSubjects ==>
              r.input == "" && Trim(st.input) in r.subjects
    ensures Trim(st.input) in st.subjects ==> r.subjects == st.subjects
    ensures |r.subjects| <= MaxSubjects || r.subjects == st.subjects
    ensures |st.subjects| <= |r.subjects| <= |st.subjects| + 1 && st.subjects == r.subjects[..|st.subjects|]
    ensures forall x :: x in r.subjects <==> x in st.subjects || (x == Trim(st.input) && r != st)
    ensures NoDuplicates(st.subjects) ==> NoDuplicates(r.subjects)
  {
    var t := Trim(st.input);
    if t == "" || |st.subjects| >= MaxSubjects then st
    else if t in st.subjects then EditorState(st.subjects, "")
    else EditorState(st.subjects + [t], "")
  }

  /** `subjects.filter(s => s !== x)`: every occurrence of `x` goes, every
      other entry keeps its multiplicity, and nothing is added. */
  function Without(s: seq<string>, x: string): (r: seq<string>)
    ensures x !in r
    ensures forall y :: y in r <==> y in s && y != x
    ensures forall y :: y != x ==> multiset(r)[y] == multiset(s)[y]
    ensures |r| == |s| - multiset(s)[x]
  {
    if s == [] then []
    else
      assert s == [s[0]] + s[1..];
      var rest := Without(s[1..], x);
      if s[0] == x then rest else [s[0]] + rest
  }

  /** Removal works entry by entry, so it keeps the order of what remains. */
  lemma {:induction false} WithoutAppend(a: seq<string>, b: seq<string>, x: string)
    ensures Without(a + b, x) == Without(a, x) + Without(b, x)
  {
    if a == [] {
      assert a + b == b;
    } else {
      assert (a + b)[1..] == a[1..] + b;
      WithoutAppend(a[1..], b, x);
    }
  }

  /** A list without the subject is left as it is. */
  lemma {:induction false} WithoutAbsent(s: seq<string>, x: string)
    requires x !in s
    ensures Without(s, x) == s
  {
    if s != [] {
      WithoutAbsent(s[1..], x);
    }
  }

  /** Removal keeps a list free of duplicates. */
  lemma {:induction false} WithoutKeepsNoDuplicates(s: seq<string>, x: string)
    requires NoDuplicates(s)
    ensures NoDuplicates(Without(s, x))
  {
    if s != [] {
      assert NoDuplicates(s[1..]) by {
        forall i, j | 0 <= i < j < |s[1..]| ensures s[1..][i] != s[1..][j] {
          assert s[1..][i] == s[i + 1] && s[1..][j] == s[j + 1];
        }
      }
      WithoutKeepsNoDuplicates(s[1..], x);
      var rest := Without(s[1..], x);
      if s[0] != x {
        assert s[0] !in s[1..];
        assert s[0] !in rest;
        var r := [s[0]] + rest;
        forall i, j | 0 <= i < j < |r| ensures r[i] != r[j] {
          if i == 0 {
            assert r[j] == rest[j - 1];
          } else {
            assert r[i] == rest[i - 1] && r[j] == rest[j - 1];
          }
        }
      }
    }
  }

  /** The editor as the component holds it: the form's subjects and the input box. */
  class SubjectEditor {
    var subjects: seq<string>
    var subjectInput: string

    /** The editor opens on the form's initial subjects with an empty input box. */
    constructor (initial: FormData)
      ensures subjects == initial.subjects && subjectInput == ""
    {
      subjects := initial.subjects;
      subjectInput := "";
    }

    /** The input box's change handler. */
    method SetInput(text: string)
      modifies this
      ensures subjectInput == text && subjects == old(subjects)
    {
      subjectInput := text;
    }

    /** handleAddSubject. */
    method AddSubject()
      modifies this
      ensures EditorState(subjects, subjectInput) == Added(EditorState(old(subjects), old(subjectInput)))
    {
      var t := Trim(subjectInput);
      if t == "" {
        return;
      }
      if |subjects| >= MaxSubjects {
        return;
      }
      if t !in subjects {
        subjects := subjects + [t];
      }
      subjectInput := "";
    }

    /** handleRemoveSubject. */
    method RemoveSubject(subject: string)
      modifies this
      ensures subjects == Without(old(subjects), subject) && subjectInput == old(subjectInput)
    {
      subjects := Without(subjects, subject);
    }
  }
}
