/** Values shared by the server and the client models: an optional value and
    JavaScript's truthiness test on a value that is a string or missing. */
module Common {

  datatype Option<+T> = None | Some(value: T)

  /** `if (x)` on a value that is a string, `undefined` or `null`: only a
      present, non-empty string is truthy. */
  predicate Truthy(o: Option<string>)
    ensures o.None? || o == Some("") ==> !Truthy(o)
    ensures Truthy(o) ==> |o.value| >= 1
  {
    o.Some? && o.value != ""
  }

  /** `x || null` on a string-or-missing value: falsy values collapse to null. */
  function OrNull(o: Option<string>): (r: Option<string>)
    ensures r.Some? <==> Truthy(o)
    ensures r.Some? ==> r == o
  {
    if Truthy(o) then o else None
  }

  /** `s.startsWith(prefix)`. */
  predicate StartsWith(s: string, prefix: string) {
    |prefix| <= |s| && s[..|prefix|] == prefix
  }

  /** No element of `s` occurs twice. */
  predicate NoDuplicates<T(==)>(s: seq<T>) {
    forall i, j :: 0 <= i < j < |s| ==> s[i] != s[j]
  }
}
