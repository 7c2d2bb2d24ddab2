/** Small things several modules share. */
module Common {
  datatype Option<T> = None | Some(value: T)

  function Min(a: nat, b: nat): nat { if a < b then a else b }
  function Max(a: nat, b: nat): nat { if a < b then b else a }

  /** No element occurs twice. */
  ghost predicate Distinct<T>(s: seq<T>) {
    forall i, j :: 0 <= i < j < |s| ==> s[i] != s[j]
  }
}
