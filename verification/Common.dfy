/** What several modules share. */
module Common {
  datatype Option<T> = None | Some(value: T)

  function Least(m: nat, n: nat): nat { if m < n then m else n }

  /** No element twice. */
  ghost predicate Distinct<T>(s: seq<T>) { forall i, j :: 0 <= i < j < |s| ==> s[i] != s[j] }

  /** A quantified fact that waits for Look is only opened where a proof asserts Look(0). */
  ghost predicate Look(m: int) { true }
}
