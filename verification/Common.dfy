/** What several components share. */
module Common {

  datatype Option<+T> = None | Some(value: T)

  ghost predicate Distinct<T>(s: seq<T>) {
    forall i, j | 0 <= i < j < |s| :: s[i] != s[j]
  }

  /** Subtraction that stops at zero. */
  function SaturatingSub(a: nat, b: nat): nat { if a < b then 0 else a - b }
}
