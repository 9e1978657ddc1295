/** What the other modules share about optional values and sequences. */
module Collections {

  datatype Option<+T> = None | Some(value: T)

  /** No two positions hold the same element. */
  ghost predicate NoDuplicates<T>(s: seq<T>) {
    forall i, j :: 0 <= i < j < |s| ==> s[i] != s[j]
  }
}
