/** Identifier types and the Option wrapper shared by the award model.
    Row identifiers are the database's primary keys, kept abstract. */
module Common {

  datatype Option<+T> = None | Some(value: T)

  type UserId = nat
  type CategoryId = nat
  type NomineeId = nat

  /** The seq holds no element twice. */
  predicate Distinct<T(==)>(s: seq<T>) {
    forall i, j :: 0 <= i < j < |s| ==> s[i] != s[j]
  }
}
