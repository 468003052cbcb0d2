/** Optional values, results and a fact about sets, used throughout. */
module Wrappers {
  datatype Option<+T> = None | Some(value: T)

  datatype Result<+T, +E> = Ok(value: T) | Err(error: E)

  lemma HasMember(ids: set<int>)
    ensures ids == {} || exists i :: i in ids
  {
    if !exists i :: i in ids {
      assert forall i :: i !in ids;
      assert ids == {};
    }
  }
}
