// Spring Data finders declared to return Optional<T> read at most one row:
// none gives an empty Optional, one gives that row, and several make the
// finder throw IncorrectResultSizeDataAccessException.
module SingleResult {
  import opened Wrappers
  import Sorting

  /** The outcome of a single-row finder whose matching rows are the ids in matches. */
  function Unique(matches: set<nat>): (r: Result<Option<nat>>)
    ensures r == Ok(None) <==> matches == {}
    ensures r.Ok? && r.value.Some? ==> matches == {r.value.value}
    ensures r.Err? <==> exists a, b :: a in matches && b in matches && a != b
    ensures r.Err? ==> r.error == IncorrectResultSize
  {
    if matches == {} then Ok(None)
    else
      var m := Sorting.Min(matches);
      if matches == {m} then Ok(Some(m))
      else
        assert !(forall o :: o in matches ==> o == m);
        Err(IncorrectResultSize)
  }
}
