/** First-match search over a table kept in storage order: what `search(...)[0]`
    and `query(...).first()` pick. */
module Search {
  import opened Wrappers

  /** The index of the first element satisfying `matches`, or None. */
  function FirstWhere<T>(s: seq<T>, matches: T -> bool): (index: Option<nat>)
    ensures index.Some? ==> index.value < |s| && matches(s[index.value])
    ensures index.Some? ==> forall j :: 0 <= j < index.value ==> !matches(s[j])
    ensures index.None? ==> forall j :: 0 <= j < |s| ==> !matches(s[j])
  {
    if s == [] then None
    else if matches(s[0]) then Some(0)
    else
      match FirstWhere(s[1..], matches)
      case None => None
      case Some(j) => Some(j + 1)
  }
}
