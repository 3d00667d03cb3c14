/** Ordered and distinct sequences, and the plain search that lookups are measured against. */
module Search {
  import opened Wrappers

  predicate Ascending(s: seq<int>) {
    forall i, j :: 0 <= i < j < |s| ==> s[i] < s[j]
  }

  predicate Distinct(s: seq<int>) {
    forall i, j :: 0 <= i < j < |s| ==> s[i] != s[j]
  }

  /** The position of `searched` among the values from `from` on. */
  function LinearSearch<V(==)>(values: seq<V>, searched: V, from: nat := 0): (r: Option<nat>)
    requires from <= |values|
    ensures r.Some? ==>
      && from <= r.value < |values| && values[r.value] == searched
      && forall i :: from <= i < r.value ==> values[i] != searched
    ensures r.None? ==> forall i :: from <= i < |values| ==> values[i] != searched
    decreases |values| - from
  {
    if from == |values| then None
    else if values[from] == searched then Some(from)
    else LinearSearch(values, searched, from + 1)
  }
}
