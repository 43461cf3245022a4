/** Searching sequences, shared by the clipping loop and the grid builder. */
module Sequences {
  import opened Results

  /** The first position holding `v`: Python's `list.index`, and NumPy's
      `np.where` on a sequence without repeated values. */
  function FirstIndex<T(==)>(s: seq<T>, v: T): (r: Option<nat>)
    ensures r.Some? ==> r.value < |s| && s[r.value] == v && forall j :: 0 <= j < r.value ==> s[j] != v
    ensures r.None? <==> v !in s
    decreases |s|
  {
    if |s| == 0 then None
    else if s[0] == v then Some(0)
    else match FirstIndex(s[1..], v)
      case None => None
      case Some(i) => Some(i + 1)
  }

  predicate NoDuplicates<T(==)>(s: seq<T>) {
    forall i, j :: 0 <= i < j < |s| ==> s[i] != s[j]
  }

  /** In a sequence without repeated values, every position is the first
      one holding its value. */
  lemma FirstIndexDistinct<T>(s: seq<T>, k: nat)
    requires NoDuplicates(s) && k < |s|
    ensures FirstIndex(s, s[k]) == Some(k)
  {
    assert s[k] in s;
  }
}
