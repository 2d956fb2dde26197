/** Linear search, the shape of every "return the first entry that
    qualifies" loop in the renderer's selection code. */
module Search {
  import opened Wrappers

  /** True when no entry of `s` before index `n` satisfies `p`. */
  predicate NoneBefore<T>(s: seq<T>, n: nat, p: T -> bool)
    requires n <= |s|
  {
    forall j :: 0 <= j < n ==> !p(s[j])
  }

  /** The index of the first entry of `s` satisfying `p`, scanning from
      the front. */
  function FirstWhere<T>(s: seq<T>, p: T -> bool): (r: Option<nat>)
    ensures r.Some? ==> r.value < |s| && p(s[r.value]) && NoneBefore(s, r.value, p)
    ensures r.None? ==> NoneBefore(s, |s|, p)
    decreases |s|
  {
    if s == [] then None
    else if p(s[0]) then Some(0)
    else
      match FirstWhere(s[1..], p)
      case None => None
      case Some(i) => Some(i + 1)
  }

  /** An entry that satisfies `p` with none before it is the one found. */
  lemma FirstIs<T>(s: seq<T>, p: T -> bool, k: nat)
    requires k < |s| && p(s[k]) && NoneBefore(s, k, p)
    ensures FirstWhere(s, p) == Some(k)
  {
  }

  /** With no entry satisfying `p`, nothing is found. */
  lemma NoneFound<T>(s: seq<T>, p: T -> bool)
    requires NoneBefore(s, |s|, p)
    ensures FirstWhere(s, p) == None
  {
  }
}
