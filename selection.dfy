/**
 * The two search shapes the pipeline uses: the first element that satisfies
 * a condition (a `for` loop with an early `return`), and the indices a
 * `for i, x in enumerate(xs)` loop keeps when it `continue`s past the rest.
 */
module Selection {

  import opened Wrappers

  /** Index of the first element of `xs` satisfying `p`. */
  function FirstIndex<T>(xs: seq<T>, p: T -> bool): (r: Option<nat>)
    ensures r.Some? ==> r.value < |xs| && p(xs[r.value])
    ensures r.Some? ==> forall j :: 0 <= j < r.value ==> !p(xs[j])
    ensures r.None? ==> forall j :: 0 <= j < |xs| ==> !p(xs[j])
  {
    if xs == [] then None
    else if p(xs[0]) then Some(0)
    else match FirstIndex(xs[1..], p)
      case None => None
      case Some(i) => Some(i + 1)
  }

  /** A first-match search finds the earliest element satisfying `p`, whichever it is. */
  lemma FirstIndexIsEarliest<T>(xs: seq<T>, p: T -> bool, i: nat)
    requires i < |xs| && p(xs[i])
    requires forall j :: 0 <= j < i ==> !p(xs[j])
    ensures FirstIndex(xs, p) == Some(i)
  {
  }

  /** A search where no element satisfies `p` finds nothing. */
  lemma {:induction false} FirstIndexNone<T>(xs: seq<T>, p: T -> bool)
    requires forall j :: 0 <= j < |xs| ==> !p(xs[j])
    ensures FirstIndex(xs, p) == None
  {
    if xs != [] {
      FirstIndexNone(xs[1..], p);
    }
  }

  /** The indices below `n` that satisfy `keep`, in increasing order. */
  function Kept(n: nat, keep: nat -> bool): (r: seq<nat>)
    ensures |r| <= n
    ensures forall k :: 0 <= k < |r| ==> r[k] < n && keep(r[k])
    ensures forall k1, k2 :: 0 <= k1 < k2 < |r| ==> r[k1] < r[k2]
    ensures forall i :: 0 <= i < n && keep(i) ==> i in r
  {
    if n == 0 then [] else Kept(n - 1, keep) + (if keep(n - 1) then [n - 1] else [])
  }
}
