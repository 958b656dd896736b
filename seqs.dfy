/** Sequence operations behind Python list comprehensions and `next(...)` lookups. */
module Seqs {
  import opened Wrappers

  /** `[x for x in s if p(x)]`. */
  function Keep<T>(s: seq<T>, p: T -> bool): (r: seq<T>)
    ensures |r| <= |s|
    ensures forall i :: 0 <= i < |r| ==> r[i] in s && p(r[i])
    ensures forall i :: 0 <= i < |s| && p(s[i]) ==> s[i] in r
    decreases |s|
  {
    if s == [] then []
    else if p(s[0]) then [s[0]] + Keep(s[1..], p)
    else Keep(s[1..], p)
  }

  /** Every earlier element is related to every later one. */
  ghost predicate Pairwise<T>(s: seq<T>, rel: (T, T) -> bool)
  {
    forall i, k :: 0 <= i < k < |s| ==> rel(s[i], s[k])
  }

  /** Filtering keeps the relative order of the kept elements. */
  lemma {:induction false} KeepPairwise<T>(s: seq<T>, p: T -> bool, rel: (T, T) -> bool)
    requires Pairwise(s, rel)
    ensures Pairwise(Keep(s, p), rel)
    decreases |s|
  {
    if s != [] {
      assert Pairwise(s[1..], rel);
      KeepPairwise(s[1..], p, rel);
      if p(s[0]) {
        var r := Keep(s, p);
        forall i, k | 0 <= i < k < |r| ensures rel(r[i], r[k]) {
          if i == 0 {
            assert r[k] in Keep(s[1..], p);
            var q :| 0 <= q < |s[1..]| && s[1..][q] == r[k];
            assert s[q + 1] == r[k];
          }
        }
      }
    }
  }

  /** The first element satisfying `p`, as `next((x for x in s if p(x)), None)`. */
  function FindFirst<T>(s: seq<T>, p: T -> bool): (r: Option<T>)
    ensures r.Some? ==> r.value in s && p(r.value)
    ensures r.None? <==> forall i :: 0 <= i < |s| ==> !p(s[i])
    decreases |s|
  {
    if s == [] then None
    else if p(s[0]) then Some(s[0])
    else FindFirst(s[1..], p)
  }

  /** `list(reversed(s))`. */
  function Reverse<T>(s: seq<T>): (r: seq<T>)
    ensures |r| == |s|
    ensures forall i :: 0 <= i < |s| ==> r[i] == s[|s| - 1 - i]
    decreases |s|
  {
    if s == [] then [] else Reverse(s[1..]) + [s[0]]
  }

  /** Reversing keeps exactly the same elements. */
  lemma ReverseMembers<T>(s: seq<T>)
    ensures forall x :: x in Reverse(s) <==> x in s
  {
    var r := Reverse(s);
    forall x | x in s ensures x in r {
      var i :| 0 <= i < |s| && s[i] == x;
      assert r[|s| - 1 - i] == x;
    }
  }

  /** Index of the first element, at or after position `k`, that satisfies `p`. */
  function FirstIndex<T>(s: seq<T>, p: T -> bool, k: nat): (r: Option<nat>)
    requires k <= |s|
    ensures r.None? <==> forall i :: k <= i < |s| ==> !p(s[i])
    ensures r.Some? ==> k <= r.value < |s| && p(s[r.value])
    ensures r.Some? ==> forall i :: k <= i < r.value ==> !p(s[i])
    decreases |s| - k
  {
    if k == |s| then None
    else if p(s[k]) then Some(k)
    else FirstIndex(s, p, k + 1)
  }

  /** The first index is determined by where `p` holds. */
  lemma FirstIndexAt<T>(s: seq<T>, p: T -> bool, i: nat)
    requires i < |s| && p(s[i])
    requires forall k :: 0 <= k < i ==> !p(s[k])
    ensures FirstIndex(s, p, 0) == Some(i)
  {
  }
}
