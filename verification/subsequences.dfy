/** "The elements of a sequence that satisfy a predicate, in their original
    order", described by their indices. Used to state that a collected list
    is exactly a filtered view of its input, with nothing reordered, dropped
    or merged. */
module Subsequences {

  /** The indices `i` of `s` with `p(s[i])`, in increasing order. */
  function Positions<T>(s: seq<T>, p: T -> bool): (ps: seq<nat>)
    ensures |ps| <= |s|
    decreases |s|
  {
    if s == [] then []
    else Positions(s[..|s| - 1], p) + (if p(s[|s| - 1]) then [|s| - 1] else [])
  }

  ghost predicate StrictlyIncreasing(ps: seq<nat>) {
    forall j, k :: 0 <= j < k < |ps| ==> ps[j] < ps[k]
  }

  /** Positions lists every index whose element satisfies `p`, no other
      index, each once, in increasing order. */
  lemma {:induction false} PositionsSpec<T>(s: seq<T>, p: T -> bool)
    ensures StrictlyIncreasing(Positions(s, p))
    ensures forall k :: 0 <= k < |Positions(s, p)| ==> Positions(s, p)[k] < |s|
    ensures forall i :: 0 <= i < |s| ==> (p(s[i]) <==> i in Positions(s, p))
  {
    if s != [] {
      var n := |s| - 1;
      var prev := Positions(s[..n], p);
      var tail := if p(s[n]) then [n] else [];
      PositionsSpec(s[..n], p);
      assert Positions(s, p) == prev + tail;
      assert forall k :: 0 <= k < |prev| ==> prev[k] < n;
      forall i | 0 <= i < n ensures (p(s[i]) <==> i in prev + tail) {
        assert s[..n][i] == s[i];
        assert i !in tail;
      }
    }
  }
}
