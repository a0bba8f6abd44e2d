/** Facts about sequences that the free list and the ready queue need. */
module Lists {
  ghost predicate NoDup(s: seq<nat>) { forall i, j :: 0 <= i < j < |s| ==> s[i] != s[j] }

  /** s is what is left of t after some elements were taken off the front. */
  ghost predicate IsSuffix(s: seq<nat>, t: seq<nat>) { |s| <= |t| && s == t[|t| - |s|..] }

  lemma SuffixRefl(s: seq<nat>)
    ensures IsSuffix(s, s)
  {
  }

  lemma SuffixTrans(a: seq<nat>, b: seq<nat>, c: seq<nat>)
    requires IsSuffix(b, a) && IsSuffix(c, b)
    ensures IsSuffix(c, a)
  {
  }
}
