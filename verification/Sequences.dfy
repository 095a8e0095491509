/** Where an element of a sequence is. */
module Sequences {

  /** The first position of x, or the length if there is none: std::find. */
  function IndexOf<T(==)>(s: seq<T>, x: T): (i: nat)
    ensures i <= |s| && (i < |s| ==> s[i] == x)
    ensures forall j | 0 <= j < i :: s[j] != x
    ensures i < |s| <==> x in s
  {
    if s == [] || s[0] == x then 0 else 1 + IndexOf(s[1..], x)
  }

  lemma IndexIs<T>(s: seq<T>, x: T, i: nat)
    requires i <= |s| && (i < |s| ==> s[i] == x) && forall j | 0 <= j < i :: s[j] != x
    ensures IndexOf(s, x) == i
  {
  }
}
