/** Result arrays filled through a cursor. */
module Buffers {

  /** The array starts with the records rs. */
  ghost predicate Starts<T>(a: array<T>, rs: seq<T>)
    reads a
  {
    |rs| <= a.Length && forall i :: 0 <= i < |rs| ==> a[i] == rs[i]
  }

  /** The array holds exactly s. */
  ghost predicate Contains<T>(a: array<T>, s: seq<T>)
    reads a
  {
    a.Length == |s| && forall i :: 0 <= i < |s| ==> a[i] == s[i]
  }

  /** *cursor++ = x, where the cursor is n elements into the array. */
  method Push<T>(a: array<T>, ghost rs: seq<T>, n: nat, x: T)
    requires Starts(a, rs) && |rs| == n < a.Length
    modifies a
    ensures Starts(a, rs + [x])
  {
    a[n] := x;
  }

  lemma NothingYet<T>(a: array<T>)
    ensures Starts(a, [])
  {
  }
}
