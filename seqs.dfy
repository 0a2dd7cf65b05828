/** Positional operations on sequences that stand in for the doubly linked
    list of Go's container/list: moving one element to the front and
    unlinking one element. */
module Seqs {

  /** s with its i-th element moved to the front; every other element keeps
      its relative order (container/list MoveToFront). */
  function Promote<T>(s: seq<T>, i: nat): (r: seq<T>)
    requires i < |s|
    ensures |r| == |s| && r[0] == s[i]
    ensures forall j :: 0 <= j < i ==> r[j + 1] == s[j]
    ensures forall j :: i < j < |s| ==> r[j] == s[j]
  {
    [s[i]] + s[..i] + s[i + 1..]
  }

  /** s with its i-th element unlinked; the others keep their order
      (container/list Remove). */
  function Drop<T>(s: seq<T>, i: nat): (r: seq<T>)
    requires i < |s|
    ensures |r| == |s| - 1
    ensures forall j :: 0 <= j < i ==> r[j] == s[j]
    ensures forall j :: i < j < |s| ==> r[j - 1] == s[j]
  {
    s[..i] + s[i + 1..]
  }

  /** Overwriting the i-th element and promoting it puts the new element
      first and leaves the rest as unlinking the old one would. */
  lemma PromoteUpdated<T>(s: seq<T>, i: nat, x: T)
    requires i < |s|
    ensures Promote(s[i := x], i) == [x] + Drop(s, i)
  {
    var u := s[i := x];
    assert u[..i] == s[..i];
    assert u[i + 1..] == s[i + 1..];
  }
}
