/**
 * Small shared vocabulary: an optional value (JavaScript's `null`/`undefined`
 * versus a present value), first-index search over sequences, and the
 * numeric helpers the other modules use.
 */
module Basics {

  /** A value that may be absent; `None` plays the part of `null`. */
  datatype Option<+T> = None | Some(value: T) {

    /** The carried value, or `default` when there is none. */
    function GetOr(default: T): T {
      match this
      case Some(v) => v
      case None => default
    }
  }

  /** No element occurs twice. */
  predicate NoDuplicates<T(==)>(s: seq<T>) {
    forall a, b :: 0 <= a < b < |s| ==> s[a] != s[b]
  }

  /** The first index holding `x`. */
  function FirstIndex<T(==)>(s: seq<T>, x: T): (i: nat)
    requires x in s
    ensures i < |s| && s[i] == x
    ensures forall j :: 0 <= j < i ==> s[j] != x
  {
    if s[0] == x then 0 else FirstIndex(s[1..], x) + 1
  }

  /** In a sequence without duplicates, each element is found at its own index. */
  lemma FirstIndexOfDistinct<T>(s: seq<T>, j: nat)
    requires NoDuplicates(s) && j < |s|
    ensures FirstIndex(s, s[j]) == j
  {
  }

  function Min(a: int, b: int): int {
    if a <= b then a else b
  }
}
