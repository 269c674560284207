/** Small building blocks shared by both projects. */
module Basics {
  /** A value that may be absent: a missing value (`NaN`) in a data frame. */
  datatype Option<+T> = None | Some(value: T)

  /** The outcome of an operation that may raise. */
  datatype Result<+T, +E> = Ok(value: T) | Err(error: E)

  /** No element occurs twice: the labels of a column or date index. */
  predicate Distinct<K(==)>(names: seq<K>)
  {
    forall p, q :: 0 <= p < q < |names| ==> names[p] != names[q]
  }

  lemma DistinctSnoc<K>(s: seq<K>)
    requires |s| > 0
    ensures Distinct(s) <==> Distinct(s[..|s| - 1]) && s[|s| - 1] !in s[..|s| - 1]
  {
  }

  lemma AppendAssoc<T>(a: seq<T>, b: seq<T>, c: seq<T>)
    ensures a + b + c == a + (b + c)
  {
  }

  /** Where `x` first occurs in `s`. */
  function Position<T(==)>(s: seq<T>, x: T): (p: nat)
    requires x in s
    ensures p < |s| && s[p] == x
    ensures forall q :: 0 <= q < p ==> s[q] != x
  {
    if s[0] == x then 0 else 1 + Position(s[1..], x)
  }

  /** In a sequence without repetitions, every element is found at its own position. */
  lemma PositionOf<T>(s: seq<T>, i: nat)
    requires Distinct(s) && i < |s|
    ensures Position(s, s[i]) == i
  {
  }
}
