/** Facts about concatenation and slicing that the recursive definitions
    over lists and strings lean on, stated once for any element type. */
module Seqs {

  /** Concatenation is associative. */
  lemma {:induction false} AppendAssoc<T>(x: seq<T>, y: seq<T>, z: seq<T>)
    ensures x + (y + z) == (x + y) + z
  {
  }

  /** The head and the tail of a concatenation whose left part is not empty. */
  lemma {:induction false} TailOfAppend<T>(a: seq<T>, b: seq<T>)
    requires a != []
    ensures (a + b)[0] == a[0] && (a + b)[1..] == a[1..] + b
  {
  }

  /** The left part of a concatenation is its prefix. */
  lemma {:induction false} PrefixOfAppend<T>(x: seq<T>, y: seq<T>)
    ensures (x + y)[..|x|] == x
  {
  }

  /** An index past the left part of a concatenation reads the right part. */
  lemma {:induction false} IndexPastLeft<T>(x: seq<T>, y: seq<T>, i: int)
    requires |x| <= i < |x| + |y|
    ensures (x + y)[i] == y[i - |x|]
  {
  }

  /** The tail of a list read at `j` is the list read at `j + 1`. */
  lemma {:induction false} IndexOfTail<T>(s: seq<T>, j: int)
    requires 0 <= j < |s| - 1
    ensures s[1..][j] == s[j + 1]
  {
  }

  /** A list is its prefix followed by the rest. */
  lemma {:induction false} SliceSplit<T>(s: seq<T>, i: nat)
    requires i <= |s|
    ensures s[..i] + s[i..] == s
  {
  }

  /** One element more of a prefix. */
  lemma {:induction false} SliceSnoc<T>(s: seq<T>, i: nat)
    requires i < |s|
    ensures s[..i + 1] == s[..i] + [s[i]]
  {
  }
}
