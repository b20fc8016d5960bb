/**
 Facts about concatenation and slicing, stated for any element type so that
 they are proved once, without looking inside the elements.
 */
module Seqs {

  lemma AppendAssoc<T>(a: seq<T>, b: seq<T>, c: seq<T>)
    ensures a + b + c == a + (b + c)
  {
  }

  lemma AppendThree<T>(a: seq<T>, b: seq<T>, c: seq<T>, d: seq<T>)
    ensures a + b + c + d == a + (b + c + d)
  {
  }

  /** Five one-element appends add the five elements in order. */
  lemma AppendFive<T>(xs: seq<T>, b: seq<T>)
    requires |b| == 5
    ensures xs + [b[0]] + [b[1]] + [b[2]] + [b[3]] + [b[4]] == xs + b
  {
  }

  /** A slice inside the left operand of a concatenation. */
  lemma SliceLeft<T>(a: seq<T>, b: seq<T>, lo: int, hi: int)
    requires 0 <= lo <= hi <= |a|
    ensures (a + b)[lo..hi] == a[lo..hi]
  {
  }

  /** A slice inside the right operand of a concatenation. */
  lemma SliceRight<T>(a: seq<T>, b: seq<T>, lo: int, hi: int)
    requires 0 <= lo <= hi <= |b|
    ensures (a + b)[|a| + lo..|a| + hi] == b[lo..hi]
  {
  }

  lemma TakeLeft<T>(a: seq<T>, b: seq<T>)
    ensures (a + b)[..|a|] == a
  {
  }

  lemma DropLeft<T>(a: seq<T>, b: seq<T>)
    ensures (a + b)[|a|..] == b
  {
  }

  /** A sequence is its part before `j`, its element at `j` and its part after `j`. */
  lemma SplitAt<T>(r: seq<T>, j: int)
    requires 0 <= j < |r|
    ensures r == r[..j] + [r[j]] + r[j + 1..]
  {
  }
}
