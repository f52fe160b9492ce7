/** Small facts about sequences, stated once and used by every module. */
module Seqs {
  /** Concatenation is associative. */
  lemma AppendAssoc<T>(a: seq<T>, b: seq<T>, c: seq<T>)
    ensures (a + b) + c == a + (b + c)
  {
  }

  /** Taking back the two parts of a concatenation. */
  lemma AppendParts<T>(a: seq<T>, b: seq<T>)
    ensures (a + b)[..|a|] == a && (a + b)[|a|..] == b
  {
  }

  /** A sequence is its first n elements followed by the rest. */
  lemma TakeDrop<T>(s: seq<T>, n: int)
    requires 0 <= n <= |s|
    ensures s[..n] + s[n..] == s
  {
  }

  /** The suffix from c is its first element, the slice up to b, and the rest. */
  lemma SplitSuffix<T>(u: seq<T>, c: int, b: int)
    requires 0 <= c < b <= |u|
    ensures u[c..] == [u[c]] + u[c + 1..b] + u[b..]
  {
  }
}
