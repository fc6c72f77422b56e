/**
 * Facts about sequences of any element type. Stated over a type parameter, they are proved
 * without the equality axioms of the tree datatypes whose sequences they are applied to.
 */
module SeqFacts {

  /** A non-empty sequence, and its concatenation with another, split at their first element. */
  lemma ConsSplit<T>(a: seq<T>, b: seq<T>)
    requires a != []
    ensures a == [a[0]] + a[1..] && a + b == [a[0]] + (a[1..] + b)
  {
  }

  /** The prefix of a prefix, and the whole as its own prefix. */
  lemma PrefixFacts<T>(s: seq<T>, i: nat)
    requires i < |s|
    ensures s[..i + 1][..i] == s[..i] && s[..|s|] == s
  {
  }

  /** A slice of a suffix is a slice of the whole. */
  lemma SliceFacts<T>(s: seq<T>, a: nat, n: nat)
    requires a + n <= |s|
    ensures s[a..][..n] == s[a..a + n] && s[a..][n..] == s[a + n..]
  {
  }

  /** The head and tail of a concatenation whose first part is non-empty. */
  lemma TailOfAppend<T>(a: seq<T>, b: seq<T>)
    requires a != []
    ensures (a + b)[0] == a[0] && (a + b)[1..] == a[1..] + b
  {
  }
}
