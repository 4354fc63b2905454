/** Facts about sequences that the collection lemmas use, stated once for any element type so
    that proving them never looks inside the elements. */
module SeqFacts {

  /** A non-empty sequence is its front followed by its last element. */
  lemma SplitLast<T>(s: seq<T>)
    requires s != []
    ensures s[..|s| - 1] + [s[|s| - 1]] == s
    ensures forall j :: 0 <= j < |s| - 1 ==> s[..|s| - 1][j] == s[j]
  {
  }

  /** The first i elements of the first i + 1. */
  lemma TakeTake<T>(s: seq<T>, i: nat)
    requires i < |s|
    ensures s[..i + 1][..i] == s[..i] && s[..i + 1][i] == s[i]
    ensures s[i..] == [s[i]] + s[i + 1..]
  {
  }

  /** Replacing the element after a prefix p. */
  lemma UpdateMiddle<T>(p: seq<T>, x: T, y: T, t: seq<T>)
    ensures p + ([x] + t) == p + [x] + t
    ensures (p + [x] + t)[|p| := y] == p + [y] + t
  {
  }

  /** The pieces of a sequence built from three parts. */
  lemma Pieces<T>(a: seq<T>, b: seq<T>, c: seq<T>)
    ensures (a + (b + c))[|a|..|a| + |b|] == b
    ensures (a + (b + c))[|a| + |b|..] == c
  {
  }
}
