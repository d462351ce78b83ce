/** Facts about concatenation that proofs have to be pointed at. */
module Sequences {

  lemma Assoc<T>(a: seq<T>, b: seq<T>, c: seq<T>)
    ensures a + (b + c) == (a + b) + c
  {
  }

  lemma SplitAt<T>(a: seq<T>, b: seq<T>)
    ensures (a + b)[..|a|] == a && (a + b)[|a|..] == b
  {
  }

  /** Where two ways of cutting a sequence overlap. */
  lemma Peel<T>(a: seq<T>, b: seq<T>, w: seq<T>, rest: seq<T>)
    requires w + rest == a + b && |a| <= |w|
    ensures w == a + w[|a|..] && w[|a|..] + rest == b
  {
    SplitAt(a, b);
    assert w[..|a|] == (w + rest)[..|a|];
    assert w[|a|..] + rest == (w + rest)[|a|..];
    assert w == w[..|a|] + w[|a|..];
  }
}
