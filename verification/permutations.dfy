/** A step used in proofs about reorderings of a sequence. */
module Permutations {

  /** Cutting a sequence around position `j`: the element there and what is
      left on either side. */
  lemma CutAt<T>(ys: seq<T>, j: nat)
    requires j < |ys|
    ensures ys == ys[..j] + [ys[j]] + ys[j + 1..]
    ensures multiset(ys) == multiset(ys[..j] + ys[j + 1..]) + multiset{ys[j]}
  {
    var pre, post := ys[..j], ys[j + 1..];
    assert ys == pre + [ys[j]] + post;
    calc {
      multiset(ys);
      multiset(pre + [ys[j]]) + multiset(post);
      multiset(pre) + multiset{ys[j]} + multiset(post);
      multiset(pre + post) + multiset{ys[j]};
    }
  }

  /** Multisets that agree once the same element is added to both agree. */
  lemma CancelOne<T>(a: multiset<T>, b: multiset<T>, x: T)
    requires a + multiset{x} == b + multiset{x}
    ensures a == b
  {
    forall y
      ensures a[y] == b[y]
    {
      assert (a + multiset{x})[y] == (b + multiset{x})[y];
    }
  }

  /** Where the first element of `xs` sits in a permutation `ys` of it, and
      what is left of both once it is taken out. */
  lemma FindFirst<T>(xs: seq<T>, ys: seq<T>) returns (pre: seq<T>, post: seq<T>)
    requires xs != [] && multiset(xs) == multiset(ys)
    ensures ys == pre + [xs[0]] + post
    ensures multiset(xs[1..]) == multiset(pre + post)
  {
    var x := xs[0];
    assert x in multiset(ys);
    var j :| 0 <= j < |ys| && ys[j] == x;
    pre, post := ys[..j], ys[j + 1..];
    CutAt(ys, j);
    CutAt(xs, 0);
    assert xs[..0] + xs[1..] == xs[1..];
    CancelOne(multiset(xs[1..]), multiset(pre + post), x);
  }
}
