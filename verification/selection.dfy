/** Order-preserving selection from a sequence: the meaning of a Python list
    comprehension `[x for x in xs if p(x)]`. */
module Selection {

  /** The elements of `xs` satisfying `p`, in their original order. */
  function Select<T>(xs: seq<T>, p: T -> bool): (r: seq<T>)
    ensures |r| <= |xs|
    ensures forall i :: 0 <= i < |r| ==> p(r[i])
    ensures forall x :: x in r ==> x in xs
    decreases |xs|
  {
    if |xs| == 0 then []
    else if p(xs[0]) then [xs[0]] + Select(xs[1..], p)
    else Select(xs[1..], p)
  }

  /** How many elements of `xs` satisfy `p`. */
  function Count<T>(xs: seq<T>, p: T -> bool): (n: nat)
    ensures n <= |xs|
    decreases |xs|
  {
    if |xs| == 0 then 0
    else (if p(xs[0]) then 1 else 0) + Count(xs[1..], p)
  }

  /** `ys` is obtained from `xs` by deleting some elements and keeping the rest in order. */
  ghost predicate IsSubseq<T>(ys: seq<T>, xs: seq<T>)
    decreases |xs|
  {
    if |ys| == 0 then true
    else if |xs| == 0 then false
    else (ys[0] == xs[0] && IsSubseq(ys[1..], xs[1..])) || IsSubseq(ys, xs[1..])
  }

  /** The selection keeps the order of the original sequence. */
  lemma {:induction false} SelectIsSubseq<T>(xs: seq<T>, p: T -> bool)
    ensures IsSubseq(Select(xs, p), xs)
    decreases |xs|
  {
    if |xs| > 0 {
      SelectIsSubseq(xs[1..], p);
      if p(xs[0]) {
        var r := Select(xs, p);
        assert r[0] == xs[0] && r[1..] == Select(xs[1..], p);
      } else {
        SubseqDropFront(Select(xs[1..], p), xs);
      }
    }
  }

  /** A subsequence of the tail is a subsequence of the whole. */
  lemma SubseqDropFront<T>(ys: seq<T>, xs: seq<T>)
    requires |xs| > 0 && IsSubseq(ys, xs[1..])
    ensures IsSubseq(ys, xs)
  {
  }

  /** The selection contains exactly one element per element of `xs` satisfying `p`. */
  lemma {:induction false} SelectLength<T>(xs: seq<T>, p: T -> bool)
    ensures |Select(xs, p)| == Count(xs, p)
    decreases |xs|
  {
    if |xs| > 0 {
      SelectLength(xs[1..], p);
    }
  }

  /** Membership: a value is selected iff it occurs in `xs` and satisfies `p`. */
  lemma {:induction false} SelectMembership<T>(xs: seq<T>, p: T -> bool, x: T)
    ensures x in Select(xs, p) <==> x in xs && p(x)
    decreases |xs|
  {
    if |xs| > 0 {
      SelectMembership(xs[1..], p, x);
      assert x in xs <==> x == xs[0] || x in xs[1..];
    }
  }

  /** A subsequence whose elements all satisfy `p` has at most `Count(xs, p)` elements. */
  lemma {:induction false} SubseqCountBound<T>(ys: seq<T>, xs: seq<T>, p: T -> bool)
    requires IsSubseq(ys, xs)
    requires forall i :: 0 <= i < |ys| ==> p(ys[i])
    ensures |ys| <= Count(xs, p)
    decreases |xs|
  {
    if |ys| > 0 {
      if ys[0] == xs[0] && IsSubseq(ys[1..], xs[1..]) {
        SubseqCountBound(ys[1..], xs[1..], p);
      } else {
        SubseqCountBound(ys, xs[1..], p);
      }
    }
  }

  /** Uniqueness: a subsequence of `xs` whose elements all satisfy `p` and which has
      `Count(xs, p)` elements IS the selection. Together with `SelectIsSubseq` and
      `SelectLength` this characterises `Select` without reference to its definition. */
  lemma {:induction false} SelectUnique<T>(ys: seq<T>, xs: seq<T>, p: T -> bool)
    requires IsSubseq(ys, xs)
    requires forall i :: 0 <= i < |ys| ==> p(ys[i])
    requires |ys| == Count(xs, p)
    ensures ys == Select(xs, p)
    decreases |xs|
  {
    if |xs| == 0 {
    } else if |ys| == 0 {
      SelectLength(xs, p);
    } else if ys[0] == xs[0] && IsSubseq(ys[1..], xs[1..]) {
      assert p(xs[0]);
      SelectUnique(ys[1..], xs[1..], p);
      assert ys == [ys[0]] + ys[1..];
    } else {
      assert IsSubseq(ys, xs[1..]);
      SubseqCountBound(ys, xs[1..], p);
      if p(xs[0]) {
        assert false;
      }
      SelectUnique(ys, xs[1..], p);
    }
  }

  /** Selecting with a predicate that every element satisfies returns the whole sequence. */
  lemma {:induction false} SelectAll<T>(xs: seq<T>, p: T -> bool)
    requires forall i :: 0 <= i < |xs| ==> p(xs[i])
    ensures Select(xs, p) == xs
    decreases |xs|
  {
    if |xs| > 0 {
      SelectAll(xs[1..], p);
      assert xs == [xs[0]] + xs[1..];
    }
  }

  /** Two predicates that agree everywhere select the same elements. */
  lemma {:induction false} SelectExtensional<T>(xs: seq<T>, p: T -> bool, q: T -> bool)
    requires forall x :: p(x) == q(x)
    ensures Select(xs, p) == Select(xs, q)
    decreases |xs|
  {
    if |xs| > 0 {
      SelectExtensional(xs[1..], p, q);
    }
  }

  /** Filtering twice is filtering once by the conjunction. */
  lemma {:induction false} SelectSelect<T>(xs: seq<T>, p: T -> bool, q: T -> bool, pq: T -> bool)
    requires forall x :: pq(x) == (p(x) && q(x))
    ensures Select(Select(xs, p), q) == Select(xs, pq)
    decreases |xs|
  {
    if |xs| > 0 {
      SelectSelect(xs[1..], p, q, pq);
      if p(xs[0]) {
        assert Select(xs, p) == [xs[0]] + Select(xs[1..], p);
        assert ([xs[0]] + Select(xs[1..], p))[1..] == Select(xs[1..], p);
      }
    }
  }
}
