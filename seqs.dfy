/**
 * Order-preserving filters over sequences: the boolean-mask row selections
 * and the list comprehensions with an `if` that the analysis uses.
 */
module Seqs {

  /** a can be obtained from b by deleting elements (order is kept). */
  predicate IsSubsequence<T(==)>(a: seq<T>, b: seq<T>)
    decreases |b|
  {
    a == [] || (b != [] && ((a[0] == b[0] && IsSubsequence(a[1..], b[1..])) || IsSubsequence(a, b[1..])))
  }

  /** The elements of s that satisfy f, in their original order. */
  function Filter<T(==, !new)>(s: seq<T>, f: T -> bool): (r: seq<T>)
    ensures |r| <= |s|
    ensures forall x :: x in r <==> x in s && f(x)
    ensures forall x :: multiset(r)[x] == if f(x) then multiset(s)[x] else 0
    ensures IsSubsequence(r, s)
  {
    if s == [] then []
    else
      var rest := Filter(s[1..], f);
      assert s == [s[0]] + s[1..];
      if f(s[0]) then [s[0]] + rest else rest
  }

  /** The predicate that holds where neither f nor g does. */
  function Neither<T>(f: T -> bool, g: T -> bool): T -> bool
  {
    x => !f(x) && !g(x)
  }

  /** Two exclusive filters and the rows neither keeps split a sequence exactly. */
  lemma {:induction false} FilterSplit<T(!new)>(s: seq<T>, f: T -> bool, g: T -> bool)
    requires forall x :: !(f(x) && g(x))
    ensures |Filter(s, f)| + |Filter(s, g)| + |Filter(s, Neither(f, g))| == |s|
  {
    if s != [] {
      FilterSplit(s[1..], f, g);
      assert Neither(f, g)(s[0]) == (!f(s[0]) && !g(s[0]));
    }
  }
}
