/**
 * Benjamini-Hochberg false-discovery-rate correction (benjamini_hochberg in
 * analyze_microbiome.py).
 *
 * The p-values are ranked with an argsort permutation, each ranked value is
 * scaled by n / rank, a running minimum is taken from the largest rank down,
 * the result is clipped to [0, 1] and scattered back to the original positions.
 *
 * BH is the reference definition on sequences; the method BenjaminiHochberg
 * computes it on arrays, step by step, as the source does.
 */
module BenjaminiHochberg {

  function Min(a: real, b: real): real
  {
    if a <= b then a else b
  }

  /** x clamped into the interval [0, 1]. */
  function Clip(x: real): (r: real)
    ensures 0.0 <= r <= 1.0
    ensures 0.0 <= x <= 1.0 ==> r == x
    ensures x < 0.0 ==> r == 0.0
    ensures x > 1.0 ==> r == 1.0
  {
    if x < 0.0 then 0.0 else if x > 1.0 then 1.0 else x
  }

  // ---------------------------------------------------------------------------
  // The argsort permutation
  // ---------------------------------------------------------------------------

  ghost predicate Distinct(s: seq<nat>)
  {
    forall k, l :: 0 <= k < l < |s| ==> s[k] != s[l]
  }

  /** `order` lists every index 0 .. n-1 exactly once. */
  ghost predicate IsPermutation(order: seq<nat>, n: nat)
  {
    && |order| == n
    && (forall k :: 0 <= k < n ==> order[k] < n)
    && Distinct(order)
    && (forall i :: 0 <= i < n ==> i in order)
  }

  /** The keys p[order[0]], p[order[1]], ... are in ascending order. */
  ghost predicate Ascending(p: seq<real>, order: seq<nat>)
  {
    forall k, l :: 0 <= k < l < |order| && order[k] < |p| && order[l] < |p| ==> p[order[k]] <= p[order[l]]
  }

  /** `order` is any permutation of the indices of p that lists them by ascending p-value. */
  ghost predicate SortsBy(p: seq<real>, order: seq<nat>)
  {
    IsPermutation(order, |p|) && Ascending(p, order)
  }

  /** Inserts index i after every index whose key is at most p[i] (so equal keys stay in index order). */
  function InsertIndex(p: seq<real>, i: nat, s: seq<nat>): (r: seq<nat>)
    requires i < |p|
    requires forall k :: 0 <= k < |s| ==> s[k] < |p|
    ensures |r| == |s| + 1
    ensures forall x :: x in r <==> x == i || x in s
    ensures forall k :: 0 <= k < |r| ==> r[k] < |p|
  {
    if s == [] then [i]
    else if p[i] < p[s[0]] then [i] + s
    else [s[0]] + InsertIndex(p, i, s[1..])
  }

  lemma {:induction false} InsertIndexDistinct(p: seq<real>, i: nat, s: seq<nat>)
    requires i < |p|
    requires forall k :: 0 <= k < |s| ==> s[k] < |p|
    requires Distinct(s) && i !in s
    ensures Distinct(InsertIndex(p, i, s))
  {
    if s != [] && p[s[0]] <= p[i] {
      var t := InsertIndex(p, i, s[1..]);
      InsertIndexDistinct(p, i, s[1..]);
      forall j | 0 <= j < |s| - 1
        ensures s[1..][j] != s[0]
      {
        assert s[1..][j] == s[j + 1];
      }
      assert s[0] !in t;
      var r := [s[0]] + t;
      forall k, l | 0 <= k < l < |r|
        ensures r[k] != r[l]
      {
        if k == 0 {
          assert r[l] == t[l - 1];
          assert t[l - 1] in t;
        } else {
          assert r[k] == t[k - 1] && r[l] == t[l - 1];
        }
      }
    }
  }

  /** An index whose key is at most every key of an ascending order extends it at the front. */
  lemma ConsAscending(p: seq<real>, h: nat, t: seq<nat>)
    requires h < |p| && forall k :: 0 <= k < |t| ==> t[k] < |p|
    requires Ascending(p, t)
    requires forall x :: x in t ==> x < |p| && p[h] <= p[x]
    ensures Ascending(p, [h] + t)
  {
    var r := [h] + t;
    forall k, l | 0 <= k < l < |r| ensures p[r[k]] <= p[r[l]] {
      if k == 0 {
        assert r[l] == t[l - 1] && t[l - 1] in t;
      } else {
        assert r[k] == t[k - 1] && r[l] == t[l - 1];
      }
    }
  }

  /** The head of an ascending order has a key at most each key of its tail, and the tail is ascending. */
  lemma HeadAscendingTail(p: seq<real>, s: seq<nat>)
    requires |s| > 0 && forall k :: 0 <= k < |s| ==> s[k] < |p|
    requires Ascending(p, s)
    ensures forall x :: x in s[1..] ==> x < |p| && p[s[0]] <= p[x]
    ensures Ascending(p, s[1..])
  {
    forall x | x in s[1..] ensures x < |p| && p[s[0]] <= p[x] {
      var j :| 0 <= j < |s[1..]| && s[1..][j] == x;
      assert s[j + 1] == x;
    }
    var t := s[1..];
    forall k, l | 0 <= k < l < |t| ensures p[t[k]] <= p[t[l]] {
      assert t[k] == s[k + 1] && t[l] == s[l + 1];
    }
  }

  lemma {:induction false} InsertIndexAscending(p: seq<real>, i: nat, s: seq<nat>)
    requires i < |p|
    requires forall k :: 0 <= k < |s| ==> s[k] < |p|
    requires Ascending(p, s)
    ensures Ascending(p, InsertIndex(p, i, s))
  {
    if s != [] {
      HeadAscendingTail(p, s);
      assert s == [s[0]] + s[1..];
      if p[i] < p[s[0]] {
        ConsAscending(p, i, s);
      } else {
        var t := InsertIndex(p, i, s[1..]);
        InsertIndexAscending(p, i, s[1..]);
        ConsAscending(p, s[0], t);
      }
    }
  }

  /** Sorts the indices 0 .. m-1 by their keys. */
  function ArgSortPrefix(p: seq<real>, m: nat): (order: seq<nat>)
    requires m <= |p|
    ensures |order| == m
    ensures forall x :: x in order <==> 0 <= x < m
    ensures forall k :: 0 <= k < |order| ==> order[k] < |p|
    ensures Distinct(order) && Ascending(p, order)
  {
    if m == 0 then []
    else
      var prev := ArgSortPrefix(p, m - 1);
      assert m - 1 !in prev;
      InsertIndexDistinct(p, m - 1, prev);
      InsertIndexAscending(p, m - 1, prev);
      var r := InsertIndex(p, m - 1, prev);
      assert forall x :: x in r <==> 0 <= x < m;
      r
  }

  /** A sorting permutation: the indices of p listed by ascending p-value. */
  function ArgSort(p: seq<real>): (order: seq<nat>)
    ensures SortsBy(p, order)
  {
    ArgSortPrefix(p, |p|)
  }

  /** The values of p listed in the order given by `order`. */
  function Permute(p: seq<real>, order: seq<nat>): (r: seq<real>)
    requires forall k :: 0 <= k < |order| ==> order[k] < |p|
    ensures |r| == |order|
    ensures forall k :: 0 <= k < |order| ==> r[k] == p[order[k]]
  {
    seq(|order|, k requires 0 <= k < |order| => p[order[k]])
  }

  function IndexOf(s: seq<nat>, x: nat): (k: nat)
    requires x in s
    ensures k < |s| && s[k] == x
  {
    if s[0] == x then 0 else 1 + IndexOf(s[1..], x)
  }

  // ---------------------------------------------------------------------------
  // The step-up values in rank order
  // ---------------------------------------------------------------------------

  /** A p-value of 1-based rank `rank` among n, scaled by n / rank. */
  function ScaleAt(v: real, n: nat, rank: nat): real
    requires rank > 0
  {
    v * (n as real) / (rank as real)
  }

  /** Each ranked value scaled by n over its rank: the value at rank k (0-based) is scaled by n / (k + 1). */
  function Scaled(ranked: seq<real>): (s: seq<real>)
    ensures |s| == |ranked|
    ensures forall k :: 0 <= k < |s| ==> s[k] == ScaleAt(ranked[k], |ranked|, k + 1)
  {
    seq(|ranked|, k requires 0 <= k < |ranked| => ScaleAt(ranked[k], |ranked|, k + 1))
  }

  /** The minimum of s[k..]: the running minimum taken from the last entry down. */
  function SuffixMin(s: seq<real>, k: nat): (m: real)
    requires k < |s|
    ensures forall j :: k <= j < |s| ==> m <= s[j]
    ensures exists j :: k <= j < |s| && m == s[j]
    decreases |s| - k
  {
    if k == |s| - 1 then s[k] else Min(s[k], SuffixMin(s, k + 1))
  }

  /** Scale, take the running minimum from the largest rank down, clip. */
  function StepUp(ranked: seq<real>): (q: seq<real>)
    ensures |q| == |ranked|
    ensures forall k :: 0 <= k < |q| ==> 0.0 <= q[k] <= 1.0
  {
    seq(|ranked|, k requires 0 <= k < |ranked| => Clip(SuffixMin(Scaled(ranked), k)))
  }

  /** The q-values, each written back to the position of its p-value. */
  function BH(p: seq<real>): (q: seq<real>)
    ensures |q| == |p|
    ensures forall i :: 0 <= i < |q| ==> 0.0 <= q[i] <= 1.0
  {
    var order := ArgSort(p);
    seq(|p|, i requires 0 <= i < |p| => StepUp(Permute(p, order))[IndexOf(order, i)])
  }

  // ---------------------------------------------------------------------------
  // Arithmetic facts about the scale factor n / rank
  // ---------------------------------------------------------------------------

  lemma DivAntitone(c: real, a: real, b: real)
    requires c >= 0.0 && 0.0 < a <= b
    ensures c / b <= c / a
  {
    var u := c / b;
    assert u * b == c;
    assert u >= 0.0;
    assert u * a <= u * b;
    assert u * a <= c;
    assert u <= c / a;
  }

  /** A non-negative value is scaled less at a higher rank. */
  lemma ScaleAntitone(v: real, n: nat, a: nat, b: nat)
    requires v >= 0.0 && 0 < a <= b
    ensures ScaleAt(v, n, b) <= ScaleAt(v, n, a)
  {
    assert v * (n as real) >= 0.0;
    DivAntitone(v * (n as real), a as real, b as real);
  }

  /** A negative value stays negative. */
  lemma ScaleNegative(v: real, n: nat, a: nat)
    requires v < 0.0 && 0 < a && 0 < n
    ensures ScaleAt(v, n, a) < 0.0
  {
    assert v * (n as real) < 0.0;
  }

  /** Scaling by n / rank with rank <= n never lowers a non-negative value. */
  lemma ScaleAtLeast(v: real, n: nat, a: nat)
    requires v >= 0.0 && 0 < a <= n
    ensures ScaleAt(v, n, a) >= v
  {
    ScaleAntitone(v, n, a, n);
    assert v * (n as real) / (n as real) == v;
  }

  /** At the largest rank the scale factor is n / n = 1. */
  lemma ScaleAtLast(v: real, n: nat)
    requires n > 0
    ensures ScaleAt(v, n, n) == v
  {
    assert v * (n as real) / (n as real) == v;
  }

  // ---------------------------------------------------------------------------
  // Properties of the step-up values over a sorted sequence
  // ---------------------------------------------------------------------------

  ghost predicate NonDecreasing(s: seq<real>)
  {
    forall k, l :: 0 <= k < l < |s| ==> s[k] <= s[l]
  }

  /** A stretch of entries no smaller than s[l] does not move the running minimum. */
  lemma {:induction false} SuffixMinFlat(s: seq<real>, j: nat, l: nat)
    requires j <= l < |s|
    requires forall t :: j <= t < l ==> s[t] >= s[l]
    ensures SuffixMin(s, j) == SuffixMin(s, l)
    decreases l - j
  {
    if j < l {
      SuffixMinFlat(s, j + 1, l);
      assert SuffixMin(s, l) <= s[l];
    }
  }

  /** The corrected sequence is non-decreasing in rank. */
  lemma StepUpNonDecreasing(r: seq<real>)
    ensures NonDecreasing(StepUp(r))
  {
    var s := Scaled(r);
    forall k, l | 0 <= k < l < |r|
      ensures StepUp(r)[k] <= StepUp(r)[l]
    {
      var j :| l <= j < |s| && SuffixMin(s, l) == s[j];
      assert SuffixMin(s, k) <= s[j];
    }
  }

  /** An equal non-negative value at a later rank is scaled no higher. */
  lemma ScaledTie(r: seq<real>, t: nat, l: nat)
    requires t < l < |r| && r[t] == r[l] && r[l] >= 0.0
    ensures Scaled(r)[t] >= Scaled(r)[l]
  {
    var v := r[l];
    assert Scaled(r)[t] == ScaleAt(v, |r|, t + 1);
    assert Scaled(r)[l] == ScaleAt(v, |r|, l + 1);
    ScaleAntitone(v, |r|, t + 1, l + 1);
  }

  /** Between two equal non-negative ranked values the scaled values do not drop below the later one. */
  lemma TiedNonNegative(r: seq<real>, k: nat, l: nat)
    requires NonDecreasing(r)
    requires k < l < |r| && r[k] == r[l] && r[l] >= 0.0
    ensures SuffixMin(Scaled(r), k) == SuffixMin(Scaled(r), l)
  {
    var s := Scaled(r);
    forall t | k <= t < l
      ensures s[t] >= s[l]
    {
      assert r[k] <= r[t] <= r[l];
      ScaledTie(r, t, l);
    }
    SuffixMinFlat(s, k, l);
  }

  /** A negative ranked value makes the running minimum negative at its rank and before. */
  lemma TiedNegative(r: seq<real>, k: nat, l: nat)
    requires k < l < |r| && r[l] < 0.0
    ensures SuffixMin(Scaled(r), l) < 0.0 && SuffixMin(Scaled(r), k) < 0.0
  {
    var s := Scaled(r);
    ScaleNegative(r[l], |r|, l + 1);
    assert SuffixMin(s, l) < 0.0;
    var j :| l <= j < |s| && SuffixMin(s, l) == s[j];
    assert SuffixMin(s, k) <= s[j];
  }

  /** Equal values at two ranks of a sorted sequence receive equal corrected values. */
  lemma StepUpTies(r: seq<real>, k: nat, l: nat)
    requires NonDecreasing(r)
    requires k < l < |r| && r[k] == r[l]
    ensures StepUp(r)[k] == StepUp(r)[l]
  {
    if r[l] >= 0.0 {
      TiedNonNegative(r, k, l);
    } else {
      TiedNegative(r, k, l);
    }
  }

  /** For values in [0, 1], correction never lowers a value. */
  lemma StepUpDominates(r: seq<real>, k: nat)
    requires NonDecreasing(r)
    requires k < |r| && 0.0 <= r[k] <= 1.0
    ensures r[k] <= StepUp(r)[k]
  {
    var s := Scaled(r);
    var m := SuffixMin(s, k);
    var j :| k <= j < |s| && m == s[j];
    assert r[k] <= r[j];
    ScaleAtLeast(r[j], |r|, j + 1);
    assert s[j] == ScaleAt(r[j], |r|, j + 1);
    assert r[k] <= m;
    assert StepUp(r)[k] == Clip(m);
  }

  /** The largest rank is scaled by n / n = 1, so only the clip applies. */
  lemma StepUpLast(r: seq<real>)
    requires |r| > 0
    ensures StepUp(r)[|r| - 1] == Clip(r[|r| - 1])
  {
    ScaleAtLast(r[|r| - 1], |r|);
  }

  // ---------------------------------------------------------------------------
  // Properties of BH
  // ---------------------------------------------------------------------------

  /** The p-value at sorted rank k receives the corrected value at rank k. */
  lemma BHAtRank(p: seq<real>, k: nat)
    requires k < |p|
    ensures BH(p)[ArgSort(p)[k]] == StepUp(Permute(p, ArgSort(p)))[k]
  {
    var order := ArgSort(p);
    var j := IndexOf(order, order[k]);
    assert Distinct(order);
    assert j == k;
  }

  /**
   * The closed form: the q-value of the p-value at sorted rank k is the least
   * of min(1, max(0, p_(j) * n / (j + 1))) over the ranks j >= k.
   */
  lemma BHClosedForm(p: seq<real>, k: nat)
    requires k < |p|
    ensures forall j :: k <= j < |p| ==>
      BH(p)[ArgSort(p)[k]] <= Clip(ScaleAt(p[ArgSort(p)[j]], |p|, j + 1))
    ensures exists j :: (k <= j < |p| &&
      BH(p)[ArgSort(p)[k]] == Clip(ScaleAt(p[ArgSort(p)[j]], |p|, j + 1)))
  {
    var order := ArgSort(p);
    var r := Permute(p, order);
    var s := Scaled(r);
    BHAtRank(p, k);
    var m := SuffixMin(s, k);
    assert BH(p)[order[k]] == Clip(m);
    forall j | k <= j < |p|
      ensures BH(p)[order[k]] <= Clip(ScaleAt(p[order[j]], |p|, j + 1))
    {
      assert s[j] == ScaleAt(p[order[j]], |p|, j + 1);
    }
    var j :| k <= j < |s| && m == s[j];
    assert s[j] == ScaleAt(p[order[j]], |p|, j + 1);
  }

  /** Over a sorted sequence, a smaller or equal value never receives a larger corrected value. */
  lemma StepUpOrderPreserving(r: seq<real>, k: nat, l: nat)
    requires NonDecreasing(r)
    requires k < |r| && l < |r| && r[k] <= r[l]
    ensures StepUp(r)[k] <= StepUp(r)[l]
  {
    if k < l {
      StepUpNonDecreasing(r);
    } else if l < k {
      assert r[l] <= r[k];
      StepUpTies(r, l, k);
    }
  }

  /** The p-values in argsort order are non-decreasing. */
  lemma RankedNonDecreasing(p: seq<real>)
    ensures NonDecreasing(Permute(p, ArgSort(p)))
  {
    var order := ArgSort(p);
    var r := Permute(p, order);
    forall k, l | 0 <= k < l < |r|
      ensures r[k] <= r[l]
    {
      assert r[k] == p[order[k]] && r[l] == p[order[l]];
    }
  }

  /** The q-value at position i is the corrected value at the rank of p[i]. */
  lemma BHAt(p: seq<real>, i: nat)
    requires i < |p|
    ensures var order := ArgSort(p);
      var k := IndexOf(order, i);
      && Permute(p, order)[k] == p[i]
      && BH(p)[i] == StepUp(Permute(p, order))[k]
  {
  }

  /** BH is order-preserving: a smaller or equal p-value never receives a larger q-value. */
  lemma BHMonotone(p: seq<real>, a: nat, b: nat)
    requires a < |p| && b < |p|
    requires p[a] <= p[b]
    ensures BH(p)[a] <= BH(p)[b]
  {
    var order := ArgSort(p);
    var r := Permute(p, order);
    BHAt(p, a);
    BHAt(p, b);
    RankedNonDecreasing(p);
    StepUpOrderPreserving(r, IndexOf(order, a), IndexOf(order, b));
  }

  /** Tied p-values receive equal q-values. */
  lemma BHTies(p: seq<real>, a: nat, b: nat)
    requires a < |p| && b < |p|
    requires p[a] == p[b]
    ensures BH(p)[a] == BH(p)[b]
  {
    BHMonotone(p, a, b);
    BHMonotone(p, b, a);
  }

  /** The q-values listed in sorted-p order are non-decreasing. */
  lemma BHSortedNonDecreasing(p: seq<real>)
    ensures NonDecreasing(Permute(BH(p), ArgSort(p)))
  {
    var order := ArgSort(p);
    forall k, l | 0 <= k < l < |p|
      ensures BH(p)[order[k]] <= BH(p)[order[l]]
    {
      BHMonotone(p, order[k], order[l]);
    }
  }

  /** For a p-value in [0, 1], the q-value is at least the p-value. */
  lemma BHDominates(p: seq<real>, i: nat)
    requires i < |p| && 0.0 <= p[i] <= 1.0
    ensures p[i] <= BH(p)[i]
  {
    var order := ArgSort(p);
    BHAt(p, i);
    RankedNonDecreasing(p);
    StepUpDominates(Permute(p, order), IndexOf(order, i));
  }

  /** A largest value of a sorted sequence is only clipped. */
  lemma StepUpAtMaximum(r: seq<real>, k: nat)
    requires NonDecreasing(r)
    requires k < |r| && forall j :: 0 <= j < |r| ==> r[j] <= r[k]
    ensures StepUp(r)[k] == Clip(r[k])
  {
    StepUpLast(r);
    assert r[|r| - 1] <= r[k];
    if k < |r| - 1 {
      StepUpTies(r, k, |r| - 1);
    }
  }

  /** The largest p-value is left as it is, apart from the clip: its q-value is min(1, p_max) for p_max >= 0. */
  lemma BHLargest(p: seq<real>, i: nat)
    requires i < |p|
    requires forall j :: 0 <= j < |p| ==> p[j] <= p[i]
    ensures BH(p)[i] == Clip(p[i])
    ensures 0.0 <= p[i] ==> BH(p)[i] == Min(1.0, p[i])
  {
    var order := ArgSort(p);
    var r := Permute(p, order);
    var n := |p|;
    var k := IndexOf(order, i);
    BHAt(p, i);
    RankedNonDecreasing(p);
    forall j | 0 <= j < n
      ensures r[j] <= r[k]
    {
      assert r[j] == p[order[j]];
    }
    StepUpAtMaximum(r, k);
  }

  // ---------------------------------------------------------------------------
  // Independence from the order of tied p-values
  // ---------------------------------------------------------------------------

  /** s with its entry at position j taken out. */
  function Without<T>(s: seq<T>, j: nat): (r: seq<T>)
    requires j < |s|
    ensures |r| == |s| - 1
    ensures forall k :: 0 <= k < |r| ==> r[k] == if k < j then s[k] else s[k + 1]
  {
    s[..j] + s[j + 1..]
  }

  /** Taking out the entry at j removes exactly that one value. */
  lemma WithoutMultiset<T>(s: seq<T>, j: nat)
    requires j < |s|
    ensures multiset(Without(s, j)) + multiset{s[j]} == multiset(s)
  {
    assert s == s[..j] + [s[j]] + s[j + 1..];
  }

  /** Dropping the largest index from a permutation of 0 .. n leaves a permutation of 0 .. n-1. */
  lemma DropLargest(order: seq<nat>, n: nat, j: nat)
    requires IsPermutation(order, n + 1)
    requires j < |order| && order[j] == n
    ensures IsPermutation(Without(order, j), n)
  {
    var rest := Without(order, j);
    forall k | 0 <= k < |rest| ensures rest[k] < n {
      var k' := if k < j then k else k + 1;
      assert rest[k] == order[k'] && k' != j;
    }
    forall i | 0 <= i < n ensures i in rest {
      var t := IndexOf(order, i);
      assert t != j;
      if t < j {
        assert rest[t] == i;
      } else {
        assert rest[t - 1] == i;
      }
    }
    forall k, l | 0 <= k < l < |rest| ensures rest[k] != rest[l] {
      var k' := if k < j then k else k + 1;
      var l' := if l < j then l else l + 1;
      assert k' < l' && rest[k] == order[k'] && rest[l] == order[l'];
    }
  }

  /** Listing p through indices below n reads only its first n values. */
  lemma PermutePrefix(p: seq<real>, n: nat, order: seq<nat>)
    requires n <= |p|
    requires forall k :: 0 <= k < |order| ==> order[k] < n
    ensures Permute(p[..n], order) == Permute(p, order)
  {
  }

  /** Taking an index out of the order takes its value out of the listing. */
  lemma PermuteWithout(p: seq<real>, order: seq<nat>, j: nat)
    requires forall k :: 0 <= k < |order| ==> order[k] < |p|
    requires j < |order|
    ensures Permute(p, Without(order, j)) == Without(Permute(p, order), j)
  {
  }

  /** A non-empty sequence's values are those of its front and its last value. */
  lemma FrontAndLast(p: seq<real>)
    requires |p| > 0
    ensures multiset(p) == multiset(p[..|p| - 1]) + multiset{p[|p| - 1]}
  {
    assert p == p[..|p| - 1] + [p[|p| - 1]];
  }

  /** Reordering the values by a permutation of their indices keeps their multiset. */
  lemma {:induction false} PermuteMultiset(p: seq<real>, order: seq<nat>)
    requires IsPermutation(order, |p|)
    ensures multiset(Permute(p, order)) == multiset(p)
    decreases |p|
  {
    if |p| > 0 {
      var n := |p| - 1;
      var j := IndexOf(order, n);
      var rest := Without(order, j);
      DropLargest(order, n, j);
      PermuteMultiset(p[..n], rest);
      PermutePrefix(p, n, rest);
      PermuteWithout(p, order, j);
      WithoutMultiset(Permute(p, order), j);
      FrontAndLast(p);
    }
  }

  /** The head of a non-decreasing sequence is at most each of its values. */
  lemma HeadIsLeast(a: seq<real>, x: real)
    requires NonDecreasing(a) && x in a
    ensures a[0] <= x
  {
    var i :| 0 <= i < |a| && a[i] == x;
    if i > 0 {
      assert a[0] <= a[i];
    }
  }

  /** Dropping the head of a non-decreasing sequence leaves it non-decreasing. */
  lemma TailNonDecreasing(a: seq<real>)
    requires NonDecreasing(a) && |a| > 0
    ensures NonDecreasing(a[1..])
  {
    var t := a[1..];
    forall k, l | 0 <= k < l < |t| ensures t[k] <= t[l] {
      assert t[k] == a[k + 1] && t[l] == a[l + 1];
    }
  }

  /** A sequence's values are its head's and its tail's. */
  lemma HeadAndTail(a: seq<real>)
    requires |a| > 0
    ensures multiset(a) == multiset{a[0]} + multiset(a[1..])
  {
    assert a == [a[0]] + a[1..];
  }

  /** Two non-decreasing sequences holding the same values are equal. */
  lemma {:induction false} SortedUnique(a: seq<real>, b: seq<real>)
    requires NonDecreasing(a) && NonDecreasing(b)
    requires multiset(a) == multiset(b)
    ensures a == b
    decreases |a|
  {
    assert |a| == |multiset(a)| == |multiset(b)| == |b|;
    if |a| > 0 {
      assert a[0] in multiset(b) && b[0] in multiset(a);
      HeadIsLeast(b, a[0]);
      HeadIsLeast(a, b[0]);
      HeadAndTail(a);
      HeadAndTail(b);
      assert a[0] == b[0];
      assert multiset(a[1..]) == multiset(a) - multiset{a[0]};
      assert multiset(a[1..]) == multiset(b[1..]);
      TailNonDecreasing(a);
      TailNonDecreasing(b);
      SortedUnique(a[1..], b[1..]);
    }
  }

  /**
   * BH does not depend on how the argsort orders tied p-values: for every
   * permutation that sorts p, writing its step-up values back through it gives BH(p).
   */
  lemma BHAnySortingOrder(p: seq<real>, order: seq<nat>)
    requires SortsBy(p, order)
    ensures forall k :: 0 <= k < |p| ==> BH(p)[order[k]] == StepUp(Permute(p, order))[k]
  {
    var canon := ArgSort(p);
    var r := Permute(p, canon);
    var r' := Permute(p, order);
    RankedNonDecreasing(p);
    forall k, l | 0 <= k < l < |r'| ensures r'[k] <= r'[l] {
      assert r'[k] == p[order[k]] && r'[l] == p[order[l]];
    }
    PermuteMultiset(p, canon);
    PermuteMultiset(p, order);
    SortedUnique(r, r');
    forall k | 0 <= k < |p| ensures BH(p)[order[k]] == StepUp(r')[k] {
      var i := order[k];
      BHAt(p, i);
      var k0 := IndexOf(canon, i);
      assert r[k0] == p[i] == r'[k];
      if k0 < k {
        StepUpTies(r, k0, k);
      } else if k < k0 {
        StepUpTies(r, k, k0);
      }
    }
  }

  // ---------------------------------------------------------------------------
  // The imperative computation
  // ---------------------------------------------------------------------------

  /** The p-values in ranked order, each scaled by n over its rank, in a fresh array. */
  method ScaleRanked(pvals: array<real>, order: seq<nat>) returns (q: array<real>)
    requires |order| == pvals.Length
    requires forall k :: 0 <= k < |order| ==> order[k] < pvals.Length
    ensures fresh(q)
    ensures q[..] == Scaled(Permute(pvals[..], order))
  {
    var n := pvals.Length;
    q := new real[n];
    var k := 0;
    while k < n
      invariant 0 <= k <= n
      invariant forall j :: 0 <= j < k ==> q[j] == ScaleAt(pvals[order[j]], n, j + 1)
    {
      q[k] := ScaleAt(pvals[order[k]], n, k + 1);
      k := k + 1;
    }
  }

  /** In place: a running minimum from the last entry down. */
  method AccumulateMinFromEnd(q: array<real>)
    modifies q
    ensures forall j :: 0 <= j < q.Length ==> q[j] == SuffixMin(old(q[..]), j)
  {
    var n := q.Length;
    if n == 0 {
      return;
    }
    ghost var s := q[..];
    var k := n - 1;
    while k > 0
      invariant 0 <= k < n
      invariant q[..k] == s[..k]
      invariant forall j :: k <= j < n ==> q[j] == SuffixMin(s, j)
    {
      k := k - 1;
      q[k] := Min(q[k], q[k + 1]);
    }
  }

  /** In place: every entry clamped into [0, 1]. */
  method ClipInPlace(q: array<real>)
    modifies q
    ensures forall j :: 0 <= j < q.Length ==> q[j] == Clip(old(q[j]))
  {
    var k := 0;
    while k < q.Length
      invariant 0 <= k <= q.Length
      invariant forall j :: 0 <= j < k ==> q[j] == Clip(old(q[j]))
      invariant forall j :: k <= j < q.Length ==> q[j] == old(q[j])
    {
      q[k] := Clip(q[k]);
      k := k + 1;
    }
  }

  /** A fresh array holding q[k] at position order[k] for every rank k. */
  method ScatterBack(q: array<real>, order: seq<nat>) returns (out: array<real>)
    requires IsPermutation(order, q.Length)
    ensures fresh(out) && out.Length == q.Length
    ensures forall k :: 0 <= k < |order| ==> out[order[k]] == q[k]
  {
    out := new real[q.Length];
    var k := 0;
    while k < q.Length
      invariant 0 <= k <= q.Length
      invariant forall j :: 0 <= j < k ==> out[order[j]] == q[j]
    {
      out[order[k]] := q[k];
      k := k + 1;
    }
  }

  /**
   * benjamini_hochberg: an empty input is returned as it is; otherwise a fresh
   * array holds, at each position, the q-value of the p-value at that position.
   */
  method BenjaminiHochberg(pvals: array<real>) returns (out: array<real>)
    ensures out[..] == BH(pvals[..])
    ensures pvals.Length == 0 ==> out == pvals
    ensures pvals.Length > 0 ==> fresh(out)
  {
    var n := pvals.Length;
    if n == 0 {
      return pvals;
    }
    var order := ArgSort(pvals[..]);
    ghost var ranked := Permute(pvals[..], order);
    ghost var scaled := Scaled(ranked);
    var q := ScaleRanked(pvals, order);
    AccumulateMinFromEnd(q);
    ClipInPlace(q);
    assert forall j :: 0 <= j < n ==> q[j] == StepUp(ranked)[j];
    out := ScatterBack(q, order);
    forall i | 0 <= i < n
      ensures out[i] == BH(pvals[..])[i]
    {
      var j := IndexOf(order, i);
      assert out[order[j]] == q[j];
    }
  }
}
