/**
 * Python's ordering of sample identifiers and sorted(set(...)): the list of
 * distinct identifiers in ascending order, as printed in a mismatch report.
 */
module IdOrder {
  import opened Tables

  /** Lexicographic order on strings by code point; a proper prefix comes first. */
  predicate StrLess(a: string, b: string)
  {
    if a == [] then b != []
    else if b == [] then false
    else a[0] < b[0] || (a[0] == b[0] && StrLess(a[1..], b[1..]))
  }

  lemma {:induction false} StrLessIrreflexive(a: string)
    ensures !StrLess(a, a)
  {
    if a != [] {
      StrLessIrreflexive(a[1..]);
    }
  }

  lemma {:induction false} StrLessTransitive(a: string, b: string, c: string)
    requires StrLess(a, b) && StrLess(b, c)
    ensures StrLess(a, c)
  {
    if a != [] && a[0] == b[0] && b[0] == c[0] {
      StrLessTransitive(a[1..], b[1..], c[1..]);
    }
  }

  lemma {:induction false} StrLessTotal(a: string, b: string)
    requires a != b
    ensures StrLess(a, b) || StrLess(b, a)
  {
    if a != [] && b != [] && a[0] == b[0] {
      assert a == [a[0]] + a[1..] && b == [b[0]] + b[1..];
      StrLessTotal(a[1..], b[1..]);
    }
  }

  /**
   * The order sorted() applies: numbers by value, strings lexicographically.
   * Python refuses to compare a number with a string, or a string with an empty
   * cell, and stops with an error; here those comparisons are defined instead:
   * empty cells come first, then numbers, then strings.
   */
  predicate Less(a: Value, b: Value)
  {
    match (a, b)
    case (Missing, Missing) => false
    case (Missing, _) => true
    case (Number(x), Number(y)) => x < y
    case (Number(_), Text(_)) => true
    case (Text(s), Text(t)) => StrLess(s, t)
    case _ => false
  }

  lemma LessIrreflexive(a: Value)
    ensures !Less(a, a)
  {
    if a.Text? {
      StrLessIrreflexive(a.s);
    }
  }

  lemma LessTransitive(a: Value, b: Value, c: Value)
    requires Less(a, b) && Less(b, c)
    ensures Less(a, c)
  {
    if a.Text? && b.Text? && c.Text? {
      StrLessTransitive(a.s, b.s, c.s);
    }
  }

  lemma LessTotal(a: Value, b: Value)
    requires a != b
    ensures Less(a, b) || Less(b, a)
  {
    if a.Text? && b.Text? {
      StrLessTotal(a.s, b.s);
    }
  }

  ghost predicate StrictlyIncreasing(s: seq<Value>)
  {
    forall k, l :: 0 <= k < l < |s| ==> Less(s[k], s[l])
  }

  /** Inserts x into an ascending list of distinct values, unless it is there already. */
  function InsertSorted(x: Value, s: seq<Value>): (r: seq<Value>)
    requires StrictlyIncreasing(s)
    ensures StrictlyIncreasing(r)
    ensures forall y :: y in r <==> y == x || y in s
  {
    if s == [] then [x]
    else if x == s[0] then s
    else if Less(x, s[0]) then
      var r := [x] + s;
      assert forall l :: 1 <= l < |r| ==> Less(x, r[l]) by {
        forall l | 1 <= l < |r|
          ensures Less(x, r[l])
        {
          if l > 1 {
            LessTransitive(x, s[0], s[l - 1]);
          }
        }
      }
      r
    else
      LessTotal(x, s[0]);
      var rest := InsertSorted(x, s[1..]);
      var r := [s[0]] + rest;
      assert forall l :: 1 <= l < |r| ==> Less(s[0], r[l]) by {
        forall l | 1 <= l < |r|
          ensures Less(s[0], r[l])
        {
          assert r[l] == rest[l - 1];
          assert rest[l - 1] in rest;
          if rest[l - 1] != x {
            var j :| 0 <= j < |s[1..]| && s[1..][j] == rest[l - 1];
            assert s[j + 1] == rest[l - 1];
          }
        }
      }
      assert forall k, l :: 1 <= k < l < |r| ==> Less(r[k], r[l]) by {
        forall k, l | 1 <= k < l < |r|
          ensures Less(r[k], r[l])
        {
          assert r[k] == rest[k - 1] && r[l] == rest[l - 1];
        }
      }
      r
  }

  /** The distinct values of xs in ascending order. */
  function SortedSet(xs: seq<Value>): (r: seq<Value>)
    ensures StrictlyIncreasing(r)
    ensures forall y :: y in r <==> y in xs
  {
    if xs == [] then []
    else
      assert xs == [xs[0]] + xs[1..];
      InsertSorted(xs[0], SortedSet(xs[1..]))
  }
}
