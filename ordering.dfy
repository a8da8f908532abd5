/**
 * Python's ordering of strings (code point by code point, a proper prefix
 * first) and `sorted` over a set of names.
 */
module Ordering {

  /** `a <= b` on Python strings. */
  predicate Below(a: string, b: string)
    decreases |a|
  {
    |a| == 0 || (|b| > 0 && (a[0] < b[0] || (a[0] == b[0] && Below(a[1..], b[1..]))))
  }

  lemma {:induction false} BelowReflexive(a: string)
    ensures Below(a, a)
    decreases |a|
  {
    if |a| > 0 {
      BelowReflexive(a[1..]);
    }
  }

  lemma {:induction false} BelowAntisymmetric(a: string, b: string)
    requires Below(a, b) && Below(b, a)
    ensures a == b
    decreases |a|
  {
    if |a| > 0 {
      BelowAntisymmetric(a[1..], b[1..]);
      assert a == [a[0]] + a[1..] && b == [b[0]] + b[1..];
    }
  }

  lemma {:induction false} BelowTransitive(a: string, b: string, c: string)
    requires Below(a, b) && Below(b, c)
    ensures Below(a, c)
    decreases |a|
  {
    if |a| > 0 && a[0] == b[0] && b[0] == c[0] {
      BelowTransitive(a[1..], b[1..], c[1..]);
    }
  }

  lemma {:induction false} BelowTotal(a: string, b: string)
    ensures Below(a, b) || Below(b, a)
    decreases |a|
  {
    if |a| > 0 && |b| > 0 && a[0] == b[0] {
      BelowTotal(a[1..], b[1..]);
    }
  }

  /** A common prefix does not change the order. */
  lemma {:induction false} BelowAfterCommonPrefix(p: string, a: string, b: string)
    ensures Below(p + a, p + b) <==> Below(a, b)
    decreases |p|
  {
    if |p| == 0 {
      assert p + a == a && p + b == b;
    } else {
      assert (p + a)[0] == p[0] == (p + b)[0];
      assert (p + a)[1..] == p[1..] + a && (p + b)[1..] == p[1..] + b;
      BelowAfterCommonPrefix(p[1..], a, b);
      assert Below(p + a, p + b) == Below(p[1..] + a, p[1..] + b);
    }
  }

  predicate IsLeast(x: string, s: set<string>)
  {
    x in s && forall y :: y in s ==> Below(x, y)
  }

  /** Every finite non-empty set of strings has a least element. */
  lemma {:induction false} LeastExists(s: set<string>)
    requires s != {}
    ensures exists x :: IsLeast(x, s)
    decreases |s|
  {
    var z :| z in s;
    if s == {z} {
      BelowReflexive(z);
      assert IsLeast(z, s);
    } else {
      var rest := s - {z};
      LeastExists(rest);
      var m :| IsLeast(m, rest);
      BelowTotal(z, m);
      if Below(z, m) {
        forall y | y in s ensures Below(z, y) {
          if y == z { BelowReflexive(z); } else { BelowTransitive(z, m, y); }
        }
        assert IsLeast(z, s);
      } else {
        assert IsLeast(m, s);
      }
    }
  }

  /** There is at most one least element. */
  lemma LeastUnique(s: set<string>)
    ensures forall x, y :: IsLeast(x, s) && IsLeast(y, s) ==> x == y
  {
    forall x, y | IsLeast(x, s) && IsLeast(y, s) ensures x == y {
      BelowAntisymmetric(x, y);
    }
  }

  /** A sequence in strictly increasing Python order. */
  predicate StrictlySorted(r: seq<string>)
  {
    forall i, j :: 0 <= i < j < |r| ==> Below(r[i], r[j]) && r[i] != r[j]
  }

  /** Python's `sorted(names)` for a collection of distinct names. */
  function SortedNames(s: set<string>): (r: seq<string>)
    ensures |r| == |s|
    ensures forall x :: x in r <==> x in s
    ensures StrictlySorted(r)
    decreases |s|
  {
    if s == {} then []
    else
      LeastExists(s);
      LeastUnique(s);
      var x :| IsLeast(x, s);
      var rest := SortedNames(s - {x});
      LeastThenSorted(x, rest, s);
      [x] + rest
  }

  /** The least element followed by a sorted enumeration of the others. */
  lemma LeastThenSorted(x: string, rest: seq<string>, s: set<string>)
    requires IsLeast(x, s) && StrictlySorted(rest)
    requires forall y :: y in rest <==> y in s - {x}
    ensures StrictlySorted([x] + rest)
    ensures forall y :: y in [x] + rest <==> y in s
  {
    var r := [x] + rest;
    forall i, j | 0 <= i < j < |r| ensures Below(r[i], r[j]) && r[i] != r[j] {
      if i == 0 {
        assert r[0] == x && r[j] == rest[j - 1] && rest[j - 1] in rest;
      } else {
        assert r[i] == rest[i - 1] && r[j] == rest[j - 1];
      }
    }
  }

  /** The head of a strictly sorted enumeration of a set is its least element. */
  lemma HeadIsLeast(r: seq<string>, s: set<string>)
    requires |r| > 0 && StrictlySorted(r)
    requires forall x :: x in r <==> x in s
    ensures IsLeast(r[0], s)
    ensures forall x :: x in r[1..] <==> x in s - {r[0]}
  {
    forall y | y in s ensures Below(r[0], y) {
      var j :| 0 <= j < |r| && r[j] == y;
      if j == 0 { BelowReflexive(y); }
    }
    forall x ensures x in r[1..] <==> x in s - {r[0]} {
      if x in r[1..] {
        var j :| 1 <= j < |r| && r[j] == x;
      }
    }
  }

  /** A strictly sorted enumeration of a set is `sorted` of that set. */
  lemma {:induction false} SortedNamesUnique(r: seq<string>, s: set<string>)
    requires StrictlySorted(r)
    requires forall x :: x in r <==> x in s
    ensures r == SortedNames(s)
    decreases |r|
  {
    if |r| == 0 {
      assert s == {};
    } else {
      var q := SortedNames(s);
      HeadIsLeast(r, s);
      HeadIsLeast(q, s);
      LeastUnique(s);
      assert q[0] == r[0];
      SortedTail(r);
      SortedNamesUnique(r[1..], s - {r[0]});
      SortedNamesHead(s);
      HeadAndTail(r);
    }
  }

  lemma SortedTail(r: seq<string>)
    requires |r| > 0 && StrictlySorted(r)
    ensures StrictlySorted(r[1..])
  {
    forall i, j | 0 <= i < j < |r| - 1 ensures Below(r[1..][i], r[1..][j]) && r[1..][i] != r[1..][j] {
      assert r[1..][i] == r[i + 1] && r[1..][j] == r[j + 1];
    }
  }

  lemma HeadAndTail(r: seq<string>)
    requires |r| > 0
    ensures r == [r[0]] + r[1..]
  {
  }

  /** `sorted` of a non-empty set is its first element followed by `sorted` of the rest. */
  lemma SortedNamesHead(s: set<string>)
    requires s != {}
    ensures SortedNames(s) == [SortedNames(s)[0]] + SortedNames(s - {SortedNames(s)[0]})
  {
  }
}
