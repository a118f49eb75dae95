/**
 * Python's ordering of `str` values (code point by code point, a proper
 * prefix before its extensions) and `sorted(..., reverse=True)` over a set
 * of names, as the backup store uses them.
 */
module Ordering {

  /** `a <= b` on Python strings. */
  predicate LexLe(a: string, b: string)
    decreases |a|
  {
    |a| == 0 || (|b| > 0 && (a[0] < b[0] || (a[0] == b[0] && LexLe(a[1..], b[1..]))))
  }

  /** `a < b` on Python strings. */
  predicate LexLess(a: string, b: string) {
    LexLe(a, b) && a != b
  }

  lemma {:induction false} LexLeReflexive(a: string)
    ensures LexLe(a, a)
    decreases |a|
  {
    if |a| > 0 {
      LexLeReflexive(a[1..]);
    }
  }

  lemma {:induction false} LexLeTotal(a: string, b: string)
    ensures LexLe(a, b) || LexLe(b, a)
    decreases |a|
  {
    if |a| > 0 && |b| > 0 && a[0] == b[0] {
      LexLeTotal(a[1..], b[1..]);
    }
  }

  lemma {:induction false} LexLeAntisymmetric(a: string, b: string)
    requires LexLe(a, b) && LexLe(b, a)
    ensures a == b
    decreases |a|
  {
    if |a| > 0 {
      LexLeAntisymmetric(a[1..], b[1..]);
      assert a == [a[0]] + a[1..] && b == [b[0]] + b[1..];
    }
  }

  lemma {:induction false} LexLeTransitive(a: string, b: string, c: string)
    requires LexLe(a, b) && LexLe(b, c)
    ensures LexLe(a, c)
    decreases |a|
  {
    if |a| > 0 && a[0] == b[0] && b[0] == c[0] {
      LexLeTransitive(a[1..], b[1..], c[1..]);
    }
  }

  /** Of two different strings exactly one is the smaller. */
  lemma LexLessTrichotomy(a: string, b: string)
    requires a != b
    ensures LexLess(a, b) != LexLess(b, a)
  {
    LexLeTotal(a, b);
    if LexLe(a, b) && LexLe(b, a) {
      LexLeAntisymmetric(a, b);
    }
  }

  /** `m` is the greatest element of `s`. */
  predicate IsGreatest(m: string, s: set<string>) {
    m in s && forall x :: x in s ==> LexLe(x, m)
  }

  /** Every non-empty finite set of strings has a greatest element. */
  lemma {:induction false} GreatestExists(s: set<string>)
    requires s != {}
    ensures exists m :: IsGreatest(m, s)
    decreases |s|
  {
    var x :| x in s;
    if s == {x} {
      LexLeReflexive(x);
      assert IsGreatest(x, s);
    } else {
      GreatestExists(s - {x});
      var m :| IsGreatest(m, s - {x});
      LexLeTotal(x, m);
      if LexLe(x, m) {
        assert IsGreatest(m, s);
      } else {
        LexLeReflexive(x);
        forall y | y in s
          ensures LexLe(y, x)
        {
          if y != x {
            LexLeTransitive(y, m, x);
          }
        }
        assert IsGreatest(x, s);
      }
    }
  }

  /** The greatest element is unique. */
  lemma GreatestUnique(s: set<string>)
    ensures forall m1, m2 :: IsGreatest(m1, s) && IsGreatest(m2, s) ==> m1 == m2
  {
    forall m1, m2 | IsGreatest(m1, s) && IsGreatest(m2, s)
      ensures m1 == m2
    {
      LexLeAntisymmetric(m1, m2);
    }
  }

  /** Strictly decreasing from left to right (hence without repeats). */
  predicate SortedDescending(r: seq<string>) {
    forall i, j :: 0 <= i < j < |r| ==> LexLess(r[j], r[i])
  }

  /** `sorted(s, reverse=True)` for a set of names: the greatest first. */
  function SortDescending(s: set<string>): seq<string>
    decreases |s|
  {
    if s == {} then []
    else
      GreatestExists(s);
      GreatestUnique(s);
      var m :| IsGreatest(m, s);
      [m] + SortDescending(s - {m})
  }

  /** The descending order lists every element of the set once, strictly decreasing. */
  lemma {:induction false} SortDescendingSpec(s: set<string>)
    ensures |SortDescending(s)| == |s|
    ensures forall x :: x in SortDescending(s) <==> x in s
    ensures SortedDescending(SortDescending(s))
    decreases |s|
  {
    if s != {} {
      GreatestExists(s);
      GreatestUnique(s);
      var m :| IsGreatest(m, s);
      var rest := SortDescending(s - {m});
      assert SortDescending(s) == [m] + rest;
      SortDescendingSpec(s - {m});
      forall j | 0 <= j < |rest|
        ensures LexLess(rest[j], m)
      {
        assert rest[j] in s - {m};
      }
    }
  }

  /** The head of the descending order is the greatest element. */
  lemma SortDescendingHead(s: set<string>)
    requires s != {}
    ensures |SortDescending(s)| > 0 && IsGreatest(SortDescending(s)[0], s)
  {
    SortDescendingSpec(s);
    var r := SortDescending(s);
    LexLeReflexive(r[0]);
    forall x | x in s
      ensures LexLe(x, r[0])
    {
      var j :| 0 <= j < |r| && r[j] == x;
    }
  }

  /** Elements of a sequence without repeats number as many as its length. */
  lemma {:induction false} DistinctCardinality(r: seq<string>)
    requires SortedDescending(r)
    ensures |set x | x in r| == |r|
  {
    if r != [] {
      var tail := r[1..];
      DistinctCardinality(tail);
      assert (set x | x in r) == (set x | x in tail) + {r[0]};
      assert r[0] !in tail by {
        forall j | 0 <= j < |tail|
          ensures tail[j] != r[0]
        {
          assert LexLess(r[j + 1], r[0]);
        }
      }
    }
  }
}
