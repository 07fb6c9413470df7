/** Python's `sorted` on a set of str: code-point lexicographic order. */
module Sorting {

  /** a < b on Python str: the first differing character decides, and a
      proper prefix comes first. */
  predicate LexLess(a: string, b: string)
    decreases |a|
  {
    if a == [] then b != []
    else if b == [] then false
    else a[0] < b[0] || (a[0] == b[0] && LexLess(a[1..], b[1..]))
  }

  lemma {:induction false} LexIrreflexive(a: string)
    ensures !LexLess(a, a)
    decreases |a|
  {
    if a != [] { LexIrreflexive(a[1..]); }
  }

  lemma {:induction false} LexTransitive(a: string, b: string, c: string)
    requires LexLess(a, b) && LexLess(b, c)
    ensures LexLess(a, c)
    decreases |a|
  {
    if a != [] && b != [] && c != [] && a[0] == b[0] == c[0] {
      LexTransitive(a[1..], b[1..], c[1..]);
    }
  }

  lemma {:induction false} LexTotal(a: string, b: string)
    requires a != b
    ensures LexLess(a, b) || LexLess(b, a)
    decreases |a|
  {
    if a != [] && b != [] && a[0] == b[0] {
      assert a == [a[0]] + a[1..] && b == [b[0]] + b[1..];
      LexTotal(a[1..], b[1..]);
    }
  }

  lemma LexAsymmetric(a: string, b: string)
    requires LexLess(a, b)
    ensures !LexLess(b, a)
  {
    if LexLess(b, a) {
      LexTransitive(a, b, a);
      LexIrreflexive(a);
    }
  }

  predicate StrictlyAscending(r: seq<string>) {
    forall i, j :: 0 <= i < j < |r| ==> LexLess(r[i], r[j])
  }

  /** m comes before every other element of s. */
  predicate IsLeast(m: string, s: set<string>) {
    m in s && forall x :: x in s && x != m ==> LexLess(m, x)
  }

  lemma {:induction false} HasLeast(s: set<string>)
    requires s != {}
    ensures exists m :: IsLeast(m, s)
    decreases |s|
  {
    var x :| x in s;
    if s - {x} == {} {
      assert s == {x};
      assert IsLeast(x, s);
    } else {
      HasLeast(s - {x});
      var m :| IsLeast(m, s - {x});
      if LexLess(m, x) {
        assert IsLeast(m, s);
      } else {
        LexTotal(m, x);
        forall y | y in s && y != x
          ensures LexLess(x, y)
        {
          if y != m { LexTransitive(x, m, y); }
        }
        assert IsLeast(x, s);
      }
    }
  }

  /** sorted(s): the elements of s in ascending order. */
  ghost function Sorted(s: set<string>): (r: seq<string>)
    ensures forall x :: x in r <==> x in s
    ensures |r| == |s|
    decreases |s|
  {
    if s == {} then []
    else
      HasLeast(s);
      var m :| IsLeast(m, s);
      var t := Sorted(s - {m});
      assert forall j :: 0 <= j < |t| ==> t[j] in s - {m};
      [m] + t
  }

  /** sorted(s) starts with the least element, followed by the rest sorted. */
  lemma SortedUnfold(s: set<string>)
    requires s != {}
    ensures IsLeast(Sorted(s)[0], s)
    ensures Sorted(s)[1..] == Sorted(s - {Sorted(s)[0]})
  {
  }

  lemma {:induction false} SortedAscending(s: set<string>)
    ensures StrictlyAscending(Sorted(s))
    decreases |s|
  {
    if s != {} {
      var r := Sorted(s);
      SortedUnfold(s);
      var m := r[0];
      var t := r[1..];
      SortedAscending(s - {m});
      forall i, j | 0 <= i < j < |r|
        ensures LexLess(r[i], r[j])
      {
        assert r[j] == t[j - 1] && t[j - 1] in s - {m};
        if i > 0 {
          assert r[i] == t[i - 1];
        }
      }
    }
  }

  /** Two ascending sequences with the same elements are the same. */
  lemma {:induction false} AscendingUnique(a: seq<string>, b: seq<string>)
    requires StrictlyAscending(a) && StrictlyAscending(b)
    requires forall x :: x in a <==> x in b
    ensures a == b
    decreases |a|
  {
    assert a != [] ==> a[0] in b;
    assert b != [] ==> b[0] in a;
    if a != [] {
      if a[0] != b[0] {
        assert b[0] in a && a[0] in b;
        var i :| 0 <= i < |a| && a[i] == b[0];
        var j :| 0 <= j < |b| && b[j] == a[0];
        assert LexLess(a[0], b[0]) && LexLess(b[0], a[0]);
        LexAsymmetric(a[0], b[0]);
      }
      forall x
        ensures x in a[1..] <==> x in b[1..]
      {
        if x in a[1..] {
          var i :| 1 <= i < |a| && a[i] == x;
          LexIrreflexive(x);
          assert x != a[0];
          assert x in b;
        }
        if x in b[1..] {
          var j :| 1 <= j < |b| && b[j] == x;
          LexIrreflexive(x);
          assert x != b[0];
          assert x in a;
        }
      }
      AscendingUnique(a[1..], b[1..]);
    }
  }

  /** The least element of a non-empty set. */
  method Least(s: set<string>) returns (m: string)
    requires s != {}
    ensures IsLeast(m, s)
  {
    m :| m in s;
    var rest := s - {m};
    while rest != {}
      invariant rest <= s && m in s && m !in rest
      invariant forall x :: x in s && x !in rest && x != m ==> LexLess(m, x)
      decreases |rest|
    {
      var x :| x in rest;
      if LexLess(x, m) {
        forall y | y in s && y !in rest && y != m
          ensures LexLess(x, y)
        {
          LexTransitive(x, m, y);
        }
        LexIrreflexive(x);
        m := x;
      } else if x != m {
        LexTotal(x, m);
      }
      rest := rest - {x};
    }
  }

  /** sorted(s), by repeatedly taking the least remaining element. */
  method SortSet(s: set<string>) returns (r: seq<string>)
    ensures r == Sorted(s)
  {
    r := [];
    var rest := s;
    while rest != {}
      invariant rest <= s
      invariant StrictlyAscending(r)
      invariant forall x :: x in r <==> x in s && x !in rest
      invariant forall i, y :: 0 <= i < |r| && y in rest ==> LexLess(r[i], y)
      decreases |rest|
    {
      var m := Least(rest);
      r := r + [m];
      rest := rest - {m};
    }
    SortedAscending(s);
    AscendingUnique(r, Sorted(s));
  }
}
