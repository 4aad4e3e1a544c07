/** Python's ordering of str values (code point by code point, a proper
    prefix first) and `sorted()` of a set of paths, as the startup scan uses
    it on the result of a directory glob. */
module PathOrder {

  predicate LexLe(a: string, b: string)
    decreases |a|
  {
    |a| == 0 || (|b| > 0 && (a[0] < b[0] || (a[0] == b[0] && LexLe(a[1..], b[1..]))))
  }

  predicate LexLt(a: string, b: string)
  {
    LexLe(a, b) && a != b
  }

  lemma {:induction false} LexLeTotal(a: string, b: string)
    ensures LexLe(a, b) || LexLe(b, a)
    decreases |a|
  {
    if |a| > 0 && |b| > 0 && a[0] == b[0] {
      LexLeTotal(a[1..], b[1..]);
    }
  }

  lemma {:induction false} LexLeReflexive(a: string)
    ensures LexLe(a, a)
    decreases |a|
  {
    if |a| > 0 {
      LexLeReflexive(a[1..]);
    }
  }

  lemma {:induction false} LexLeAntisymmetric(a: string, b: string)
    requires LexLe(a, b) && LexLe(b, a)
    ensures a == b
    decreases |a|
  {
    if |a| > 0 {
      LexLeAntisymmetric(a[1..], b[1..]);
      assert a == [a[0]] + a[1..] && b == [b[0]] + b[1..];
    }
  }

  lemma {:induction false} LexLeTransitive(a: string, b: string, c: string)
    requires LexLe(a, b) && LexLe(b, c)
    ensures LexLe(a, c)
    decreases |a|
  {
    if |a| > 0 && a[0] == b[0] && b[0] == c[0] {
      LexLeTransitive(a[1..], b[1..], c[1..]);
    }
  }

  predicate IsLeast(m: string, s: set<string>)
  {
    m in s && forall y :: y in s ==> LexLe(m, y)
  }

  lemma {:induction false} LeastExists(s: set<string>)
    requires s != {}
    ensures exists m :: IsLeast(m, s)
    decreases |s|
  {
    var x :| x in s;
    if s == {x} {
      LexLeReflexive(x);
      assert IsLeast(x, s);
    } else {
      LeastExists(s - {x});
      var m :| IsLeast(m, s - {x});
      LexLeTotal(x, m);
      if LexLe(x, m) {
        forall y | y in s ensures LexLe(x, y) {
          if y != x {
            LexLeTransitive(x, m, y);
          } else {
            LexLeReflexive(x);
          }
        }
        assert IsLeast(x, s);
      } else {
        assert IsLeast(m, s);
      }
    }
  }

  lemma LeastUnique(s: set<string>)
    ensures forall m, m' :: IsLeast(m, s) && IsLeast(m', s) ==> m == m'
  {
    forall m, m' | IsLeast(m, s) && IsLeast(m', s) ensures m == m' {
      LexLeAntisymmetric(m, m');
    }
  }

  function Least(s: set<string>): (m: string)
    requires s != {}
    ensures IsLeast(m, s)
  {
    LeastExists(s);
    LeastUnique(s);
    var m :| IsLeast(m, s); m
  }

  predicate StrictlySorted(r: seq<string>)
  {
    forall i, j :: 0 <= i < j < |r| ==> LexLt(r[i], r[j])
  }

  /** `sorted()` of a set: its elements, each once, in increasing order. */
  function SortedSeq(s: set<string>): (r: seq<string>)
    ensures StrictlySorted(r)
    ensures forall x :: x in r <==> x in s
    ensures |r| == |s|
    decreases |s|
  {
    if s == {} then []
    else
      var m := Least(s);
      var rest := SortedSeq(s - {m});
      assert forall j :: 0 <= j < |rest| ==> LexLt(m, rest[j]) by {
        forall j | 0 <= j < |rest| ensures LexLt(m, rest[j]) {
          assert rest[j] in s - {m};
        }
      }
      [m] + rest
  }

  /** Two strictly sorted sequences with the same elements are equal, so
      SortedSeq is the only order the scan can produce. */
  lemma {:induction false} SortedUnique(r: seq<string>, t: seq<string>)
    requires StrictlySorted(r) && StrictlySorted(t)
    requires forall x :: x in r <==> x in t
    ensures r == t
    decreases |r|
  {
    assert r == [] <==> t == [] by {
      if r != [] { assert r[0] in t; }
      if t != [] { assert t[0] in r; }
    }
    if r != [] {
      if r[0] != t[0] {
        assert r[0] in t && t[0] in r;
        var i :| 0 <= i < |t| && t[i] == r[0];
        var j :| 0 <= j < |r| && r[j] == t[0];
        assert LexLe(t[0], r[0]) by { if i > 0 { assert LexLt(t[0], t[i]); } }
        assert LexLe(r[0], t[0]) by { if j > 0 { assert LexLt(r[0], r[j]); } }
        LexLeAntisymmetric(r[0], t[0]);
      }
      forall x ensures x in r[1..] <==> x in t[1..] {
        if x in r[1..] {
          var i :| 1 <= i < |r| && r[i] == x;
          assert x != r[0] by { assert LexLt(r[0], r[i]); }
          assert x in r && x in t;
          var k :| 0 <= k < |t| && t[k] == x;
          assert k != 0;
          assert t[1..][k - 1] == x;
        }
        if x in t[1..] {
          var i :| 1 <= i < |t| && t[i] == x;
          assert x != t[0] by { assert LexLt(t[0], t[i]); }
          assert x in t && x in r;
          var k :| 0 <= k < |r| && r[k] == x;
          assert k != 0;
          assert r[1..][k - 1] == x;
        }
      }
      SortedUnique(r[1..], t[1..]);
    }
  }
}
