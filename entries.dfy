module Optional {
  datatype Option<T> = None | Some(value: T)
}

/** The rows of the font list (QListWidget items: display text plus the file
    path kept under Qt.UserRole) and the saved list of external paths, with
    the list operations the viewer applies to them. */
module FontEntries {
  import opened FontPaths

  /** A row: the file path kept under Qt.UserRole; its display text is the
      path's final component. */
  datatype FontEntry = FontEntry(path: string)
  {
    function Name(): (n: string)
      ensures '/' !in n && EndsWith(path, n)
      ensures |n| < |path| ==> path[|path| - |n| - 1] == '/'
    {
      Basename(path)
    }
  }

  predicate HasPath(items: seq<FontEntry>, p: string)
  {
    exists k :: 0 <= k < |items| && items[k].path == p
  }

  /** No two rows share a path. */
  predicate UniquePaths(items: seq<FontEntry>)
  {
    forall i, j :: 0 <= i < j < |items| ==> items[i].path != items[j].path
  }

  predicate NoDuplicates(xs: seq<string>)
  {
    forall i, j :: 0 <= i < j < |xs| ==> xs[i] != xs[j]
  }

  /** add_font_to_list: a path already listed is skipped, otherwise one row
      is appended at the end. */
  function AddEntry(items: seq<FontEntry>, p: string): (r: seq<FontEntry>)
  {
    if HasPath(items, p) then items else items + [FontEntry(p)]
  }

  /** The effect of one add: p ends up listed, all earlier rows stay where
      they were, at most one row is appended, no duplicate is created. */
  lemma AddEntryEffect(items: seq<FontEntry>, p: string)
    ensures items <= AddEntry(items, p) && |AddEntry(items, p)| <= |items| + 1
    ensures HasPath(AddEntry(items, p), p)
    ensures forall q :: HasPath(AddEntry(items, p), q) <==> HasPath(items, q) || q == p
    ensures HasPath(items, p) <==> AddEntry(items, p) == items
    ensures !HasPath(items, p) ==> AddEntry(items, p)[|items|] == FontEntry(p)
    ensures UniquePaths(items) ==> UniquePaths(AddEntry(items, p))
  {
    var r := AddEntry(items, p);
    if !HasPath(items, p) {
      assert r[|items|].path == p;
      forall q | HasPath(r, q) ensures HasPath(items, q) || q == p {
        var k :| 0 <= k < |r| && r[k].path == q;
        if k < |items| { assert items[k].path == q; }
      }
      forall q | HasPath(items, q) ensures HasPath(r, q) {
        var k :| 0 <= k < |items| && items[k].path == q;
        assert r[k].path == q;
      }
    }
  }

  /** Adding the same path twice is the same as adding it once. */
  lemma AddEntryIdempotent(items: seq<FontEntry>, p: string)
    ensures AddEntry(AddEntry(items, p), p) == AddEntry(items, p)
  {
    AddEntryEffect(items, p);
  }

  /** A run of add_font_to_list calls, first path first. */
  function AddAll(items: seq<FontEntry>, ps: seq<string>): seq<FontEntry>
    decreases |ps|
  {
    if ps == [] then items else AddEntry(AddAll(items, ps[..|ps| - 1]), ps[|ps| - 1])
  }

  /** Any sequence of adds keeps the rows unique, only appends, and lists
      exactly the old paths plus the added ones. */
  lemma {:induction false} AddAllEffect(items: seq<FontEntry>, ps: seq<string>)
    ensures items <= AddAll(items, ps)
    ensures forall q :: HasPath(AddAll(items, ps), q) <==> HasPath(items, q) || q in ps
    ensures UniquePaths(items) ==> UniquePaths(AddAll(items, ps))
    decreases |ps|
  {
    if ps != [] {
      var init := ps[..|ps| - 1];
      AddAllEffect(items, init);
      AddEntryEffect(AddAll(items, init), ps[|ps| - 1]);
      assert ps == init + [ps[|ps| - 1]];
      forall q ensures q in ps <==> q in init || q == ps[|ps| - 1] {
        if q in ps {
          var k :| 0 <= k < |ps| && ps[k] == q;
          if k < |ps| - 1 { assert init[k] == q; }
        }
      }
    }
  }

  /** Replaying adds of paths that are already listed changes nothing. */
  lemma {:induction false} AddAllListed(items: seq<FontEntry>, ps: seq<string>)
    requires forall q :: q in ps ==> HasPath(items, q)
    ensures AddAll(items, ps) == items
    decreases |ps|
  {
    if ps != [] {
      var init := ps[..|ps| - 1];
      assert forall q :: q in init ==> q in ps;
      AddAllListed(items, init);
      assert ps[|ps| - 1] in ps;
    }
  }

  /** Repeating the same batch of adds is the same as doing it once. */
  lemma AddAllIdempotent(items: seq<FontEntry>, ps: seq<string>)
    ensures AddAll(AddAll(items, ps), ps) == AddAll(items, ps)
  {
    AddAllEffect(items, ps);
    AddAllListed(AddAll(items, ps), ps);
  }

  /** The adds of one batch followed by another are the adds of both. */
  lemma {:induction false} AddAllAppend(items: seq<FontEntry>, ps: seq<string>, qs: seq<string>)
    ensures AddAll(items, ps + qs) == AddAll(AddAll(items, ps), qs)
    decreases |qs|
  {
    if qs != [] {
      var init := qs[..|qs| - 1];
      assert (ps + qs)[..|ps + qs| - 1] == ps + init;
      assert (ps + qs)[|ps + qs| - 1] == qs[|qs| - 1];
      AddAllAppend(items, ps, init);
    } else {
      assert ps + qs == ps;
    }
  }

  /** takeItem(row). */
  function RemoveAt(items: seq<FontEntry>, row: nat): (r: seq<FontEntry>)
    requires row < |items|
    ensures |r| == |items| - 1
    ensures forall k :: 0 <= k < row ==> r[k] == items[k]
    ensures forall k :: row <= k < |r| ==> r[k] == items[k + 1]
  {
    items[..row] + items[row + 1..]
  }

  /** Taking a row out of a duplicate-free list removes exactly its path. */
  lemma RemoveAtEffect(items: seq<FontEntry>, row: nat)
    requires row < |items| && UniquePaths(items)
    ensures UniquePaths(RemoveAt(items, row))
    ensures forall q :: HasPath(RemoveAt(items, row), q) <==> HasPath(items, q) && q != items[row].path
  {
    var r := RemoveAt(items, row);
    forall i, j | 0 <= i < j < |r| ensures r[i].path != r[j].path {
      var i', j' := if i < row then i else i + 1, if j < row then j else j + 1;
      assert r[i] == items[i'] && r[j] == items[j'];
    }
    forall q ensures HasPath(r, q) <==> HasPath(items, q) && q != items[row].path {
      if HasPath(r, q) {
        var k :| 0 <= k < |r| && r[k].path == q;
        var k' := if k < row then k else k + 1;
        assert items[k'].path == q;
      }
      if HasPath(items, q) && q != items[row].path {
        var k :| 0 <= k < |items| && items[k].path == q;
        assert k != row;
        var k' := if k < row then k else k - 1;
        assert r[k'].path == q;
      }
    }
  }

  /** Index of the first occurrence of x. */
  function FirstIndex(xs: seq<string>, x: string): (i: nat)
    requires x in xs
    ensures i < |xs| && xs[i] == x
    ensures forall k :: 0 <= k < i ==> xs[k] != x
  {
    if xs[0] == x then 0
    else
      assert x in xs[1..] by { var k :| 0 <= k < |xs| && xs[k] == x; assert xs[1..][k - 1] == x; }
      1 + FirstIndex(xs[1..], x)
  }

  /** list.remove(x): cut out the first occurrence of x; what precedes it and
      what follows it keep their order. One copy of x goes, nothing else. */
  function RemoveFirst(xs: seq<string>, x: string): (r: seq<string>)
    requires x in xs
    ensures |r| == |xs| - 1
    ensures forall k :: 0 <= k < FirstIndex(xs, x) ==> r[k] == xs[k]
    ensures forall k :: FirstIndex(xs, x) <= k < |r| ==> r[k] == xs[k + 1]
    ensures multiset(r) == multiset(xs) - multiset{x}
  {
    var i := FirstIndex(xs, x);
    assert xs == xs[..i] + [xs[i]] + xs[i + 1..];
    xs[..i] + xs[i + 1..]
  }

  /** On a duplicate-free list, remove takes x out entirely and leaves every
      other element in. */
  lemma {:induction false} RemoveFirstEffect(xs: seq<string>, x: string)
    requires x in xs && NoDuplicates(xs)
    ensures NoDuplicates(RemoveFirst(xs, x))
    ensures forall q :: q in RemoveFirst(xs, x) <==> q in xs && q != x
  {
    var r := RemoveFirst(xs, x);
    forall q ensures q in r <==> q in xs && q != x {
      assert q in r <==> multiset(r)[q] > 0;
      assert q in xs <==> multiset(xs)[q] > 0;
      if q == x {
        assert multiset(xs)[x] == 1 by { DistinctCount(xs, x); }
      }
    }
    forall i, j | 0 <= i < j < |r| ensures r[i] != r[j] {
      DistinctCount(xs, r[i]);
      assert multiset(r)[r[i]] <= 1;
      if r[i] == r[j] {
        CountAtLeastTwo(r, i, j);
      }
    }
  }

  lemma {:induction false} DistinctCount(xs: seq<string>, x: string)
    requires NoDuplicates(xs)
    ensures multiset(xs)[x] <= 1
  {
    if xs != [] {
      assert xs == [xs[0]] + xs[1..];
      assert NoDuplicates(xs[1..]) by {
        forall i, j | 0 <= i < j < |xs[1..]| ensures xs[1..][i] != xs[1..][j] {
          assert xs[1..][i] == xs[i + 1] && xs[1..][j] == xs[j + 1];
        }
      }
      DistinctCount(xs[1..], x);
      if xs[0] == x {
        assert x !in xs[1..] by {
          forall k | 0 <= k < |xs[1..]| ensures xs[1..][k] != x {
            assert xs[1..][k] == xs[k + 1];
          }
        }
      }
    }
  }

  lemma CountAtLeastTwo(r: seq<string>, i: nat, j: nat)
    requires i < j < |r| && r[i] == r[j]
    ensures multiset(r)[r[i]] >= 2
  {
    assert r == r[..j] + [r[j]] + r[j + 1..];
    assert r[..j] == r[..i] + [r[i]] + r[i + 1..j];
  }
}
