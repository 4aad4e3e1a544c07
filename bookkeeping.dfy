/** What FontViewerApp's list operations compute, as functions of the state
    before them: the startup scan, the add-files loop and delete. */
module Bookkeeping {
  import opened FontPaths
  import opened PathOrder
  import opened FontEntries
  import opened FontStore
  import opened Platform

  // ---------------------------------------------------------------- startup

  /** `fonts_dir.glob("*" + suffix)`: the directory entries (files and
      sub-directories alike) directly in dir whose name ends in suffix,
      matched with letter case as written. */
  function Glob(entries: set<string>, dir: string, suffix: string): set<string>
  {
    set p | p in entries && Parent(p) == dir && EndsWith(Basename(p), suffix)
  }

  /** The paths load_initial_fonts adds before the saved paths:
      `sorted(glob("*.ttf")) + sorted(glob("*.otf"))` when the directory exists. */
  function ScanManagedDir(entries: set<string>, dirs: set<string>, dir: string): seq<string>
  {
    if dir in dirs then SortedSeq(Glob(entries, dir, ".ttf")) + SortedSeq(Glob(entries, dir, ".otf")) else []
  }

  predicate ScanSuffix(p: string)
  {
    EndsWith(Basename(p), ".ttf") || EndsWith(Basename(p), ".otf")
  }

  /** A name cannot end in two of the three font extensions at once. */
  lemma SuffixesExclusive(name: string)
    ensures !(EndsWith(name, ".ttf") && EndsWith(name, ".otf"))
    ensures EndsWith(name, ".ttc") ==> !EndsWith(name, ".ttf") && !EndsWith(name, ".otf")
  {
  }

  /** The scan lists exactly the .ttf and .otf entries of the managed
      directory. */
  lemma ScanMembers(entries: set<string>, dirs: set<string>, dir: string)
    ensures forall p :: p in ScanManagedDir(entries, dirs, dir) <==>
      dir in dirs && p in entries && IsInternal(p, dir) && ScanSuffix(p)
  {
    if dir in dirs {
      var a, b := SortedSeq(Glob(entries, dir, ".ttf")), SortedSeq(Glob(entries, dir, ".otf"));
      forall p ensures p in a + b <==> p in a || p in b {
      }
    }
  }

  /** First all .ttf entries in sorted order, then all .otf entries in sorted
      order. */
  lemma ScanGroups(entries: set<string>, dirs: set<string>, dir: string)
    requires dir in dirs
    ensures var r := ScanManagedDir(entries, dirs, dir);
      var k := |Glob(entries, dir, ".ttf")|;
      && k <= |r|
      && StrictlySorted(r[..k]) && StrictlySorted(r[k..])
      && (forall i :: 0 <= i < k ==> EndsWith(Basename(r[i]), ".ttf"))
      && (forall i :: k <= i < |r| ==> EndsWith(Basename(r[i]), ".otf"))
  {
    var r := ScanManagedDir(entries, dirs, dir);
    var a, b := SortedSeq(Glob(entries, dir, ".ttf")), SortedSeq(Glob(entries, dir, ".otf"));
    assert r == a + b;
    assert r[..|a|] == a && r[|a|..] == b;
    forall i | 0 <= i < |a| ensures EndsWith(Basename(r[i]), ".ttf") {
      assert a[i] in Glob(entries, dir, ".ttf");
    }
    forall i | |a| <= i < |r| ensures EndsWith(Basename(r[i]), ".otf") {
      assert r[i] == b[i - |a|];
      assert b[i - |a|] in Glob(entries, dir, ".otf");
    }
  }

  /** The scan lists each file once. */
  lemma ScanDistinct(entries: set<string>, dirs: set<string>, dir: string)
    ensures NoDuplicates(ScanManagedDir(entries, dirs, dir))
  {
    var r := ScanManagedDir(entries, dirs, dir);
    if dir in dirs {
      ScanGroups(entries, dirs, dir);
      var k := |Glob(entries, dir, ".ttf")|;
      forall i, j | 0 <= i < j < |r| ensures r[i] != r[j] {
        if j < k {
          assert LexLt(r[..k][i], r[..k][j]);
        } else if k <= i {
          assert LexLt(r[k..][i - k], r[k..][j - k]);
        } else {
          SuffixesExclusive(Basename(r[i]));
        }
      }
    }
  }

  /** `.ttc` files are accepted for install but never picked up by the scan. */
  lemma ScanSkipsTtc(entries: set<string>, dirs: set<string>, dir: string, p: string)
    requires EndsWith(Basename(p), ".ttc")
    ensures p !in ScanManagedDir(entries, dirs, dir)
    ensures IsFontFileName(Basename(p))
  {
    ScanMembers(entries, dirs, dir);
    SuffixesExclusive(Basename(p));
    ScanSuffixIsFontName(Basename(p));
  }

  /** The rows after start-up: the scan, then the saved paths, each added
      through the duplicate check. */
  function StartupEntries(entries: set<string>, dirs: set<string>, dir: string, saved: seq<string>): seq<FontEntry>
  {
    AddAll(AddAll([], ScanManagedDir(entries, dirs, dir)), saved)
  }

  /** Adding distinct, not yet listed paths appends one row per path, in
      order. */
  lemma {:induction false} AddAllFresh(items: seq<FontEntry>, ps: seq<string>)
    requires NoDuplicates(ps) && forall q :: q in ps ==> !HasPath(items, q)
    ensures var r := AddAll(items, ps);
      && |r| == |items| + |ps| && items <= r
      && forall i :: 0 <= i < |ps| ==> r[|items| + i] == FontEntry(ps[i])
    decreases |ps|
  {
    if ps != [] {
      var init := ps[..|ps| - 1];
      var last := ps[|ps| - 1];
      assert NoDuplicates(init) by {
        forall i, j | 0 <= i < j < |init| ensures init[i] != init[j] {
          assert init[i] == ps[i] && init[j] == ps[j];
        }
      }
      assert forall q :: q in init ==> q in ps;
      AddAllFresh(items, init);
      var m := AddAll(items, init);
      assert last !in init by {
        forall k | 0 <= k < |init| ensures init[k] != last {
          assert init[k] == ps[k];
        }
      }
      AddAllEffect(items, init);
      assert !HasPath(m, last) by {
        assert last in ps;
      }
      var r := AddAll(items, ps);
      assert r == m + [FontEntry(last)];
      forall i | 0 <= i < |ps| ensures r[|items| + i] == FontEntry(ps[i]) {
        if i < |init| {
          assert r[|items| + i] == m[|items| + i];
          assert ps[i] == init[i];
        } else {
          assert ps[i] == last && r[|items| + i] == FontEntry(last);
        }
      }
    }
  }

  /** Adding a duplicate-free scan to no rows, then the saved paths: the scan
      comes first in its own order, and every row is unique. */
  lemma AddScanThenSaved(scan: seq<string>, saved: seq<string>)
    requires NoDuplicates(scan)
    ensures var r := AddAll(AddAll([], scan), saved);
      && |scan| <= |r|
      && (forall i :: 0 <= i < |scan| ==> r[i] == FontEntry(scan[i]))
      && UniquePaths(r)
      && (forall q :: HasPath(r, q) <==> q in scan || q in saved)
  {
    AddAllFresh([], scan);
    var m := AddAll([], scan);
    AddAllEffect([], scan);
    AddAllEffect(m, saved);
    var r := AddAll(m, saved);
    forall i | 0 <= i < |scan| ensures r[i] == FontEntry(scan[i]) {
      assert r[i] == m[i];
      assert m[0 + i] == FontEntry(scan[i]);
    }
  }

  /** On start-up the rows are the scanned entries in scan order, followed by
      the saved paths the scan did not already list; every row is unique. */
  lemma StartupEntriesShape(entries: set<string>, dirs: set<string>, dir: string, saved: seq<string>)
    ensures var scan := ScanManagedDir(entries, dirs, dir);
      var r := StartupEntries(entries, dirs, dir, saved);
      && |scan| <= |r|
      && (forall i :: 0 <= i < |scan| ==> r[i] == FontEntry(scan[i]))
      && UniquePaths(r)
      && (forall q :: HasPath(r, q) <==> q in scan || q in saved)
  {
    ScanDistinct(entries, dirs, dir);
    AddScanThenSaved(ScanManagedDir(entries, dirs, dir), saved);
  }

  // ------------------------------------------------------------- add files

  /** The rows and the saved external paths, which add_font_file updates together. */
  datatype Listing = Listing(items: seq<FontEntry>, saved: seq<string>)

  /** One pass of the add_font_file loop. */
  function PickOne(l: Listing, p: string, dir: string): Listing
  {
    if IsInternal(p, dir) then Listing(AddEntry(l.items, p), l.saved)
    else if p in l.saved then l
    else Listing(AddEntry(l.items, p), l.saved + [p])
  }

  /** The add_font_file loop over the chosen files, first file first. */
  function PickAll(l: Listing, ps: seq<string>, dir: string): Listing
    decreases |ps|
  {
    if ps == [] then l else PickOne(PickAll(l, ps[..|ps| - 1], dir), ps[|ps| - 1], dir)
  }

  /** What one pass can change: a row for p may be appended, and p may be
      appended to the saved list, when it is external and new to it. */
  lemma PickOneEffect(l: Listing, p: string, dir: string)
    ensures var r := PickOne(l, p, dir);
      && l.items <= r.items
      && (UniquePaths(l.items) ==> UniquePaths(r.items))
      && (forall q :: HasPath(r.items, q) ==> HasPath(l.items, q) || q == p)
      && (IsInternal(p, dir) || p !in l.saved ==> HasPath(r.items, p))
      && (r.saved == l.saved || (r.saved == l.saved + [p] && !IsInternal(p, dir) && p !in l.saved))
      && (!IsInternal(p, dir) ==> p in r.saved)
  {
    AddEntryEffect(l.items, p);
  }

  lemma HasPathPrefix(a: seq<FontEntry>, b: seq<FontEntry>, q: string)
    requires a <= b && HasPath(a, q)
    ensures HasPath(b, q)
  {
    var k :| 0 <= k < |a| && a[k].path == q;
    assert b[k] == a[k];
  }

  lemma InPrefix(a: seq<string>, b: seq<string>, q: string)
    requires a <= b && q in a
    ensures q in b
  {
    var k :| 0 <= k < |a| && a[k] == q;
    assert b[k] == a[k];
  }

  lemma InLast(ps: seq<string>, q: string)
    requires ps != [] && q in ps
    ensures q in ps[..|ps| - 1] || q == ps[|ps| - 1]
  {
    var k :| 0 <= k < |ps| && ps[k] == q;
    if k < |ps| - 1 {
      assert ps[..|ps| - 1][k] == q;
    }
  }

  /** Appending a path that is not yet in a duplicate-free list keeps it
      duplicate-free. */
  lemma AppendFresh(xs: seq<string>, p: string)
    requires NoDuplicates(xs) && p !in xs
    ensures NoDuplicates(xs + [p])
  {
    var ys := xs + [p];
    forall i, j | 0 <= i < j < |ys| ensures ys[i] != ys[j] {
      assert ys[i] == xs[i];
      if j == |xs| {
        assert xs[i] in xs;
      } else {
        assert ys[j] == xs[j];
      }
    }
  }

  /** The saved list only grows at its end, never takes an internal path,
      takes every chosen external path, and stays duplicate-free. */
  lemma {:induction false} PickAllSaved(l: Listing, ps: seq<string>, dir: string)
    ensures var r := PickAll(l, ps, dir);
      && l.saved <= r.saved
      && (forall k :: |l.saved| <= k < |r.saved| ==> r.saved[k] in ps && !IsInternal(r.saved[k], dir))
      && (forall q :: q in ps && !IsInternal(q, dir) ==> q in r.saved)
      && (NoDuplicates(l.saved) ==> NoDuplicates(r.saved))
    decreases |ps|
  {
    if ps != [] {
      var init := ps[..|ps| - 1];
      var p := ps[|ps| - 1];
      PickAllSaved(l, init, dir);
      var m := PickAll(l, init, dir);
      var r := PickAll(l, ps, dir);
      assert r == PickOne(m, p, dir);
      PickOneEffect(m, p, dir);
      assert m.saved <= r.saved;
      forall k | |l.saved| <= k < |r.saved| ensures r.saved[k] in ps && !IsInternal(r.saved[k], dir) {
        if k < |m.saved| {
          assert r.saved[k] == m.saved[k];
          InPrefix(init, ps, m.saved[k]);
        } else {
          assert r.saved[k] == p;
        }
      }
      forall q | q in ps && !IsInternal(q, dir) ensures q in r.saved {
        InLast(ps, q);
        if q != p {
          InPrefix(m.saved, r.saved, q);
        }
      }
      if NoDuplicates(l.saved) && r.saved != m.saved {
        AppendFresh(m.saved, p);
      }
    }
  }

  /** The rows stay unique and only grow at their end; every row added is a
      chosen file. */
  lemma {:induction false} PickAllItems(l: Listing, ps: seq<string>, dir: string)
    ensures var r := PickAll(l, ps, dir);
      && l.items <= r.items
      && (UniquePaths(l.items) ==> UniquePaths(r.items))
      && (forall q :: HasPath(r.items, q) ==> HasPath(l.items, q) || q in ps)
    decreases |ps|
  {
    if ps != [] {
      var init := ps[..|ps| - 1];
      var p := ps[|ps| - 1];
      PickAllItems(l, init, dir);
      var m := PickAll(l, init, dir);
      var r := PickAll(l, ps, dir);
      assert r == PickOne(m, p, dir);
      PickOneEffect(m, p, dir);
      forall q | HasPath(r.items, q) ensures HasPath(l.items, q) || q in ps {
        if q != p && !HasPath(l.items, q) {
          InPrefix(init, ps, q);
        }
      }
    }
  }

  /** The bookkeeping the viewer keeps when the saved file is clean: saved
      paths are distinct, external, and each has a row. */
  ghost predicate Consistent(items: seq<FontEntry>, saved: seq<string>, dir: string)
  {
    && NoDuplicates(saved)
    && (forall q :: q in saved ==> !IsInternal(q, dir) && HasPath(items, q))
  }

  /** One pass keeps the bookkeeping consistent and leaves p with a row. */
  lemma PickOneConsistent(l: Listing, p: string, dir: string)
    requires Consistent(l.items, l.saved, dir)
    ensures var r := PickOne(l, p, dir);
      Consistent(r.items, r.saved, dir) && HasPath(r.items, p)
  {
    var r := PickOne(l, p, dir);
    PickOneEffect(l, p, dir);
    forall q | q in r.saved ensures !IsInternal(q, dir) && HasPath(r.items, q) {
      if q in l.saved {
        HasPathPrefix(l.items, r.items, q);
      } else {
        assert r.saved == l.saved + [p];
        assert q == p by { InLast(r.saved, q); assert r.saved[..|r.saved| - 1] == l.saved; }
      }
    }
    if r.saved != l.saved {
      AppendFresh(l.saved, p);
    }
  }

  /** Adding files keeps the bookkeeping consistent, and afterwards every
      chosen file has a row. */
  lemma {:induction false} PickAllConsistent(l: Listing, ps: seq<string>, dir: string)
    requires Consistent(l.items, l.saved, dir)
    ensures var r := PickAll(l, ps, dir);
      Consistent(r.items, r.saved, dir) && forall q :: q in ps ==> HasPath(r.items, q)
    decreases |ps|
  {
    if ps != [] {
      var init := ps[..|ps| - 1];
      var p := ps[|ps| - 1];
      PickAllConsistent(l, init, dir);
      var m := PickAll(l, init, dir);
      var r := PickAll(l, ps, dir);
      assert r == PickOne(m, p, dir);
      PickOneConsistent(m, p, dir);
      PickOneEffect(m, p, dir);
      forall q | q in ps ensures HasPath(r.items, q) {
        InLast(ps, q);
        if q != p {
          HasPathPrefix(m.items, r.items, q);
        }
      }
    }
  }

  /** A clean configuration file (distinct paths, none inside the managed
      directory) gives consistent bookkeeping at start-up. */
  lemma StartupConsistent(stored: Stored, onDisk: set<string>, entries: set<string>, dirs: set<string>, dir: string)
    requires stored.PathArray? ==> NoDuplicates(stored.paths) && forall q :: q in stored.paths ==> !IsInternal(q, dir)
    ensures var saved := LoadSavedPaths(stored, onDisk);
      Consistent(StartupEntries(entries, dirs, dir, saved), saved, dir)
  {
    var saved := LoadSavedPaths(stored, onDisk);
    StartupEntriesShape(entries, dirs, dir, saved);
    if stored.PathArray? {
      ExistingOnlyNoDuplicates(stored.paths, onDisk);
    }
  }

  // ---------------------------------------------------------------- delete

  /** The state delete_font_item reads and writes. */
  datatype Snapshot = Snapshot(items: seq<FontEntry>, saved: seq<string>, files: map<string, Content>, config: Stored)

  /** The user's and the system's answers during a delete: the confirmation
      box, whether os.remove is refused, whether save_paths fails. */
  datatype DeleteAnswers = DeleteAnswers(confirmed: bool, removeDenied: bool, saveFault: bool)

  /** delete_font_item for the row `row`. */
  function Deleted(s: Snapshot, row: nat, isInternal: bool, a: DeleteAnswers): Snapshot
    requires row < |s.items|
  {
    var p := s.items[row].path;
    if isInternal then
      if a.confirmed && p in s.files && !a.removeDenied
      then s.(items := RemoveAt(s.items, row), files := s.files - {p})
      else s
    else if p in s.saved then
      var saved := RemoveFirst(s.saved, p);
      s.(items := RemoveAt(s.items, row), saved := saved,
         config := if a.saveFault then s.config else PathArray(saved))
    else s.(items := RemoveAt(s.items, row))
  }

  /** An internal delete touches only the file and the row, and both go or
      neither does: the row is taken out exactly when the confirmed removal
      succeeds, and otherwise nothing changes. An external delete keeps every
      file and always takes the row out; the path leaves the saved list
      (saved again) when it was there. */
  lemma DeletedEffect(s: Snapshot, row: nat, isInternal: bool, a: DeleteAnswers)
    requires row < |s.items| && UniquePaths(s.items)
    ensures var r := Deleted(s, row, isInternal, a);
      var p := s.items[row].path;
      && UniquePaths(r.items)
      && (forall q :: HasPath(r.items, q) ==> HasPath(s.items, q))
      && (forall q :: q != p ==> (HasPath(r.items, q) <==> HasPath(s.items, q)))
      && (isInternal ==>
            && r.saved == s.saved && r.config == s.config
            && (!HasPath(r.items, p) <==> a.confirmed && p in s.files && !a.removeDenied)
            && r.files.Keys == (if HasPath(r.items, p) then s.files.Keys else s.files.Keys - {p})
            && (!(a.confirmed && p in s.files && !a.removeDenied) ==> r == s)
            && (a.confirmed && p in s.files && !a.removeDenied ==>
                  r.items == RemoveAt(s.items, row) && r.files == s.files - {p}))
      && (!isInternal ==>
            && r.files == s.files && !HasPath(r.items, p)
            && r.items == RemoveAt(s.items, row)
            && (NoDuplicates(s.saved) ==> p !in r.saved && NoDuplicates(r.saved))
            && (forall q :: q != p ==> (q in r.saved <==> q in s.saved))
            && (p in s.saved && !a.saveFault ==> r.config == PathArray(r.saved))
            && (p !in s.saved || a.saveFault ==> r.config == s.config))
  {
    var p := s.items[row].path;
    RemoveAtEffect(s.items, row);
    assert HasPath(s.items, p);
    if !isInternal && p in s.saved {
      var saved := RemoveFirst(s.saved, p);
      forall q | q != p ensures q in saved <==> q in s.saved {
        assert q in saved <==> multiset(saved)[q] > 0;
        assert q in s.saved <==> multiset(s.saved)[q] > 0;
      }
      if NoDuplicates(s.saved) {
        RemoveFirstEffect(s.saved, p);
      }
    }
  }

  /** Deleting through the context menu keeps the bookkeeping consistent. */
  lemma DeletedConsistent(s: Snapshot, row: nat, dir: string, a: DeleteAnswers)
    requires row < |s.items| && UniquePaths(s.items)
    requires Consistent(s.items, s.saved, dir)
    ensures var r := Deleted(s, row, IsInternal(s.items[row].path, dir), a);
      Consistent(r.items, r.saved, dir)
  {
    DeletedEffect(s, row, IsInternal(s.items[row].path, dir), a);
  }
}
