/** FontListWidget: the list of font rows, and the drop handler that installs
    dropped font files into the managed directory. */
module FontList {
  import opened FontPaths
  import opened FontEntries
  import opened Platform

  /** What a drop can change: the files on disk, the rows, and the names
      whose copy failed (each reported to the user in a message box). */
  datatype DropState = DropState(files: map<string, Content>, items: seq<FontEntry>, failures: seq<string>)

  /** The body of the drop loop for one URL. A name without a font extension
      and a target that already exists are skipped; otherwise the file is
      copied to `fonts/<name>` and the target is added to the list, or the
      copy fails and the name is reported. */
  function DropOne(st: DropState, url: string, dir: string, dirs: set<string>, failing: set<string>): DropState
  {
    var name := Basename(url);
    var target := Join(dir, name);
    if !IsFontFileName(name) || target in st.files || target in dirs then st
    else if url in st.files && url !in failing then
      DropState(st.files[target := st.files[url]], AddEntry(st.items, target), st.failures)
    else
      DropState(st.files, st.items, st.failures + [name])
  }

  /** The whole drop loop, first URL first. */
  function DropAll(st: DropState, urls: seq<string>, dir: string, dirs: set<string>, failing: set<string>): DropState
    decreases |urls|
  {
    if urls == [] then st
    else DropOne(DropAll(st, urls[..|urls| - 1], dir, dirs, failing), urls[|urls| - 1], dir, dirs, failing)
  }

  /** No existing file is overwritten and every new file is a font
      installed in the managed directory. */
  ghost predicate FilesGrow(before: map<string, Content>, after: map<string, Content>, dir: string, dirs: set<string>)
  {
    && (forall p :: p in before ==> p in after && after[p] == before[p])
    && (forall p :: p in after && p !in before ==> IsInternal(p, dir) && IsFontFileName(Basename(p)) && p !in dirs)
  }

  /** Rows are only appended, stay unique, and the new rows are exactly the
      new files. */
  ghost predicate RowsFollow(st: DropState, r: DropState)
  {
    && (forall q :: HasPath(r.items, q) <==> HasPath(st.items, q) || (q in r.files && q !in st.files))
    && st.items <= r.items
    && (UniquePaths(st.items) ==> UniquePaths(r.items))
  }

  /** What one step of the drop loop can change. */
  ghost predicate StepShape(st: DropState, r: DropState, dir: string, dirs: set<string>)
  {
    FilesGrow(st.files, r.files, dir, dirs) && RowsFollow(st, r) && st.failures <= r.failures
  }

  lemma InstallFiles(files: map<string, Content>, target: string, content: Content, dir: string, dirs: set<string>)
    requires IsInternal(target, dir) && IsFontFileName(Basename(target)) && target !in dirs && target !in files
    ensures FilesGrow(files, files[target := content], dir, dirs)
  {
    forall p | p in files[target := content] && p !in files
      ensures IsInternal(p, dir) && IsFontFileName(Basename(p)) && p !in dirs
    {
      assert p == target;
    }
  }

  lemma InstallRows(st: DropState, target: string, content: Content)
    requires target !in st.files
    ensures RowsFollow(st, DropState(st.files[target := content], AddEntry(st.items, target), st.failures))
  {
    var r := DropState(st.files[target := content], AddEntry(st.items, target), st.failures);
    AddEntryEffect(st.items, target);
    forall q ensures HasPath(r.items, q) <==> HasPath(st.items, q) || (q in r.files && q !in st.files) {
      assert (q in r.files && q !in st.files) <==> q == target;
    }
  }

  /** An install: a fresh file in the managed directory gets a row. */
  lemma InstallShape(st: DropState, target: string, content: Content, dir: string, dirs: set<string>)
    requires IsInternal(target, dir) && IsFontFileName(Basename(target)) && target !in dirs && target !in st.files
    ensures StepShape(st, DropState(st.files[target := content], AddEntry(st.items, target), st.failures), dir, dirs)
  {
    InstallFiles(st.files, target, content, dir, dirs);
    InstallRows(st, target, content);
  }

  lemma DropOneEffect(st: DropState, url: string, dir: string, dirs: set<string>, failing: set<string>)
    requires ManagedDir(dir)
    ensures StepShape(st, DropOne(st, url, dir, dirs, failing), dir, dirs)
  {
    var name := Basename(url);
    var target := Join(dir, name);
    if !IsFontFileName(name) || target in st.files || target in dirs {
      assert st.items <= st.items && st.failures <= st.failures;
    } else if url in st.files && url !in failing {
      JoinSplits(dir, name);
      InstallShape(st, target, st.files[url], dir, dirs);
    } else {
      assert st.items <= st.items;
    }
  }

  lemma StepShapeCompose(a: DropState, b: DropState, c: DropState, dir: string, dirs: set<string>)
    requires StepShape(a, b, dir, dirs) && StepShape(b, c, dir, dirs)
    ensures StepShape(a, c, dir, dirs)
  {
  }

  /** What a drop does overall: no existing file is overwritten; every new
      file is an installed font in the managed directory; a row is added for
      exactly the newly installed files; rows stay unique and in order and
      reports are only appended. */
  lemma {:induction false} DropAllEffect(st: DropState, urls: seq<string>, dir: string, dirs: set<string>, failing: set<string>)
    requires ManagedDir(dir)
    ensures StepShape(st, DropAll(st, urls, dir, dirs, failing), dir, dirs)
    decreases |urls|
  {
    if urls == [] {
      assert st.items <= st.items && st.failures <= st.failures;
    } else {
      var init := urls[..|urls| - 1];
      DropAllEffect(st, init, dir, dirs, failing);
      var m := DropAll(st, init, dir, dirs, failing);
      DropOneEffect(m, urls[|urls| - 1], dir, dirs, failing);
      StepShapeCompose(st, m, DropAll(st, urls, dir, dirs, failing), dir, dirs);
    }
  }

  /** The reports already made do not influence the rest of a drop. */
  lemma {:induction false} DropAllReports(files: map<string, Content>, items: seq<FontEntry>, reported: seq<string>,
                                          urls: seq<string>, dir: string, dirs: set<string>, failing: set<string>)
    ensures var r := DropAll(DropState(files, items, []), urls, dir, dirs, failing);
      DropAll(DropState(files, items, reported), urls, dir, dirs, failing) == DropState(r.files, r.items, reported + r.failures)
    decreases |urls|
  {
    if urls != [] {
      DropAllReports(files, items, reported, urls[..|urls| - 1], dir, dirs, failing);
      var r := DropAll(DropState(files, items, []), urls[..|urls| - 1], dir, dirs, failing);
      var name := Basename(urls[|urls| - 1]);
      assert reported + (r.failures + [name]) == (reported + r.failures) + [name];
    }
  }

  /** Dropping two batches one after the other is dropping them together:
      each URL is handled on its own, after those before it. */
  lemma {:induction false} DropAllAppend(st: DropState, us: seq<string>, vs: seq<string>, dir: string, dirs: set<string>, failing: set<string>)
    ensures DropAll(st, us + vs, dir, dirs, failing) == DropAll(DropAll(st, us, dir, dirs, failing), vs, dir, dirs, failing)
    decreases |vs|
  {
    if vs == [] {
      assert us + vs == us;
    } else {
      var init := vs[..|vs| - 1];
      assert (us + vs)[..|us + vs| - 1] == us + init;
      assert (us + vs)[|us + vs| - 1] == vs[|vs| - 1];
      DropAllAppend(st, us, init, dir, dirs, failing);
    }
  }

  /** A copy that fails is reported and the drop goes on: the files and rows
      at the end are those of dropping the remaining URLs alone. */
  lemma FailedCopyContinues(files: map<string, Content>, items: seq<FontEntry>, url: string, rest: seq<string>,
                            dir: string, dirs: set<string>, failing: set<string>)
    requires IsFontFileName(Basename(url))
    requires Join(dir, Basename(url)) !in files && Join(dir, Basename(url)) !in dirs
    requires url !in files || url in failing
    ensures var r := DropAll(DropState(files, items, []), [url] + rest, dir, dirs, failing);
      var s := DropAll(DropState(files, items, []), rest, dir, dirs, failing);
      r.files == s.files && r.items == s.items && r.failures == [Basename(url)] + s.failures
  {
    var st := DropState(files, items, []);
    DropAllAppend(st, [url], rest, dir, dirs, failing);
    assert [url][..0] == [];
    assert DropAll(st, [url], dir, dirs, failing) == DropOne(st, url, dir, dirs, failing);
    assert DropOne(st, url, dir, dirs, failing) == DropState(files, items, [Basename(url)]);
    DropAllReports(files, items, [Basename(url)], rest, dir, dirs, failing);
  }

  class FontListWidget {
    const fontsDir: string
    var items: seq<FontEntry>

    constructor (fontsDir: string)
      ensures this.fontsDir == fontsDir && items == []
    {
      this.fontsDir := fontsDir;
      items := [];
    }

    /** add_font_to_list: scan the rows for the path; append a row only when
        none has it. */
    method AddFontToList(path: string)
      modifies this`items
      ensures items == AddEntry(old(items), path)
    {
      var i := 0;
      while i < |items|
        invariant 0 <= i <= |items|
        invariant forall k :: 0 <= k < i ==> items[k].path != path
      {
        if items[i].path == path {
          return;
        }
        i := i + 1;
      }
      items := items + [FontEntry(path)];
    }

    /** takeItem(row): the row leaves the list, the rows after it move up. */
    method TakeItem(row: nat)
      requires row < |items|
      modifies this`items
      ensures items == RemoveAt(old(items), row)
    {
      items := items[..row] + items[row + 1..];
    }

    /** One pass of the dropEvent loop. */
    method DropOneUrl(url: string, disk: Disk, failing: set<string>, reported: seq<string>) returns (failures: seq<string>)
      modifies this`items, disk`files
      ensures DropState(disk.files, items, failures)
        == DropOne(DropState(old(disk.files), old(items), reported), url, fontsDir, disk.dirs, failing)
    {
      failures := reported;
      var name := Basename(url);
      if !IsFontFileName(name) {
        return;
      }
      var target := Join(fontsDir, name);
      if target in disk.files || target in disk.dirs {
        return;
      }
      var ok := disk.Copy(url, target, url in failing);
      if ok {
        AddFontToList(target);
      } else {
        failures := failures + [name];
      }
    }

    /** dropEvent: install each dropped file (the fontDropped signal runs
        add_font_to_list at once); returns the names whose copy failed. */
    method DropEvent(urls: seq<string>, disk: Disk, failing: set<string>) returns (failures: seq<string>)
      modifies this`items, disk`files
      ensures var r := DropAll(DropState(old(disk.files), old(items), []), urls, fontsDir, disk.dirs, failing);
        disk.files == r.files && items == r.items && failures == r.failures
    {
      failures := [];
      var i := 0;
      while i < |urls|
        invariant 0 <= i <= |urls|
        invariant DropState(disk.files, items, failures)
          == DropAll(DropState(old(disk.files), old(items), []), urls[..i], fontsDir, disk.dirs, failing)
      {
        failures := DropOneUrl(urls[i], disk, failing, failures);
        assert urls[..i + 1][..i] == urls[..i];
        i := i + 1;
      }
      assert urls[..|urls|] == urls;
    }
  }
}
