/** FontViewerApp: the application object. It owns the list widget, the saved
    list of external paths and the currently loaded application font, and
    keeps them in step with the disk and the font database. */
module FontViewer {
  import opened Optional
  import opened FontPaths
  import opened FontEntries
  import opened FontStore
  import opened Platform
  import opened FontList
  import opened Bookkeeping

  /** What the toolkit reports for a font file: whether addApplicationFont
      accepts it, the families it registers, the styles of the first family,
      and the weight and italic flag of that family's first style. */
  datatype FontFacts = FontFacts(loadable: bool, families: seq<string>, styles: seq<string>, weight: int, italic: bool)

  /** The tuple load_font returns. */
  datatype FontDetails = FontDetails(family: string, style: string, weight: int, italic: bool, id: int)

  /** The details shown for a registered font: the first family, its first
      style or "Normal" when it lists none. */
  function Describe(facts: FontFacts, id: int): FontDetails
    requires facts.families != []
  {
    FontDetails(facts.families[0], if facts.styles == [] then "Normal" else facts.styles[0], facts.weight, facts.italic, id)
  }

  /** The registry calls load_font makes: release the current font, register
      the new file, and release it again when it yields no family. */
  function LoadCalls(current: int, path: string, id: int, families: seq<string>): (cs: seq<RegistryCall>)
    ensures |cs| == (if current != -1 then 1 else 0) + 1 + (if id != -1 && families == [] then 1 else 0)
    ensures current != -1 ==> cs[0] == Release(current)
    ensures cs[if current != -1 then 1 else 0] == Add(path, id)
    ensures id != -1 && families == [] ==> cs[|cs| - 1] == Release(id)
  {
    (if current != -1 then [Release(current)] else [])
    + [Add(path, id)]
    + (if id != -1 && families == [] then [Release(id)] else [])
  }

  class FontViewerApp {
    const fontsDir: string
    const disk: Disk
    const list: FontListWidget
    const db: FontDatabase
    var savedFontPaths: seq<string>
    var currentFontId: int
    var currentFontFamily: string

    /** The invariant every handler keeps: the list belongs to the managed
        directory, no two rows share a path, and at most the current font is
        registered. */
    ghost predicate Valid()
      reads this, list, db
    {
      && ManagedDir(fontsDir) && list.fontsDir == fontsDir
      && UniquePaths(list.items)
      && db.Valid() && db.live <= {currentFontId}
    }

    /** The saved list is duplicate-free, holds external paths only, and
        each of them has a row. */
    ghost predicate SavedListConsistent()
      reads this, list
    {
      Consistent(list.items, savedFontPaths, fontsDir)
    }

    function Snap(): Snapshot
      reads this, list, disk
    {
      Snapshot(list.items, savedFontPaths, disk.files, disk.config)
    }

    /** __init__: read the saved list (keeping the paths that still exist),
        no font loaded, then load_initial_fonts. */
    constructor (fontsDir: string, disk: Disk)
      requires ManagedDir(fontsDir)
      ensures Valid() && fresh(list) && fresh(db)
      ensures this.fontsDir == fontsDir && this.disk == disk
      ensures savedFontPaths == LoadSavedPaths(disk.config, disk.files.Keys + disk.dirs)
      ensures list.items == StartupEntries(disk.files.Keys + disk.dirs, disk.dirs, fontsDir, savedFontPaths)
      ensures currentFontId == -1 && currentFontFamily == ""
      ensures db.live == {} && db.calls == []
      ensures (disk.config.PathArray? ==>
                 NoDuplicates(disk.config.paths) && forall q :: q in disk.config.paths ==> !IsInternal(q, fontsDir))
        ==> SavedListConsistent()
    {
      this.fontsDir := fontsDir;
      this.disk := disk;
      savedFontPaths := LoadSavedPaths(disk.config, disk.files.Keys + disk.dirs);
      currentFontId := -1;
      currentFontFamily := "";
      list := new FontListWidget(fontsDir);
      db := new FontDatabase();
      new;
      LoadInitialFonts();
      if disk.config.PathArray? ==>
           NoDuplicates(disk.config.paths) && forall q :: q in disk.config.paths ==> !IsInternal(q, fontsDir) {
        StartupConsistent(disk.config, disk.files.Keys + disk.dirs, disk.files.Keys + disk.dirs, disk.dirs, fontsDir);
      }
    }

    /** The loops of load_initial_fonts: add_font_to_list for each path in
        turn. */
    method AddEachToList(ps: seq<string>)
      modifies list`items
      ensures list.items == AddAll(old(list.items), ps)
    {
      var i := 0;
      while i < |ps|
        invariant 0 <= i <= |ps|
        invariant list.items == AddAll(old(list.items), ps[..i])
      {
        list.AddFontToList(ps[i]);
        assert ps[..i + 1][..i] == ps[..i];
        i := i + 1;
      }
      assert ps[..|ps|] == ps;
    }

    /** load_initial_fonts: add the scanned font files of the managed
        directory, then the saved paths. */
    method LoadInitialFonts()
      requires Valid()
      modifies list`items
      ensures Valid()
      ensures list.items == AddAll(AddAll(old(list.items), ScanManagedDir(disk.files.Keys + disk.dirs, disk.dirs, fontsDir)), savedFontPaths)
    {
      var scan := ScanManagedDir(disk.files.Keys + disk.dirs, disk.dirs, fontsDir);
      AddAllEffect(list.items, scan);
      AddEachToList(scan);
      AddAllEffect(list.items, savedFontPaths);
      AddEachToList(savedFontPaths);
    }

    /** One pass of the add_font_file loop. */
    method AddPickedFile(filepath: string)
      modifies this`savedFontPaths, list`items
      ensures Listing(list.items, savedFontPaths) == PickOne(Listing(old(list.items), old(savedFontPaths)), filepath, fontsDir)
    {
      if IsInternal(filepath, fontsDir) {
        list.AddFontToList(filepath);
        return;
      }
      if filepath !in savedFontPaths {
        savedFontPaths := savedFontPaths + [filepath];
        list.AddFontToList(filepath);
      }
    }

    /** The loop of add_font_file over the chosen files. */
    method PickEach(selected: seq<string>)
      modifies this`savedFontPaths, list`items
      ensures Listing(list.items, savedFontPaths) == PickAll(Listing(old(list.items), old(savedFontPaths)), selected, fontsDir)
    {
      var i := 0;
      while i < |selected|
        invariant 0 <= i <= |selected|
        invariant Listing(list.items, savedFontPaths) == PickAll(Listing(old(list.items), old(savedFontPaths)), selected[..i], fontsDir)
      {
        AddPickedFile(selected[i]);
        assert selected[..i + 1][..i] == selected[..i];
        i := i + 1;
      }
      assert selected[..|selected|] == selected;
    }

    /** add_font_file for the files chosen in the dialog: nothing when none
        is chosen; otherwise each file in turn, then save_paths once. */
    method AddFontFile(selected: seq<string>, saveFault: bool)
      requires Valid()
      modifies this`savedFontPaths, list`items, disk`config
      ensures Valid()
      ensures selected == [] ==>
        list.items == old(list.items) && savedFontPaths == old(savedFontPaths) && disk.config == old(disk.config)
      ensures selected != [] ==>
        var r := PickAll(Listing(old(list.items), old(savedFontPaths)), selected, fontsDir);
        && list.items == r.items && savedFontPaths == r.saved
        && disk.config == (if saveFault then old(disk.config) else PathArray(r.saved))
      ensures old(SavedListConsistent()) ==> SavedListConsistent()
    {
      if selected == [] {
        return;
      }
      var l0 := Listing(list.items, savedFontPaths);
      PickEach(selected);
      PickAllItems(l0, selected, fontsDir);
      if Consistent(l0.items, l0.saved, fontsDir) {
        PickAllConsistent(l0, selected, fontsDir);
      }
      disk.SavePaths(savedFontPaths, saveFault);
    }

    /** delete_font_item for the row `row`, with the classification made
        when the menu was opened. */
    method DeleteFontItem(row: nat, isInternal: bool, answers: DeleteAnswers)
      requires Valid() && row < |list.items|
      modifies this`savedFontPaths, list`items, disk`files, disk`config
      ensures Valid()
      ensures Snap() == Deleted(old(Snap()), row, isInternal, answers)
    {
      RemoveAtEffect(list.items, row);
      var p := list.items[row].path;
      if isInternal {
        if answers.confirmed {
          var ok := disk.Remove(p, answers.removeDenied);
          if ok {
            list.TakeItem(row);
          }
        }
      } else {
        if p in savedFontPaths {
          savedFontPaths := RemoveFirst(savedFontPaths, p);
          disk.SavePaths(savedFontPaths, answers.saveFault);
        }
        list.TakeItem(row);
      }
    }

    /** show_font_context_menu: a click off the rows does nothing; otherwise
        the row is classified by its parent directory, and delete runs when
        the menu's action is chosen. */
    method ShowFontContextMenu(hit: Option<nat>, deleteChosen: bool, answers: DeleteAnswers)
      requires Valid() && (hit.Some? ==> hit.value < |list.items|)
      modifies this`savedFontPaths, list`items, disk`files, disk`config
      ensures Valid()
      ensures hit.None? || !deleteChosen ==> Snap() == old(Snap())
      ensures hit.Some? && deleteChosen ==>
        Snap() == Deleted(old(Snap()), hit.value, IsInternal(old(list.items)[hit.value].path, fontsDir), answers)
      ensures old(SavedListConsistent()) ==> SavedListConsistent()
    {
      if hit.None? {
        return;
      }
      var row := hit.value;
      var isInternal := IsInternal(list.items[row].path, fontsDir);
      if deleteChosen {
        if SavedListConsistent() {
          DeletedConsistent(Snap(), row, fontsDir, answers);
        }
        DeleteFontItem(row, isInternal, answers);
      }
    }

    /** The drop handler with its fontDropped connection: files are installed
        and listed; the saved list is not touched. */
    method HandleDrop(urls: seq<string>, failing: set<string>) returns (failures: seq<string>)
      requires Valid()
      modifies list`items, disk`files
      ensures Valid()
      ensures var r := DropAll(DropState(old(disk.files), old(list.items), []), urls, fontsDir, disk.dirs, failing);
        disk.files == r.files && list.items == r.items && failures == r.failures
      ensures old(SavedListConsistent()) ==> SavedListConsistent()
    {
      DropAllEffect(DropState(disk.files, list.items, []), urls, fontsDir, disk.dirs, failing);
      ghost var before := list.items;
      failures := list.DropEvent(urls, disk, failing);
      forall q | q in savedFontPaths && HasPath(before, q) ensures HasPath(list.items, q) {
        HasPathPrefix(before, list.items, q);
      }
    }

    /** load_font: release the current font, register the file, and read
        its first family and style; None when registration fails or yields
        no family (a registration without family is released again). */
    method LoadFont(path: string, facts: FontFacts) returns (details: Option<FontDetails>, ghost id: int)
      requires Valid()
      modifies db
      ensures db.Valid()
      ensures details.Some? <==> path in disk.files && facts.loadable && facts.families != []
      ensures (id == -1) <==> !(path in disk.files && facts.loadable)
      ensures details.Some? ==>
        && id >= 0 && details.value.id == id && db.live == {id}
        && details.value.family == facts.families[0]
        && details.value.style == (if facts.styles == [] then "Normal" else facts.styles[0])
        && details.value.weight == facts.weight && details.value.italic == facts.italic
      ensures details.None? ==> db.live == {}
      ensures db.calls == old(db.calls) + LoadCalls(currentFontId, path, id, facts.families)
    {
      if currentFontId != -1 {
        var _ := db.RemoveApplicationFont(currentFontId);
      }
      var fontId := db.AddApplicationFont(path, disk, facts.loadable);
      id := fontId;
      if fontId == -1 {
        return None, id;
      }
      if facts.families == [] {
        var _ := db.RemoveApplicationFont(fontId);
        return None, id;
      }
      return Some(Describe(facts, fontId)), id;
    }

    /** on_font_selected: load the clicked row's file; on success it becomes
        the current font, on failure the current id and family keep their
        old values although that font has been released. */
    method OnFontSelected(row: Option<nat>, facts: FontFacts) returns (details: Option<FontDetails>, ghost id: int)
      requires Valid() && (row.Some? ==> row.value < |list.items|)
      modifies this`currentFontId, this`currentFontFamily, db
      ensures Valid()
      ensures row.None? ==>
        && details.None? && currentFontId == old(currentFontId) && currentFontFamily == old(currentFontFamily)
        && db.live == old(db.live) && db.calls == old(db.calls)
      ensures row.Some? ==>
        var p := list.items[row.value].path;
        && (details.Some? <==> p in disk.files && facts.loadable && facts.families != [])
        && (id == -1 <==> !(p in disk.files && facts.loadable))
        && db.calls == old(db.calls) + LoadCalls(old(currentFontId), p, id, facts.families)
      ensures details.Some? ==>
        && currentFontId == details.value.id == id && currentFontFamily == details.value.family == facts.families[0]
        && details.value.style == (if facts.styles == [] then "Normal" else facts.styles[0])
        && details.value.weight == facts.weight && details.value.italic == facts.italic
        && db.live == {currentFontId}
      ensures row.Some? && details.None? ==>
        currentFontId == old(currentFontId) && currentFontFamily == old(currentFontFamily) && db.live == {}
    {
      if row.None? {
        return None, -1;
      }
      var filepath := list.items[row.value].path;
      details, id := LoadFont(filepath, facts);
      if details.Some? {
        currentFontFamily := details.value.family;
        currentFontId := details.value.id;
      }
    }
  }
}
