# Font viewer: list bookkeeping

A Dafny model of the font bookkeeping of a small PyQt5 font viewer (`1.py`).
The viewer keeps a list of font rows. Each row shows a file name and keeps the full path.
Rows come from four places:

- the managed `fonts/` directory next to the program, scanned at start-up;
- the saved list of external paths in `fonts/saved_paths.json`;
- the "add fonts" file dialog;
- files dropped onto the list, which are first copied into `fonts/`.

The model covers adding rows without duplicates and the start-up scan.
It covers the add-files loop, which saves external paths, and deleting a row, which removes the file or forgets the shortcut.
It covers the drop handler, and loading the selected font into the application-font database with the release of the previous one.

The model is laid out like the program:

- `FontList.FontListWidget` is the list widget. It holds `items`, with `AddFontToList`, `TakeItem` and its drop handler `DropEvent`. In the program `add_font_to_list` is a method of the window (1.py:425). The widget's `fontDropped` signal reaches it through the connection at 1.py:316. The model moves it to the widget that owns the rows, and the window calls it there.
- `FontViewer.FontViewerApp` is the window. It holds `savedFontPaths`, `currentFontId` and `currentFontFamily`.
- `Platform.Disk` stands for the file system: files with their bytes, directories, and the state of the configuration file.
- `Platform.FontDatabase` stands for Qt's application-font registry.

The list operations are proved equal to a pure function of the state before them:

- `AddEntry`/`AddAll` for `AddFontToList` and the start-up loops;
- `PickOne`/`PickAll` for the add-files loop;
- `DropOne`/`DropAll` for the drop loop;
- `Deleted` for delete.

`LoadFont` and `OnFontSelected` are specified by relations instead. Their contracts give the registry call sequence (`LoadCalls`), the registered ids, the returned details and the fields that change.

The properties are lemmas about those functions. Examples: no duplicate rows; no file overwritten; the saved list stays external and listed; a delete removes exactly one row.

What the outside world decides is a parameter of each operation:

- which dialog files are chosen;
- which copy, removal or save fails;
- whether the user confirms;
- what Qt reports for a font (`FontFacts`).

Paths are POSIX strings in normal form. `Parent` and `Basename` split at the last `/`. `IsInternal(p, dir)` is the test `Path(p).parent == fonts_dir`.

`sorted()` at 1.py:383 sorts `PosixPath` objects, which compare by their lists of components. Every globbed path has the same parent, `fonts_dir`, so the two compare by their final components alone. On these paths that order agrees with the code-point order on the whole strings (`PathOrder.LexLe`), which is what the model sorts by.

The start-up glob matches every directory entry, so the scan is given the files and the sub-directories of the disk together.

Behaviour of the program that the proofs make explicit:

- The start-up scan globs `*.ttf` and `*.otf` only, with letter case as written. The drop filter accepts `.ttf`, `.otf` and `.ttc` in any letter case. So a dropped `.ttc` file, or one named `X.TTF`, is installed but not listed again after a restart (`ScanSkipsTtc`, `UpperCaseExtensionAccepted`).
- `add_font_file` applies no extension filter of its own. The dialog offers `*.ttf *.otf *.ttc` and also all files, and the model takes whatever was chosen. A file chosen from inside `fonts/` is listed but not saved, so it too is gone after a restart unless the scan finds it.
- When a later load fails, `current_font_id` and `current_font_family` keep their old values, although that font has already been released (`OnFontSelected`, `LoadFont`). The next selection releases the stale id once more.
- `Consistent` means the saved paths are distinct and external, and each has a row. It is kept by add-files, by drop and by the context-menu delete, whenever it held before. A saved list that was edited by hand to hold a path twice is never `Consistent`. If such a path is deleted, `remove` drops only its first copy, so a saved copy stays behind with no row (`DeletedEffect` promises that the path is gone only for a duplicate-free saved list).

## Model

| member | source | states |
|---|---|---|
| FontPaths.Basename | 1.py:432 | the display name is the longest suffix of the path without `/`, and the path has a `/` right before it |
| FontPaths.Parent | 1.py:414 | a bare name has parent "."; a path whose only `/` is the first character has parent "/"; otherwise the path is parent + "/" + basename |
| FontPaths.IsInternal | 1.py:439 | a path is internal exactly when its parent is the managed directory (also the test at 1.py:414) |
| FontPaths.IsFontFileName | 1.py:116 | the lower-cased name ends in `.ttf`, `.otf` or `.ttc` |
| FontPaths.JoinSplits | 1.py:119 | `fonts_dir / name` has `fonts_dir` as parent and `name` as basename, so every drop target is internal |
| FontPaths.Lower | 1.py:116 | `lower()` keeps the length and lower-cases each ASCII letter, leaving every other character alone |
| FontPaths.ScanSuffixIsFontName | 1.py:383 | every name the start-up glob or a lower-case extension yields also passes the install filter |
| FontPaths.UpperCaseExtensionAccepted | 1.py:116 | the install filter ignores case: `X.TTF` and `X.TTC` are accepted |
| PathOrder.LexLeTotal | 1.py:383 | the order `sorted()` uses compares any two paths |
| PathOrder.LexLeAntisymmetric | 1.py:383 | two paths ordered both ways are equal |
| PathOrder.LexLeTransitive | 1.py:383 | the order is transitive |
| PathOrder.LeastExists | 1.py:383 | every non-empty set of paths has a least element |
| PathOrder.SortedSeq | 1.py:383 | `sorted(glob)` is strictly increasing and lists exactly the globbed paths, each once |
| PathOrder.SortedUnique | 1.py:383 | two strictly sorted lists with the same members are equal, so the scan order is determined |
| FontEntries.FontEntry.Name | 1.py:432-433 | a row's text is the whole final component of its path: it has no `/`, it ends the path, and a `/` comes right before it unless it is the whole path |
| FontEntries.AddEntry | 1.py:425-434 | add_font_to_list: a path already listed is skipped, otherwise one row is appended |
| FontEntries.AddAll | 1.py:384-387 | a run of add_font_to_list calls, first path first |
| FontEntries.AddEntryEffect | 1.py:425-434 | add_font_to_list lists the path and keeps earlier rows in place. It appends at most one row, exactly when the path was absent, and never creates a duplicate |
| FontEntries.AddEntryIdempotent | 1.py:425-434 | adding the same path twice equals adding it once |
| FontEntries.AddAllEffect | 1.py:384-387 | a run of adds only appends, lists exactly the old paths plus the added ones, and keeps rows unique |
| FontEntries.AddAllListed | 1.py:427-430 | adding paths that are all listed already changes nothing |
| FontEntries.AddAllIdempotent | 1.py:425-434 | replaying a batch of adds changes nothing |
| FontEntries.AddAllAppend | 1.py:384-387 | adding one batch after another equals adding them together |
| FontEntries.RemoveAt | 1.py:473 | takeItem shortens the list by one; rows before the index stay, rows after it move up |
| FontEntries.RemoveAtEffect | 1.py:473 | taking a row out of a duplicate-free list removes exactly that row's path |
| FontEntries.FirstIndex | 1.py:472 | the first index holding the value |
| FontEntries.RemoveFirst | 1.py:472 | `list.remove` cuts out the first copy of the value: what precedes it and what follows it keep their order, and exactly one copy goes (multiset difference) |
| FontEntries.RemoveFirstEffect | 1.py:472 | on a duplicate-free list, remove takes the value out entirely, keeps every other value, and leaves the list duplicate-free |
| FontEntries.DistinctCount | 1.py:472 | a duplicate-free list holds each value at most once |
| FontStore.ExistingOnly | 1.py:279 | the filter keeps each stored path that exists as often as it was stored, and drops every path that does not |
| FontStore.ExistingOnlyAppend | 1.py:279 | filtering keeps the stored order |
| FontStore.ExistingOnlyAllPresent | 1.py:279 | when every stored path exists, the list comes back unchanged |
| FontStore.ExistingOnlyNoDuplicates | 1.py:279 | a duplicate-free stored list gives a duplicate-free result |
| FontStore.LoadSavedPaths | 1.py:274-281 | the result holds only stored paths that exist, and every stored path that exists. A missing, unreadable or malformed file (undecodable bytes included) gives [] |
| FontStore.LoadSavedPathsAsWritten | 1.py:274-281 | the raise escapes exactly for a file that is not UTF-8; in every other case it agrees with the corrected reading |
| FontStore.SaveLoadRoundTrip | 1.py:283-287 | reading back what save_paths wrote, with every path still present, returns the saved list |
| Platform.Disk.Copy | 1.py:125-126 | on success the target holds the source's bytes; on failure no file changes |
| Platform.Disk.Remove | 1.py:469 | os.remove succeeds exactly for an existing file whose removal is allowed, and removes that one file |
| Platform.Disk.SavePaths | 1.py:283-287 | save_paths writes the whole list as a path array; an IOError leaves the file as it was |
| Platform.FontDatabase.AddApplicationFont | 1.py:487 | returns -1 exactly when the file is missing or rejected; otherwise a fresh id, now registered |
| Platform.FontDatabase.RemoveApplicationFont | 1.py:486 | the id is no longer registered; nothing else is |
| Bookkeeping.Glob | 1.py:383 | `fonts_dir.glob("*" + suffix)`: the entries whose parent is the managed directory and whose name ends in the suffix as written |
| Bookkeeping.ScanManagedDir | 1.py:381-383 | the sorted `.ttf` entries followed by the sorted `.otf` entries, or nothing when the directory is missing |
| Bookkeeping.StartupEntries | 1.py:379-387 | the rows after start-up: the scan, then the saved paths, each through add_font_to_list |
| Bookkeeping.ScanMembers | 1.py:381-383 | the scan lists exactly the `.ttf`/`.otf` directory entries (files and sub-directories alike) whose parent is the managed directory, and nothing when that directory is missing |
| Bookkeeping.ScanGroups | 1.py:383 | all `.ttf` entries come first, sorted, then all `.otf` entries, sorted |
| Bookkeeping.ScanDistinct | 1.py:383 | the scan lists no entry twice |
| Bookkeeping.ScanSkipsTtc | 1.py:383 | a `.ttc` name passes the install filter but is never in the scan |
| Bookkeeping.AddAllFresh | 1.py:384-387 | adding distinct paths not yet listed appends one row per path, in order |
| Bookkeeping.StartupEntriesShape | 1.py:379-387 | the start-up rows begin with the scan in scan order, are unique, and list exactly the scanned and saved paths |
| Bookkeeping.PickOne | 1.py:411-420 | one pass of the add-files loop: an internal file is added to the list; an external one is saved and added unless it is saved already |
| Bookkeeping.PickAll | 1.py:411-420 | the add-files loop, first chosen file first |
| Bookkeeping.PickOneEffect | 1.py:411-420 | one pass lists an internal file or a new external one. An external file is saved only if it was not saved yet |
| Bookkeeping.PickAllSaved | 1.py:411-420 | the saved list only grows at its end with chosen external paths, takes every chosen external path, and stays duplicate-free |
| Bookkeeping.PickAllItems | 1.py:411-420 | rows only grow at their end with chosen files and stay unique |
| Bookkeeping.PickOneConsistent | 1.py:411-420 | one pass keeps `Consistent` and gives the file a row |
| Bookkeeping.PickAllConsistent | 1.py:411-420 | the whole loop keeps `Consistent` and every chosen file has a row afterwards |
| Bookkeeping.AppendFresh | 1.py:418-419 | appending a path that is not yet saved keeps the saved list duplicate-free |
| Bookkeeping.StartupConsistent | 1.py:255-265 | when the configuration file holds distinct external paths (or no path array at all), the start-up state is `Consistent` |
| Bookkeeping.Deleted | 1.py:450-473 | delete_font_item: an internal row goes with its file on a confirmed, successful removal. An external row always goes, and its path is forgotten and saved when it was saved |
| Bookkeeping.DeletedEffect | 1.py:450-473 | an internal delete removes the row exactly when the confirmed removal succeeds, and then the row is taken out and the file goes with it; otherwise nothing changes. An external delete keeps all files and always takes the row out. When the saved list is duplicate-free it forgets the path, and it re-saves when the path was saved |
| Bookkeeping.DeletedConsistent | 1.py:436-473 | deleting from the context menu keeps `Consistent` |
| FontList.DropOne | 1.py:113-135 | one loop pass: a URL without a font extension or with an existing target is skipped. Otherwise the file is copied to `fonts/<name>` and listed, or the failure is reported |
| FontList.DropAll | 1.py:111-135 | the drop loop, first URL first |
| FontList.InstallShape | 1.py:119-128 | a copy into a fresh target in the managed directory adds exactly that file and its row |
| FontList.DropOneEffect | 1.py:112-135 | one URL changes files and rows only as `StepShape` allows |
| FontList.DropAllEffect | 1.py:111-135 | a drop never overwrites a file. Every new file is a font in the managed directory. Rows are added for exactly the new files, stay unique, and reports are only appended |
| FontList.DropAllReports | 1.py:129-135 | earlier failure reports do not influence the rest of a drop |
| FontList.DropAllAppend | 1.py:113 | the URLs are handled one after another: dropping two batches in turn equals dropping them together |
| FontList.FailedCopyContinues | 1.py:129-135 | a failed copy is reported and the drop goes on with the remaining URLs as if this one had not been dropped |
| FontList.FontListWidget.AddFontToList | 1.py:425-434 | the scan loop implements `AddEntry` |
| FontList.FontListWidget.TakeItem | 1.py:473 | the rows become `RemoveAt` of the old rows |
| FontList.FontListWidget.DropOneUrl | 1.py:113-135 | one loop pass implements `DropOne` on files, rows and reports |
| FontList.FontListWidget.DropEvent | 1.py:111-135 | the loop implements `DropAll`; each install is listed through the fontDropped connection |
| FontViewer.LoadCalls | 1.py:486-490 | the registry is called in this order: release the current id if there is one, then register the file, then release the new id when it has no family. No other call is made |
| FontViewer.FontViewerApp.constructor | 1.py:255-265 | the saved list is the corrected load_saved_paths; no font is loaded; the rows are the start-up entries over files and sub-directories; the invariant holds; a clean configuration file gives `Consistent` |
| FontViewer.FontViewerApp.AddEachToList | 1.py:384-387 | each loop implements `AddAll` |
| FontViewer.FontViewerApp.LoadInitialFonts | 1.py:379-387 | the rows become the scan then the saved paths added through the duplicate check; the invariant is kept |
| FontViewer.FontViewerApp.AddPickedFile | 1.py:411-420 | one pass implements `PickOne` |
| FontViewer.FontViewerApp.PickEach | 1.py:411-420 | the loop implements `PickAll` |
| FontViewer.FontViewerApp.AddFontFile | 1.py:389-422 | choosing nothing changes nothing. Otherwise rows and saved list become `PickAll` and the list is saved once. The invariant and `Consistent` are kept |
| FontViewer.FontViewerApp.DeleteFontItem | 1.py:450-473 | rows, saved list, files and config become `Deleted` of the old state; the invariant is kept |
| FontViewer.FontViewerApp.ShowFontContextMenu | 1.py:436-449 | a miss or a dismissed menu changes nothing; otherwise delete runs with the row's parent-directory classification and keeps `Consistent` |
| FontViewer.FontViewerApp.HandleDrop | 1.py:111-135 | the drop implements `DropAll`, keeps the invariant and `Consistent`, and does not touch the saved list |
| FontViewer.FontViewerApp.LoadFont | 1.py:485-498 | details are returned exactly when the file registers and has a family. They hold the first family, its first style or "Normal", the weight, the italic flag and the new id. Then only the new id is registered, else none is. The registry calls are `LoadCalls` |
| FontViewer.FontViewerApp.OnFontSelected | 1.py:474-480 | with no row nothing changes: no registry call, same current id and family. With a row the registry calls are `LoadCalls` for the row's path. On success the new font and its first family become current and it is the only one registered. On failure the current id and family keep their old values and nothing is registered |

## Left out

- The Qt user interface: painting, style sheets, the message boxes' text, the preview (`update_preview`), the size slider (`on_size_changed`), the file-size label and the about dialog. None of these changes the list state.
- `setup_external_fonts`, `setup_fcitx5_im_plugin`, `resource_path` and `get_app_path`: these are environment set-up. The managed directory is a parameter (`ManagedDir`).
- drag-enter/drag-move acceptance: it only decides whether a drop is offered at all. The drop itself filters each URL again.
- Printing to stdout, on skips and on a failed save.
- The file dialog itself: the chosen files are a parameter, and cancelling is the empty choice.
- Qt's font registry beyond the calls the viewer makes. Whether a file loads, its families, styles, weight and italic flag are the parameter `FontFacts`. Ids are fresh with respect to those registered; Qt's reuse of slots is not modelled.
- Path normalisation, symbolic links and case-insensitive file systems. Paths are normalised POSIX strings and `glob` matches letter case as written.
- Bookkeeping.ScanMembers: the disk's entries are files and directories only; other entry kinds (sockets, broken links) are not modelled.
- FontPaths.Lower: lower-cases ASCII letters only, not the full Unicode mapping of `str.lower()`.
- FontStore.LoadSavedPaths: valid JSON that is not an array of strings is not modelled. The configuration file is either absent, unreadable, undecodable, not JSON, or a path array. A JSON object or string would be iterated without error (its keys or its characters taken as paths). A number, `true`, `false` or `null`, or an array with an element that is not a string, raises `TypeError`. That `TypeError` escapes `__init__` and aborts start-up just like the `UnicodeDecodeError` in the finding below. Existence of a stored path is set membership in the model. In Python 3.12 and earlier, `Path.exists()` raises for errors such as `EACCES`, for example a stored path under a directory the user may not enter. The source then catches that `PermissionError` as an `IOError` at 1.py:280 and returns `[]` for the whole list. The next `save_paths` (after adding files, 1.py:422) overwrites the file and loses every other stored path. Python 3.13's `os.path.exists` returns False there instead. The model follows the latter and keeps the other existing paths.
- Platform.Disk.Copy: partial copies and copies into a missing `fonts/` directory are one failure (`fault`), which is reported, and the model leaves the files unchanged on failure. A copy that fails midway can in fact leave a truncated `fonts/<name>` without a row; the model does not capture that file. Any exception counts as a failure.
- Platform.Disk: `saved_paths.json` lives in `fonts/` (1.py:272), but the model keeps it as `config`, apart from `files`. Through the all-files filter of the dialog the user can pick it. It is then internal, gets a row, and a confirmed delete removes it, after which the next start-up finds no file. In the model a delete never touches `config` that way, so that sequence is not captured.
- Platform.Disk.SavePaths: a write that fails halfway is modelled as leaving the old file; a truncated file is not modelled.
- FontList.DropAll: which copies fail is a set of URLs, so a URL dropped twice fails both times or neither; a transient failure that later succeeds is not modelled.
- Concurrency and re-entrancy: Qt signals are modelled as direct calls, in the order they run.

## Findings

| source | as written | input that shows it | evidently intended | confidence | as-written member | corrected member |
|---|---|---|---|---|---|---|
| 1.py:274-281 | the file is opened with `encoding='utf-8'` and only `JSONDecodeError` and `IOError` are caught. `UnicodeDecodeError` is a `ValueError`, not a subclass of either, so it escapes `__init__` and start-up aborts | a `saved_paths.json` with a byte that is not valid UTF-8, such as a single `0xFF` | a broken configuration file yields an empty saved list, like every other broken file | not executed | FontStore.LoadSavedPathsAsWritten, FontStore.NotUtf8ConfigEscapes | FontStore.LoadSavedPaths |
