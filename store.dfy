/** The persisted list of external font paths, `fonts/saved_paths.json`,
    and the startup filter that reads it back. */
module FontStore {
  import opened FontEntries

  /** What reading the configuration file can meet. */
  datatype Stored =
    | Missing                        // config_path.exists() is false
    | Unreadable                     // open/read raises IOError (OSError)
    | NotUtf8                        // the bytes are not UTF-8: UnicodeDecodeError
    | NotJson                        // json.load raises JSONDecodeError
    | PathArray(paths: seq<string>)  // a JSON array of path strings

  /** Outcome of load_saved_paths as written: a list, or an exception that
      escapes it (and, being raised in __init__, ends the program). */
  datatype LoadOutcome = Loaded(paths: seq<string>) | Escaped

  /** `[p for p in paths if Path(p).exists()]`. */
  function ExistingOnly(ps: seq<string>, onDisk: set<string>): (r: seq<string>)
    ensures |r| <= |ps|
    ensures forall q :: multiset(r)[q] == if q in onDisk then multiset(ps)[q] else 0
    decreases |ps|
  {
    if ps == [] then []
    else
      var init := ExistingOnly(ps[..|ps| - 1], onDisk);
      var last := ps[|ps| - 1];
      assert ps == ps[..|ps| - 1] + [last];
      if last in onDisk then init + [last] else init
  }

  /** The filter keeps relative order: filtering a concatenation filters each
      part, so what survives appears in the stored order. */
  lemma {:induction false} ExistingOnlyAppend(ps: seq<string>, qs: seq<string>, onDisk: set<string>)
    ensures ExistingOnly(ps + qs, onDisk) == ExistingOnly(ps, onDisk) + ExistingOnly(qs, onDisk)
    decreases |qs|
  {
    if qs == [] {
      assert ps + qs == ps;
    } else {
      var init := qs[..|qs| - 1];
      assert (ps + qs)[..|ps + qs| - 1] == ps + init;
      assert (ps + qs)[|ps + qs| - 1] == qs[|qs| - 1];
      ExistingOnlyAppend(ps, init, onDisk);
    }
  }

  /** When every stored path still exists, the list comes back unchanged. */
  lemma {:induction false} ExistingOnlyAllPresent(ps: seq<string>, onDisk: set<string>)
    requires forall q :: q in ps ==> q in onDisk
    ensures ExistingOnly(ps, onDisk) == ps
    decreases |ps|
  {
    if ps != [] {
      var init := ps[..|ps| - 1];
      assert forall q :: q in init ==> q in ps;
      ExistingOnlyAllPresent(init, onDisk);
      assert ps[|ps| - 1] in ps;
      assert ps == init + [ps[|ps| - 1]];
    }
  }

  /** A duplicate-free stored list gives a duplicate-free result. */
  lemma ExistingOnlyNoDuplicates(ps: seq<string>, onDisk: set<string>)
    requires NoDuplicates(ps)
    ensures NoDuplicates(ExistingOnly(ps, onDisk))
  {
    var r := ExistingOnly(ps, onDisk);
    forall i, j | 0 <= i < j < |r| ensures r[i] != r[j] {
      DistinctCount(ps, r[i]);
      if r[i] == r[j] {
        CountAtLeastTwo(r, i, j);
      }
    }
  }

  /** load_saved_paths as the application uses it: the existing paths of a
      readable list; an empty list for every kind of broken or absent file. */
  function LoadSavedPaths(stored: Stored, onDisk: set<string>): (r: seq<string>)
    ensures forall q :: q in r ==> q in onDisk && stored.PathArray? && q in stored.paths
    ensures stored.PathArray? ==> forall q :: q in stored.paths && q in onDisk ==> q in r
    ensures !stored.PathArray? ==> r == []
  {
    match stored
    case PathArray(ps) =>
      var r := ExistingOnly(ps, onDisk);
      assert forall q :: q in r <==> multiset(r)[q] > 0;
      assert forall q :: q in ps <==> multiset(ps)[q] > 0;
      r
    case _ => []
  }

  /** load_saved_paths as written: it catches JSONDecodeError and IOError
      only, so a file that is not UTF-8 lets UnicodeDecodeError escape. */
  function LoadSavedPathsAsWritten(stored: Stored, onDisk: set<string>): (o: LoadOutcome)
    ensures o.Escaped? <==> stored.NotUtf8?
    ensures o.Loaded? ==> o.paths == LoadSavedPaths(stored, onDisk)
  {
    match stored
    case Missing => Loaded([])
    case PathArray(ps) => Loaded(ExistingOnly(ps, onDisk))
    case NotUtf8 => Escaped
    case _ => Loaded([])
  }

  /** The input that shows the gap: a saved_paths.json holding a byte that is
      not UTF-8 aborts start-up as written, and yields no saved paths once
      every decoding failure is treated as a broken file. */
  lemma NotUtf8ConfigEscapes(onDisk: set<string>)
    ensures LoadSavedPathsAsWritten(NotUtf8, onDisk) == Escaped
    ensures LoadSavedPaths(NotUtf8, onDisk) == []
  {
  }

  /** save_paths writes the whole list: reading it back when every path
      still exists returns exactly what was saved. */
  lemma SaveLoadRoundTrip(saved: seq<string>, onDisk: set<string>)
    requires forall q :: q in saved ==> q in onDisk
    ensures LoadSavedPaths(PathArray(saved), onDisk) == saved
  {
    ExistingOnlyAllPresent(saved, onDisk);
  }
}
