/** Path strings as the font viewer handles them: POSIX separators, and
    normalised (no trailing '/', no empty or '.' components), which is the
    form the file dialog, the drop event and the directory scan deliver. */
module FontPaths {

  /** Index of the last '/' in p, or -1 when p has none. */
  function LastSep(p: string): (k: int)
    ensures -1 <= k < |p|
    ensures k >= 0 ==> p[k] == '/'
    ensures forall j :: k < j < |p| ==> p[j] != '/'
  {
    if |p| == 0 then -1
    else if p[|p| - 1] == '/' then |p| - 1
    else LastSep(p[..|p| - 1])
  }

  /** The final component (os.path.basename, and Path.name on a normalised
      path): the longest suffix of p without a separator. */
  function Basename(p: string): (n: string)
    ensures '/' !in n
    ensures |n| <= |p| && p[|p| - |n|..] == n
    ensures |n| < |p| ==> p[|p| - |n| - 1] == '/'
  {
    p[LastSep(p) + 1..]
  }

  /** A path is what precedes a separator, the separator and what follows. */
  lemma SplitAt(p: string, k: nat)
    requires k < |p| && p[k] == '/'
    ensures p == p[..k] + "/" + p[k + 1..]
  {
    assert p[k..k + 1] == "/";
    assert p == p[..k] + p[k..k + 1] + p[k + 1..];
  }

  /** Path.parent of a normalised path: "." for a bare name, "/" for an
      entry of the root, otherwise everything before the last separator. */
  function Parent(p: string): (d: string)
    ensures LastSep(p) == -1 ==> d == "."
    ensures LastSep(p) == 0 ==> d == "/"
    ensures LastSep(p) > 0 ==> p == d + "/" + Basename(p)
  {
    var k := LastSep(p);
    if k <= 0 then (if k == -1 then "." else "/")
    else SplitAt(p, k); p[..k]
  }

  /** `dir / name` for a directory path that is not the root. */
  function Join(dir: string, name: string): string
  {
    dir + "/" + name
  }

  /** The managed fonts directory is absolute, normalised and not the root. */
  predicate ManagedDir(dir: string)
  {
    |dir| > 1 && dir[0] == '/' && dir[|dir| - 1] != '/'
  }

  /** The classification used for delete and for the saved list: a path is
      internal iff its parent directory is the managed directory. */
  predicate IsInternal(p: string, dir: string)
  {
    Parent(p) == dir
  }

  /** A file name joined onto the managed directory lands in it and keeps its
      name: the drop target `fonts/<name>` is internal. */
  lemma JoinSplits(dir: string, name: string)
    requires ManagedDir(dir) && '/' !in name
    ensures LastSep(Join(dir, name)) == |dir|
    ensures Parent(Join(dir, name)) == dir && IsInternal(Join(dir, name), dir)
    ensures Basename(Join(dir, name)) == name
  {
    var p := Join(dir, name);
    var k := LastSep(p);
    assert p[|dir|] == '/';
    assert p[k + 1..] == name;
  }

  /** str.lower() restricted to ASCII letters. */
  function LowerChar(c: char): (l: char)
    ensures 'A' <= c <= 'Z' ==> 'a' <= l <= 'z' && l as int - c as int == 32
    ensures !('A' <= c <= 'Z') ==> l == c
  {
    if 'A' <= c <= 'Z' then (c as int + 32) as char else c
  }

  function Lower(s: string): (r: string)
    ensures |r| == |s|
    ensures forall i :: 0 <= i < |s| ==> r[i] == LowerChar(s[i])
  {
    if s == [] then [] else [LowerChar(s[0])] + Lower(s[1..])
  }

  predicate EndsWith(s: string, suffix: string)
  {
    |suffix| <= |s| && s[|s| - |suffix|..] == suffix
  }

  /** The extension test of the drop event and of the file dialog's filter:
      the lower-cased name ends in .ttf, .otf or .ttc. */
  predicate IsFontFileName(name: string)
  {
    var l := Lower(name);
    EndsWith(l, ".ttf") || EndsWith(l, ".otf") || EndsWith(l, ".ttc")
  }

  /** Lower-casing a name lower-cases its suffix. */
  lemma LowerSuffix(s: string, n: nat)
    requires n <= |s|
    ensures Lower(s)[|s| - n..] == Lower(s[|s| - n..])
  {
    var a, b := Lower(s)[|s| - n..], Lower(s[|s| - n..]);
    assert |a| == |b|;
    forall i | 0 <= i < |a| ensures a[i] == b[i] {
      assert a[i] == LowerChar(s[|s| - n + i]);
    }
  }

  /** Lower-casing leaves a string without ASCII capitals as it is. */
  lemma LowerOfLower(s: string)
    requires forall i :: 0 <= i < |s| ==> !('A' <= s[i] <= 'Z')
    ensures Lower(s) == s
  {
    var r := Lower(s);
    forall i | 0 <= i < |s| ensures r[i] == s[i] {
    }
  }

  /** Every name ending in a lower-case font extension, as the startup scan
      matches them, also passes the install filter. */
  lemma ScanSuffixIsFontName(name: string)
    requires EndsWith(name, ".ttf") || EndsWith(name, ".otf") || EndsWith(name, ".ttc")
    ensures IsFontFileName(name)
  {
    LowerSuffix(name, 4);
    LowerOfLower(name[|name| - 4..]);
  }

  /** The install filter ignores letter case: "X.TTF" and "X.TTC" pass. */
  lemma UpperCaseExtensionAccepted(stem: string)
    ensures IsFontFileName(stem + ".TTF") && IsFontFileName(stem + ".TTC")
  {
    var s, t := stem + ".TTF", stem + ".TTC";
    LowerSuffix(s, 4);
    LowerSuffix(t, 4);
    assert s[|s| - 4..] == ".TTF" && t[|t| - 4..] == ".TTC";
    assert Lower(".TTF") == ".ttf" && Lower(".TTC") == ".ttc";
  }
}
