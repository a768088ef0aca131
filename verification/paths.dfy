/** Path handling of the generator: os.path.join, os.path.relpath against the ROM root, and the region lookup. */
module Paths {
  import opened Results
  import opened Text

  /** os.sep on the POSIX host that runs the generator. */
  const Sep: char := '/'

  /** The fixed ROM root that download URLs are made relative to (BASE_DIR). */
  const BaseDir: string := "/var/www/ghosteshop/cdn/Nintendo DS/"

  /**
    * get_region_from_path as written: the path is split at every separator and, as soon as there
    * is more than one part, the third part from the end is taken. With exactly two parts that
    * subscript is out of range and the call raises IndexError.
    */
  function RegionFromPath(path: string): (r: Result<string>)
    ensures Sep !in path ==> r == Success("Unknown")
    ensures r.Success? && Sep in path ==> Sep !in r.value
  {
    var parts := Split(path, Sep);
    SplitWithoutSeparator(path, Sep);
    SplitPartsFree(path, Sep);
    if |parts| > 1 then PyIndex(parts, -3) else Success("Unknown")
  }

  /** The as-written lookup raises exactly when the path holds a single separator. */
  lemma RegionFromPathRaises(path: string)
    ensures RegionFromPath(path).Failure? <==> multiset(path)[Sep] == 1
  {
    SplitCount(path, Sep);
  }

  /**
    * The region with the guard the lookup evidently intends: a path with fewer than three
    * parts has no grandparent directory and gets "Unknown".
    */
  function Region(path: string): (region: string)
    ensures Sep !in region
    ensures RegionFromPath(path).Success? ==> region == RegionFromPath(path).value
  {
    var parts := Split(path, Sep);
    SplitPartsFree(path, Sep);
    if |parts| >= 3 then parts[|parts| - 3] else "Unknown"
  }

  /** A path with fewer than two separators has no grandparent directory. */
  lemma RegionOfShallowPath(path: string)
    requires multiset(path)[Sep] < 2
    ensures Region(path) == "Unknown"
  {
    SplitCount(path, Sep);
  }

  /** In a path of three or more separator-free components, the lookup gives the third component from the end. */
  lemma RegionFromPathIsGrandparent(parts: seq<string>)
    requires |parts| >= 3
    requires forall p <- parts :: Sep !in p
    ensures RegionFromPath(Join(parts, Sep)) == Success(parts[|parts| - 3])
  {
    var path := Join(parts, Sep);
    assert Split(path, Sep) == parts by {
      SplitJoin(parts, Sep);
    }
    assert PyIndex(parts, -3) == Success(parts[|parts| - 3]);
  }

  /** The corrected lookup agrees: the region of such a path is its grandparent directory. */
  lemma RegionIsGrandparent(parts: seq<string>)
    requires |parts| >= 3
    requires forall p <- parts :: Sep !in p
    ensures Region(Join(parts, Sep)) == parts[|parts| - 3]
  {
    RegionFromPathIsGrandparent(parts);
  }

  /** The discrepancy of the as-written lookup: a two-component path raises instead of giving "Unknown". */
  lemma TwoComponentPathRaises()
    ensures RegionFromPath("Europe/game.nds") == Failure(IndexError)
    ensures Region("Europe/game.nds") == "Unknown"
  {
    SplitJoin(["Europe", "game.nds"], Sep);
    assert Join(["Europe", "game.nds"], Sep) == "Europe/game.nds";
  }

  /** os.path.join(root, name) of posixpath: an absolute name replaces root, otherwise one separator goes between them. */
  function JoinPath(root: string, name: string): (path: string)
    ensures StartsWith(name, [Sep]) ==> path == name
    ensures EndsWith(path, name)
    ensures !StartsWith(name, [Sep]) ==> StartsWith(path, root)
    ensures !StartsWith(name, [Sep]) && root != "" ==> |path| > |name| && path[|path| - |name| - 1] == Sep
    ensures |path| <= |root| + 1 + |name|
    ensures !StartsWith(name, [Sep]) ==>
      |path| == |root| + |name| + (if root == "" || root[|root| - 1] == Sep then 0 else 1)
  {
    if StartsWith(name, [Sep]) then name
    else if root == "" || root[|root| - 1] == Sep then root + name
    else root + [Sep] + name
  }

  /** Joining a directory that does not end in a separator with a relative name puts one separator between them. */
  lemma JoinPathPlain(root: string, name: string)
    requires root != [] && root[|root| - 1] != Sep
    requires name != [] && name[0] != Sep
    ensures JoinPath(root, name) == root + [Sep] + name
  {
  }

  /** The last component of a joined path is the joined file name (os.path.basename undoes the join). */
  lemma JoinPathBaseName(root: string, name: string)
    requires root != ""
    requires Sep !in name
    ensures var parts := Split(JoinPath(root, name), Sep); parts[|parts| - 1] == name
  {
    var path := JoinPath(root, name);
    assert !StartsWith(name, [Sep]) by {
      if name != [] {
        assert name[0] in name;
      }
    }
    var head := path[..|path| - |name| - 1];
    assert path == head + [Sep] + name;
    SplitAppend(head, name, Sep);
    SplitWithoutSeparator(name, Sep);
  }

  /** A directory or file name as os.walk reports it: not empty, "." or "..". */
  predicate IsPlainComponent(p: string) {
    p != "" && p != "." && p != ".."
  }

  /** A relative path with nothing for os.path.normpath to change. */
  predicate IsNormalRelative(rel: string) {
    forall p <- Split(rel, Sep) :: IsPlainComponent(p)
  }

  /** A path inside the ROM root, spelled without redundant separators or dot components. */
  predicate UnderBase(path: string) {
    StartsWith(path, BaseDir) && IsNormalRelative(path[|BaseDir|..])
  }

  /** os.path.relpath(path, BASE_DIR) for a path inside the ROM root. */
  function RelPath(path: string): (rel: string)
    requires UnderBase(path)
    ensures BaseDir + rel == path
    ensures IsNormalRelative(rel)
    ensures rel != "" && rel[0] != Sep
  {
    var rel := path[|BaseDir|..];
    assert Split(rel, Sep)[0] in Split(rel, Sep);
    rel
  }

  /** The ROM root ends in a separator and has a separator before that, so it holds at least two components. */
  lemma BaseDirComponents()
    ensures BaseDir == BaseDir[..|BaseDir| - 1] + [Sep]
    ensures |Split(BaseDir[..|BaseDir| - 1], Sep)| >= 2
  {
    var head := BaseDir[..|BaseDir| - 1];
    assert head[0] == BaseDir[0] == Sep;
    assert multiset(head)[Sep] >= 1 by {
      assert head[0] in multiset(head);
    }
    SplitCount(head, Sep);
  }

  /** For every path inside the ROM root the as-written lookup succeeds, so it agrees with Region. */
  lemma RegionUnderBaseDefined(path: string)
    requires UnderBase(path)
    ensures RegionFromPath(path).Success?
    ensures Region(path) == RegionFromPath(path).value
  {
    var rel := RelPath(path);
    var head := BaseDir[..|BaseDir| - 1];
    assert Split(path, Sep) == Split(head, Sep) + Split(rel, Sep) by {
      BaseDirComponents();
      assert path == head + [Sep] + rel;
      SplitAppend(head, rel, Sep);
    }
    BaseDirComponents();
    assert |Split(path, Sep)| >= 3;
  }

  /** With at least three components below the ROM root, the region is the third of them from the end. */
  lemma RegionUnderBase(path: string)
    requires UnderBase(path)
    ensures var parts := Split(RelPath(path), Sep);
      |parts| >= 3 ==> Region(path) == parts[|parts| - 3]
  {
    var rel := RelPath(path);
    var head := BaseDir[..|BaseDir| - 1];
    var all := Split(path, Sep);
    var parts := Split(rel, Sep);
    assert all == Split(head, Sep) + parts by {
      BaseDirComponents();
      assert path == head + [Sep] + rel;
      SplitAppend(head, rel, Sep);
    }
    if |parts| >= 3 {
      assert all[|all| - 3] == parts[|parts| - 3];
    }
  }

  /** A ROM stored as <region>/<parent folder>/<file> below the ROM root is filed under that region. */
  lemma RegionOfRomLayout(region: string, parent: string, file: string)
    requires IsPlainComponent(region) && IsPlainComponent(parent) && IsPlainComponent(file)
    requires Sep !in region && Sep !in parent && Sep !in file
    ensures UnderBase(BaseDir + region + [Sep] + parent + [Sep] + file)
    ensures Region(BaseDir + region + [Sep] + parent + [Sep] + file) == region
    ensures RelPath(BaseDir + region + [Sep] + parent + [Sep] + file) == region + [Sep] + parent + [Sep] + file
  {
    var rel := region + [Sep] + parent + [Sep] + file;
    var parts := [region, parent, file];
    assert Join(parts[1..], Sep) == parent + [Sep] + Join(parts[2..], Sep);
    assert Join(parts, Sep) == rel;
    SplitJoin(parts, Sep);
    var path := BaseDir + rel;
    assert path == BaseDir + region + [Sep] + parent + [Sep] + file;
    assert path[|BaseDir|..] == rel;
    RegionUnderBase(path);
  }

  /**
    * A ROM stored directly in a region folder, one level below the ROM root, has the root's own
    * last directory as its grandparent: the lookup files it under "Nintendo DS", not its region.
    */
  lemma RegionOfRomInRegionFolder(region: string, file: string)
    requires Sep !in region && Sep !in file
    ensures Region(BaseDir + region + [Sep] + file) == "Nintendo DS"
  {
    var pre, last := "/var/www/ghosteshop/cdn", "Nintendo DS";
    assert BaseDir == pre + [Sep] + last + [Sep];
    assert Sep !in last;
    GrandparentIsDirectory(pre, last, region, file);
  }

  /** In dir/last/region/file with separator-free last, region and file, the lookup gives last. */
  lemma GrandparentIsDirectory(dir: string, last: string, region: string, file: string)
    requires Sep !in last && Sep !in region && Sep !in file
    ensures Region(dir + [Sep] + last + [Sep] + region + [Sep] + file) == last
  {
    var head := dir + [Sep] + last;
    var tail := region + [Sep] + file;
    var path := dir + [Sep] + last + [Sep] + region + [Sep] + file;
    assert path == head + [Sep] + tail;
    var parts := Split(path, Sep);
    assert parts == Split(dir, Sep) + [last] + [region, file] by {
      SplitLastComponent(dir, last);
      SplitTwoComponents(region, file);
      SplitAppend(head, tail, Sep);
    }
    assert parts[|parts| - 3] == last;
  }

  /** Appending a separator-free component to a path adds one last part. */
  lemma SplitLastComponent(dir: string, last: string)
    requires Sep !in last
    ensures Split(dir + [Sep] + last, Sep) == Split(dir, Sep) + [last]
  {
    SplitAppend(dir, last, Sep);
    SplitWithoutSeparator(last, Sep);
  }

  /** Two separator-free components joined by a separator split back into the two. */
  lemma SplitTwoComponents(region: string, file: string)
    requires Sep !in region && Sep !in file
    ensures Split(region + [Sep] + file, Sep) == [region, file]
  {
    SplitAppend(region, file, Sep);
    SplitWithoutSeparator(region, Sep);
    SplitWithoutSeparator(file, Sep);
  }
}
