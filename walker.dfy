/**
 * The tree walker, `list_dir`: a depth-bounded recursive walk that collects the
 * paths of regular files and can skip hidden entries.
 *
 * `WalkDir`, `WalkEntries` and `Visit` specify the order-preserving walk the
 * source performs. `FileAt` and `Admitted` describe which paths it lists
 * without reference to the walk, and `ListingMembers` proves the two agree.
 */
module Walker {
  import opened FileSystem

  /** `Path::file_name`: the last component, when there is one. */
  function FileName(path: Path): (r: Option<Name>)
    ensures r.Some? <==> |path| > 0
    ensures r.Some? ==> r.value == path[|path| - 1]
  {
    if path == [] then None else Some(path[|path| - 1])
  }

  /** `OsStr::to_str`: only names that are valid UTF-8 convert. */
  function ToStr(n: Name): (r: Option<string>)
    ensures r.Some? <==> n.Utf8?
    ensures r.Some? ==> r.value == n.text
  {
    match n
    case Utf8(s) => Some(s)
    case NonUtf8(_) => None
  }

  /** A name that starts with a dot. */
  predicate HiddenName(n: Name) {
    n.Utf8? && |n.text| > 0 && n.text[0] == '.'
  }

  /**
   * `is_hidden`: the base name converts to a string that starts with '.';
   * a path with no base name, or one that is not valid UTF-8, is not hidden.
   */
  function IsHidden(path: Path): (hidden: bool)
    ensures hidden <==> |path| > 0 && HiddenName(path[|path| - 1])
  {
    var text := match FileName(path)
      case None => None
      case Some(n) => ToStr(n);
    match text
    case None => false
    case Some(s) => |s| > 0 && s[0] == '.'
  }

  /** True when no component of `q` is a hidden name. */
  predicate NoHidden(q: Path) {
    forall i :: 0 <= i < |q| ==> !HiddenName(q[i])
  }

  /**
   * What `inner(d, depth)` appends, with `prefix` the path of `d`: nothing
   * beyond the depth bound or for a directory that cannot be read, else the
   * entries of `d` in enumeration order.
   */
  function WalkDir(d: Node, prefix: Path, depth: nat, maxDepth: nat, includeHidden: bool): seq<Path>
    decreases d, if d.Dir? then |d.children| + 1 else 0
  {
    if maxDepth > 0 && depth > maxDepth then []
    else if d.Dir? && d.readable then WalkEntries(d, |d.children|, prefix, depth, maxDepth, includeHidden)
    else []
  }

  /** What the loop over the entries of `d` appends after its first `k` iterations. */
  function WalkEntries(d: Node, k: nat, prefix: Path, depth: nat, maxDepth: nat, includeHidden: bool): seq<Path>
    requires d.Dir? && k <= |d.children|
    decreases d, k
  {
    if k == 0 then []
    else WalkEntries(d, k - 1, prefix, depth, maxDepth, includeHidden)
         + Visit(d.children[k - 1], prefix, depth, maxDepth, includeHidden)
  }

  /** One iteration of that loop: skip a hidden entry, push a file, descend into a directory. */
  function Visit(e: Node, prefix: Path, depth: nat, maxDepth: nat, includeHidden: bool): seq<Path>
    decreases e, if e.Dir? then |e.children| + 2 else 0
  {
    var p := prefix + [e.name];
    if !includeHidden && IsHidden(p) then []
    else if e.File? then [p]
    else if e.Dir? then WalkDir(e, p, depth + 1, maxDepth, includeHidden)
    else []
  }

  /** `list_dir(root, max_depth, include_hidden)`: the root's own entries are at depth 1. */
  function Listing(root: Node, maxDepth: nat, includeHidden: bool): seq<Path>
  {
    WalkDir(root, [], 1, maxDepth, includeHidden)
  }

  /**
   * `q` leads from directory `d` through readable directories to a regular
   * file (a path that reaches the file under some choice of equally named
   * entries).
   */
  ghost predicate FileAt(d: Node, q: Path)
    decreases d
  {
    && d.Dir? && d.readable && |q| > 0
    && exists i :: 0 <= i < |d.children| && d.children[i].name == q[0] &&
         (if |q| == 1 then d.children[i].File? else FileAt(d.children[i], q[1..]))
  }

  /**
   * The filters the walk applies to a file at relative path `q` below a
   * directory visited at `depth`: every directory on the way is within the
   * depth bound (0 means unbounded), and no component is hidden unless hidden
   * entries are included.
   */
  predicate Admitted(q: Path, depth: nat, maxDepth: nat, includeHidden: bool) {
    && (maxDepth == 0 || depth + |q| <= maxDepth + 1)
    && (includeHidden || NoHidden(q))
  }

  ghost predicate InSubtree(d: Node, prefix: Path, depth: nat, maxDepth: nat, includeHidden: bool, p: Path) {
    && |prefix| < |p| && p[..|prefix|] == prefix
    && FileAt(d, p[|prefix|..])
    && Admitted(p[|prefix|..], depth, maxDepth, includeHidden)
  }

  lemma {:induction false} WalkEntriesMembers(d: Node, k: nat, prefix: Path, depth: nat, maxDepth: nat, includeHidden: bool, p: Path)
    requires d.Dir? && k <= |d.children|
    ensures p in WalkEntries(d, k, prefix, depth, maxDepth, includeHidden) <==>
      exists i :: 0 <= i < k && p in Visit(d.children[i], prefix, depth, maxDepth, includeHidden)
  {
    if k > 0 {
      WalkEntriesMembers(d, k - 1, prefix, depth, maxDepth, includeHidden, p);
    }
  }

  lemma {:induction false} VisitMembers(e: Node, prefix: Path, depth: nat, maxDepth: nat, includeHidden: bool, p: Path)
    ensures p in Visit(e, prefix, depth, maxDepth, includeHidden) <==>
      && |prefix| < |p| && p[..|prefix| + 1] == prefix + [e.name]
      && (includeHidden || !HiddenName(e.name))
      && ((|p| == |prefix| + 1 && e.File?) ||
          (e.Dir? && InSubtree(e, prefix + [e.name], depth + 1, maxDepth, includeHidden, p)))
    decreases e, if e.Dir? then |e.children| + 3 else 0
  {
    var q := prefix + [e.name];
    assert IsHidden(q) <==> HiddenName(e.name);
    if e.Dir? {
      WalkDirMembers(e, q, depth + 1, maxDepth, includeHidden, p);
    }
    if |prefix| < |p| && p[..|prefix| + 1] == q && |p| == |prefix| + 1 {
      assert p == q;
    }
  }

  lemma {:induction false} WalkDirMembers(d: Node, prefix: Path, depth: nat, maxDepth: nat, includeHidden: bool, p: Path)
    ensures p in WalkDir(d, prefix, depth, maxDepth, includeHidden) <==>
      InSubtree(d, prefix, depth, maxDepth, includeHidden, p)
    decreases d, if d.Dir? then |d.children| + 2 else 0
  {
    if maxDepth > 0 && depth > maxDepth {
    } else if d.Dir? && d.readable {
      if p in WalkDir(d, prefix, depth, maxDepth, includeHidden) {
        WalkDirSound(d, prefix, depth, maxDepth, includeHidden, p);
      }
      if InSubtree(d, prefix, depth, maxDepth, includeHidden, p) {
        WalkDirComplete(d, prefix, depth, maxDepth, includeHidden, p);
      }
    }
  }

  lemma {:induction false} WalkDirSound(d: Node, prefix: Path, depth: nat, maxDepth: nat, includeHidden: bool, p: Path)
    requires d.Dir? && d.readable && !(maxDepth > 0 && depth > maxDepth)
    requires p in WalkDir(d, prefix, depth, maxDepth, includeHidden)
    ensures InSubtree(d, prefix, depth, maxDepth, includeHidden, p)
    decreases d, |d.children| + 1
  {
    var n := |prefix|;
    WalkEntriesMembers(d, |d.children|, prefix, depth, maxDepth, includeHidden, p);
    var i :| 0 <= i < |d.children| && p in Visit(d.children[i], prefix, depth, maxDepth, includeHidden);
    var e := d.children[i];
    VisitMembers(e, prefix, depth, maxDepth, includeHidden, p);
    var q := p[n..];
    assert q[0] == e.name by { assert p[..n + 1][n] == e.name; }
    assert p[..n] == prefix by { assert p[..n] == p[..n + 1][..n]; }
    if |p| == n + 1 {
      assert FileAt(d, q);
    } else {
      assert p[n + 1..] == q[1..];
      assert FileAt(d, q);
      if !includeHidden {
        forall j | 0 <= j < |q| ensures !HiddenName(q[j]) {
          if j > 0 { assert q[j] == q[1..][j - 1]; }
        }
      }
    }
  }

  lemma {:induction false} WalkDirComplete(d: Node, prefix: Path, depth: nat, maxDepth: nat, includeHidden: bool, p: Path)
    requires d.Dir? && d.readable && !(maxDepth > 0 && depth > maxDepth)
    requires InSubtree(d, prefix, depth, maxDepth, includeHidden, p)
    ensures p in WalkDir(d, prefix, depth, maxDepth, includeHidden)
    decreases d, |d.children| + 1
  {
    var n := |prefix|;
    var q := p[n..];
    var i :| 0 <= i < |d.children| && d.children[i].name == q[0] &&
      (if |q| == 1 then d.children[i].File? else FileAt(d.children[i], q[1..]));
    var e := d.children[i];
    VisitMembers(e, prefix, depth, maxDepth, includeHidden, p);
    assert p[..n + 1] == prefix + [e.name] by { assert p[..n + 1] == p[..n] + [q[0]]; }
    assert includeHidden || !HiddenName(e.name) by { assert q[0] == e.name; }
    if |q| > 1 {
      assert p[n + 1..] == q[1..];
      if !includeHidden {
        forall j | 0 <= j < |q[1..]| ensures !HiddenName(q[1..][j]) {
          assert q[1..][j] == q[j + 1];
        }
      }
    }
    assert p in Visit(e, prefix, depth, maxDepth, includeHidden);
    WalkEntriesMembers(d, |d.children|, prefix, depth, maxDepth, includeHidden, p);
  }

  /**
   * What `list_dir` returns, described without the walk: a path is listed
   * exactly when it leads through readable directories to a regular file, lies
   * within the depth bound, and has no hidden component unless hidden entries
   * are included.
   */
  lemma ListingMembers(root: Node, maxDepth: nat, includeHidden: bool, p: Path)
    ensures p in Listing(root, maxDepth, includeHidden) <==>
      && FileAt(root, p)
      && (maxDepth == 0 || |p| <= maxDepth)
      && (includeHidden || NoHidden(p))
  {
    WalkDirMembers(root, [], 1, maxDepth, includeHidden, p);
    assert p[..0] == [] && p[0..] == p;
  }

  /** Different entries of a well-formed directory contribute different paths, and no path twice. */
  lemma {:induction false} WalkDirDistinct(d: Node, prefix: Path, depth: nat, maxDepth: nat, includeHidden: bool)
    requires WellFormed(d)
    ensures Distinct(WalkDir(d, prefix, depth, maxDepth, includeHidden))
    decreases d, if d.Dir? then |d.children| + 1 else 0
  {
    if !(maxDepth > 0 && depth > maxDepth) && d.Dir? && d.readable {
      WalkEntriesDistinct(d, |d.children|, prefix, depth, maxDepth, includeHidden);
    }
  }

  lemma {:induction false} WalkEntriesDistinct(d: Node, k: nat, prefix: Path, depth: nat, maxDepth: nat, includeHidden: bool)
    requires WellFormed(d) && d.Dir? && k <= |d.children|
    ensures Distinct(WalkEntries(d, k, prefix, depth, maxDepth, includeHidden))
    decreases d, k
  {
    if k > 0 {
      var a := WalkEntries(d, k - 1, prefix, depth, maxDepth, includeHidden);
      var e := d.children[k - 1];
      var b := Visit(e, prefix, depth, maxDepth, includeHidden);
      WalkEntriesDistinct(d, k - 1, prefix, depth, maxDepth, includeHidden);
      VisitDistinct(e, prefix, depth, maxDepth, includeHidden);
      forall p | p in a ensures p !in b {
        WalkEntriesMembers(d, k - 1, prefix, depth, maxDepth, includeHidden, p);
        var i :| 0 <= i < k - 1 && p in Visit(d.children[i], prefix, depth, maxDepth, includeHidden);
        VisitMembers(d.children[i], prefix, depth, maxDepth, includeHidden, p);
        VisitMembers(e, prefix, depth, maxDepth, includeHidden, p);
        assert p[..|prefix| + 1][|prefix|] == p[|prefix|];
      }
      DistinctConcat(a, b);
    }
  }

  lemma {:induction false} VisitDistinct(e: Node, prefix: Path, depth: nat, maxDepth: nat, includeHidden: bool)
    requires WellFormed(e)
    ensures Distinct(Visit(e, prefix, depth, maxDepth, includeHidden))
    decreases e, if e.Dir? then |e.children| + 2 else 0
  {
    if e.Dir? {
      WalkDirDistinct(e, prefix + [e.name], depth + 1, maxDepth, includeHidden);
    }
  }

  /** In a well-formed tree a path the walk can list resolves to the regular file it was listed for. */
  lemma {:induction false} FileAtResolves(d: Node, q: Path)
    requires WellFormed(d) && FileAt(d, q)
    ensures Lookup(d, q).Some? && Lookup(d, q).value.File?
    decreases d
  {
    var i :| 0 <= i < |d.children| && d.children[i].name == q[0] &&
      (if |q| == 1 then d.children[i].File? else FileAt(d.children[i], q[1..]));
    var found := FindChild(d.children, q[0]);
    assert found == Some(i);
    if |q| > 1 {
      FileAtResolves(d.children[i], q[1..]);
    }
  }

  /** The `Vec<PathBuf>` that `inner` pushes into. */
  class FileList {
    var paths: seq<Path>

    constructor ()
      ensures paths == []
    {
      paths := [];
    }

    method Push(p: Path)
      modifies this
      ensures paths == old(paths) + [p]
    {
      paths := paths + [p];
    }
  }

  /**
   * `inner`: returns at once beyond the depth bound, skips a directory that
   * cannot be read, and otherwise pushes the files and descends into the
   * subdirectories of `d` in enumeration order, skipping hidden entries unless
   * they are included.
   */
  method Inner(d: Node, prefix: Path, depth: nat, maxDepth: nat, includeHidden: bool, files: FileList)
    modifies files
    ensures files.paths == old(files.paths) + WalkDir(d, prefix, depth, maxDepth, includeHidden)
    decreases d
  {
    if maxDepth > 0 && depth > maxDepth {
      return;
    }
    if d.Dir? && d.readable {
      var entries := d.children;
      for i := 0 to |entries|
        invariant files.paths == old(files.paths) + WalkEntries(d, i, prefix, depth, maxDepth, includeHidden)
      {
        var e := entries[i];
        var path := prefix + [e.name];
        if !includeHidden && IsHidden(path) {
          continue;
        }
        if e.File? {
          files.Push(path);
        } else if e.Dir? {
          Inner(e, path, depth + 1, maxDepth, includeHidden, files);
        }
      }
    }
  }

  /**
   * `list_dir`: the files of the tree, in walk order. A path is listed exactly
   * when it leads through readable directories to a regular file, lies within
   * the depth bound and has no hidden component (unless hidden entries are
   * included); in a well-formed tree no path is listed twice.
   */
  method ListDir(root: Node, maxDepth: nat, includeHidden: bool) returns (paths: seq<Path>)
    ensures paths == Listing(root, maxDepth, includeHidden)
    ensures forall p :: p in paths <==>
      && FileAt(root, p)
      && (maxDepth == 0 || |p| <= maxDepth)
      && (includeHidden || NoHidden(p))
    ensures WellFormed(root) ==> Distinct(paths)
    ensures root.Dir? && root.children == [] ==> paths == []
  {
    var files := new FileList();
    Inner(root, [], 1, maxDepth, includeHidden, files);
    paths := files.paths;
    forall p ensures p in paths <==>
      && FileAt(root, p)
      && (maxDepth == 0 || |p| <= maxDepth)
      && (includeHidden || NoHidden(p))
    {
      ListingMembers(root, maxDepth, includeHidden, p);
    }
    if WellFormed(root) {
      WalkDirDistinct(root, [], 1, maxDepth, includeHidden);
    }
  }

  /** Every path `list_dir` returns from a well-formed tree names a regular file. */
  lemma ListedIsFile(root: Node, maxDepth: nat, includeHidden: bool, p: Path)
    requires WellFormed(root)
    requires p in Listing(root, maxDepth, includeHidden)
    ensures Lookup(root, p).Some? && Lookup(root, p).value.File?
  {
    ListingMembers(root, maxDepth, includeHidden, p);
    FileAtResolves(root, p);
  }
}
