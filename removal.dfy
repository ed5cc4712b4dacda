/**
 * `delete_files`: remove each given path in turn with `fs::remove_file`,
 * stopping at the first failure. Nothing is rolled back: the files removed
 * before the failure stay removed and the paths after it are not touched.
 *
 * The disk is a flat namespace: each existing path is a regular file or a
 * directory, and a path is locked when its parent directory denies removing
 * entries from it.
 */
module Removal {
  import opened FileSystem

  datatype EntryKind = Regular | Directory

  /** The `io::ErrorKind` a failed `remove_file` reports. */
  datatype ErrorKind = NotFound | PermissionDenied | IsADirectory

  /** `io::Result<()>`: the error carries its kind only, not the path. */
  datatype Outcome = Ok | Err(kind: ErrorKind)

  /** What `remove_file(p)` reports on the given disk. */
  function Unlink(entries: map<Path, EntryKind>, locked: set<Path>, p: Path): Outcome
  {
    if p !in entries then Err(NotFound)
    else if p in locked then Err(PermissionDenied)
    else if entries[p] == Directory then Err(IsADirectory)
    else Ok
  }

  /** The outcome of deleting `paths` in order, stopping at the first failure, and the disk it leaves. */
  function DeleteAll(entries: map<Path, EntryKind>, locked: set<Path>, paths: seq<Path>): (Outcome, map<Path, EntryKind>)
  {
    if paths == [] then (Ok, entries)
    else
      var r := Unlink(entries, locked, paths[0]);
      if r.Ok? then DeleteAll(entries - {paths[0]}, locked, paths[1..]) else (r, entries)
  }

  /** Every path names a distinct regular file that may be removed. */
  ghost predicate Deletable(entries: map<Path, EntryKind>, locked: set<Path>, paths: seq<Path>) {
    && Distinct(paths)
    && forall i :: 0 <= i < |paths| ==> paths[i] in entries && entries[paths[i]] == Regular && paths[i] !in locked
  }

  /** The disk without the given paths. */
  function Without(entries: map<Path, EntryKind>, paths: seq<Path>): map<Path, EntryKind>
  {
    map k | k in entries && k !in paths :: entries[k]
  }

  /** The batch succeeds exactly when every path is a distinct, removable regular file. */
  lemma {:induction false} DeleteAllOk(entries: map<Path, EntryKind>, locked: set<Path>, paths: seq<Path>)
    ensures DeleteAll(entries, locked, paths).0 == Ok <==> Deletable(entries, locked, paths)
  {
    if paths != [] {
      var p, rest := paths[0], paths[1..];
      var after := entries - {p};
      DeleteAllOk(after, locked, rest);
      if Unlink(entries, locked, p) == Ok {
        if Deletable(after, locked, rest) {
          forall i, j | 0 <= i < j < |paths| ensures paths[i] != paths[j] {
            if i == 0 {
              assert rest[j - 1] in after;
            } else {
              assert paths[i] == rest[i - 1] && paths[j] == rest[j - 1];
            }
          }
          forall i | 0 <= i < |paths|
            ensures paths[i] in entries && entries[paths[i]] == Regular && paths[i] !in locked
          {
            if i > 0 {
              assert paths[i] == rest[i - 1];
            }
          }
        }
        if Deletable(entries, locked, paths) {
          forall i | 0 <= i < |rest| ensures rest[i] in after && after[rest[i]] == Regular && rest[i] !in locked {
            assert rest[i] == paths[i + 1] && paths[0] != paths[i + 1];
          }
          forall i, j | 0 <= i < j < |rest| ensures rest[i] != rest[j] {
            assert rest[i] == paths[i + 1] && rest[j] == paths[j + 1];
          }
        }
      } else {
        assert !Deletable(entries, locked, paths) by {
          assert paths[0] == p;
        }
      }
    }
  }

  /**
   * Deletion removes listed paths only: what it leaves is the old disk minus
   * some of the listed paths, and every path it keeps has its old kind.
   */
  lemma {:induction false} DeleteAllKeeps(entries: map<Path, EntryKind>, locked: set<Path>, paths: seq<Path>)
    ensures var left := DeleteAll(entries, locked, paths).1;
      && (forall k :: k in left ==> k in entries && left[k] == entries[k])
      && (forall k :: k in entries && k !in paths ==> k in left)
      && (forall k :: k in entries && entries[k] == Directory ==> k in left)
  {
    if paths != [] {
      var after := entries - {paths[0]};
      DeleteAllKeeps(after, locked, paths[1..]);
      forall k | k in entries && k !in paths ensures k != paths[0] && k !in paths[1..] {
        assert paths[0] in paths;
      }
    }
  }

  /** A successful batch leaves the old disk without exactly the listed paths. */
  lemma {:induction false} DeleteAllOkState(entries: map<Path, EntryKind>, locked: set<Path>, paths: seq<Path>)
    requires DeleteAll(entries, locked, paths).0 == Ok
    ensures DeleteAll(entries, locked, paths).1 == Without(entries, paths)
  {
    if paths == [] {
      assert Without(entries, paths) == entries;
    } else {
      var after := entries - {paths[0]};
      DeleteAllOkState(after, locked, paths[1..]);
      assert paths == [paths[0]] + paths[1..];
      assert Without(after, paths[1..]) == Without(entries, paths);
    }
  }

  /**
   * A failed batch stopped at some path `paths[i]`: the paths before it were
   * all removed, the error is what removing `paths[i]` reports on the disk
   * they left, and nothing from `paths[i]` on was touched.
   */
  lemma {:induction false} DeleteAllErrState(entries: map<Path, EntryKind>, locked: set<Path>, paths: seq<Path>)
    requires DeleteAll(entries, locked, paths).0.Err?
    ensures exists i ::
              && 0 <= i < |paths|
              && Deletable(entries, locked, paths[..i])
              && DeleteAll(entries, locked, paths).1 == Without(entries, paths[..i])
              && DeleteAll(entries, locked, paths).0 == Unlink(Without(entries, paths[..i]), locked, paths[i])
  {
    var p, rest := paths[0], paths[1..];
    if Unlink(entries, locked, p).Err? {
      assert paths[..0] == [];
      assert Without(entries, []) == entries;
      assert Deletable(entries, locked, paths[..0]);
    } else {
      var after := entries - {p};
      DeleteAllErrState(after, locked, rest);
      var j :| 0 <= j < |rest|
        && Deletable(after, locked, rest[..j])
        && DeleteAll(after, locked, rest).1 == Without(after, rest[..j])
        && DeleteAll(after, locked, rest).0 == Unlink(Without(after, rest[..j]), locked, rest[j]);
      assert paths[..j + 1] == [p] + rest[..j];
      assert Without(after, rest[..j]) == Without(entries, paths[..j + 1]);
      assert paths[j + 1] == rest[j];
      DeleteAllOk(after, locked, rest[..j]);
      DeleteAllOk(entries, locked, paths[..j + 1]);
      assert DeleteAll(entries, locked, paths[..j + 1]).0 == Ok by {
        assert paths[..j + 1][1..] == rest[..j];
      }
    }
  }

  /** The disk `delete_files` works on. */
  class Disk {
    var entries: map<Path, EntryKind>
    var locked: set<Path>

    constructor(entries: map<Path, EntryKind>, locked: set<Path>)
      ensures this.entries == entries && this.locked == locked
    {
      this.entries := entries;
      this.locked := locked;
    }

    /** `fs::remove_file(p)`: removes `p` when it reports success, and changes nothing otherwise. */
    method RemoveFile(p: Path) returns (r: Outcome)
      modifies this
      ensures r == Unlink(old(entries), old(locked), p)
      ensures entries == if r.Ok? then old(entries) - {p} else old(entries)
      ensures locked == old(locked)
    {
      r := Unlink(entries, locked, p);
      if r.Ok? {
        entries := entries - {p};
      }
    }

    /** `delete_files`: remove the paths in order and return at the first error. */
    method DeleteFiles(paths: seq<Path>) returns (r: Outcome)
      modifies this
      ensures (r, entries) == DeleteAll(old(entries), old(locked), paths)
      ensures locked == old(locked)
    {
      for i := 0 to |paths|
        invariant locked == old(locked)
        invariant DeleteAll(old(entries), locked, paths) == DeleteAll(entries, locked, paths[i..])
      {
        assert paths[i..][1..] == paths[i + 1..];
        r := RemoveFile(paths[i]);
        if r.Err? {
          return;
        }
      }
      r := Ok;
    }
  }
}
