# finddups core, modelled in Dafny

`finddups` finds files with identical content under a directory tree. Its core
is `src/dups.rs`, which has three operations:

- `list_dir` walks the tree to a depth bound and collects the paths of the
  regular files. It can skip hidden entries, meaning names that start with '.'.
- `find_duplicates` buckets the listed files by the size `stat` reports. It
  hashes only the files of buckets with two or more members, either
  sequentially or with one task per file. It then regroups each bucket by
  digest and returns every digest group with two or more members.
- `delete_files` removes a list of paths in order and stops at the first
  error.

This project models those operations and proves what they promise.

## Layout

| file | module | contents |
|---|---|---|
| `file_system.dfy` | `FileSystem` | The filesystem snapshot: a tree of files, directories and other entries. A file records what each query observes: its `stat` size, whether `open` succeeds, and the results of its successive 8192-byte `read`s. Also defines path lookup, `Metadata`, `Open`, `ReadFile` and the `Read` call on a buffer. |
| `walker.dfy` | `Walker` | `is_hidden`. `inner` as a method that pushes into a `FileList` object. `list_dir`. The walk as the spec functions `WalkDir`, `WalkEntries` and `Visit`. `FileAt` and `Admitted` say which paths get listed without referring to the walk, and `ListingMembers` proves the two descriptions agree. |
| `grouping.dfy` | `Grouping` | The `entry(k).or_default().push(v)` idiom as `GroupBy` over a sequence of (key, path) pairs, and `Multiples`, the filter that keeps groups with more than one member. |
| `detector.dfy` | `Detector` | The size pass, the hashing loop, the sequential and parallel hashing strategies, the regrouping by digest, `find_duplicates`, and the proof that its result equals a reference answer. The reference hashes every statable file without the size pre-filter. |
| `removal.dfy` | `Removal` | `remove_file` and `delete_files` on a `Disk` object. `DeleteAll` is the spec function, with lemmas for the success state and the failure state. |

Modelling choices:

- **Digest.** The digest function is a parameter `hash: seq<byte> -> Digest`. `Injective(hash)` states the trust placed in SHA-256: equal digests only for equal contents.
- **Changing files.** A file that changes during the scan is a file whose observations disagree. For example, `stat` reports one size while the reads deliver a different number of bytes. `Consistent(root)` rules that out.
- **`HashMap` order.** Iteration over a `HashMap` is modelled as an arbitrary choice with `:|` among the keys still to visit, so every proof holds for every iteration order.
- **Parallel branch.** The parallel branch runs the per-file tasks in an arbitrary order. Each task writes only its own slot of an array, and `collect` then reads the slots in bucket order.

Without size collisions, the detector's result equals the reference answer. A size collision means two listed files of different reported sizes share a digest. It can only happen if the hash collides or a file changes during the scan (`InjectiveConsistentNoCollision`). Without collisions, the result therefore does not depend on map order or on the hashing strategy.

If a collision does happen, a later bucket's group can replace an earlier bucket's group under the same digest. The result then depends on map iteration order, as it does in the source. Every returned group is still sound.

`delete_files` returns the `io::Error` of the failed `remove_file`, which carries the error kind but not the path.

## Model

| member | source | states |
|---|---|---|
| Walker.FileName | src/dups.rs:10 | A path has a base name exactly when it has at least one component, and the base name is its last component. |
| Walker.ToStr | src/dups.rs:11 | A name converts to a string exactly when it is valid UTF-8, and the string is the name's text. |
| Walker.IsHidden | src/dups.rs:9-14 | A path is hidden exactly when its last component is a UTF-8 name starting with '.'. The empty path and non-UTF-8 names are not hidden. |
| Walker.FileList.constructor | src/dups.rs:39 | The file vector starts empty. |
| Walker.FileList.Push | src/dups.rs:32 | Pushing appends exactly that path and keeps the earlier ones. |
| Walker.Inner | src/dups.rs:15-38 | `inner` appends exactly `WalkDir` to the vector and keeps what was there. That is nothing beyond the depth bound and nothing for an unreadable directory; otherwise the entries in enumeration order, with hidden entries skipped, files pushed, subdirectories descended into at depth + 1, and other entries ignored. |
| Walker.WalkEntriesMembers | src/dups.rs:26-36 | A path is appended by the first k iterations of the entry loop exactly when one of those k entries appended it. |
| Walker.VisitMembers | src/dups.rs:27-35 | One loop iteration appends p exactly when p extends the entry's path, the entry is not hidden (unless hidden entries are included), and either the entry is a file and p is its path, or the entry is a directory whose walk lists p. |
| Walker.WalkDirMembers | src/dups.rs:22-37 | `inner` on a directory lists p exactly when p lies below it, reaches a regular file through readable directories, and passes the depth and hidden-entry filters. |
| Walker.WalkDirSound | src/dups.rs:25-37 | Every path a readable directory within the depth bound lists lies below it and passes the filters. |
| Walker.WalkDirComplete | src/dups.rs:25-37 | Every path below a readable directory within the depth bound that passes the filters is listed. |
| Walker.ListingMembers | src/dups.rs:8-42 | `list_dir` lists p exactly when p leads from the root through readable directories to a regular file, has at most `max_depth` components (0 means unbounded), and has no hidden component unless hidden entries are included. |
| Walker.WalkDirDistinct | src/dups.rs:22-37 | In a tree whose directories have distinct entry names, one directory's walk never lists a path twice. |
| Walker.WalkEntriesDistinct | src/dups.rs:26-36 | Different entries contribute disjoint sets of paths, so the entry loop's output has no repeats. |
| Walker.VisitDistinct | src/dups.rs:28-35 | One iteration's output has no repeats. |
| Walker.FileAtResolves | src/dups.rs:31-32 | In a well-formed tree, a path that reaches a regular file resolves to that file. |
| Walker.ListDir | src/dups.rs:8-42 | Returns the walk from the root at depth 1 and states the exact membership condition. In a well-formed tree no path appears twice. An empty root directory lists nothing, as in tests/dups_tests.rs:151-155. |
| Walker.ListedIsFile | src/dups.rs:31-32 | Every listed path of a well-formed tree names a regular file. |
| FileSystem.Read | src/dups.rs:71-75 | One `read` either fails, or copies the next chunk of the stream to the front of the buffer and reports its length. Zero is reported at end of file. |
| Grouping.KeyedMember | src/dups.rs:57 | A path is in the group of key k exactly when the pushed pairs include (k, path). |
| Grouping.KeysOfKeyed | src/dups.rs:57 | A key is present in the map exactly when its group is non-empty. |
| Grouping.GroupByPush | src/dups.rs:57 | Pushing one more pair appends its path to the group of its key, creating the group if needed, and leaves the other groups alone. |
| Grouping.KeyedDistinct | src/dups.rs:108 | Grouping pairs in which no path repeats gives groups in which no path repeats. |
| Detector.SizedMember | src/dups.rs:54-58 | The size pass keeps exactly the listed files whose `stat` succeeds, each paired with its reported size. Files whose `stat` fails are dropped. |
| Detector.HashedMember | src/dups.rs:63-105 | Hashing a bucket keeps exactly the files that open and read to the end, each paired with the digest of their content. |
| Detector.BucketGroupIsNaiveGroup | src/dups.rs:62-114 | Suppose every statable file with digest k has size s. Then bucket s's digest-k group is exactly the reference digest-k group, in the same order. |
| Detector.BucketMember | src/dups.rs:106-109 | A member of bucket s's digest-k group is a listed file with size s and digest k. |
| Detector.BucketGroupsSound | src/dups.rs:62-114 | Each group a bucket contributes has two or more listed members, all with the group's digest and one common size. |
| Detector.MergeSound | src/dups.rs:110-113 | Inserting sound groups into a sound result keeps it sound, even when an insert replaces an earlier group. |
| Detector.NaiveGroupFacts | src/dups.rs:110-113 | A reference group has two or more members, and its first member is a statable listed file with the group's digest. |
| Detector.SizeIsKey | src/dups.rs:52-58 | The reported size of every statable listed file is a key of the size map. |
| Detector.AgreesInitially | src/dups.rs:61-62 | Before any bucket is processed, the empty result agrees with the reference: every reference group is still pending. |
| Detector.ContributedIsNaive | src/dups.rs:106-113 | Without size collisions, every group a bucket contributes is the reference group of its digest. |
| Detector.NaiveIsContributed | src/dups.rs:62-113 | Without size collisions, a reference group whose first member has size s is contributed by bucket s, and that bucket has two or more members. |
| Detector.MergedAreNaive | src/dups.rs:110-113 | Without size collisions, merging a bucket's groups keeps every result group equal to the reference group of its digest. |
| Detector.AgreesStep | src/dups.rs:62-114 | Processing one more size bucket preserves agreement with the reference. This includes a bucket with fewer than two files, which is skipped. |
| Detector.SizedUnique | src/dups.rs:54-58 | A listing without repeats gives a size pass without repeated paths. |
| Detector.HashedUnique | src/dups.rs:63-105 | A bucket without repeats gives hashes without repeated paths. |
| Detector.BucketGroupsDistinct | src/dups.rs:106-113 | A listing without repeats gives digest groups without repeats. |
| Detector.InjectiveConsistentNoCollision | src/dups.rs:52-113 | With an injective hash over a snapshot that does not change during the scan, no digest spans two sizes. |
| Detector.BucketOf | src/dups.rs:54-58 | A file is in the bucket of size s exactly when it is listed and `stat` reports size s. |
| Detector.ScreenedInitially | src/dups.rs:61-62 | Before any bucket is processed, no file has been hashed. |
| Detector.ScreenedStep | src/dups.rs:62-105 | Processing bucket s hashes its files when it has more than one member, and nothing otherwise. Afterwards the hashed files are exactly the listed files of the processed multi-member buckets, and every reported group consists of hashed files. |
| Detector.ProgressStep | src/dups.rs:62-114 | One iteration of the bucket loop keeps soundness, agreement with the reference when there are no size collisions, repeat-freedom, and the account of which files were hashed. |
| Detector.AgreesFinal | src/dups.rs:116 | Once no bucket is pending, agreement with the reference is equality. |
| Detector.SoundSameContent | src/dups.rs:78 | With an injective hash, the members of a sound group have byte-for-byte the same content. |
| Detector.FirstMemberListed | src/dups.rs:51 | The first member of a reported group is one of the listed files. |
| Detector.SoundOverNothing | tests/dups_tests.rs:111-115 | A sound result over no listed files is empty. |
| Detector.HashedStep | src/dups.rs:63-83 | Hashing one more file of a bucket appends what that file's task yields. |
| Detector.HashFile | src/dups.rs:67-81 | The per-file closure yields a result exactly when the file opens and every read succeeds until end of file. The result is the digest of the complete content, paired with the path. |
| Detector.HashSequential | src/dups.rs:63-83 | The `iter()` branch returns, in bucket order, exactly the files that hash successfully, with their digests. The files it opens are exactly the bucket's. |
| Detector.HashParallel | src/dups.rs:84-105 | The `par_iter()` branch returns the same sequence as the sequential branch, whichever order the tasks finish in. The files it opens are exactly the bucket's. |
| Detector.BucketBySize | src/dups.rs:52-59 | The size map sends each reported size to the listed files of that size, in listing order. |
| Detector.GroupByDigest | src/dups.rs:106-109 | The digest map sends each digest to the bucket's files with that digest, in order. |
| Detector.InsertMultiples | src/dups.rs:110-114 | Returns the old result with every digest group of two or more members inserted. An insert replaces any previous group under that digest, whatever order the map is walked in. |
| Detector.FindDuplicates | src/dups.rs:45-117 | Every group has two or more listed files that share its digest and one reported size. With an injective hash, they have identical content. Without size collisions, the result is exactly the reference answer for either strategy and any map order (tests/dups_tests.rs:168-176). In a well-formed tree no group repeats a path. An empty directory gives no groups. The files opened for hashing are exactly the listed files whose reported size at least one other listed file shares, so a file alone in its size bucket is never read (the filter at src/dups.rs:62), and every reported file is among them. |
| Removal.DeleteAllOk | src/dups.rs:120-125 | The batch succeeds exactly when the paths are distinct and each names an existing, unlocked regular file. |
| Removal.DeleteAllKeeps | src/dups.rs:120-125 | Deletion removes only listed paths, never a directory, and never changes what it keeps. |
| Removal.DeleteAllOkState | src/dups.rs:120-125 | After a successful batch the disk is the old disk without exactly the listed paths, as in tests/dups_tests.rs:140-148. |
| Removal.DeleteAllErrState | src/dups.rs:121-122 | A failed batch stopped at some path. The paths before it were all removed. The error is what removing that path reports on the disk they left, and nothing from that path on was touched: there is no rollback. |
| Removal.Disk.RemoveFile | src/dups.rs:122 | `remove_file` reports NotFound for a missing path, PermissionDenied for a locked one and IsADirectory for a directory. Otherwise it removes the file. A failure changes nothing. |
| Removal.Disk.DeleteFiles | src/dups.rs:120-125 | Returns the outcome `DeleteAll` specifies and leaves exactly the disk it specifies, returning at the first error. |

## Left out

- SHA-256 and the lower-case hex rendering of its digest: the digest function is a parameter, and collision resistance is the assumption `Injective`.
- Real I/O: `read_dir`, `stat`, `open`, `read` and `remove_file` act on a snapshot value. Timing, and changes made by other processes except as disagreeing observations, are not modelled.
- Symbolic links: `is_file` and `is_dir` follow links in the source; here a link is an `Other` entry, which the walk ignores.
- Per-entry errors that `filter_map(Result::ok)` discards inside a readable directory are not modelled. Only a directory that cannot be read at all is, and it lists nothing.
- Repeated names within one directory: a path resolves to the first entry with its name. Distinctness of the listing and `ListedIsFile` are proved for trees whose directories have distinct entry names (`WellFormed`).
- Rayon's thread pool: tasks are modelled as running one at a time in an arbitrary order. This is faithful because each task reads only its own file and writes only its own slot.
- Detector.FindDuplicates: equality with the reference answer is proved only when no digest spans two reported sizes. Otherwise the source's result depends on `HashMap` iteration order, and only soundness and repeat-freedom are proved.
- Removal.Disk.RemoveFile: the disk is a flat map from paths to entry kinds, plus the set of paths whose parent directory forbids removal. Other `io::ErrorKind`s that `remove_file` can report (read-only filesystem, busy) are not modelled.
- `main.rs` and `config.rs`, the command-line front end that prints groups and passes them to `delete_files`, are not part of this model.
