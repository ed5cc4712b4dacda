/**
 * The duplicate detector, `find_duplicates`: bucket the listed files by the
 * size `stat` reports, hash only the files of buckets with more than one
 * member, regroup every such bucket by digest and keep the digest groups with
 * more than one member.
 *
 * The digest function (SHA-256 rendered as lower-case hex in the source) is a
 * parameter `hash`; the model never looks inside it.
 */
module Detector {
  import opened FileSystem
  import opened Grouping
  import opened Walker

  type Digest = string

  /** Equal digests only for equal contents: what a collision-resistant hash is trusted to give. */
  ghost predicate Injective(hash: seq<byte> -> Digest) {
    forall a, b :: hash(a) == hash(b) ==> a == b
  }

  /** The digest of everything a complete read of `p` yields, or `None` when opening or a read fails. */
  function FileDigest(root: Node, p: Path, hash: seq<byte> -> Digest): Option<Digest>
  {
    match ReadFile(root, p)
    case None => None
    case Some(bytes) => Some(hash(bytes))
  }

  /** The size pass: each file `stat` succeeds for, paired with its size, in order; the others dropped. */
  function Sized(root: Node, files: seq<Path>): (r: seq<(u64, Path)>)
  {
    if files == [] then []
    else
      var f := files[|files| - 1];
      Sized(root, files[..|files| - 1]) +
        match Metadata(root, f)
        case Some(size) => [(size, f)]
        case None => []
  }

  /** What hashing a bucket collects: each file that opens and reads to the end, with its digest, in order. */
  function Hashed(root: Node, files: seq<Path>, hash: seq<byte> -> Digest): (r: seq<(Digest, Path)>)
  {
    if files == [] then []
    else
      var f := files[|files| - 1];
      Hashed(root, files[..|files| - 1], hash) +
        match FileDigest(root, f, hash)
        case Some(d) => [(d, f)]
        case None => []
  }

  /**
   * The reference pipeline without the size pre-filter: hash every file `stat`
   * succeeds for, in order.
   */
  function AllHashed(root: Node, files: seq<Path>, hash: seq<byte> -> Digest): seq<(Digest, Path)>
  {
    if files == [] then []
    else
      var f := files[|files| - 1];
      AllHashed(root, files[..|files| - 1], hash) +
        if Metadata(root, f).Some? && FileDigest(root, f, hash).Some?
        then [(FileDigest(root, f, hash).value, f)] else []
  }

  /** The reference answer: group all statable, readable files by digest and keep the groups of two or more. */
  function NaiveGroups(root: Node, files: seq<Path>, hash: seq<byte> -> Digest): map<Digest, seq<Path>>
  {
    Multiples(GroupBy(AllHashed(root, files, hash)))
  }

  /** The groups one size bucket contributes once hashed and regrouped by digest. */
  function BucketGroups(root: Node, files: seq<Path>, hash: seq<byte> -> Digest, size: u64): map<Digest, seq<Path>>
  {
    Multiples(GroupBy(Hashed(root, Keyed(Sized(root, files), size), hash)))
  }

  /**
   * No digest is shared by two listed files of different reported sizes. Only
   * then can the insertion into the result never replace one bucket's group
   * by another's.
   */
  ghost predicate NoSizeCollision(root: Node, files: seq<Path>, hash: seq<byte> -> Digest) {
    forall p, q ::
      p in files && q in files && Metadata(root, p).Some? && Metadata(root, q).Some? &&
      FileDigest(root, p, hash).Some? && FileDigest(root, p, hash) == FileDigest(root, q, hash)
      ==> Metadata(root, p) == Metadata(root, q)
  }

  /**
   * What the source promises of every group it returns: two or more listed
   * files, each with the group's key as its digest, all of one reported size.
   */
  ghost predicate Sound(root: Node, files: seq<Path>, hash: seq<byte> -> Digest, dups: map<Digest, seq<Path>>) {
    forall k :: k in dups ==>
      && |dups[k]| >= 2
      && forall p :: p in dups[k] ==>
           && p in files
           && FileDigest(root, p, hash) == Some(k)
           && Metadata(root, p).Some?
           && Metadata(root, p) == Metadata(root, dups[k][0])
  }

  /** The size bucket of `g`'s first member is still to be processed. */
  ghost predicate PendingGroup(root: Node, g: seq<Path>, pending: set<u64>) {
    |g| > 0 && Metadata(root, g[0]).Some? && Metadata(root, g[0]).value in pending
  }

  /**
   * The result so far is the reference answer restricted to the buckets
   * already processed.
   */
  ghost predicate Agrees(root: Node, files: seq<Path>, hash: seq<byte> -> Digest,
                         dups: map<Digest, seq<Path>>, pending: set<u64>)
  {
    var naive := NaiveGroups(root, files, hash);
    && (forall k :: k in dups ==> k in naive && dups[k] == naive[k])
    && (forall k :: k in naive && !PendingGroup(root, naive[k], pending) ==> k in dups)
  }

  // ---------------------------------------------------------------- lemmas

  lemma SizedSnoc(root: Node, files: seq<Path>, f: Path)
    ensures Sized(root, files + [f]) == Sized(root, files) +
      match Metadata(root, f) case Some(size) => [(size, f)] case None => []
  {
    assert (files + [f])[..|files|] == files;
  }

  lemma HashedSnoc(root: Node, files: seq<Path>, f: Path, hash: seq<byte> -> Digest)
    ensures Hashed(root, files + [f], hash) == Hashed(root, files, hash) +
      match FileDigest(root, f, hash) case Some(d) => [(d, f)] case None => []
  {
    assert (files + [f])[..|files|] == files;
  }

  /** The size pass keeps exactly the listed files `stat` succeeds for, each with its reported size. */
  lemma {:induction false} SizedMember(root: Node, files: seq<Path>, size: u64, p: Path)
    ensures (size, p) in Sized(root, files) <==> p in files && Metadata(root, p) == Some(size)
  {
    if files != [] {
      var init, f := files[..|files| - 1], files[|files| - 1];
      assert files == init + [f];
      SizedMember(root, init, size, p);
    }
  }

  /** Hashing keeps exactly the files that open and read to the end, each with its digest. */
  lemma {:induction false} HashedMember(root: Node, files: seq<Path>, hash: seq<byte> -> Digest, k: Digest, p: Path)
    ensures (k, p) in Hashed(root, files, hash) <==> p in files && FileDigest(root, p, hash) == Some(k)
  {
    if files != [] {
      var init, f := files[..|files| - 1], files[|files| - 1];
      assert files == init + [f];
      HashedMember(root, init, hash, k, p);
    }
  }

  lemma {:induction false} AllHashedMember(root: Node, files: seq<Path>, hash: seq<byte> -> Digest, k: Digest, p: Path)
    ensures (k, p) in AllHashed(root, files, hash) <==>
      p in files && Metadata(root, p).Some? && FileDigest(root, p, hash) == Some(k)
  {
    if files != [] {
      var init, f := files[..|files| - 1], files[|files| - 1];
      assert files == init + [f];
      AllHashedMember(root, init, hash, k, p);
    }
  }

  /** Appending a file to the listing adds it to the digest-`k` group of bucket `size` exactly when it has that size and digest. */
  lemma BucketKeyedSnoc(root: Node, files: seq<Path>, f: Path, hash: seq<byte> -> Digest, size: u64, k: Digest)
    ensures Keyed(Hashed(root, Keyed(Sized(root, files + [f]), size), hash), k) ==
      Keyed(Hashed(root, Keyed(Sized(root, files), size), hash), k) +
      (if Metadata(root, f) == Some(size) && FileDigest(root, f, hash) == Some(k) then [f] else [])
  {
    var bucket := Keyed(Sized(root, files), size);
    SizedSnoc(root, files, f);
    match Metadata(root, f)
    case None =>
      assert Sized(root, files + [f]) == Sized(root, files);
    case Some(z) =>
      KeyedSnoc(Sized(root, files), (z, f), size);
      if z == size {
        HashedSnoc(root, bucket, f, hash);
        match FileDigest(root, f, hash)
        case None =>
          assert Hashed(root, bucket + [f], hash) == Hashed(root, bucket, hash);
        case Some(d) => KeyedSnoc(Hashed(root, bucket, hash), (d, f), k);
      } else {
        assert Keyed(Sized(root, files + [f]), size) == bucket;
      }
  }

  /** Appending a file to the listing adds it to the reference digest-`k` group exactly when it is statable with that digest. */
  lemma AllHashedKeyedSnoc(root: Node, files: seq<Path>, f: Path, hash: seq<byte> -> Digest, k: Digest)
    ensures Keyed(AllHashed(root, files + [f], hash), k) == Keyed(AllHashed(root, files, hash), k) +
      (if Metadata(root, f).Some? && FileDigest(root, f, hash) == Some(k) then [f] else [])
  {
    assert (files + [f])[..|files|] == files;
    if Metadata(root, f).Some? && FileDigest(root, f, hash).Some? {
      KeyedSnoc(AllHashed(root, files, hash), (FileDigest(root, f, hash).value, f), k);
    } else {
      assert AllHashed(root, files + [f], hash) == AllHashed(root, files, hash);
    }
  }

  /**
   * When every statable file with digest `k` has reported size `size`, the
   * digest-`k` group of bucket `size` is exactly the digest-`k` group of the
   * reference pipeline.
   */
  lemma {:induction false} BucketGroupIsNaiveGroup(root: Node, files: seq<Path>, hash: seq<byte> -> Digest, size: u64, k: Digest)
    requires forall f :: f in files && Metadata(root, f).Some? && FileDigest(root, f, hash) == Some(k) ==>
      Metadata(root, f) == Some(size)
    ensures Keyed(Hashed(root, Keyed(Sized(root, files), size), hash), k) == Keyed(AllHashed(root, files, hash), k)
  {
    if files != [] {
      var init, f := files[..|files| - 1], files[|files| - 1];
      assert files == init + [f];
      BucketGroupIsNaiveGroup(root, init, hash, size, k);
      BucketKeyedSnoc(root, init, f, hash, size, k);
      AllHashedKeyedSnoc(root, init, f, hash, k);
    }
  }

  /** A member of bucket `size`'s digest-`k` group is a listed file of that size and digest. */
  lemma BucketMember(root: Node, files: seq<Path>, hash: seq<byte> -> Digest, size: u64, k: Digest, p: Path)
    requires p in Keyed(Hashed(root, Keyed(Sized(root, files), size), hash), k)
    ensures p in files && FileDigest(root, p, hash) == Some(k) && Metadata(root, p) == Some(size)
  {
    var bucket := Keyed(Sized(root, files), size);
    KeyedMember(Hashed(root, bucket, hash), k, p);
    HashedMember(root, bucket, hash, k, p);
    KeyedMember(Sized(root, files), size, p);
    SizedMember(root, files, size, p);
  }

  /** Every group a bucket contributes is sound. */
  lemma BucketGroupsSound(root: Node, files: seq<Path>, hash: seq<byte> -> Digest, size: u64)
    ensures Sound(root, files, hash, BucketGroups(root, files, hash, size))
  {
    var groups := BucketGroups(root, files, hash, size);
    forall k | k in groups
      ensures |groups[k]| >= 2
      ensures forall p :: p in groups[k] ==>
        p in files && FileDigest(root, p, hash) == Some(k) && Metadata(root, p) == Some(size)
    {
      var hashes := Hashed(root, Keyed(Sized(root, files), size), hash);
      assert k in GroupBy(hashes) && groups[k] == Keyed(hashes, k);
      forall p | p in groups[k]
        ensures p in files && FileDigest(root, p, hash) == Some(k) && Metadata(root, p) == Some(size)
      {
        BucketMember(root, files, hash, size, k, p);
      }
      assert groups[k][0] in groups[k];
    }
  }

  /** A sound result stays sound when another sound result is merged into it. */
  lemma MergeSound(root: Node, files: seq<Path>, hash: seq<byte> -> Digest, a: map<Digest, seq<Path>>, b: map<Digest, seq<Path>>)
    requires Sound(root, files, hash, a) && Sound(root, files, hash, b)
    ensures Sound(root, files, hash, a + b)
  {
  }

  /** A reference group is the digest's group of two or more statable files. */
  lemma NaiveGroupFacts(root: Node, files: seq<Path>, hash: seq<byte> -> Digest, k: Digest)
    requires k in NaiveGroups(root, files, hash)
    ensures var g := NaiveGroups(root, files, hash)[k];
      && g == Keyed(AllHashed(root, files, hash), k) && |g| > 1
      && g[0] in files && Metadata(root, g[0]).Some? && FileDigest(root, g[0], hash) == Some(k)
  {
    var all := AllHashed(root, files, hash);
    var g := NaiveGroups(root, files, hash)[k];
    assert k in GroupBy(all) && g == GroupBy(all)[k];
    assert g[0] in g;
    KeyedMember(all, k, g[0]);
    AllHashedMember(root, files, hash, k, g[0]);
  }

  /** Every statable file's size is a key of the size map. */
  lemma SizeIsKey(root: Node, files: seq<Path>, w: Path)
    requires w in files && Metadata(root, w).Some?
    ensures Metadata(root, w).value in GroupBy(Sized(root, files))
  {
    SizedMember(root, files, Metadata(root, w).value, w);
    assert Metadata(root, w).value in KeysOf(Sized(root, files));
  }

  /** Before any bucket is processed, the empty result agrees with the reference. */
  lemma AgreesInitially(root: Node, files: seq<Path>, hash: seq<byte> -> Digest)
    ensures Agrees(root, files, hash, map[], GroupBy(Sized(root, files)).Keys)
  {
    var naive := NaiveGroups(root, files, hash);
    forall k | k in naive ensures PendingGroup(root, naive[k], GroupBy(Sized(root, files)).Keys) {
      NaiveGroupFacts(root, files, hash, k);
      SizeIsKey(root, files, naive[k][0]);
    }
  }

  /** Without size collisions, one statable file of digest `k` fixes the size of all of them. */
  lemma SizeOfDigest(root: Node, files: seq<Path>, hash: seq<byte> -> Digest, size: u64, k: Digest, w: Path)
    requires NoSizeCollision(root, files, hash)
    requires w in files && Metadata(root, w) == Some(size) && FileDigest(root, w, hash) == Some(k)
    ensures forall f :: f in files && Metadata(root, f).Some? && FileDigest(root, f, hash) == Some(k) ==>
      Metadata(root, f) == Some(size)
  {
  }

  /** Without size collisions, a group a bucket contributes is the reference group of its digest. */
  lemma ContributedIsNaive(root: Node, files: seq<Path>, hash: seq<byte> -> Digest, size: u64, k: Digest)
    requires NoSizeCollision(root, files, hash)
    requires k in BucketGroups(root, files, hash, size)
    ensures k in NaiveGroups(root, files, hash)
    ensures BucketGroups(root, files, hash, size)[k] == NaiveGroups(root, files, hash)[k]
  {
    var hashes := Hashed(root, Keyed(Sized(root, files), size), hash);
    var g := BucketGroups(root, files, hash, size)[k];
    assert k in GroupBy(hashes) && g == Keyed(hashes, k);
    assert g[0] in g;
    BucketMember(root, files, hash, size, k, g[0]);
    SizeOfDigest(root, files, hash, size, k, g[0]);
    BucketGroupIsNaiveGroup(root, files, hash, size, k);
    KeysOfKeyed(AllHashed(root, files, hash), k);
  }

  /** Without size collisions, a reference group of size `size` is contributed by bucket `size`, which has two or more members. */
  lemma NaiveIsContributed(root: Node, files: seq<Path>, hash: seq<byte> -> Digest, size: u64, k: Digest)
    requires NoSizeCollision(root, files, hash)
    requires k in NaiveGroups(root, files, hash)
    requires Metadata(root, NaiveGroups(root, files, hash)[k][0]) == Some(size)
    ensures k in BucketGroups(root, files, hash, size)
    ensures |Keyed(Sized(root, files), size)| > 1
  {
    var bucket := Keyed(Sized(root, files), size);
    NaiveGroupFacts(root, files, hash, k);
    SizeOfDigest(root, files, hash, size, k, NaiveGroups(root, files, hash)[k][0]);
    BucketGroupIsNaiveGroup(root, files, hash, size, k);
    KeysOfKeyed(Hashed(root, bucket, hash), k);
  }

  /** Merging a bucket's groups keeps every result group equal to the reference group of its digest. */
  lemma MergedAreNaive(root: Node, files: seq<Path>, hash: seq<byte> -> Digest,
                       dups: map<Digest, seq<Path>>, size: u64)
    requires NoSizeCollision(root, files, hash)
    requires forall k :: k in dups ==> k in NaiveGroups(root, files, hash) && dups[k] == NaiveGroups(root, files, hash)[k]
    ensures var next := dups + BucketGroups(root, files, hash, size);
      forall k :: k in next ==> k in NaiveGroups(root, files, hash) && next[k] == NaiveGroups(root, files, hash)[k]
  {
    var contributed := BucketGroups(root, files, hash, size);
    forall k | k in contributed
      ensures k in NaiveGroups(root, files, hash) && contributed[k] == NaiveGroups(root, files, hash)[k]
    {
      ContributedIsNaive(root, files, hash, size, k);
    }
  }

  /** What merging one bucket's groups does to the agreement with the reference. */
  lemma AgreesStep(root: Node, files: seq<Path>, hash: seq<byte> -> Digest,
                   dups: map<Digest, seq<Path>>, pending: set<u64>, size: u64)
    requires NoSizeCollision(root, files, hash)
    requires Agrees(root, files, hash, dups, pending)
    requires size in pending
    ensures var bucket := Keyed(Sized(root, files), size);
      Agrees(root, files, hash,
             if |bucket| > 1 then dups + BucketGroups(root, files, hash, size) else dups,
             pending - {size})
  {
    var naive := NaiveGroups(root, files, hash);
    var bucket := Keyed(Sized(root, files), size);
    var next := if |bucket| > 1 then dups + BucketGroups(root, files, hash, size) else dups;
    if |bucket| > 1 {
      MergedAreNaive(root, files, hash, dups, size);
    }
    forall k | k in naive && !PendingGroup(root, naive[k], pending - {size}) ensures k in next {
      if PendingGroup(root, naive[k], pending) {
        NaiveIsContributed(root, files, hash, size, k);
      }
    }
  }

  lemma {:induction false} SizedUnique(root: Node, files: seq<Path>)
    requires Distinct(files)
    ensures UniquePaths(Sized(root, files))
  {
    if files != [] {
      var init, f := files[..|files| - 1], files[|files| - 1];
      assert files == init + [f];
      SizedUnique(root, init);
      SizedSnoc(root, init, f);
      if Metadata(root, f).Some? {
        forall y | y in Sized(root, init) ensures y.1 != f {
          SizedMember(root, init, y.0, y.1);
        }
        UniqueSnoc(Sized(root, init), (Metadata(root, f).value, f));
      } else {
        assert Sized(root, files) == Sized(root, init);
      }
    }
  }

  lemma {:induction false} HashedUnique(root: Node, files: seq<Path>, hash: seq<byte> -> Digest)
    requires Distinct(files)
    ensures UniquePaths(Hashed(root, files, hash))
  {
    if files != [] {
      var init, f := files[..|files| - 1], files[|files| - 1];
      assert files == init + [f];
      HashedUnique(root, init, hash);
      HashedSnoc(root, init, f, hash);
      if FileDigest(root, f, hash).Some? {
        forall y | y in Hashed(root, init, hash) ensures y.1 != f {
          HashedMember(root, init, hash, y.0, y.1);
        }
        UniqueSnoc(Hashed(root, init, hash), (FileDigest(root, f, hash).value, f));
      } else {
        assert Hashed(root, files, hash) == Hashed(root, init, hash);
      }
    }
  }

  /** A bucket of a repeat-free listing yields groups without repeats. */
  lemma BucketGroupsDistinct(root: Node, files: seq<Path>, hash: seq<byte> -> Digest, size: u64)
    requires Distinct(files)
    ensures forall k :: k in BucketGroups(root, files, hash, size) ==> Distinct(BucketGroups(root, files, hash, size)[k])
  {
    var bucket := Keyed(Sized(root, files), size);
    SizedUnique(root, files);
    KeyedDistinct(Sized(root, files), size);
    HashedUnique(root, bucket, hash);
    forall k | k in BucketGroups(root, files, hash, size) ensures Distinct(BucketGroups(root, files, hash, size)[k]) {
      KeyedDistinct(Hashed(root, bucket, hash), k);
    }
  }

  /** With a trusted hash and an unchanging snapshot, no digest spans two sizes. */
  lemma InjectiveConsistentNoCollision(root: Node, files: seq<Path>, hash: seq<byte> -> Digest)
    requires Injective(hash) && Consistent(root)
    ensures NoSizeCollision(root, files, hash)
  {
  }

  /** A file is in a size bucket exactly when it is listed and `stat` reports that size. */
  lemma BucketOf(root: Node, files: seq<Path>, size: u64, p: Path)
    ensures p in Keyed(Sized(root, files), size) <==> p in files && Metadata(root, p) == Some(size)
  {
    KeyedMember(Sized(root, files), size, p);
    SizedMember(root, files, size, p);
  }

  /** A listed file whose reported size it shares with at least one other listed file's: the only files hashed. */
  ghost predicate SharesSize(root: Node, files: seq<Path>, p: Path) {
    p in files && Metadata(root, p).Some? && |Keyed(Sized(root, files), Metadata(root, p).value)| > 1
  }

  /**
   * The files hashed so far are exactly those of the processed buckets with
   * more than one member, and every reported group consists of hashed files.
   */
  ghost predicate Screened(root: Node, files: seq<Path>, dups: map<Digest, seq<Path>>,
                           hashed: set<Path>, pending: set<u64>)
  {
    && (forall p :: p in hashed <==> SharesSize(root, files, p) && Metadata(root, p).value !in pending)
    && (forall k, p :: k in dups && p in dups[k] ==> p in hashed)
  }

  /** Before any bucket is processed, nothing has been hashed. */
  lemma ScreenedInitially(root: Node, files: seq<Path>)
    ensures Screened(root, files, map[], {}, GroupBy(Sized(root, files)).Keys)
  {
    forall p | SharesSize(root, files, p) ensures Metadata(root, p).value in GroupBy(Sized(root, files)).Keys {
      SizeIsKey(root, files, p);
    }
  }

  /** Processing bucket `size` hashes its files when it has more than one, and only then. */
  lemma ScreenedStep(root: Node, files: seq<Path>, hash: seq<byte> -> Digest, dups: map<Digest, seq<Path>>,
                     hashed: set<Path>, pending: set<u64>, size: u64, touched: set<Path>)
    requires Screened(root, files, dups, hashed, pending)
    requires size in pending
    requires |Keyed(Sized(root, files), size)| > 1 ==> forall p :: p in touched <==> p in Keyed(Sized(root, files), size)
    ensures var bucket := Keyed(Sized(root, files), size);
      if |bucket| > 1 then Screened(root, files, dups + BucketGroups(root, files, hash, size), hashed + touched, pending - {size})
      else Screened(root, files, dups, hashed, pending - {size})
  {
    var bucket := Keyed(Sized(root, files), size);
    forall p ensures p in bucket <==> p in files && Metadata(root, p) == Some(size) {
      BucketOf(root, files, size, p);
    }
    if |bucket| > 1 {
      var groups := BucketGroups(root, files, hash, size);
      forall k, p | k in groups && p in groups[k] ensures p in touched {
        var hashes := Hashed(root, bucket, hash);
        assert k in GroupBy(hashes) && groups[k] == Keyed(hashes, k);
        BucketMember(root, files, hash, size, k, p);
      }
    }
  }

  /** The loop invariant of the detector's bucket loop. */
  ghost predicate Progress(root: Node, files: seq<Path>, hash: seq<byte> -> Digest,
                           dups: map<Digest, seq<Path>>, hashed: set<Path>, pending: set<u64>)
  {
    && Sound(root, files, hash, dups)
    && (NoSizeCollision(root, files, hash) ==> Agrees(root, files, hash, dups, pending))
    && (Distinct(files) ==> forall k :: k in dups ==> Distinct(dups[k]))
    && Screened(root, files, dups, hashed, pending)
  }

  /** Processing bucket `size` keeps the loop invariant. */
  lemma ProgressStep(root: Node, files: seq<Path>, hash: seq<byte> -> Digest,
                     dups: map<Digest, seq<Path>>, hashed: set<Path>, pending: set<u64>, size: u64, touched: set<Path>)
    requires Progress(root, files, hash, dups, hashed, pending)
    requires size in pending
    requires |Keyed(Sized(root, files), size)| > 1 ==> forall p :: p in touched <==> p in Keyed(Sized(root, files), size)
    ensures var bucket := Keyed(Sized(root, files), size);
      if |bucket| > 1
      then Progress(root, files, hash, dups + BucketGroups(root, files, hash, size), hashed + touched, pending - {size})
      else Progress(root, files, hash, dups, hashed, pending - {size})
  {
    if NoSizeCollision(root, files, hash) {
      AgreesStep(root, files, hash, dups, pending, size);
    }
    BucketGroupsSound(root, files, hash, size);
    MergeSound(root, files, hash, dups, BucketGroups(root, files, hash, size));
    if Distinct(files) {
      BucketGroupsDistinct(root, files, hash, size);
    }
    ScreenedStep(root, files, hash, dups, hashed, pending, size, touched);
  }

  /** Once every bucket is processed, agreement with the reference is equality. */
  lemma AgreesFinal(root: Node, files: seq<Path>, hash: seq<byte> -> Digest, dups: map<Digest, seq<Path>>)
    requires Agrees(root, files, hash, dups, {})
    ensures dups == NaiveGroups(root, files, hash)
  {
    var naive := NaiveGroups(root, files, hash);
    assert dups.Keys == naive.Keys;
  }

  /** With an injective hash, the members of a sound group have byte-for-byte the same content. */
  lemma SoundSameContent(root: Node, files: seq<Path>, hash: seq<byte> -> Digest, dups: map<Digest, seq<Path>>)
    requires Injective(hash) && Sound(root, files, hash, dups)
    ensures forall k, p, q :: k in dups && p in dups[k] && q in dups[k] ==>
      ReadFile(root, p).Some? && ReadFile(root, p) == ReadFile(root, q)
  {
    forall k, p, q | k in dups && p in dups[k] && q in dups[k]
      ensures ReadFile(root, p).Some? && ReadFile(root, p) == ReadFile(root, q)
    {
      assert FileDigest(root, p, hash) == Some(k) == FileDigest(root, q, hash);
    }
  }

  /** The first member of a sound group is one of the listed files. */
  lemma FirstMemberListed(root: Node, files: seq<Path>, hash: seq<byte> -> Digest, dups: map<Digest, seq<Path>>, k: Digest)
    requires Sound(root, files, hash, dups) && k in dups
    ensures |dups[k]| > 0 && dups[k][0] in files
  {
    assert dups[k][0] in dups[k];
  }

  /** Nothing listed, nothing reported: a sound result over no files is empty. */
  lemma SoundOverNothing(root: Node, hash: seq<byte> -> Digest, dups: map<Digest, seq<Path>>)
    requires Sound(root, [], hash, dups)
    ensures dups == map[]
  {
    if dups != map[] {
      var k :| k in dups;
      FirstMemberListed(root, [], hash, dups, k);
      assert false;
    }
  }

  // ---------------------------------------------------------------- methods

  /** `fed` followed by whatever the rest of the stream yields. */
  function Prefixed(fed: seq<byte>, rest: Option<seq<byte>>): Option<seq<byte>>
  {
    match rest
    case None => None
    case Some(tail) => Some(fed + tail)
  }

  lemma PrefixedAppend(fed: seq<byte>, d: seq<byte>, rest: Option<seq<byte>>)
    ensures Prefixed(fed, Prefixed(d, rest)) == Prefixed(fed + d, rest)
    ensures Prefixed([], rest) == rest
  {
    match rest
    case None =>
    case Some(tail) =>
      assert fed + (d + tail) == fed + d + tail;
      assert [] + tail == tail;
  }

  /** Reading past one non-empty chunk. */
  lemma StreamStep(stream: seq<ReadResult>, cursor: nat)
    requires cursor < |stream| && stream[cursor].Bytes? && stream[cursor].data != []
    ensures StreamBytes(stream[cursor..]) == Prefixed(stream[cursor].data, StreamBytes(stream[cursor + 1..]))
  {
    assert stream[cursor..][1..] == stream[cursor + 1..];
  }

  /** What the task for file `p` leaves in its slot. */
  function Task(root: Node, p: Path, hash: seq<byte> -> Digest): Option<(Digest, Path)>
  {
    match FileDigest(root, p, hash)
    case Some(d) => Some((d, p))
    case None => None
  }

  /** Hashing one more file of a bucket appends what its task yields. */
  lemma HashedStep(root: Node, bucket: seq<Path>, i: nat, hash: seq<byte> -> Digest)
    requires i < |bucket|
    ensures Hashed(root, bucket[..i + 1], hash) ==
      Hashed(root, bucket[..i], hash) + (if Task(root, bucket[i], hash).Some? then [Task(root, bucket[i], hash).value] else [])
  {
    assert bucket[..i + 1] == bucket[..i] + [bucket[i]];
    HashedSnoc(root, bucket[..i], bucket[i], hash);
  }

  /**
   * The closure each hashing strategy applies to one file: open it, feed each
   * chunk `read` delivers into the hasher until end of file, and give up on the
   * file at the first failed read.
   */
  method HashFile(root: Node, p: Path, hash: seq<byte> -> Digest) returns (r: Option<(Digest, Path)>)
    ensures r.Some? <==> FileDigest(root, p, hash).Some?
    ensures r.Some? ==> r.value == (FileDigest(root, p, hash).value, p)
  {
    var handle := Open(root, p);
    if handle.None? {
      return None;
    }
    var stream := handle.value;
    var buf := new byte[ChunkSize];
    var fed: seq<byte> := [];   // the bytes the hasher has been updated with
    var cursor: nat := 0;
    assert stream[0..] == stream;
    PrefixedAppend([], [], StreamBytes(stream));
    while true
      invariant cursor <= |stream|
      invariant StreamBytes(stream) == Prefixed(fed, StreamBytes(stream[cursor..]))
      decreases |stream| - cursor
    {
      var n := Read(stream, cursor, buf);
      match n
      case IoError =>
        return None;
      case Filled(count) =>
        if count == 0 {
          assert StreamBytes(stream[cursor..]) == Some([]) by {
            if cursor < |stream| {
              assert stream[cursor..][0] == stream[cursor];
            }
          }
          assert fed + [] == fed;
          break;
        }
        StreamStep(stream, cursor);
        PrefixedAppend(fed, buf[..count], StreamBytes(stream[cursor + 1..]));
        fed := fed + buf[..count];
        cursor := cursor + 1;
    }
    assert StreamBytes(stream) == Some(fed);
    r := Some((hash(fed), p));
  }

  /** The slots `0 .. n - 1`. */
  function Indices(n: nat): (r: set<nat>)
    ensures forall i: nat :: i in r <==> i < n
  {
    if n == 0 then {} else Indices(n - 1) + {n - 1}
  }

  /** The `iter()` branch: hash the bucket's files one after another. */
  method HashSequential(root: Node, bucket: seq<Path>, hash: seq<byte> -> Digest)
    returns (hashes: seq<(Digest, Path)>, ghost touched: set<Path>)
    ensures hashes == Hashed(root, bucket, hash)
    ensures forall p :: p in touched <==> p in bucket
  {
    hashes := [];
    touched := {};
    for i := 0 to |bucket|
      invariant hashes == Hashed(root, bucket[..i], hash)
      invariant forall p :: p in touched <==> p in bucket[..i]
    {
      assert bucket[..i + 1] == bucket[..i] + [bucket[i]];
      var r := HashFile(root, bucket[i], hash);
      touched := touched + {bucket[i]};
      HashedStep(root, bucket, i, hash);
      if r.Some? {
        hashes := hashes + [r.value];
      }
    }
    assert bucket[..|bucket|] == bucket;
  }

  /**
   * The `par_iter()` branch: one task per file, finishing in any order, each
   * writing only its own slot; `collect` then gathers the slots in the
   * bucket's order.
   */
  method HashParallel(root: Node, bucket: seq<Path>, hash: seq<byte> -> Digest)
    returns (hashes: seq<(Digest, Path)>, ghost touched: set<Path>)
    ensures hashes == Hashed(root, bucket, hash)
    ensures forall p :: p in touched <==> p in bucket
  {
    var results := new Option<(Digest, Path)>[|bucket|](_ => None);
    var pending := Indices(|bucket|);
    touched := {};
    while pending != {}
      invariant forall i :: i in pending ==> 0 <= i < |bucket|
      invariant forall i :: 0 <= i < |bucket| && i !in pending ==> results[i] == Task(root, bucket[i], hash)
      invariant forall i :: 0 <= i < |bucket| && i !in pending ==> bucket[i] in touched
      invariant forall p :: p in touched ==> p in bucket
      decreases pending
    {
      var i :| i in pending;
      var r := HashFile(root, bucket[i], hash);
      touched := touched + {bucket[i]};
      results[i] := r;
      pending := pending - {i};
    }
    var slots := results[..];
    hashes := [];
    for i := 0 to |bucket|
      invariant hashes == Hashed(root, bucket[..i], hash)
    {
      HashedStep(root, bucket, i, hash);
      if slots[i].Some? {
        hashes := hashes + [slots[i].value];
      }
    }
    assert bucket[..|bucket|] == bucket;
  }

  /** The size pass: stat each listed file and push it onto the bucket of its size. */
  method BucketBySize(root: Node, files: seq<Path>) returns (sizeMap: map<u64, seq<Path>>)
    ensures sizeMap == GroupBy(Sized(root, files))
  {
    sizeMap := map[];
    for i := 0 to |files|
      invariant sizeMap == GroupBy(Sized(root, files[..i]))
    {
      assert files[..i + 1] == files[..i] + [files[i]];
      SizedSnoc(root, files[..i], files[i]);
      match Metadata(root, files[i])
      case Some(size) =>
        GroupByPush(Sized(root, files[..i]), size, files[i]);
        sizeMap := Push(sizeMap, size, files[i]);
      case None =>
        assert Sized(root, files[..i + 1]) == Sized(root, files[..i]);
    }
    assert files[..|files|] == files;
  }

  /** Regroup a bucket's hashed files by digest. */
  method GroupByDigest(hashes: seq<(Digest, Path)>) returns (groupMap: map<Digest, seq<Path>>)
    ensures groupMap == GroupBy(hashes)
  {
    groupMap := map[];
    for i := 0 to |hashes|
      invariant groupMap == GroupBy(hashes[..i])
    {
      assert hashes[..i + 1] == hashes[..i] + [hashes[i]];
      GroupByPush(hashes[..i], hashes[i].0, hashes[i].1);
      groupMap := Push(groupMap, hashes[i].0, hashes[i].1);
    }
    assert hashes[..|hashes|] == hashes;
  }

  /**
   * Insert every digest group with more than one member into the result, in
   * any order; an insert replaces what the key held before.
   */
  method InsertMultiples(dups: map<Digest, seq<Path>>, groupMap: map<Digest, seq<Path>>)
    returns (merged: map<Digest, seq<Path>>)
    ensures merged == dups + Multiples(groupMap)
  {
    merged := dups;
    var remaining := groupMap.Keys;
    while remaining != {}
      invariant remaining <= groupMap.Keys
      invariant forall k :: k in merged <==>
        k in dups || (k in groupMap && k !in remaining && |groupMap[k]| > 1)
      invariant forall k :: k in merged ==>
        merged[k] == if k in groupMap && k !in remaining && |groupMap[k]| > 1 then groupMap[k] else dups[k]
      decreases remaining
    {
      var k :| k in remaining;
      remaining := remaining - {k};
      if |groupMap[k]| > 1 {
        merged := merged[k := groupMap[k]];
      }
    }
  }

  /**
   * `find_duplicates`. Every returned group is sound: two or more listed
   * files sharing the group's digest and one reported size, and with an
   * injective hash, byte for byte the same content. When no digest spans two
   * sizes (as with an injective hash over an unchanging snapshot) the result
   * is exactly the reference answer, whatever order the maps are walked in and
   * whichever hashing strategy `singleThreaded` picks. In a well-formed tree
   * no group lists a path twice. The files touched for hashing (`hashed`) are
   * exactly the listed files whose reported size another listed file shares:
   * a file alone in its size bucket is never read.
   */
  method FindDuplicates(root: Node, maxDepth: nat, includeHidden: bool, singleThreaded: bool,
                        hash: seq<byte> -> Digest)
    returns (dups: map<Digest, seq<Path>>, ghost hashed: set<Path>)
    ensures Sound(root, Listing(root, maxDepth, includeHidden), hash, dups)
    ensures Injective(hash) ==> forall k, p, q :: k in dups && p in dups[k] && q in dups[k] ==>
      ReadFile(root, p).Some? && ReadFile(root, p) == ReadFile(root, q)
    ensures NoSizeCollision(root, Listing(root, maxDepth, includeHidden), hash) ==>
      dups == NaiveGroups(root, Listing(root, maxDepth, includeHidden), hash)
    ensures WellFormed(root) ==> forall k :: k in dups ==> Distinct(dups[k])
    ensures root.Dir? && root.children == [] ==> dups == map[]
    ensures forall p :: p in hashed <==> SharesSize(root, Listing(root, maxDepth, includeHidden), p)
    ensures forall k, p :: k in dups && p in dups[k] ==> p in hashed
  {
    var files := ListDir(root, maxDepth, includeHidden);
    var sizeMap := BucketBySize(root, files);
    dups := map[];
    hashed := {};
    var pending := sizeMap.Keys;
    AgreesInitially(root, files, hash);
    ScreenedInitially(root, files);
    while pending != {}
      invariant pending <= sizeMap.Keys
      invariant Progress(root, files, hash, dups, hashed, pending)
      decreases pending
    {
      var size :| size in pending;
      var bucket := sizeMap[size];
      if |bucket| > 1 {
        var hashes;
        ghost var touched;
        if singleThreaded {
          hashes, touched := HashSequential(root, bucket, hash);
        } else {
          hashes, touched := HashParallel(root, bucket, hash);
        }
        ProgressStep(root, files, hash, dups, hashed, pending, size, touched);
        var groupMap := GroupByDigest(hashes);
        dups := InsertMultiples(dups, groupMap);
        hashed := hashed + touched;
      } else {
        ProgressStep(root, files, hash, dups, hashed, pending, size, {});
      }
      pending := pending - {size};
    }
    if NoSizeCollision(root, files, hash) {
      AgreesFinal(root, files, hash, dups);
    }
    if Injective(hash) {
      SoundSameContent(root, files, hash, dups);
    }
    if files == [] {
      SoundOverNothing(root, hash, dups);
    }
  }
}
