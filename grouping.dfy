/**
 * Grouping paths by a key, the way `map.entry(key).or_default().push(path)`
 * fills a `HashMap<K, Vec<PathBuf>>` from a sequence of (key, path) pairs.
 */
module Grouping {
  import opened FileSystem

  /** The paths paired with `k`, in the order of `xs`. */
  function Keyed<K(==)>(xs: seq<(K, Path)>, k: K): (r: seq<Path>)
  {
    if xs == [] then []
    else Keyed(xs[..|xs| - 1], k) + (if xs[|xs| - 1].0 == k then [xs[|xs| - 1].1] else [])
  }

  /** The keys that occur in `xs`. */
  function KeysOf<K(==)>(xs: seq<(K, Path)>): set<K>
  {
    set x | x in xs :: x.0
  }

  /** The map the push loop builds from `xs`: every key of `xs` to its paths, in order. */
  function GroupBy<K(==)>(xs: seq<(K, Path)>): map<K, seq<Path>>
  {
    map k | k in KeysOf(xs) :: Keyed(xs, k)
  }

  /** `m.entry(k).or_default().push(v)`. */
  function Push<K(==)>(m: map<K, seq<Path>>, k: K, v: Path): map<K, seq<Path>>
  {
    m[k := (if k in m then m[k] else []) + [v]]
  }

  /** The groups with more than one member, the only ones the detector keeps. */
  function Multiples<K(==)>(g: map<K, seq<Path>>): map<K, seq<Path>>
  {
    map k | k in g && |g[k]| > 1 :: g[k]
  }

  /** Pairs that carry their own paths once: no path is paired twice. */
  predicate UniquePaths<K>(xs: seq<(K, Path)>) {
    forall i, j :: 0 <= i < j < |xs| ==> xs[i].1 != xs[j].1
  }

  /** A pair whose path is new keeps the paths unrepeated. */
  lemma UniqueSnoc<K>(xs: seq<(K, Path)>, x: (K, Path))
    requires UniquePaths(xs)
    requires forall y :: y in xs ==> y.1 != x.1
    ensures UniquePaths(xs + [x])
  {
    forall i, j | 0 <= i < j < |xs + [x]| ensures (xs + [x])[i].1 != (xs + [x])[j].1 {
      if j == |xs| {
        assert xs[i] in xs;
      }
    }
  }

  lemma KeyedSnoc<K>(xs: seq<(K, Path)>, x: (K, Path), k: K)
    ensures Keyed(xs + [x], k) == Keyed(xs, k) + (if x.0 == k then [x.1] else [])
  {
    assert (xs + [x])[..|xs|] == xs;
  }

  /** A path is in the group of `k` exactly when `xs` pairs it with `k`. */
  lemma {:induction false} KeyedMember<K>(xs: seq<(K, Path)>, k: K, v: Path)
    ensures v in Keyed(xs, k) <==> (k, v) in xs
  {
    if xs != [] {
      var init, x := xs[..|xs| - 1], xs[|xs| - 1];
      assert xs == init + [x];
      KeyedMember(init, k, v);
    }
  }

  /** A key occurs in `xs` exactly when its group is not empty. */
  lemma KeysOfKeyed<K>(xs: seq<(K, Path)>, k: K)
    ensures k in KeysOf(xs) <==> |Keyed(xs, k)| > 0
  {
    if k in KeysOf(xs) {
      var x :| x in xs && x.0 == k;
      KeyedMember(xs, k, x.1);
    }
    if |Keyed(xs, k)| > 0 {
      KeyedMember(xs, k, Keyed(xs, k)[0]);
    }
  }

  /** Pushing a pair onto the sequence pushes its path onto the group of its key. */
  lemma GroupByPush<K>(xs: seq<(K, Path)>, k: K, v: Path)
    ensures GroupBy(xs + [(k, v)]) == Push(GroupBy(xs), k, v)
  {
    var ys := xs + [(k, v)];
    assert KeysOf(ys) == KeysOf(xs) + {k} by {
      forall j | j in KeysOf(ys) ensures j in KeysOf(xs) + {k} {
        var x :| x in ys && x.0 == j;
        if x != (k, v) { assert x in xs; }
      }
      assert (k, v) in ys;
    }
    forall j | j in KeysOf(ys) ensures GroupBy(ys)[j] == Push(GroupBy(xs), k, v)[j] {
      KeyedSnoc(xs, (k, v), j);
      KeysOfKeyed(xs, j);
    }
  }

  /** Grouping keeps every path of a pair-sequence without repeats free of repeats. */
  lemma {:induction false} KeyedDistinct<K>(xs: seq<(K, Path)>, k: K)
    requires UniquePaths(xs)
    ensures Distinct(Keyed(xs, k))
  {
    if xs != [] {
      var init, x := xs[..|xs| - 1], xs[|xs| - 1];
      assert xs == init + [x];
      KeyedDistinct(init, k);
      KeyedSnoc(init, x, k);
      if x.0 == k {
        forall v | v in Keyed(init, k) ensures v != x.1 {
          KeyedMember(init, k, v);
          var i :| 0 <= i < |init| && init[i] == (k, v);
          assert xs[i] == init[i];
        }
        DistinctConcat(Keyed(init, k), [x.1]);
      }
    }
  }
}
