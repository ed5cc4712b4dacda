/**
 * An abstract filesystem snapshot as the duplicate finder sees it.
 *
 * A directory tree is a value. A regular file records, besides its name, what
 * each query the scan makes about it observes: the size `stat` reports, whether
 * `open` succeeds, and the results of the successive `read` calls. A file that
 * changes between the listing, the size pass and the hash pass is therefore
 * just a file whose observations disagree with one another.
 */
module FileSystem {

  datatype Option<T> = None | Some(value: T)

  newtype byte = b: int | 0 <= b < 0x100

  /** Unsigned 64-bit byte count, as `metadata.len()` reports it. */
  type u64 = n: nat | n < 0x1_0000_0000_0000_0000

  /** Length of the read buffer of the hashing loop. */
  const ChunkSize: nat := 8192

  /** What one `read` into that buffer can deliver: never more than the buffer holds. */
  type Chunk = s: seq<byte> | |s| <= ChunkSize witness []

  /** One `read` call: `Bytes([])` is end of file, `ReadError` a failed read. */
  datatype ReadResult = Bytes(data: Chunk) | ReadError

  /** A directory entry's base name; `NonUtf8` names fail `to_str`. */
  datatype Name = Utf8(text: string) | NonUtf8(raw: seq<byte>)

  /** A path below the root, as its sequence of components (the root itself is `[]`). */
  type Path = seq<Name>

  datatype Node =
    | File(name: Name, size: Option<u64>, opens: bool, stream: seq<ReadResult>)
    | Dir(name: Name, children: seq<Node>, readable: bool)
    | Other(name: Name)   // symlink, socket, device: neither a regular file nor a directory

  /** No element occurs twice. */
  predicate Distinct<T(==)>(s: seq<T>) {
    forall i, j :: 0 <= i < j < |s| ==> s[i] != s[j]
  }

  lemma DistinctConcat<T>(a: seq<T>, b: seq<T>)
    requires Distinct(a) && Distinct(b)
    requires forall x :: x in a ==> x !in b
    ensures Distinct(a + b)
  {
    forall i, j | 0 <= i < j < |a + b| ensures (a + b)[i] != (a + b)[j] {
      if j < |a| {
      } else if i >= |a| {
        assert (a + b)[i] == b[i - |a|] && (a + b)[j] == b[j - |a|];
      } else {
        assert (a + b)[i] in a && (a + b)[j] in b;
      }
    }
  }

  /** Entry names within one directory are distinct, in every directory of the tree. */
  ghost predicate WellFormed(d: Node)
    decreases d
  {
    d.Dir? ==>
      && (forall i, j :: 0 <= i < j < |d.children| ==> d.children[i].name != d.children[j].name)
      && (forall i :: 0 <= i < |d.children| ==> WellFormed(d.children[i]))
  }

  /** Index of the first entry called `n`, the way a name resolves in a directory. */
  function FindChild(entries: seq<Node>, n: Name): (r: Option<nat>)
    ensures r.Some? ==> r.value < |entries| && entries[r.value].name == n
    ensures r.Some? ==> forall i :: 0 <= i < r.value ==> entries[i].name != n
    ensures r.None? ==> forall i :: 0 <= i < |entries| ==> entries[i].name != n
  {
    if entries == [] then None
    else if entries[0].name == n then Some(0)
    else match FindChild(entries[1..], n)
      case None => None
      case Some(i) => Some(i + 1)
  }

  /** Resolves a path below directory `d`. */
  function Lookup(d: Node, p: Path): Option<Node>
    decreases |p|
  {
    if p == [] then Some(d)
    else if !d.Dir? then None
    else match FindChild(d.children, p[0])
      case None => None
      case Some(i) => Lookup(d.children[i], p[1..])
  }

  /** `fs::metadata(p).len()`: the size `stat` reports, or `None` when it fails. */
  function Metadata(root: Node, p: Path): Option<u64>
  {
    match Lookup(root, p)
    case Some(File(_, size, _, _)) => size
    case _ => None
  }

  /** `fs::File::open(p)`: the stream of results its reads will deliver, or `None` when it fails. */
  function Open(root: Node, p: Path): Option<seq<ReadResult>>
  {
    match Lookup(root, p)
    case Some(File(_, _, opens, stream)) => if opens then Some(stream) else None
    case _ => None
  }

  /**
   * The bytes a reader collects by reading until end of file, or `None` when a
   * read fails before end of file.
   */
  function StreamBytes(stream: seq<ReadResult>): Option<seq<byte>>
  {
    if stream == [] then Some([])
    else match stream[0]
      case ReadError => None
      case Bytes(d) =>
        if d == [] then Some([])
        else match StreamBytes(stream[1..])
          case None => None
          case Some(rest) => Some(d + rest)
  }

  /** Everything a complete read of the file at `p` yields, or `None` when opening or reading fails. */
  function ReadFile(root: Node, p: Path): Option<seq<byte>>
  {
    match Open(root, p)
    case None => None
    case Some(stream) => StreamBytes(stream)
  }

  /** The snapshot did not change under the scan: a size that `stat` reports matches the bytes a read delivers. */
  ghost predicate Consistent(root: Node)
  {
    forall p :: Metadata(root, p).Some? && ReadFile(root, p).Some? ==>
      Metadata(root, p).value == |ReadFile(root, p).value|
  }

  /** The result of the `cursor`-th read of a stream: once the stream is used up, end of file. */
  function NthRead(stream: seq<ReadResult>, cursor: nat): ReadResult
  {
    if cursor < |stream| then stream[cursor] else Bytes([])
  }

  datatype IoResult = Filled(n: nat) | IoError

  /**
   * `f.read(&mut buf)`, the only I/O inside the hashing loop: the `cursor`-th
   * read copies its chunk to the front of `buf` and reports its length.
   */
  method Read(stream: seq<ReadResult>, cursor: nat, buf: array<byte>) returns (r: IoResult)
    requires buf.Length == ChunkSize
    modifies buf
    ensures NthRead(stream, cursor).ReadError? ==> r == IoError
    ensures NthRead(stream, cursor).Bytes? ==>
      && r == Filled(|NthRead(stream, cursor).data|)
      && buf[..r.n] == NthRead(stream, cursor).data
  {
    match NthRead(stream, cursor)
    case ReadError =>
      r := IoError;
    case Bytes(d) =>
      forall i | 0 <= i < |d| {
        buf[i] := d[i];
      }
      r := Filled(|d|);
  }
}
