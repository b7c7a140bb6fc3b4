/**
 * The container body: a sealed manifest followed by the sealed chunks of every file, and its
 * extraction into a directory. Paths are relative to the directory that is locked or restored.
 */
module Container {
  import opened Bytes
  import opened Entries
  import opened Paths
  import opened Crypto
  import opened Frames
  import opened Lockout

  datatype Node = DirNode | FileNode(data: bytes, readonly: bool)

  type FileTree = map<Path, Node>

  /** The associated data of the payload chunk with this number; the source counts in u64. */
  function ChunkAad(uuid: bytes, i: nat): bytes {
    Aad(uuid, WrapU64(i))
  }

  // ----- writing -----

  /** A file's plaintext in chunks; only the last may be short. */
  function ChunksOf(data: bytes): seq<bytes> {
    if data == [] then []
    else if |data| <= CHUNK_SIZE then [data]
    else [data[..CHUNK_SIZE]] + ChunksOf(data[CHUNK_SIZE..])
  }

  /** ceil(size / CHUNK_SIZE) */
  function ChunkCount(size: nat): nat {
    (size + CHUNK_SIZE - 1) / CHUNK_SIZE
  }

  lemma {:induction false} ChunksOfCount(data: bytes)
    ensures |ChunksOf(data)| == ChunkCount(|data|)
  {
    if |data| <= CHUNK_SIZE {
    } else {
      ChunksOfCount(data[CHUNK_SIZE..]);
    }
  }

  /** The nonces the writer draws: one for the manifest, one for each chunk. */
  datatype Nonces = Nonces(manifest: bytes, chunk: nat -> bytes) {
    ghost predicate Valid() {
      |manifest| == NONCE_LEN && forall i :: |chunk(i)| == NONCE_LEN
    }
  }

  function SealedChunk(c: Primitives, dk: bytes, uuid: bytes, r: Nonces, i: nat, plain: bytes): Frame {
    Frame(r.chunk(i), c.seal(dk, r.chunk(i), ChunkAad(uuid, i), plain))
  }

  /** The framed chunks, numbered from `first` on. */
  function Payload(c: Primitives, dk: bytes, uuid: bytes, r: Nonces, chunks: seq<bytes>, first: nat): bytes
    decreases |chunks|
  {
    if chunks == [] then []
    else FrameBytes(SealedChunk(c, dk, uuid, r, first, chunks[0])) + Payload(c, dk, uuid, r, chunks[1..], first + 1)
  }

  /** The contents the source files show when they are read, by path. */
  type Source = map<Path, bytes>

  /** Can this file entry be read as scanned: a path the writer accepts, still there, same size? */
  predicate Faithful(e: Entry, source: Source) {
    Target(e).Ok? && Target(e).value in source && |source[Target(e).value]| == e.size
  }

  predicate AllFaithful(entries: seq<Entry>, source: Source) {
    entries == []
    || ((entries[0].isDir || Faithful(entries[0], source)) && AllFaithful(entries[1..], source))
  }

  function DataOf(e: Entry, source: Source): bytes
    requires Faithful(e, source)
  {
    source[Target(e).value]
  }

  /** The chunks of all files, in manifest order. */
  function AllChunks(entries: seq<Entry>, source: Source): seq<bytes>
    requires AllFaithful(entries, source)
  {
    if entries == [] then []
    else (if entries[0].isDir then [] else ChunksOf(DataOf(entries[0], source))) + AllChunks(entries[1..], source)
  }

  /** Everything after the header. */
  function Body(c: Primitives, dk: bytes, uuid: bytes, r: Nonces, entries: seq<Entry>, source: Source): bytes
    requires AllFaithful(entries, source)
  {
    ManifestFrame(c, dk, uuid, r, entries) + Payload(c, dk, uuid, r, AllChunks(entries, source), 0)
  }

  function ManifestFrame(c: Primitives, dk: bytes, uuid: bytes, r: Nonces, entries: seq<Entry>): bytes {
    FrameBytes(Frame(r.manifest, c.seal(dk, r.manifest, Aad(uuid, MANIFEST_SEQ), c.serialize(entries))))
  }

  // ----- reading -----

  datatype FileRead = FileRead(data: bytes, rest: bytes, next: nat)

  /** The `remaining` bytes of a file, chunk by chunk, from chunk number i on. */
  function ReadFile(c: Primitives, dk: bytes, uuid: bytes, s: bytes, i: nat, remaining: nat): Result<FileRead>
    decreases remaining
  {
    if remaining == 0 then Ok(FileRead([], s, i))
    else
      var wanted := if remaining < CHUNK_SIZE then remaining else CHUNK_SIZE;
      match ParseFrame(s, MAX_CHUNK_BLOB)
      case Failed(e) => Err(e)
      case Parsed(f, rest) =>
        match c.open(dk, f.nonce, ChunkAad(uuid, i), f.blob)
        case None => Err(Tampered)
        case Some(plain) =>
          if |plain| != wanted then Err(Tampered)
          else
            match ReadFile(c, dk, uuid, rest, i + 1, remaining - wanted)
            case Err(e) => Err(e)
            case Ok(r) => Ok(FileRead(plain + r.data, r.rest, r.next))
  }

  /** `create_dir_all` */
  function MakeDirs(t: FileTree, p: Path): Result<FileTree> {
    if p == [] then Ok(t)
    else if p in t then (if t[p].DirNode? then Ok(t) else Err(Io))
    else
      match MakeDirs(t, p[..|p| - 1])
      case Err(e) => Err(e)
      case Ok(t1) => Ok(t1[p := DirNode])
  }

  /** `File::create`: a directory or a read-only file is in the way. */
  predicate CanCreate(t: FileTree, p: Path) {
    p != [] && (p in t ==> t[p].FileNode? && !t[p].readonly)
  }

  datatype Placed = Placed(path: Path, tree: FileTree)

  /** The path below the restored directory that an entry names. */
  function Target(e: Entry): Result<Path> {
    Joined([], e.relPath)
  }

  /** The entry's path, once all directories it needs exist; a file's place must also be free. */
  function Place(e: Entry, t: FileTree): Result<Placed> {
    match Target(e)
    case Err(x) => Err(x)
    case Ok(p) =>
      match MakeDirs(t, if e.isDir || p == [] then p else p[..|p| - 1])
      case Err(x) => Err(x)
      case Ok(t1) => if e.isDir || CanCreate(t1, p) then Ok(Placed(p, t1)) else Err(Io)
  }

  function Extract(c: Primitives, dk: bytes, uuid: bytes, entries: seq<Entry>, t: FileTree, s: bytes, i: nat): Result<FileTree>
    decreases |entries|
  {
    if entries == [] then Ok(t)
    else
      var e := entries[0];
      match Place(e, t)
      case Err(x) => Err(x)
      case Ok(at) =>
        if e.isDir then Extract(c, dk, uuid, entries[1..], at.tree, s, i)
        else
          match ReadFile(c, dk, uuid, s, i, e.size)
          case Err(x) => Err(x)
          case Ok(r) =>
            Extract(c, dk, uuid, entries[1..], at.tree[at.path := FileNode(r.data, e.readonly)], r.rest, r.next)
  }

  /** Unlocking, once the data key is known: the tree the body restores. */
  function Unlocked(c: Primitives, dk: bytes, uuid: bytes, entryCount: u64, body: bytes): Result<FileTree> {
    match ParseFrame(body, MAX_MANIFEST_LEN)
    case Failed(e) => Err(e)
    case Parsed(f, rest) =>
      match c.open(dk, f.nonce, Aad(uuid, MANIFEST_SEQ), f.blob)
      case None => Err(Tampered)
      case Some(manifest) =>
        match c.deserialize(manifest)
        case None => Err(Tampered)
        case Some(entries) =>
          if |entries| != entryCount then Err(Tampered)
          else Extract(c, dk, uuid, entries, map[], rest, 0)
  }

  /** What the entries restore when each file's contents are simply known: no cipher, no stream. */
  function Restored(entries: seq<Entry>, source: Source, t: FileTree): Result<FileTree>
    requires AllFaithful(entries, source)
    decreases |entries|
  {
    if entries == [] then Ok(t)
    else
      var e := entries[0];
      match Place(e, t)
      case Err(x) => Err(x)
      case Ok(at) =>
        if e.isDir then Restored(entries[1..], source, at.tree)
        else Restored(entries[1..], source, at.tree[at.path := FileNode(DataOf(e, source), e.readonly)])
  }

  // ----- what reading refuses -----

  /** A manifest that does not open, does not parse or has another length than announced is tampered
      with. */
  lemma BadManifestIsTampered(c: Primitives, dk: bytes, uuid: bytes, entryCount: u64, body: bytes)
    requires ParseFrame(body, 268435456).Parsed?
    requires var f := ParseFrame(body, 268435456).frame;
             var o := c.open(dk, f.nonce, uuid + LE(U64_MAX, 8), f.blob);
             o == None || c.deserialize(o.value) == None || |c.deserialize(o.value).value| != entryCount
    ensures Unlocked(c, dk, uuid, entryCount, body) == Err(Tampered)
  {
    hide ParseFrame, Extract;
  }

  /** So is the next chunk of a file if it does not open under its number or to the length it should
      have: a megabyte, or what is left of the file. */
  lemma BadChunkIsTampered(c: Primitives, dk: bytes, uuid: bytes, s: bytes, i: u64, remaining: nat)
    requires remaining > 0 && ParseFrame(s, 1048592).Parsed?
    requires var f := ParseFrame(s, 1048592).frame;
             var o := c.open(dk, f.nonce, uuid + LE(i, 8), f.blob);
             o == None || |o.value| != (if remaining < 1048576 then remaining else 1048576)
    ensures ReadFile(c, dk, uuid, s, i, remaining) == Err(Tampered)
  {
    hide ParseFrame, LE;
  }

  /** A stream that ends too early is an input error. */
  lemma ShortStreamIsIo(c: Primitives, dk: bytes, uuid: bytes, s: bytes, i: nat, remaining: nat)
    requires remaining > 0 && |s| < 16
    ensures ReadFile(c, dk, uuid, s, i, remaining) == Err(Io)
  {
  }

  // ----- what extraction creates -----

  /** Every node lies in a directory. */
  predicate Rooted(t: FileTree) {
    forall p :: p in t && |p| > 1 ==> p[..|p| - 1] in t && t[p[..|p| - 1]].DirNode?
  }

  /** Nothing on the way to this path is a file. */
  predicate WayFree(t: FileTree, p: Path) {
    forall k :: 0 < k <= |p| && p[..k] in t ==> t[p[..k]].DirNode?
  }

  lemma {:induction false} RootedWay(t: FileTree, p: Path, k: nat)
    requires Rooted(t) && p in t && 0 < k < |p|
    ensures p[..k] in t && t[p[..k]].DirNode?
    decreases |p|
  {
    var q := p[..|p| - 1];
    assert q in t && t[q].DirNode?;
    if k < |q| {
      RootedWay(t, q, k);
      assert q[..k] == p[..k];
    } else {
      assert q == p[..k];
    }
  }

  /** Is q the path or one above it? */
  predicate OnTheWay(q: Path, p: Path) {
    q != [] && q <= p
  }

  /** `create_dir_all` works exactly when no file is in the way. Then the path and all above it are
      directories, and nothing else has changed. */
  lemma {:induction false} MakeDirsExactly(t: FileTree, p: Path)
    requires Rooted(t)
    ensures MakeDirs(t, p).Ok? <==> WayFree(t, p)
    ensures MakeDirs(t, p).Err? ==> MakeDirs(t, p).error == Io
    ensures MakeDirs(t, p).Ok? ==>
              var t' := MakeDirs(t, p).value;
              && Rooted(t')
              && (forall q :: q in t' <==> q in t || OnTheWay(q, p))
              && (forall q :: q in t' ==> t'[q] == if q in t then t[q] else DirNode)
    decreases |p|
  {
    if p == [] {
    } else if p in t {
      WayOfKnown(t, p);
    } else {
      var q := p[..|p| - 1];
      MakeDirsExactly(t, q);
      WayStep(t, p);
      if MakeDirs(t, q).Ok? {
        AddedDir(t, MakeDirs(t, q).value, p);
      }
    }
  }

  lemma WayOfKnown(t: FileTree, p: Path)
    requires Rooted(t) && p in t && p != []
    ensures WayFree(t, p) <==> t[p].DirNode?
    ensures forall q :: OnTheWay(q, p) ==> q in t
  {
    assert p[..|p|] == p;
    forall k | 0 < k < |p| ensures p[..k] in t && t[p[..k]].DirNode? {
      RootedWay(t, p, k);
    }
    forall q | OnTheWay(q, p) ensures q in t {
      assert q == p[..|q|];
    }
  }

  lemma WayStep(t: FileTree, p: Path)
    requires p != [] && p !in t
    ensures WayFree(t, p) <==> WayFree(t, p[..|p| - 1])
  {
    var q := p[..|p| - 1];
    assert p[..|p|] == p;
    forall k | 0 < k <= |q| ensures q[..k] == p[..k] {
    }
  }

  /** A node may be added below a directory, or put in a file's place. */
  lemma AddNode(t: FileTree, p: Path, n: Node)
    requires Rooted(t) && p != [] && (p in t ==> t[p].FileNode?)
    requires |p| > 1 ==> p[..|p| - 1] in t && t[p[..|p| - 1]].DirNode?
    ensures Rooted(t[p := n])
  {
    var t' := t[p := n];
    forall q | q in t' && |q| > 1 ensures q[..|q| - 1] in t' && t'[q[..|q| - 1]].DirNode? {
      if q != p {
        assert q in t;
      }
    }
  }

  lemma WayOfChild(p: Path, q: Path)
    requires p != []
    ensures OnTheWay(q, p) <==> q == p || OnTheWay(q, p[..|p| - 1])
  {
    if OnTheWay(q, p) && q != p {
      assert q == p[..|q|] == p[..|p| - 1][..|q|];
    }
  }

  lemma AddedDir(t: FileTree, t1: FileTree, p: Path)
    requires p != [] && p !in t && Rooted(t1)
    requires forall q :: q in t1 <==> q in t || OnTheWay(q, p[..|p| - 1])
    requires forall q :: q in t1 ==> t1[q] == if q in t then t[q] else DirNode
    requires WayFree(t, p[..|p| - 1])
    ensures Rooted(t1[p := DirNode])
    ensures forall q :: q in t1[p := DirNode] <==> q in t || OnTheWay(q, p)
    ensures forall q :: q in t1[p := DirNode] ==> t1[p := DirNode][q] == if q in t then t[q] else DirNode
  {
    hide Rooted, WayFree, OnTheWay;
    var up := p[..|p| - 1];
    forall q ensures OnTheWay(q, p) <==> q == p || OnTheWay(q, up) {
      WayOfChild(p, q);
    }
    if |p| > 1 {
      OwnWay(t, up);
    }
    NotAbove(p);
    AddNode(t1, p, DirNode);
  }

  lemma NotAbove(p: Path)
    requires p != []
    ensures !OnTheWay(p, p[..|p| - 1])
  {
  }

  lemma OwnWay(t: FileTree, p: Path)
    requires p != [] && WayFree(t, p)
    ensures OnTheWay(p, p) && (p in t ==> t[p].DirNode?)
  {
    assert p[..|p|] == p;
  }

  /** An entry can be placed exactly when its path is accepted, no file is in the way of it and, for a
      file, no directory and no read-only file is at its place. */
  lemma PlaceExactly(e: Entry, t: FileTree)
    requires Rooted(t)
    ensures Place(e, t).Ok? <==>
              && Target(e).Ok?
              && var p := Target(e).value;
                 if e.isDir || p == [] then e.isDir && WayFree(t, p)
                 else WayFree(t, p[..|p| - 1]) && (p in t ==> t[p].FileNode? && !t[p].readonly)
    ensures Target(e).Err? ==> Place(e, t) == Err(Target(e).error)
    ensures Target(e).Ok? && Place(e, t).Err? ==> Place(e, t) == Err(Io)
  {
    hide Target, MakeDirs, WayFree;
    if Target(e).Ok? {
      var p := Target(e).value;
      var up := if e.isDir || p == [] then p else p[..|p| - 1];
      MakeDirsExactly(t, up);
      if !e.isDir && p != [] {
        assert !OnTheWay(p, up);
      }
    }
  }

  /** Placing an entry keeps every node in a directory, its own file included. */
  lemma PlaceKeepsRooted(e: Entry, t: FileTree, n: Node)
    requires Rooted(t) && Place(e, t).Ok?
    ensures var at := Place(e, t).value;
            Rooted(at.tree) && (!e.isDir ==> Rooted(at.tree[at.path := n]))
  {
    hide Target, MakeDirs, WayFree, Rooted, OnTheWay;
    var p := Target(e).value;
    var up := if e.isDir || p == [] then p else p[..|p| - 1];
    MakeDirsExactly(t, up);
    if !e.isDir {
      if |p| > 1 {
        OwnWay(t, up);
      }
      AddNode(MakeDirs(t, up).value, p, n);
    }
  }

  /** So whatever a stream makes of any manifest, what is extracted is a proper tree. */
  lemma {:induction false} ExtractedIsRooted(c: Primitives, dk: bytes, uuid: bytes, entries: seq<Entry>, t: FileTree, s: bytes, i: nat)
    requires Rooted(t) && Extract(c, dk, uuid, entries, t, s, i).Ok?
    ensures Rooted(Extract(c, dk, uuid, entries, t, s, i).value)
    decreases |entries|
  {
    hide Target, Place, ReadFile, Rooted;
    if entries == [] {
    } else {
      var e, at := entries[0], Place(entries[0], t).value;
      if e.isDir {
        PlaceKeepsRooted(e, t, DirNode);
        ExtractedIsRooted(c, dk, uuid, entries[1..], at.tree, s, i);
      } else {
        var r := ReadFile(c, dk, uuid, s, i, e.size).value;
        PlaceKeepsRooted(e, t, FileNode(r.data, e.readonly));
        ExtractedIsRooted(c, dk, uuid, entries[1..], at.tree[at.path := FileNode(r.data, e.readonly)], r.rest, r.next);
      }
    }
  }
}
