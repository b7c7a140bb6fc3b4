/** The loops of format.rs that write, read and check a container body. */
module ContainerIO {
  import opened Bytes
  import opened Entries
  import opened Paths
  import opened Crypto
  import opened Frames
  import opened Container
  import opened ContainerProofs

  /** A buffered reader: what is left of the file. */
  class Reader {
    var rest: bytes

    constructor (s: bytes)
      ensures rest == s
    {
      rest := s;
    }

    method ReadExact(n: nat) returns (r: Result<bytes>)
      modifies this
      ensures r == if |old(rest)| < n then Err(Io) else Ok(old(rest)[..n])
      ensures r.Ok? ==> rest == old(rest)[n..]
    {
      if |rest| < n {
        rest := [];
        return Err(Io);
      }
      r := Ok(rest[..n]);
      rest := rest[n..];
    }

    method ReadFrameInto(maxLen: nat) returns (r: Result<Frame>)
      modifies this
      ensures match ParseFrame(old(rest), maxLen)
              case Parsed(f, s) => r == Ok(f) && rest == s
              case Failed(e) => r == Err(e)
    {
      ghost var s := rest;
      var nonce := ReadExact(NONCE_LEN);
      if nonce.Err? {
        return Err(Io);
      }
      var lenBytes := ReadExact(4);
      if lenBytes.Err? {
        return Err(Io);
      }
      assert lenBytes.value == s[12..16];
      var len := ReadU32(lenBytes.value);
      if len < TAG_LEN || len > maxLen {
        return Err(Tampered);
      }
      var blob := ReadExact(len);
      if blob.Err? {
        return Err(Io);
      }
      assert blob.value == s[16..16 + len] && rest == s[16 + len..];
      return Ok(Frame(nonce.value, blob.value));
    }

    /** The structural walk after the manifest: a one-byte probe tells the end of the file. */
    method CountToEnd() returns (r: Result<nat>)
      modifies this
      ensures r == CountFrames(old(rest))
    {
      hide FromLE;
      ghost var s := rest;
      var frames := 0;
      while true
        invariant CountFrames(s) == match CountFrames(rest)
                                    case Err(e) => Err(e)
                                    case Ok(n) => Ok(frames + n)
        decreases |rest|
      {
        var s0 := rest;
        var probe := ReadExact(if |rest| == 0 then 0 else 1);
        if s0 == [] {
          return Ok(frames);
        }
        var tail := ReadExact(NONCE_LEN - 1);
        if tail.Err? {
          return Err(Io);
        }
        var lenBytes := ReadExact(4);
        if lenBytes.Err? {
          return Err(Io);
        }
        assert lenBytes.value == s0[12..16];
        var len := ReadU32(lenBytes.value);
        if len < TAG_LEN || len > MAX_CHUNK_BLOB {
          return Err(Tampered);
        }
        var skipped := ReadExact(len);
        if skipped.Err? {
          return Err(Tampered);
        }
        assert rest == s0[16 + len..];
        frames := frames + 1;
      }
    }

    /** One file's chunks. */
    method ReadChunks(c: Primitives, dk: bytes, uuid: bytes, seq0: nat, size: nat)
      returns (r: Result<bytes>, seq1: nat)
      modifies this
      ensures match ReadFile(c, dk, uuid, old(rest), seq0, size)
              case Err(e) => r == Err(e)
              case Ok(f) => r == Ok(f.data) && rest == f.rest && seq1 == f.next
    {
      var remaining: nat := size;
      var data: bytes := [];
      seq1 := seq0;
      assert forall d: bytes :: [] + d == d;
      while remaining > 0
        invariant ReadFile(c, dk, uuid, old(rest), seq0, size)
                  == match ReadFile(c, dk, uuid, rest, seq1, remaining)
                     case Err(e) => Err(e)
                     case Ok(f) => Ok(FileRead(data + f.data, f.rest, f.next))
      {
        var wanted := if remaining < CHUNK_SIZE then remaining else CHUNK_SIZE;
        var frame := ReadFrameInto(MAX_CHUNK_BLOB);
        if frame.Err? {
          return Err(frame.error), seq1;
        }
        var plain := c.open(dk, frame.value.nonce, ChunkAad(uuid, seq1), frame.value.blob);
        if plain.None? {
          return Err(Tampered), seq1;
        }
        seq1 := seq1 + 1;
        if |plain.value| != wanted {
          return Err(Tampered), seq1;
        }
        ghost var before := data;
        data := data + plain.value;
        remaining := remaining - wanted;
        assert forall d: bytes :: before + (plain.value + d) == data + d;
      }
      assert data + [] == data;
      r := Ok(data);
    }
  }

  method ExtractEntries(c: Primitives, dk: bytes, uuid: bytes, r: Reader, entries: seq<Entry>)
    returns (t: Result<FileTree>)
    modifies r
    ensures t == Extract(c, dk, uuid, entries, map[], old(r.rest), 0)
  {
    var tree: FileTree := map[];
    var i, next := 0, 0;
    while i < |entries|
      invariant 0 <= i <= |entries|
      invariant Extract(c, dk, uuid, entries, map[], old(r.rest), 0)
                == Extract(c, dk, uuid, entries[i..], tree, r.rest, next)
    {
      var e := entries[i];
      assert entries[i..][1..] == entries[i + 1..];
      var at := Place(e, tree);
      if at.Err? {
        return Err(at.error);
      }
      if e.isDir {
        tree := at.value.tree;
      } else {
        var data, after := r.ReadChunks(c, dk, uuid, next, e.size);
        if data.Err? {
          return Err(data.error);
        }
        tree := at.value.tree[at.value.path := FileNode(data.value, e.readonly)];
        next := after;
      }
      i := i + 1;
    }
    return Ok(tree);
  }

  /** `seal_to`: the frame of one chunk, appended to the output. */
  method SealTo(c: Primitives, dk: bytes, uuid: bytes, r: Nonces, i: nat, plain: bytes, w: bytes) returns (w': bytes)
    ensures w' == w + FrameBytes(SealedChunk(c, dk, uuid, r, i, plain))
  {
    var nonce := r.chunk(i);
    var scratch := c.seal(dk, nonce, ChunkAad(uuid, i), plain);
    w' := w + nonce;
    w' := w' + LE(|scratch|, 4);
    w' := w' + scratch;
  }

  /** One source file: exactly `size` bytes must be there, none fewer and none more. */
  method WriteFile(c: Primitives, dk: bytes, uuid: bytes, r: Nonces, file: bytes, size: nat, seq0: nat, w0: bytes)
    returns (res: Result<bytes>, seq1: nat)
    ensures res.Ok? <==> |file| == size
    ensures res.Err? ==> res.error == Other
    ensures res.Ok? ==> res.value == w0 + Payload(c, dk, uuid, r, ChunksOf(file), seq0)
    ensures res.Ok? ==> seq1 == seq0 + |ChunksOf(file)|
  {
    hide SealedChunk, FrameBytes;
    var w, pos, remaining := w0, 0, size;
    seq1 := seq0;
    assert file[0..] == file;
    while remaining > 0
      invariant 0 <= remaining && 0 <= pos <= |file| && pos + remaining == size
      invariant |file| == size ==>
          && w + Payload(c, dk, uuid, r, ChunksOf(file[pos..]), seq1) == w0 + Payload(c, dk, uuid, r, ChunksOf(file), seq0)
          && seq1 + |ChunksOf(file[pos..])| == seq0 + |ChunksOf(file)|
    {
      var n := if remaining < CHUNK_SIZE then remaining else CHUNK_SIZE;
      if |file| - pos < n {
        return Err(Other), seq1;
      }
      var plain := file[pos..pos + n];
      ghost var w1 := w;
      w := SealTo(c, dk, uuid, r, seq1, plain, w);
      if |file| == size {
        NextChunk(c, dk, uuid, r, file, pos, n, seq1, w1);
      }
      seq1 := seq1 + 1;
      remaining := remaining - n;
      pos := pos + n;
    }
    if |file| - pos != 0 {
      return Err(Other), seq1;
    }
    assert file[pos..] == [];
    assert w + [] == w;
    res := Ok(w);
  }

  lemma NextChunk(c: Primitives, dk: bytes, uuid: bytes, r: Nonces, file: bytes, pos: nat, n: nat, i: nat, w: bytes)
    requires pos < |file| && pos + n <= |file|
    requires n == if |file| - pos < CHUNK_SIZE then |file| - pos else CHUNK_SIZE
    ensures |ChunksOf(file[pos..])| == 1 + |ChunksOf(file[pos + n..])|
    ensures w + Payload(c, dk, uuid, r, ChunksOf(file[pos..]), i)
            == w + FrameBytes(SealedChunk(c, dk, uuid, r, i, file[pos..pos + n]))
               + Payload(c, dk, uuid, r, ChunksOf(file[pos + n..]), i + 1)
  {
    hide FrameBytes, ChunksOf, SealedChunk;
    var d := file[pos..];
    ChunksStep(d);
    assert d[..n] == file[pos..pos + n] && d[n..] == file[pos + n..];
    assert ChunksOf(d)[0] == d[..n] && ChunksOf(d)[1..] == ChunksOf(d[n..]);
  }

  /** Why a file cannot be copied: its path would be refused, it is gone, or its size has changed. */
  function FaultOf(e: Entry, source: Source): VaultError {
    match Target(e)
    case Err(x) => x
    case Ok(p) => if p !in source then Io else Other
  }

  /** Tampering for a name that extraction would refuse, an input error for a file that is gone, and
      otherwise the file has changed. */
  lemma FaultKinds(p: Path, size: u64, mtime: u64, readonly: bool, source: Source)
    requires p != [] && AllFileNames(p)
    ensures var e := Entry(RelPath(p), size, mtime, false, readonly);
            && (!AllSafe(p) ==> FaultOf(e, source) == Tampered)
            && (AllSafe(p) && p !in source ==> FaultOf(e, source) == Io)
            && (AllSafe(p) && p in source ==>
                 FaultOf(e, source) == Other && (Faithful(e, source) <==> |source[p]| == size))
  {
    hide AllSafe, AllFileNames, RelPath;
    JoinInvertsRelPath([], p);
    assert [] + p == p;
  }

  /** With only one file that cannot be copied among the entries, its fault is the one reported. */
  lemma {:induction false} OnlyFault(entries: seq<Entry>, i: nat, source: Source)
    requires i < |entries| && !entries[i].isDir && !Faithful(entries[i], source)
    requires forall k :: 0 <= k < i ==> entries[k].isDir || Faithful(entries[k], source)
    ensures !AllFaithful(entries, source) && FirstFault(entries, source) == FaultOf(entries[i], source)
    decreases i
  {
    hide Faithful, FaultOf;
    if i == 0 {
    } else {
      OnlyFault(entries[1..], i - 1, source);
    }
  }

  /** The fault of the first file that cannot be copied. */
  function FirstFault(entries: seq<Entry>, source: Source): VaultError
    requires !AllFaithful(entries, source)
  {
    if entries[0].isDir || Faithful(entries[0], source) then FirstFault(entries[1..], source)
    else FaultOf(entries[0], source)
  }

  /** Opening a file entry's source and copying it. */
  method WriteEntry(c: Primitives, dk: bytes, uuid: bytes, r: Nonces, e: Entry, source: Source, seq0: nat, w0: bytes)
    returns (res: Result<bytes>, seq1: nat)
    ensures res.Ok? <==> Faithful(e, source)
    ensures res.Err? ==> res.error == FaultOf(e, source)
    ensures res.Ok? ==> res.value == w0 + Payload(c, dk, uuid, r, ChunksOf(DataOf(e, source)), seq0)
    ensures res.Ok? ==> seq1 == seq0 + |ChunksOf(DataOf(e, source))|
  {
    var path := SafeJoin([], e.relPath);
    if path.Err? {
      return Err(path.error), seq0;
    }
    if path.value !in source {
      return Err(Io), seq0;
    }
    res, seq1 := WriteFile(c, dk, uuid, r, source[path.value], e.size, seq0, w0);
  }

  /** What is still to be written before the output is complete. */
  ghost predicate Completes(c: Primitives, dk: bytes, uuid: bytes, r: Nonces, source: Source,
                            w: bytes, todo: seq<Entry>, i: nat, whole: bytes)
    requires AllFaithful(todo, source)
  {
    w + Payload(c, dk, uuid, r, AllChunks(todo, source), i) == whole
  }

  lemma EntryWritten(c: Primitives, dk: bytes, uuid: bytes, r: Nonces, source: Source,
                     w: bytes, todo: seq<Entry>, i: nat, whole: bytes)
    requires todo != [] && AllFaithful(todo, source) && Completes(c, dk, uuid, r, source, w, todo, i, whole)
    ensures todo[0].isDir ==> Completes(c, dk, uuid, r, source, w, todo[1..], i, whole)
    ensures !todo[0].isDir ==>
              var chunks := ChunksOf(DataOf(todo[0], source));
              Completes(c, dk, uuid, r, source, w + Payload(c, dk, uuid, r, chunks, i), todo[1..], i + |chunks|, whole)
  {
    hide Faithful, Payload, Target, ChunksOf;
    if todo[0].isDir {
      PayloadOfDir(c, dk, uuid, r, todo, source, i);
    } else {
      FileThenRest(c, dk, uuid, r, todo, source, i, w);
    }
  }

  lemma AllWritten(c: Primitives, dk: bytes, uuid: bytes, r: Nonces, source: Source, w: bytes, i: nat, whole: bytes)
    requires Completes(c, dk, uuid, r, source, w, [], i, whole)
    ensures w == whole
  {
  }

  /** All source files, in manifest order. Any file that shrank, grew, vanished or has a name the
      reader would refuse makes the whole container fail. */
  method WriteFiles(c: Primitives, dk: bytes, uuid: bytes, r: Nonces, entries: seq<Entry>, source: Source, w0: bytes)
    returns (res: Result<bytes>)
    ensures res.Ok? <==> AllFaithful(entries, source)
    ensures res.Err? ==> res.error == FirstFault(entries, source)
    ensures res.Ok? ==> res.value == w0 + Payload(c, dk, uuid, r, AllChunks(entries, source), 0)
  {
    hide Faithful, Payload, AllChunks, DataOf, Completes, FaultOf;
    ghost var whole := if AllFaithful(entries, source) then w0 + Payload(c, dk, uuid, r, AllChunks(entries, source), 0) else [];
    var w, next, i := w0, 0, 0;
    assert entries[0..] == entries;
    assert AllFaithful(entries, source) ==> Completes(c, dk, uuid, r, source, w, entries, next, whole) by {
      Starts(c, dk, uuid, r, source, w0, entries);
    }
    while i < |entries|
      invariant 0 <= i <= |entries|
      invariant AllFaithful(entries, source) <==> AllFaithful(entries[i..], source)
      invariant !AllFaithful(entries, source) ==> FirstFault(entries, source) == FirstFault(entries[i..], source)
      invariant AllFaithful(entries, source) ==> Completes(c, dk, uuid, r, source, w, entries[i..], next, whole)
    {
      assert entries[i..][1..] == entries[i + 1..];
      if AllFaithful(entries, source) {
        EntryWritten(c, dk, uuid, r, source, w, entries[i..], next, whole);
      }
      if !entries[i].isDir {
        var done, after := WriteEntry(c, dk, uuid, r, entries[i], source, next, w);
        if done.Err? {
          return done;
        }
        w, next := done.value, after;
      }
      i := i + 1;
    }
    if AllFaithful(entries, source) {
      assert entries[i..] == [];
      AllWritten(c, dk, uuid, r, source, w, next, whole);
    }
    return Ok(w);
  }

  lemma Starts(c: Primitives, dk: bytes, uuid: bytes, r: Nonces, source: Source, w0: bytes, entries: seq<Entry>)
    ensures AllFaithful(entries, source) ==>
      Completes(c, dk, uuid, r, source, w0, entries, 0,
                w0 + Payload(c, dk, uuid, r, AllChunks(entries, source), 0))
  {
  }

  lemma FileThenRest(c: Primitives, dk: bytes, uuid: bytes, r: Nonces, entries: seq<Entry>, source: Source, i: nat, w: bytes)
    requires AllFaithful(entries, source) && entries != [] && !entries[0].isDir
    ensures var chunks := ChunksOf(DataOf(entries[0], source));
            w + Payload(c, dk, uuid, r, AllChunks(entries, source), i)
            == w + Payload(c, dk, uuid, r, chunks, i)
               + Payload(c, dk, uuid, r, AllChunks(entries[1..], source), i + |chunks|)
  {
    PayloadOfFile(c, dk, uuid, r, entries, source, i);
  }

  /** The manifest frame and the payload; nothing is returned unless every file was copied whole. */
  method WriteBody(c: Primitives, dk: bytes, uuid: bytes, r: Nonces, entries: seq<Entry>, source: Source, w0: bytes)
    returns (res: Result<bytes>)
    ensures res.Ok? <==> ManifestFits(c, entries) && AllFaithful(entries, source)
    ensures res.Err? ==> res.error == if ManifestFits(c, entries) then FirstFault(entries, source) else Other
    ensures res.Ok? ==> res.value == w0 + Body(c, dk, uuid, r, entries, source)
  {
    var manifest := c.serialize(entries);
    if |manifest| > MAX_MANIFEST_LEN - TAG_LEN {
      return Err(Other);
    }
    var blob := c.seal(dk, r.manifest, Aad(uuid, MANIFEST_SEQ), manifest);
    var w := w0 + r.manifest;
    w := w + LE(|blob|, 4);
    w := w + blob;
    assert w == w0 + ManifestFrame(c, dk, uuid, r, entries);
    res := WriteFiles(c, dk, uuid, r, entries, source, w);
  }
}
