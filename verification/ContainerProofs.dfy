/** The body codec: round trip, cut bodies, and integrity under an ideal AEAD. */
module ContainerProofs {
  import opened Bytes
  import opened Entries
  import opened Paths
  import opened Crypto
  import opened Frames
  import opened Lockout
  import opened Container

  lemma {:induction false} PayloadConcat(c: Primitives, dk: bytes, uuid: bytes, r: Nonces,
                                         a: seq<bytes>, b: seq<bytes>, i: nat)
    ensures Payload(c, dk, uuid, r, a + b, i) == Payload(c, dk, uuid, r, a, i) + Payload(c, dk, uuid, r, b, i + |a|)
    decreases |a|
  {
    if a == [] {
      assert a + b == b;
    } else {
      PayloadConcat(c, dk, uuid, r, a[1..], b, i + 1);
      assert (a + b)[0] == a[0] && (a + b)[1..] == a[1..] + b;
      var f := FrameBytes(SealedChunk(c, dk, uuid, r, i, a[0]));
      Assoc(f, Payload(c, dk, uuid, r, a[1..], i + 1), Payload(c, dk, uuid, r, b, i + |a|));
    }
  }

  lemma ChunksStep(data: bytes)
    requires data != []
    ensures var n := if |data| < CHUNK_SIZE then |data| else CHUNK_SIZE;
            ChunksOf(data) == [data[..n]] + ChunksOf(data[n..])
  {
    if |data| <= CHUNK_SIZE {
      assert data[..|data|] == data && data[|data|..] == [];
      assert [data] + [] == [data];
    }
  }

  lemma SealedWellSized(c: Primitives, dk: bytes, uuid: bytes, r: Nonces, i: nat, plain: bytes)
    requires c.IdealAead() && r.Valid() && |plain| <= CHUNK_SIZE
    ensures WellSized(SealedChunk(c, dk, uuid, r, i, plain), MAX_CHUNK_BLOB)
  {
  }

  // ----- round trip -----

  lemma Assoc(a: bytes, b: bytes, d: bytes)
    ensures a + b + d == a + (b + d)
  {
  }

  /** The first chunk of a file, read off the stream. */
  lemma ReadFirstChunk(c: Primitives, dk: bytes, uuid: bytes, r: Nonces, plain: bytes, i: nat, size: nat, rest: bytes)
    requires c.IdealAead() && r.Valid()
    requires 0 < |plain| <= CHUNK_SIZE && (if size < CHUNK_SIZE then |plain| == size else |plain| == CHUNK_SIZE)
    ensures ReadFile(c, dk, uuid, FrameBytes(SealedChunk(c, dk, uuid, r, i, plain)) + rest, i, size)
            == match ReadFile(c, dk, uuid, rest, i + 1, size - |plain|)
               case Err(e) => Err(e)
               case Ok(f) => Ok(FileRead(plain + f.data, f.rest, f.next))
  {
    var f := SealedChunk(c, dk, uuid, r, i, plain);
    SealedWellSized(c, dk, uuid, r, i, plain);
    ParseOfFrame(f, rest, MAX_CHUNK_BLOB);
  }

  lemma ReadNothing(c: Primitives, dk: bytes, uuid: bytes, r: Nonces, i: nat, rest: bytes)
    ensures ReadFile(c, dk, uuid, Payload(c, dk, uuid, r, ChunksOf([]), i) + rest, i, 0) == Ok(FileRead([], rest, i))
    ensures ChunksOf([]) == []
  {
    assert [] + rest == rest;
  }

  lemma PayloadStep(c: Primitives, dk: bytes, uuid: bytes, r: Nonces, chunks: seq<bytes>, i: nat)
    requires chunks != []
    ensures Payload(c, dk, uuid, r, chunks, i)
            == FrameBytes(SealedChunk(c, dk, uuid, r, i, chunks[0])) + Payload(c, dk, uuid, r, chunks[1..], i + 1)
  {
  }

  /** Reading a file's sealed chunks gives back its contents and leaves the rest of the stream. */
  lemma {:induction false} ReadWrittenFile(c: Primitives, dk: bytes, uuid: bytes, r: Nonces,
                                           data: bytes, i: nat, rest: bytes)
    requires c.IdealAead() && r.Valid()
    ensures ReadFile(c, dk, uuid, Payload(c, dk, uuid, r, ChunksOf(data), i) + rest, i, |data|)
            == Ok(FileRead(data, rest, i + |ChunksOf(data)|))
    decreases |data|
  {
    hide FrameBytes, ReadFile, ChunksOf, Payload;
    if data == [] {
      ReadNothing(c, dk, uuid, r, i, rest);
    } else {
      var chunks := ChunksOf(data);
      var n := if |data| < CHUNK_SIZE then |data| else CHUNK_SIZE;
      ChunksStep(data);
      assert chunks[0] == data[..n] && chunks[1..] == ChunksOf(data[n..]);
      var tail := Payload(c, dk, uuid, r, chunks[1..], i + 1);
      PayloadStep(c, dk, uuid, r, chunks, i);
      Assoc(FrameBytes(SealedChunk(c, dk, uuid, r, i, data[..n])), tail, rest);
      ReadWrittenFile(c, dk, uuid, r, data[n..], i + 1, rest);
      ReadFirstChunk(c, dk, uuid, r, data[..n], i, |data|, tail + rest);
      assert data == data[..n] + data[n..];
    }
  }

  /** The stream holds, from chunk i on, the contents of every file in manifest order. */
  ghost predicate Carries(c: Primitives, dk: bytes, uuid: bytes, entries: seq<Entry>, source: Source, s: bytes, i: nat)
    requires AllFaithful(entries, source)
    decreases |entries|
  {
    if entries == [] then true
    else if entries[0].isDir then Carries(c, dk, uuid, entries[1..], source, s, i)
    else
      var r := ReadFile(c, dk, uuid, s, i, entries[0].size);
      && r.Ok? && r.value.data == DataOf(entries[0], source)
      && Carries(c, dk, uuid, entries[1..], source, r.value.rest, r.value.next)
  }

  lemma {:induction false} ExtractCarried(c: Primitives, dk: bytes, uuid: bytes, entries: seq<Entry>, source: Source,
                                          t: FileTree, s: bytes, i: nat)
    requires AllFaithful(entries, source) && Carries(c, dk, uuid, entries, source, s, i)
    ensures Extract(c, dk, uuid, entries, t, s, i) == Restored(entries, source, t)
    decreases |entries|
  {
    if entries != [] && Place(entries[0], t).Ok? {
      var e, at := entries[0], Place(entries[0], t).value;
      if e.isDir {
        ExtractCarried(c, dk, uuid, entries[1..], source, at.tree, s, i);
      } else {
        var r := ReadFile(c, dk, uuid, s, i, e.size).value;
        ExtractCarried(c, dk, uuid, entries[1..], source, at.tree[at.path := FileNode(r.data, e.readonly)],
                       r.rest, r.next);
      }
    }
  }

  /** The payload of a manifest that starts with a file is that file's chunks and then the others. */
  lemma PayloadOfFile(c: Primitives, dk: bytes, uuid: bytes, r: Nonces, entries: seq<Entry>, source: Source, i: nat)
    requires AllFaithful(entries, source) && entries != [] && !entries[0].isDir
    ensures var data := DataOf(entries[0], source);
            Payload(c, dk, uuid, r, AllChunks(entries, source), i)
            == Payload(c, dk, uuid, r, ChunksOf(data), i)
               + Payload(c, dk, uuid, r, AllChunks(entries[1..], source), i + |ChunksOf(data)|)
  {
    hide Target;
    PayloadConcat(c, dk, uuid, r, ChunksOf(DataOf(entries[0], source)), AllChunks(entries[1..], source), i);
  }

  lemma PayloadOfDir(c: Primitives, dk: bytes, uuid: bytes, r: Nonces, entries: seq<Entry>, source: Source, i: nat)
    requires AllFaithful(entries, source) && entries != [] && entries[0].isDir
    ensures Payload(c, dk, uuid, r, AllChunks(entries, source), i)
            == Payload(c, dk, uuid, r, AllChunks(entries[1..], source), i)
  {
    assert AllChunks(entries, source) == AllChunks(entries[1..], source);
  }

  lemma {:induction false} PayloadCarries(c: Primitives, dk: bytes, uuid: bytes, r: Nonces,
                                          entries: seq<Entry>, source: Source, s: bytes, i: nat, rest: bytes)
    requires c.IdealAead() && r.Valid() && AllFaithful(entries, source)
    requires s == Payload(c, dk, uuid, r, AllChunks(entries, source), i) + rest
    ensures Carries(c, dk, uuid, entries, source, s, i)
    decreases |entries|
  {
    hide Target, Payload, ReadFile, AllChunks, ChunksOf;
    if entries == [] {
    } else {
      if entries[0].isDir {
        PayloadOfDir(c, dk, uuid, r, entries, source, i);
        PayloadCarries(c, dk, uuid, r, entries[1..], source, s, i, rest);
      } else {
        var data := DataOf(entries[0], source);
        PayloadOfFile(c, dk, uuid, r, entries, source, i);
        var j := i + |ChunksOf(data)|;
        var mine := Payload(c, dk, uuid, r, ChunksOf(data), i);
        var after := Payload(c, dk, uuid, r, AllChunks(entries[1..], source), j);
        Assoc(mine, after, rest);
        ReadWrittenFile(c, dk, uuid, r, data, i, after + rest);
        PayloadCarries(c, dk, uuid, r, entries[1..], source, after + rest, j, rest);
      }
    }
  }

  /** Extraction over what was written is restoration from the contents themselves, for any
      manifest at all. */
  lemma ExtractWritten(c: Primitives, dk: bytes, uuid: bytes, r: Nonces,
                       entries: seq<Entry>, source: Source, t: FileTree, i: nat, rest: bytes)
    requires c.IdealAead() && r.Valid() && AllFaithful(entries, source)
    ensures Extract(c, dk, uuid, entries, t, Payload(c, dk, uuid, r, AllChunks(entries, source), i) + rest, i)
            == Restored(entries, source, t)
  {
    var s := Payload(c, dk, uuid, r, AllChunks(entries, source), i) + rest;
    PayloadCarries(c, dk, uuid, r, entries, source, s, i, rest);
    ExtractCarried(c, dk, uuid, entries, source, t, s, i);
  }

  predicate ManifestFits(c: Primitives, entries: seq<Entry>) {
    |c.serialize(entries)| <= MAX_MANIFEST_LEN - TAG_LEN
  }

  lemma ManifestParses(c: Primitives, dk: bytes, uuid: bytes, r: Nonces, entries: seq<Entry>, rest: bytes)
    requires c.IdealAead() && r.Valid() && ManifestFits(c, entries)
    ensures var f := Frame(r.manifest, c.seal(dk, r.manifest, Aad(uuid, MANIFEST_SEQ), c.serialize(entries)));
            && WellSized(f, MAX_MANIFEST_LEN)
            && ParseFrame(ManifestFrame(c, dk, uuid, r, entries) + rest, MAX_MANIFEST_LEN) == Parsed(f, rest)
            && c.open(dk, f.nonce, Aad(uuid, MANIFEST_SEQ), f.blob) == Some(c.serialize(entries))
  {
    var f := Frame(r.manifest, c.seal(dk, r.manifest, Aad(uuid, MANIFEST_SEQ), c.serialize(entries)));
    ParseOfFrame(f, rest, MAX_MANIFEST_LEN);
  }

  lemma UnlockWritten(c: Primitives, dk: bytes, uuid: bytes, r: Nonces, entries: seq<Entry>, source: Source)
    requires c.Ideal() && r.Valid() && AllFaithful(entries, source) && ManifestFits(c, entries)
    requires |entries| <= U64_MAX
    ensures Unlocked(c, dk, uuid, |entries|, Body(c, dk, uuid, r, entries, source)) == Restored(entries, source, map[])
  {
    var payload := Payload(c, dk, uuid, r, AllChunks(entries, source), 0);
    ManifestParses(c, dk, uuid, r, entries, payload);
    ExtractWritten(c, dk, uuid, r, entries, source, map[], 0, []);
    assert payload + [] == payload;
  }

  // ----- cut bodies -----

  lemma {:induction false} ReadCutFile(c: Primitives, dk: bytes, uuid: bytes, r: Nonces, data: bytes, i: nat, k: nat)
    requires c.IdealAead() && r.Valid() && k < |Payload(c, dk, uuid, r, ChunksOf(data), i)|
    ensures ReadFile(c, dk, uuid, Payload(c, dk, uuid, r, ChunksOf(data), i)[..k], i, |data|).Err?
    decreases |data|
  {
    hide FrameBytes, SealedChunk, ParseFrame, Aad;
    if data == [] {
    } else {
      var n := if |data| < CHUNK_SIZE then |data| else CHUNK_SIZE;
      var chunks := ChunksOf(data);
      ChunksStep(data);
      assert chunks[1..] == ChunksOf(data[n..]);
      var f := SealedChunk(c, dk, uuid, r, i, data[..n]);
      var s, tail := Payload(c, dk, uuid, r, chunks, i), Payload(c, dk, uuid, r, chunks[1..], i + 1);
      SealedWellSized(c, dk, uuid, r, i, data[..n]);
      var m := |FrameBytes(f)|;
      if k < m {
        assert s[..k] == FrameBytes(f)[..k];
        CutFrameFails(f, MAX_CHUNK_BLOB, k);
      } else {
        assert s[..k] == FrameBytes(f) + tail[..k - m];
        ParseOfFrame(f, tail[..k - m], MAX_CHUNK_BLOB);
        ReadCutFile(c, dk, uuid, r, data[n..], i + 1, k - m);
      }
    }
  }

  /** The stream runs dry in one of the files. */
  ghost predicate Starves(c: Primitives, dk: bytes, uuid: bytes, entries: seq<Entry>, s: bytes, i: nat)
    decreases |entries|
  {
    if entries == [] then false
    else if entries[0].isDir then Starves(c, dk, uuid, entries[1..], s, i)
    else
      var r := ReadFile(c, dk, uuid, s, i, entries[0].size);
      r.Err? || Starves(c, dk, uuid, entries[1..], r.value.rest, r.value.next)
  }

  lemma {:induction false} ExtractStarved(c: Primitives, dk: bytes, uuid: bytes, entries: seq<Entry>,
                                          t: FileTree, s: bytes, i: nat)
    requires Starves(c, dk, uuid, entries, s, i)
    ensures Extract(c, dk, uuid, entries, t, s, i).Err?
    decreases |entries|
  {
    if Place(entries[0], t).Ok? {
      var e, at := entries[0], Place(entries[0], t).value;
      var r := ReadFile(c, dk, uuid, s, i, e.size);
      if e.isDir {
        ExtractStarved(c, dk, uuid, entries[1..], at.tree, s, i);
      } else if r.Ok? {
        ExtractStarved(c, dk, uuid, entries[1..], at.tree[at.path := FileNode(r.value.data, e.readonly)],
                       r.value.rest, r.value.next);
      }
    }
  }

  lemma {:induction false} CutPayloadStarves(c: Primitives, dk: bytes, uuid: bytes, r: Nonces,
                                             entries: seq<Entry>, source: Source, s: bytes, i: nat, k: nat)
    requires c.IdealAead() && r.Valid() && AllFaithful(entries, source)
    requires s == Payload(c, dk, uuid, r, AllChunks(entries, source), i) && k < |s|
    ensures Starves(c, dk, uuid, entries, s[..k], i)
    decreases |entries|
  {
    hide Target, SealedChunk, FrameBytes, ReadFile, ChunksOf;
    if entries == [] {
    } else {
      if entries[0].isDir {
        PayloadOfDir(c, dk, uuid, r, entries, source, i);
        CutPayloadStarves(c, dk, uuid, r, entries[1..], source, s, i, k);
      } else {
        var data := DataOf(entries[0], source);
        PayloadOfFile(c, dk, uuid, r, entries, source, i);
        var j := i + |ChunksOf(data)|;
        var mine := Payload(c, dk, uuid, r, ChunksOf(data), i);
        var after := Payload(c, dk, uuid, r, AllChunks(entries[1..], source), j);
        CutConcat(mine, after, k);
        if k < |mine| {
          ReadCutFile(c, dk, uuid, r, data, i, k);
        } else {
          ReadWrittenFile(c, dk, uuid, r, data, i, after[..k - |mine|]);
          CutPayloadStarves(c, dk, uuid, r, entries[1..], source, after, j, k - |mine|);
        }
      }
    }
  }

  lemma CutConcat(a: bytes, b: bytes, k: nat)
    requires k <= |a| + |b|
    ensures (a + b)[..k] == if k < |a| then a[..k] else a + b[..k - |a|]
  {
  }

  /** No strict prefix of a finished body unlocks. */
  lemma UnlockCutBody(c: Primitives, dk: bytes, uuid: bytes, r: Nonces, entries: seq<Entry>, source: Source, k: nat)
    requires c.Ideal() && r.Valid() && AllFaithful(entries, source) && ManifestFits(c, entries)
    requires |entries| <= U64_MAX
    requires k < |Body(c, dk, uuid, r, entries, source)|
    ensures Unlocked(c, dk, uuid, |entries|, Body(c, dk, uuid, r, entries, source)[..k]).Err?
  {
    var m := ManifestFrame(c, dk, uuid, r, entries);
    var payload := Payload(c, dk, uuid, r, AllChunks(entries, source), 0);
    var f := Frame(r.manifest, c.seal(dk, r.manifest, Aad(uuid, MANIFEST_SEQ), c.serialize(entries)));
    ManifestParses(c, dk, uuid, r, entries, []);
    if k < |m| {
      assert (m + payload)[..k] == m[..k];
      CutFrameFails(f, MAX_MANIFEST_LEN, k);
    } else {
      assert (m + payload)[..k] == m + payload[..k - |m|];
      ManifestParses(c, dk, uuid, r, entries, payload[..k - |m|]);
      CutPayloadStarves(c, dk, uuid, r, entries, source, payload, 0, k - |m|);
      ExtractStarved(c, dk, uuid, entries, map[], payload[..k - |m|], 0);
    }
  }

  // ----- integrity -----

  /** Is this plaintext, under this associated data, one the writer sealed? */
  ghost predicate SealedByWriter(uuid: bytes, manifest: bytes, chunks: seq<bytes>, aad: bytes, plain: bytes) {
    || (aad == Aad(uuid, MANIFEST_SEQ) && plain == manifest)
    || exists i :: 0 <= i < |chunks| && aad == ChunkAad(uuid, i) && plain == chunks[i]
  }

  /** Does the frame at this place of the stream, if there is one, open as the one with this number to
      nothing but what was sealed under it? */
  ghost predicate FrameGenuine(c: Primitives, dk: bytes, uuid: bytes, manifest: bytes, chunks: seq<bytes>,
                               uuid': bytes, s: bytes, lo: nat, i: nat)
    requires lo <= |s|
  {
    var p := ParseFrame(s[lo..], MAX_MANIFEST_LEN);
    p.Parsed? ==>
      var o := c.open(dk, p.frame.nonce, ChunkAad(uuid', i), p.frame.blob);
      o.Some? ==> SealedByWriter(uuid, manifest, chunks, ChunkAad(uuid', i), o.value)
  }

  /** The ideal AEAD, for one stream and the container it is presented as: whatever frame of it opens
      under the key, as a frame of any number, was sealed by the writer. The frames may be reordered,
      repeated, dropped or altered at will. */
  ghost predicate NothingForged(c: Primitives, dk: bytes, uuid: bytes, manifest: bytes, chunks: seq<bytes>,
                                uuid': bytes, s: bytes) {
    forall lo, i :: 0 <= lo <= |s| && 0 <= i <= U64_MAX ==> FrameGenuine(c, dk, uuid, manifest, chunks, uuid', s, lo, i)
  }

  lemma ParseWithin(s: bytes, small: nat, large: nat)
    requires small <= large && ParseFrame(s, small).Parsed?
    ensures ParseFrame(s, large) == ParseFrame(s, small)
  {
  }

  lemma OpenedIsSealed(c: Primitives, dk: bytes, uuid: bytes, manifest: bytes, chunks: seq<bytes>,
                       uuid': bytes, s: bytes, maxLen: nat, i: nat)
    requires NothingForged(c, dk, uuid, manifest, chunks, uuid', s) && ParseFrame(s, maxLen).Parsed?
    requires maxLen <= MAX_MANIFEST_LEN && i <= U64_MAX
    ensures var p := ParseFrame(s, maxLen);
            && NothingForged(c, dk, uuid, manifest, chunks, uuid', p.rest)
            && var o := c.open(dk, p.frame.nonce, ChunkAad(uuid', i), p.frame.blob);
            o.Some? ==> SealedByWriter(uuid, manifest, chunks, ChunkAad(uuid', i), o.value)
  {
    hide SealedByWriter, FrameGenuine;
    ParseWithin(s, maxLen, MAX_MANIFEST_LEN);
    var p := ParseFrame(s, maxLen);
    FirstFrame(c, dk, uuid, manifest, chunks, uuid', s, i);
    var n := 16 + |p.frame.blob|;
    forall lo, k | 0 <= lo <= |p.rest| && 0 <= k <= U64_MAX
      ensures FrameGenuine(c, dk, uuid, manifest, chunks, uuid', p.rest, lo, k)
    {
      assert FrameGenuine(c, dk, uuid, manifest, chunks, uuid', s, lo + n, k);
      LaterFrame(c, dk, uuid, manifest, chunks, uuid', s, n, lo, k);
    }
  }

  lemma FirstFrame(c: Primitives, dk: bytes, uuid: bytes, manifest: bytes, chunks: seq<bytes>, uuid': bytes, s: bytes, i: nat)
    requires NothingForged(c, dk, uuid, manifest, chunks, uuid', s) && ParseFrame(s, MAX_MANIFEST_LEN).Parsed? && i <= U64_MAX
    ensures var p := ParseFrame(s, MAX_MANIFEST_LEN);
            var o := c.open(dk, p.frame.nonce, ChunkAad(uuid', i), p.frame.blob);
            o.Some? ==> SealedByWriter(uuid, manifest, chunks, ChunkAad(uuid', i), o.value)
  {
    hide SealedByWriter, ParseFrame;
    assert FrameGenuine(c, dk, uuid, manifest, chunks, uuid', s, 0, i);
    assert s[0..] == s;
  }

  lemma LaterFrame(c: Primitives, dk: bytes, uuid: bytes, manifest: bytes, chunks: seq<bytes>,
                   uuid': bytes, s: bytes, n: nat, lo: nat, i: nat)
    requires n + lo <= |s| && FrameGenuine(c, dk, uuid, manifest, chunks, uuid', s, lo + n, i)
    ensures FrameGenuine(c, dk, uuid, manifest, chunks, uuid', s[n..], lo, i)
  {
    hide SealedByWriter, ParseFrame;
    assert s[n..][lo..] == s[lo + n..];
  }

  lemma ChunkAadInjective(u: bytes, i: nat, v: bytes, j: nat)
    requires |u| == |v| && i <= U64_MAX && j <= U64_MAX
    ensures ChunkAad(u, i) == ChunkAad(v, j) ==> u == v && i == j
  {
    if ChunkAad(u, i) == ChunkAad(v, j) {
      AadInjective(u, i, v, j);
    }
  }

  /** Chunk number i can only be the writer's chunk i: its number is never the manifest's. */
  lemma ChunkIsGenuine(uuid: bytes, manifest: bytes, chunks: seq<bytes>, i: nat, plain: bytes)
    requires |chunks| < U64_MAX && i < |chunks|
    requires SealedByWriter(uuid, manifest, chunks, ChunkAad(uuid, i), plain)
    ensures plain == chunks[i]
  {
    ChunkAadInjective(uuid, i, uuid, U64_MAX);
    if j :| 0 <= j < |chunks| && ChunkAad(uuid, i) == ChunkAad(uuid, j) && plain == chunks[j] {
      ChunkAadInjective(uuid, i, uuid, j);
    }
  }

  /** What opens as the manifest is the manifest, and the container is the writer's. */
  lemma ManifestIsGenuine(uuid: bytes, uuid': bytes, manifest: bytes, chunks: seq<bytes>, plain: bytes)
    requires |chunks| < U64_MAX && |uuid| == |uuid'|
    requires SealedByWriter(uuid, manifest, chunks, ChunkAad(uuid', U64_MAX), plain)
    ensures uuid' == uuid && plain == manifest
  {
    ChunkAadInjective(uuid', U64_MAX, uuid, U64_MAX);
    forall i | 0 <= i < |chunks| ensures ChunkAad(uuid', U64_MAX) != ChunkAad(uuid, i) {
      ChunkAadInjective(uuid', U64_MAX, uuid, i);
    }
  }

  lemma {:induction false} FileIsGenuine(c: Primitives, dk: bytes, uuid: bytes, manifest: bytes, chunks: seq<bytes>,
                                         s: bytes, i: nat, data: bytes)
    requires |chunks| < U64_MAX && NothingForged(c, dk, uuid, manifest, chunks, uuid, s)
    requires i <= |chunks| && ChunksOf(data) <= chunks[i..]
    requires ReadFile(c, dk, uuid, s, i, |data|).Ok?
    ensures var r := ReadFile(c, dk, uuid, s, i, |data|).value;
            && r.data == data && r.next == i + |ChunksOf(data)|
            && NothingForged(c, dk, uuid, manifest, chunks, uuid, r.rest)
    decreases |data|
  {
    hide NothingForged, SealedByWriter, Aad;
    if data == [] {
    } else {
      var n := if |data| < CHUNK_SIZE then |data| else CHUNK_SIZE;
      ChunksStep(data);
      assert chunks[i..][0] == chunks[i] == data[..n];
      var p := ParseFrame(s, MAX_CHUNK_BLOB);
      OpenedIsSealed(c, dk, uuid, manifest, chunks, uuid, s, MAX_CHUNK_BLOB, i);
      var plain := c.open(dk, p.frame.nonce, ChunkAad(uuid, i), p.frame.blob).value;
      ChunkIsGenuine(uuid, manifest, chunks, i, plain);
      assert ChunksOf(data[n..]) == ChunksOf(data)[1..] <= chunks[i..][1..] == chunks[i + 1..];
      FileIsGenuine(c, dk, uuid, manifest, chunks, p.rest, i + 1, data[n..]);
      assert data == data[..n] + data[n..];
    }
  }

  lemma {:induction false} ExtractIsGenuine(c: Primitives, dk: bytes, uuid: bytes, manifest: bytes, chunks: seq<bytes>,
                                            entries: seq<Entry>, source: Source, t: FileTree, s: bytes, i: nat)
    requires |chunks| < U64_MAX && NothingForged(c, dk, uuid, manifest, chunks, uuid, s)
    requires AllFaithful(entries, source) && i <= |chunks| && AllChunks(entries, source) == chunks[i..]
    requires Extract(c, dk, uuid, entries, t, s, i).Ok?
    ensures Extract(c, dk, uuid, entries, t, s, i) == Restored(entries, source, t)
    decreases |entries|
  {
    hide Target, ReadFile, ChunksOf, NothingForged;
    if entries == [] {
    } else {
      var e, tail := entries[0], entries[1..];
      var at := Place(e, t).value;
      if e.isDir {
        assert AllChunks(tail, source) == chunks[i..];
        ExtractIsGenuine(c, dk, uuid, manifest, chunks, tail, source, at.tree, s, i);
      } else {
        var data := DataOf(e, source);
        FileIsGenuine(c, dk, uuid, manifest, chunks, s, i, data);
        var r := ReadFile(c, dk, uuid, s, i, e.size).value;
        assert AllChunks(tail, source) == chunks[i..][|ChunksOf(data)|..] == chunks[r.next..];
        ExtractIsGenuine(c, dk, uuid, manifest, chunks, tail, source,
                         at.tree[at.path := FileNode(data, e.readonly)], r.rest, r.next);
      }
    }
  }

  lemma UnlockedParts(c: Primitives, dk: bytes, uuid: bytes, entryCount: u64, body: bytes)
    requires Unlocked(c, dk, uuid, entryCount, body).Ok?
    ensures var p := ParseFrame(body, MAX_MANIFEST_LEN);
            && p.Parsed?
            && var m := c.open(dk, p.frame.nonce, ChunkAad(uuid, U64_MAX), p.frame.blob);
            && m.Some? && c.deserialize(m.value).Some? && |c.deserialize(m.value).value| == entryCount
            && Unlocked(c, dk, uuid, entryCount, body)
               == Extract(c, dk, uuid, c.deserialize(m.value).value, map[], p.rest, 0)
  {
    hide ParseFrame, Extract, Aad;
    assert ChunkAad(uuid, U64_MAX) == Aad(uuid, MANIFEST_SEQ);
  }

  /** Integrity: a body of any provenance that unlocks under the writer's key, whatever header it
      is presented with, restores exactly what the writer locked. */
  lemma UnlockedIsGenuine(c: Primitives, dk: bytes, uuid: bytes, entries: seq<Entry>, source: Source,
                          uuid': bytes, entryCount': u64, body: bytes)
    requires c.IdealBincode() && |uuid| == |uuid'|
    requires AllFaithful(entries, source) && |AllChunks(entries, source)| < U64_MAX
    requires NothingForged(c, dk, uuid, c.serialize(entries), AllChunks(entries, source), uuid', body)
    requires Unlocked(c, dk, uuid', entryCount', body).Ok?
    ensures uuid' == uuid && entryCount' == |entries|
    ensures Unlocked(c, dk, uuid', entryCount', body) == Restored(entries, source, map[])
  {
    var manifest, chunks := c.serialize(entries), AllChunks(entries, source);
    UnlockedParts(c, dk, uuid', entryCount', body);
    OpenedIsSealed(c, dk, uuid, manifest, chunks, uuid', body, MAX_MANIFEST_LEN, U64_MAX);
    var p := ParseFrame(body, MAX_MANIFEST_LEN);
    var plain := c.open(dk, p.frame.nonce, ChunkAad(uuid', U64_MAX), p.frame.blob).value;
    ManifestIsGenuine(uuid, uuid', manifest, chunks, plain);
    assert chunks[0..] == chunks;
    ExtractIsGenuine(c, dk, uuid, manifest, chunks, entries, source, map[], p.rest, 0);
  }
}
