/** A container file as a whole: the header the writer makes, and the checks on it. */
module ContainerFile {
  import opened Bytes
  import opened Entries
  import opened Crypto
  import opened Lockout
  import opened Header
  import opened Frames
  import opened Container
  import opened ContainerIO
  import opened ContainerProofs
  import R = RecoveryCodeProofs

  /** Everything a lock operation draws at random. */
  datatype LockRandom = LockRandom(
    uuid: bytes, salt: bytes, dk: bytes, pwNonce: bytes, eph: bytes, mkNonce: bytes, nonces: Nonces
  ) {
    ghost predicate Valid() {
      && |uuid| == 16 && |salt| == 16 && |dk| == KEY_LEN
      && |pwNonce| == NONCE_LEN && |mkNonce| == NONCE_LEN && nonces.Valid()
    }
  }

  /** The options that shape the container. */
  datatype LockOptions = LockOptions(kdf: KdfParams, masterPub: Option<bytes>)

  function MasterWrap(c: Primitives, opts: LockOptions, r: LockRandom): bytes {
    match opts.masterPub
    case None => Zeros(MASTER_WRAP_LEN)
    case Some(p) => R.SealedDk(c, p, r.eph, r.mkNonce, r.dk)
  }

  function NewHeader(c: Primitives, password: bytes, opts: LockOptions, r: LockRandom, entryCount: u64, total: u64): Header {
    Header(r.uuid, r.salt, opts.kdf, WrapKey(c, c.argon2(password, r.salt, opts.kdf), r.pwNonce, r.dk),
           MasterWrap(c, opts, r), UNLOCKED, entryCount, total, true)
  }

  /** The bytes of a finished container. */
  function Finished(c: Primitives, password: bytes, hmacKey: bytes, opts: LockOptions, r: LockRandom,
                    entries: seq<Entry>, total: u64, source: Source): bytes
    requires AllFaithful(entries, source) && |entries| <= U64_MAX
  {
    ToBytes(c, NewHeader(c, password, opts, r, |entries|, total), hmacKey)
    + Body(c, r.dk, r.uuid, r.nonces, entries, source)
  }

  lemma WrapWidths(c: Primitives, password: bytes, opts: LockOptions, r: LockRandom, n: u64, total: u64)
    requires c.Ideal() && r.Valid()
    ensures NewHeader(c, password, opts, r, n, total).Valid()
  {
  }

  /** The writer: a container only if the parameters are acceptable and every file was copied whole. */
  method WriteContainer(c: Primitives, password: bytes, hmacKey: bytes, opts: LockOptions, r: LockRandom,
                        entries: seq<Entry>, total: u64, source: Source)
    returns (res: Result<bytes>)
    requires c.Ideal() && r.Valid() && |entries| <= U64_MAX
    ensures res.Ok? <==> opts.kdf.Validate() && ManifestFits(c, entries) && AllFaithful(entries, source)
    ensures res.Err? ==> res.error == if !opts.kdf.Validate() then Tampered
                                      else if !ManifestFits(c, entries) then Other
                                      else FirstFault(entries, source)
    ensures res.Ok? ==> res.value == Finished(c, password, hmacKey, opts, r, entries, total, source)
  {
    var kek := DeriveKek(c, password, r.salt, opts.kdf);
    if kek.Err? {
      return Err(kek.error);
    }
    WrapWidths(c, password, opts, r, |entries|, total);
    var mk: bytes := Zeros(MASTER_WRAP_LEN);
    if opts.masterPub.Some? {
      var sealedKey := R.SealDk(c, opts.masterPub.value, r.eph, r.mkNonce, r.dk);
      mk := sealedKey[..];
    }
    var header := Header(r.uuid, r.salt, opts.kdf, WrapKey(c, kek.value, r.pwNonce, r.dk), mk, UNLOCKED,
                         |entries|, total, true);
    var hb := FillHeader(c, header, hmacKey);
    res := WriteBody(c, r.dk, r.uuid, r.nonces, entries, source, hb[..]);
  }

  /** The header of a file. */
  function Parse(c: Primitives, f: bytes, hmacKey: bytes): Result<Header> {
    if |f| < HEADER_LEN then Err(Io) else FromBytes(c, f[..HEADER_LEN], hmacKey)
  }

  /** Whether a header parses, and to what key material, does not depend on the install key. */
  lemma ParseIgnoresKey(c: Primitives, f: bytes, k1: bytes, k2: bytes)
    ensures Parse(c, f, k1).Ok? <==> Parse(c, f, k2).Ok?
    ensures Parse(c, f, k1).Ok? ==>
              Parse(c, f, k1).value.SameMaterial(Parse(c, f, k2).value)
              && Parse(c, f, k1).value.lockout == Parse(c, f, k2).value.lockout
  {
  }

  /** The structural check without credentials: the number of data frames. */
  function Verified(c: Primitives, f: bytes, hmacKey: bytes): Result<nat> {
    match Parse(c, f, hmacKey)
    case Err(e) => Err(e)
    case Ok(_) =>
      match ParseFrame(f[HEADER_LEN..], MAX_MANIFEST_LEN)
      case Failed(e) => Err(e)
      case Parsed(_, rest) => CountFrames(rest)
  }

  method VerifyStructure(c: Primitives, f: bytes, hmacKey: bytes) returns (r: Result<nat>)
    ensures r == Verified(c, f, hmacKey)
  {
    var rd := new Reader(f);
    var hb := rd.ReadExact(HEADER_LEN);
    if hb.Err? {
      return Err(hb.error);
    }
    var h := FromBytes(c, hb.value, hmacKey);
    if h.Err? {
      return Err(h.error);
    }
    var manifest := rd.ReadFrameInto(MAX_MANIFEST_LEN);
    if manifest.Err? {
      return Err(manifest.error);
    }
    r := rd.CountToEnd();
  }

  /** The data key a password opens. */
  function KeyOf(c: Primitives, f: bytes, password: bytes): Option<bytes> {
    match Parse(c, f, [])
    case Err(_) => None
    case Ok(h) =>
      match DeriveKek(c, password, h.salt, h.kdf)
      case Err(_) => None
      case Ok(kek) => UnwrapKey(c, kek, h.wrappedDkPw)
  }

  /** The tree a file holds for the owner of a data key. */
  function TreeIn(c: Primitives, f: bytes, dk: bytes): Result<FileTree> {
    match Parse(c, f, [])
    case Err(e) => Err(e)
    case Ok(h) => Unlocked(c, dk, h.uuid, h.entryCount, f[HEADER_LEN..])
  }

  /** The file opens with the password and holds the tree. */
  predicate Decodes(c: Primitives, f: bytes, password: bytes, t: FileTree) {
    KeyOf(c, f, password).Some? && TreeIn(c, f, KeyOf(c, f, password).value) == Ok(t)
  }

  lemma FinishedHeader(c: Primitives, password: bytes, hmacKey: bytes, opts: LockOptions, r: LockRandom,
                       entries: seq<Entry>, total: u64, source: Source, k: bytes)
    requires c.Ideal() && r.Valid() && |entries| <= U64_MAX && AllFaithful(entries, source)
    ensures var f := Finished(c, password, hmacKey, opts, r, entries, total, source);
            && |f| >= HEADER_LEN && f[HEADER_LEN..] == Body(c, r.dk, r.uuid, r.nonces, entries, source)
            && Parse(c, f, k).Ok?
            && Parse(c, f, k).value.SameMaterial(NewHeader(c, password, opts, r, |entries|, total))
            && Parse(c, f, k).value.lockout == Counters(0, 0)
            && Parse(c, f, k).value.entryCount == |entries| && Parse(c, f, k).value.payloadLen == total
            && Parse(c, f, k).value.uuid == r.uuid && Parse(c, f, k).value.salt == r.salt && Parse(c, f, k).value.kdf == opts.kdf
            && (k == hmacKey ==> Parse(c, f, k).value.hmacOk)
  {
    var h := NewHeader(c, password, opts, r, |entries|, total);
    var f := Finished(c, password, hmacKey, opts, r, entries, total, source);
    WrapWidths(c, password, opts, r, |entries|, total);
    ParseOfPrint(c, h, hmacKey);
    assert f[..HEADER_LEN] == ToBytes(c, h, hmacKey);
    ParseIgnoresKey(c, f, hmacKey, k);
  }

  /** A finished container opens with its password and restores what its entries describe. */
  lemma FinishedOpens(c: Primitives, password: bytes, hmacKey: bytes, opts: LockOptions, r: LockRandom,
                      entries: seq<Entry>, total: u64, source: Source)
    requires c.Ideal() && r.Valid() && |entries| <= U64_MAX
    requires opts.kdf.Validate() && ManifestFits(c, entries) && AllFaithful(entries, source)
    ensures var f := Finished(c, password, hmacKey, opts, r, entries, total, source);
            && KeyOf(c, f, password) == Some(r.dk)
            && TreeIn(c, f, r.dk) == Restored(entries, source, map[])
  {
    hide Body, Unlocked, Restored, AllFaithful, ToBytes;
    FinishedHeader(c, password, hmacKey, opts, r, entries, total, source, []);
    UnwrapInvertsWrap(c, c.argon2(password, r.salt, opts.kdf), r.pwNonce, r.dk);
    UnlockWritten(c, r.dk, r.uuid, r.nonces, entries, source);
  }

  /** The format's numbers: a 268-byte header, one-megabyte chunks, a 256-megabyte manifest at most. */
  lemma FormatNumbers()
    ensures HEADER_LEN == 268 && HMAC_OFFSET == 236 && CHUNK_SIZE == 1048576 && MAX_MANIFEST_LEN == 268435456
    ensures NONCE_LEN == 12 && TAG_LEN == 16 && KEY_LEN == 32 && WRAPPED_KEY_LEN == 60 && MASTER_WRAP_LEN == 92
    ensures MAX_CHUNK_BLOB == 1048592 && VERSION == 1 && MANIFEST_SEQ == 0xFFFF_FFFF_FFFF_FFFF
  {
  }

  /** A file shorter than a header is an input error for everyone who reads it. */
  lemma ShortFileIsIo(c: Primitives, f: bytes, hmacKey: bytes, dk: bytes)
    requires |f| < 268
    ensures Parse(c, f, hmacKey) == Err(Io) && Verified(c, f, hmacKey) == Err(Io) && TreeIn(c, f, dk) == Err(Io)
  {
  }

  // ----- the structural check on finished containers -----

  /** The sum over files of ceil(size / CHUNK_SIZE). */
  function ChunkSum(entries: seq<Entry>): nat {
    if entries == [] then 0
    else (if entries[0].isDir then 0 else ChunkCount(entries[0].size)) + ChunkSum(entries[1..])
  }

  lemma {:induction false} ChunkSumCounts(entries: seq<Entry>, source: Source)
    requires AllFaithful(entries, source)
    ensures |AllChunks(entries, source)| == ChunkSum(entries)
  {
    hide Target;
    if entries == [] {
    } else {
      ChunkSumCounts(entries[1..], source);
      if !entries[0].isDir {
        ChunksOfCount(DataOf(entries[0], source));
      }
    }
  }

  /** The payload is the concatenation of one well-sized frame for each chunk. */
  lemma {:induction false} PayloadFrames(c: Primitives, dk: bytes, uuid: bytes, r: Nonces, chunks: seq<bytes>, i: nat)
    returns (fs: seq<Frame>)
    requires c.IdealAead() && r.Valid() && forall k :: 0 <= k < |chunks| ==> |chunks[k]| <= CHUNK_SIZE
    ensures AllWellSized(fs) && |fs| == |chunks| && Concat(fs) == Payload(c, dk, uuid, r, chunks, i)
    decreases |chunks|
  {
    hide FrameBytes;
    if chunks == [] {
      fs := [];
    } else {
      var tail := PayloadFrames(c, dk, uuid, r, chunks[1..], i + 1);
      SealedWellSized(c, dk, uuid, r, i, chunks[0]);
      fs := [SealedChunk(c, dk, uuid, r, i, chunks[0])] + tail;
      assert fs[1..] == tail;
    }
  }

  lemma {:induction false} ChunksOfShort(data: bytes)
    ensures forall k :: 0 <= k < |ChunksOf(data)| ==> |ChunksOf(data)[k]| <= CHUNK_SIZE
  {
    if |data| <= CHUNK_SIZE {
    } else {
      ChunksOfShort(data[CHUNK_SIZE..]);
    }
  }

  lemma {:induction false} AllChunksShort(entries: seq<Entry>, source: Source)
    requires AllFaithful(entries, source)
    ensures forall k :: 0 <= k < |AllChunks(entries, source)| ==> |AllChunks(entries, source)[k]| <= CHUNK_SIZE
  {
    hide Target;
    if entries == [] {
    } else {
      AllChunksShort(entries[1..], source);
      if !entries[0].isDir {
        ChunksOfShort(DataOf(entries[0], source));
      }
    }
  }

  /** The checker accepts every finished container and counts its chunks; of a prefix it accepts
      exactly the cuts at a frame boundary at or after the end of the manifest. */
  lemma FinishedVerifies(c: Primitives, password: bytes, hmacKey: bytes, opts: LockOptions, r: LockRandom,
                         entries: seq<Entry>, total: u64, source: Source, k: bytes) returns (fs: seq<Frame>)
    requires c.Ideal() && r.Valid() && |entries| <= U64_MAX && ManifestFits(c, entries) && AllFaithful(entries, source)
    ensures var f := Finished(c, password, hmacKey, opts, r, entries, total, source);
            var start := HEADER_LEN + |ManifestFrame(c, r.dk, r.uuid, r.nonces, entries)|;
            && Verified(c, f, k) == Ok(ChunkSum(entries))
            && AllWellSized(fs) && start <= |f| && Concat(fs) == f[start..]
            && forall cut :: 0 <= cut <= |f| ==>
                 (Verified(c, f[..cut], k).Ok? <==> cut >= start && IsBoundary(fs, cut - start))
  {
    hide ToBytes, FromBytes, FrameBytes, ManifestFits, AllFaithful, AllChunks, CountFrames, IsBoundary, Concat,
         ParseFrame, Payload, ManifestFrame;
    var f := Finished(c, password, hmacKey, opts, r, entries, total, source);
    var m := ManifestFrame(c, r.dk, r.uuid, r.nonces, entries);
    var chunks := AllChunks(entries, source);
    FinishedHeader(c, password, hmacKey, opts, r, entries, total, source, k);
    AllChunksShort(entries, source);
    ChunkSumCounts(entries, source);
    fs := PayloadFrames(c, r.dk, r.uuid, r.nonces, chunks, 0);
    CountOfConcat(fs);
    ManifestParses(c, r.dk, r.uuid, r.nonces, entries, Concat(fs));
    assert f[HEADER_LEN..] == m + Concat(fs);
    assert f[HEADER_LEN + |m|..] == Concat(fs);
    forall cut | 0 <= cut <= |f|
      ensures Verified(c, f[..cut], k).Ok? <==> cut >= HEADER_LEN + |m| && IsBoundary(fs, cut - HEADER_LEN - |m|)
    {
      VerifiedCut(c, f, k, m, fs, r, entries, cut);
    }
  }

  lemma VerifiedCut(c: Primitives, f: bytes, k: bytes, m: bytes, fs: seq<Frame>, r: LockRandom, entries: seq<Entry>, cut: nat)
    requires c.IdealAead() && r.Valid() && ManifestFits(c, entries)
    requires m == ManifestFrame(c, r.dk, r.uuid, r.nonces, entries) && AllWellSized(fs)
    requires |f| >= HEADER_LEN && f[HEADER_LEN..] == m + Concat(fs) && Parse(c, f, k).Ok? && cut <= |f|
    ensures Verified(c, f[..cut], k).Ok? <==> cut >= HEADER_LEN + |m| && IsBoundary(fs, cut - HEADER_LEN - |m|)
  {
    hide FromBytes, FrameBytes, CountFrames, IsBoundary, Concat, ParseFrame;
    var g := f[..cut];
    if cut >= HEADER_LEN {
      assert g[..HEADER_LEN] == f[..HEADER_LEN];
      var body := g[HEADER_LEN..];
      var n := cut - HEADER_LEN;
      assert body == (m + Concat(fs))[..n];
      CutConcat(m, Concat(fs), n);
      if n < |m| {
        var fr := Frame(r.nonces.manifest, c.seal(r.dk, r.nonces.manifest, Aad(r.uuid, MANIFEST_SEQ), c.serialize(entries)));
        ManifestParses(c, r.dk, r.uuid, r.nonces, entries, []);
        CutFrameFails(fr, MAX_MANIFEST_LEN, n);
      } else {
        ManifestParses(c, r.dk, r.uuid, r.nonces, entries, Concat(fs)[..n - |m|]);
        AcceptedPrefixes(fs, n - |m|);
      }
    }
  }

  /** No strict prefix of a finished container gives up a tree, not even under its own key. */
  lemma CutFileFails(c: Primitives, password: bytes, hmacKey: bytes, opts: LockOptions, r: LockRandom,
                     entries: seq<Entry>, total: u64, source: Source, cut: nat)
    requires c.Ideal() && r.Valid() && |entries| <= U64_MAX && ManifestFits(c, entries) && AllFaithful(entries, source)
    requires cut < |Finished(c, password, hmacKey, opts, r, entries, total, source)|
    ensures TreeIn(c, Finished(c, password, hmacKey, opts, r, entries, total, source)[..cut], r.dk).Err?
  {
    hide ToBytes, FromBytes, ManifestFits, AllFaithful, Unlocked, Body;
    var f := Finished(c, password, hmacKey, opts, r, entries, total, source);
    FinishedHeader(c, password, hmacKey, opts, r, entries, total, source, []);
    if cut >= HEADER_LEN {
      assert f[..cut][..HEADER_LEN] == f[..HEADER_LEN];
      assert f[..cut][HEADER_LEN..] == f[HEADER_LEN..][..cut - HEADER_LEN];
      UnlockCutBody(c, r.dk, r.uuid, r.nonces, entries, source, cut - HEADER_LEN);
    }
  }
}
