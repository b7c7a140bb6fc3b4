/** The hypotheses of the integrity theorem, and the gap in the clamp, on concrete containers. */
module Witness {
  import opened Bytes
  import opened Entries
  import opened Paths
  import opened Crypto
  import opened Lockout
  import opened Header
  import opened Frames
  import opened Container
  import opened ContainerProofs
  import opened Walk
  import opened WalkProofs
  import opened WalkComplete
  import opened ContainerFile
  import opened Authorize
  import opened AttemptRuns
  import opened Protocol
  import opened Vault
  import I = Instance

  /** What one writer has sealed. */
  datatype Sealed = Sealed(dk: bytes, uuid: bytes, nonces: Nonces, manifest: bytes, chunks: seq<bytes>)

  predicate IsChunk(x: Sealed, i: nat, n: bytes, a: bytes, p: bytes) {
    i < |x.chunks| && n == x.nonces.chunk(i) && a == ChunkAad(x.uuid, i) && p == x.chunks[i]
  }

  predicate Has(x: Sealed, k: bytes, n: bytes, a: bytes, p: bytes) {
    && k == x.dk
    && (|| (n == x.nonces.manifest && a == Aad(x.uuid, MANIFEST_SEQ) && p == x.manifest)
        || exists i: nat :: i < |x.chunks| && IsChunk(x, i, n, a, p))
  }

  /** The tag of everything the writer has not sealed. */
  function Mark(): bytes { seq(TAG_LEN, i => 170) }

  function TagOf(x: Sealed, k: bytes, n: bytes, a: bytes, p: bytes): (r: bytes)
    ensures |r| == TAG_LEN
  {
    if Has(x, k, n, a, p) then Zeros(TAG_LEN) else Mark()
  }

  function OpenWith(x: Sealed, k: bytes, n: bytes, a: bytes, b: bytes): Option<bytes> {
    if |b| < TAG_LEN then None
    else
      var p := b[..|b| - TAG_LEN];
      if b[|b| - TAG_LEN..] == TagOf(x, k, n, a, p) then Some(p) else None
  }

  /** Primitives whose AEAD knows what the writer sealed, and whose MAC shows its key. */
  function Knowing(x: Sealed): Primitives {
    Primitives(
      (k: bytes, n: bytes, a: bytes, p: bytes) => p + TagOf(x, k, n, a, p),
      (k: bytes, n: bytes, a: bytes, b: bytes) => OpenWith(x, k, n, a, b),
      (k: bytes, m: bytes) => if |k| == 32 then k else Zeros(32),
      (m: bytes) => Zeros(32),
      (p: bytes, s: bytes, q: KdfParams) => Zeros(32),
      (s: bytes) => Zeros(32),
      (s: bytes, t: bytes) => Zeros(32),
      (es: seq<Entry>) => I.PutAll(es),
      (b: bytes) => I.GetAll(b))
  }

  lemma OpensWhatItSealed(x: Sealed, k: bytes, k': bytes, n: bytes, a: bytes, p: bytes)
    ensures OpenWith(x, k, n, a, p + TagOf(x, k, n, a, p)) == Some(p)
    ensures OpenWith(x, k', n, a, p + TagOf(x, k, n, a, p)) in {None, Some(p)}
  {
    hide Has, TagOf;
    var b := p + TagOf(x, k, n, a, p);
    assert b[..|p|] == p && b[|p|..] == TagOf(x, k, n, a, p);
  }

  lemma KnowingIsIdeal(x: Sealed)
    ensures Knowing(x).Ideal() && Knowing(x).Binding()
  {
    hide Has, OpenWith, TagOf;
    var c := Knowing(x);
    forall k, n, a, p ensures c.open(k, n, a, c.seal(k, n, a, p)) == Some(p) {
      OpensWhatItSealed(x, k, k, n, a, p);
    }
    forall k, n, a, b ensures c.open(k, n, a, b).Some? ==> |b| == |c.open(k, n, a, b).value| + TAG_LEN {
      OpensShorter(x, k, n, a, b);
    }
    forall k, k', n, a, p | c.open(k', n, a, c.seal(k, n, a, p)).Some? ensures c.open(k', n, a, c.seal(k, n, a, p)) == Some(p) {
      OpensWhatItSealed(x, k, k', n, a, p);
    }
    forall es ensures c.deserialize(c.serialize(es)) == Some(es) {
      I.GetPutAll(es);
    }
  }

  lemma OpensShorter(x: Sealed, k: bytes, n: bytes, a: bytes, b: bytes)
    ensures OpenWith(x, k, n, a, b).Some? ==> |b| == |OpenWith(x, k, n, a, b).value| + TAG_LEN
  {
  }

  /** The stream does not hold the mark anywhere. */
  ghost predicate Unmarked(s: bytes) {
    forall i, j :: 0 <= i && j == i + TAG_LEN <= |s| ==> s[i..j] != Mark()
  }

  /** In a stream without the mark nothing is forged, whatever else it holds and whatever container it
      is presented as. */
  lemma UnmarkedIsUnforged(x: Sealed, uuid': bytes, s: bytes)
    requires Unmarked(s)
    ensures NothingForged(Knowing(x), x.dk, x.uuid, x.manifest, x.chunks, uuid', s)
  {
    hide Has, Aad;
    forall lo, i | 0 <= lo <= |s| && 0 <= i <= U64_MAX
      ensures FrameGenuine(Knowing(x), x.dk, x.uuid, x.manifest, x.chunks, uuid', s, lo, i)
    {
      UnmarkedFrame(x, uuid', s, lo, i);
    }
  }

  lemma UnmarkedFrame(x: Sealed, uuid': bytes, s: bytes, lo: nat, i: nat)
    requires Unmarked(s) && lo <= |s|
    ensures FrameGenuine(Knowing(x), x.dk, x.uuid, x.manifest, x.chunks, uuid', s, lo, i)
  {
    var p := ParseFrame(s[lo..], MAX_MANIFEST_LEN);
    if p.Parsed? {
      var n := lo + |p.frame.blob|;
      assert p.frame.blob == s[lo + 16..n + 16];
      assert p.frame.blob[|p.frame.blob| - TAG_LEN..] == s[n..n + TAG_LEN];
    }
  }

  // ----- one container -----

  /** Contains no byte of the mark. */
  ghost predicate Clean(s: bytes) {
    forall i :: 0 <= i < |s| ==> s[i] != 170
  }

  lemma CleanIsUnmarked(s: bytes)
    requires Clean(s)
    ensures Unmarked(s)
  {
    forall i, j | 0 <= i && j == i + TAG_LEN <= |s| ensures s[i..j] != Mark() {
      assert s[i..j][0] == s[i] && Mark()[0] == 170;
    }
  }

  lemma CleanConcat(a: bytes, b: bytes)
    requires Clean(a) && Clean(b)
    ensures Clean(a + b)
  {
  }

  lemma {:induction false} CleanNumber(n: nat, w: nat)
    requires n < 170
    ensures Clean(LE(n, w))
  {
    forall i | 0 <= i < w ensures (n / Pow256(i)) % 256 != 170 {
      if i == 0 {
        assert Pow256(0) == 1;
      } else {
        SmallQuotient(n, Pow256(i - 1));
      }
    }
  }

  lemma SmallQuotient(n: nat, p: nat)
    requires n < 170 && p > 0
    ensures n / (256 * p) == 0
  {
    DivDiv(n, p);
  }

  const ROOT: seq<Item> := [FileItem("f", [7], 0, false)]
  const TREE: FileTree := map[["f"] := FileNode([7], false)]
  function Draws(): Nonces { Nonces(Zeros(NONCE_LEN), (i: nat) => Zeros(NONCE_LEN)) }

  const ENTRIES: seq<Entry> := [Entry("f", 1, 0, false, false)]

  function Written(): Sealed {
    Sealed(Zeros(KEY_LEN), Zeros(16), Draws(), I.PutAll(ENTRIES), [[7]])
  }

  function Random(): LockRandom {
    LockRandom(Zeros(16), Zeros(16), Zeros(KEY_LEN), Zeros(NONCE_LEN), [], Zeros(NONCE_LEN), Draws())
  }

  function Lock(): Scanned {
    Scanned(ROOT, LockOptions(KdfParams(1024, 1, 1), None), Random())
  }

  lemma OneFile(root: seq<Item>, item: Item)
    requires root == [item] && item.FileItem? && IsFileName(item.name)
    ensures var v := Visit([item.name], NodeOf(item), item.mtime);
            && Visits(root) == [v] && WellFormed(root) && !HasLink(root) && TotalBytes(root) == |item.data|
            && Shows(root, map[v.path := v.node])
  {
    hide ListedAt, AllFileNames;
    var p: Path := [item.name];
    var v := Visit(p, NodeOf(item), item.mtime);
    assert [] + p == p && root[..0] == [];
    forall dirs ensures VisitAll([], root, dirs) == if dirs then [] else [v] {
      assert VisitAll([], root, dirs) == [] + VisitItem([], item, dirs);
    }
    assert [] + [v] == [v];
    OneTree(root, v);
  }

  lemma OneTree(root: seq<Item>, v: Visit)
    requires Visits(root) == [v] && WellFormed(root)
    ensures Shows(root, map[v.path := v.node])
  {
    hide Visits, Shows, WellFormed;
    ContentsAreListed(root);
    assert [v][..0] == [] && TreeOf([]) == map[];
    assert TreeOf([v]) == map[][v.path := v.node];
  }

  lemma RootVisits()
    ensures Visits(ROOT) == [Visit(["f"], FileNode([7], false), 0)]
    ensures WellFormed(ROOT) && !HasLink(ROOT) && TotalBytes(ROOT) == 1
    ensures Shows(ROOT, TREE)
  {
    hide Visits, Shows, WellFormed, HasLink, TotalBytes;
    OneFile(ROOT, FileItem("f", [7], 0, false));
  }

  lemma NameIsSafe()
    ensures AllSafe(["f"])
  {
    assert "f"[1..] == "";
    assert Paths.Stem("f") == "f";
    assert AsciiUpper("f") == "F";
    assert forall i :: 0 <= i < |RESERVED_NAMES| ==> |RESERVED_NAMES[i]| >= 3;
    assert ["f"][0] == "f";
  }

  lemma LockEntries()
    ensures Sized(Visits(ROOT)) && Lock().Entries() == ENTRIES
  {
    RootVisits();
    var v := Visit(["f"], FileNode([7], false), 0);
    assert Visits(ROOT)[0] == v;
    assert EntriesOf(Visits(ROOT))[0] == EntryOf(v) == ENTRIES[0];
  }

  lemma ManifestIsSmall()
    ensures I.PutAll(ENTRIES) == [1] + I.PutEntry(ENTRIES[0]) + [0]
    ensures |I.PutAll(ENTRIES)| == 25 && Clean(I.PutAll(ENTRIES))
  {
    var e := ENTRIES[0];
    assert ENTRIES[1..] == [];
    assert "f"[1..] == "" && I.PutString("") == [0];
    assert I.PutString("f") == [1] + LE(102, 3) + [0];
    CleanNumber(102, 3);
    CleanConcat([1], LE(102, 3));
    CleanConcat([1] + LE(102, 3), [0]);
    CleanNumber(1, 8);
    CleanNumber(0, 8);
    CleanConcat(LE(1, 8), LE(0, 8));
    CleanConcat(LE(1, 8) + LE(0, 8), [0, 0]);
    CleanConcat(I.PutString("f"), LE(1, 8) + LE(0, 8) + [0, 0]);
    CleanConcat([1], I.PutEntry(e));
    CleanConcat([1] + I.PutEntry(e), [0]);
  }

  lemma LockWritable()
    ensures Lock().Writable(Knowing(Written()), TREE)
    ensures NamesSafe(TREE, true)
  {
    hide Shows, Visits, Knowing, WellFormed, HasLink, AllFaithful, AllSafe, IsSafeComponent;
    RootVisits();
    LockEntries();
    NameIsSafe();
    ManifestIsSmall();
    KnowsManifest();
    RestoredIsShown(ROOT, TREE);
    assert NamesSafe(TREE, false);
  }

  lemma KnowsManifest()
    ensures Knowing(Written()).serialize(ENTRIES) == I.PutAll(ENTRIES)
  {
  }

  lemma OneChunk(entries: seq<Entry>, e: Entry, source: Source)
    requires entries == [e] && !e.isDir && AllFaithful(entries, source) && 0 < |DataOf(e, source)| <= CHUNK_SIZE
    ensures AllChunks(entries, source) == [DataOf(e, source)]
  {
    hide Target;
    var d := DataOf(e, source);
    assert entries[1..] == [];
    assert ChunksOf(d) == [d] && AllChunks(entries[1..], source) == [];
    assert [d] + [] == [d];
  }

  lemma LockChunks()
    requires AllFaithful(ENTRIES, SourceOf(TREE))
    ensures AllChunks(ENTRIES, SourceOf(TREE)) == [[7]]
  {
    hide AllChunks, AllSafe, AllFaithful, Joined;
    var e, p := ENTRIES[0], ["f"];
    NameIsSafe();
    assert RelPath(p) == "f";
    assert AllFileNames(p);
    JoinInvertsRelPath([], p);
    assert [] + p == p;
    assert Target(e) == Ok(p);
    FaithfulHead(ENTRIES, SourceOf(TREE));
    assert DataOf(e, SourceOf(TREE)) == [7];
    OneChunk(ENTRIES, e, SourceOf(TREE));
  }

  lemma FaithfulHead(entries: seq<Entry>, source: Source)
    requires entries != [] && !entries[0].isDir && AllFaithful(entries, source)
    ensures Faithful(entries[0], source)
  {
    hide Faithful;
  }

  lemma CleanFrame(n: bytes, plain: bytes)
    requires Clean(n) && Clean(plain) && |plain| < 150
    ensures Clean(FrameBytes(Frame(n, plain + Zeros(TAG_LEN))))
  {
    CleanConcat(plain, Zeros(TAG_LEN));
    CleanNumber(|plain| + TAG_LEN, 4);
    CleanConcat(n, LE(|plain| + TAG_LEN, 4));
    CleanConcat(n + LE(|plain| + TAG_LEN, 4), plain + Zeros(TAG_LEN));
  }

  lemma BodyIsClean()
    requires AllFaithful(ENTRIES, SourceOf(TREE))
    ensures Clean(Body(Knowing(Written()), Written().dk, Written().uuid, Draws(), ENTRIES, SourceOf(TREE)))
  {
    hide FrameBytes, AllChunks, Aad, Clean;
    var c := Knowing(Written());
    var m := I.PutAll(ENTRIES);
    ManifestIsSmall();
    KnowsManifest();
    LockChunks();
    ZerosAreClean(NONCE_LEN);
    SevenIsClean();
    CleanFrame(Zeros(NONCE_LEN), m);
    CleanFrame(Zeros(NONCE_LEN), [7]);
    SealsManifest();
    SealsChunk();
    var f := SealedChunk(c, Written().dk, Written().uuid, Draws(), 0, [7]);
    assert Payload(c, Written().dk, Written().uuid, Draws(), [[7]], 0) == FrameBytes(f) by {
      assert [[7]][1..] == [];
      assert FrameBytes(f) + [] == FrameBytes(f);
    }
    CleanConcat(FrameBytes(Frame(Zeros(NONCE_LEN), m + Zeros(TAG_LEN))), FrameBytes(f));
  }

  lemma ZerosAreClean(n: nat)
    ensures Clean(Zeros(n))
  {
  }

  lemma SevenIsClean()
    ensures Clean([7])
  {
  }

  lemma SealsManifest()
    ensures Knowing(Written()).seal(Written().dk, Draws().manifest, Aad(Written().uuid, MANIFEST_SEQ), I.PutAll(ENTRIES))
            == I.PutAll(ENTRIES) + Zeros(TAG_LEN)
  {
    hide Aad, I.PutAll;
  }

  lemma SealsChunk()
    ensures SealedChunk(Knowing(Written()), Written().dk, Written().uuid, Draws(), 0, [7])
            == Frame(Zeros(NONCE_LEN), [7] + Zeros(TAG_LEN))
  {
    hide Aad, I.PutAll;
    assert Written().chunks[0] == [7] && Draws().chunk(0) == Zeros(NONCE_LEN);
    assert IsChunk(Written(), 0, Draws().chunk(0), ChunkAad(Written().uuid, 0), [7]);
  }

  /** The integrity theorem speaks of containers that exist: this one of a folder with one file, as it
      was finished, meets all that the theorem asks for. */
  lemma IntegrityIsNotVacuous(password: bytes, hmacKey: bytes)
    ensures var c, w := Knowing(Written()), Lock();
            && c.Ideal() && w.Writable(c, TREE) && TotalBytes(w.root) < U64_MAX
            && var f := w.File(c, password, hmacKey, TREE);
            && BodyUnforged(c, w, TREE, f) && TreeIn(c, f, w.random.dk) == Ok(TREE)
            && WrapUnforged(c, w, Password(password), f)
  {
    hide Knowing, Shows, Visits, AllFaithful, Finished, Body, NothingForged, TreeIn, KeyOf, FromBytes, Clean, AllChunks, SourceOf,
         WrapUnforged;
    var c, w := Knowing(Written()), Lock();
    KnowingIsIdeal(Written());
    RootVisits();
    LockWritable();
    LockEntries();
    KnowsManifest();
    LockedTreeComesBack(c, w, TREE, password, hmacKey);
    OwnWrapIsUnforged(c, w, password, w.File(c, password, hmacKey, TREE));
    FinishedHeader(c, password, hmacKey, w.opts, w.random, ENTRIES, WrapU64(TotalBytes(ROOT)), SourceOf(TREE), []);
    LockChunks();
    BodyIsClean();
    var body := Body(c, Written().dk, Written().uuid, Draws(), ENTRIES, SourceOf(TREE));
    CleanIsUnmarked(body);
    UnmarkedIsUnforged(Written(), Written().uuid, body);
  }

  // ----- an expired deadline in a foreign header -----

  /** A header another install wrote: two failures, and a deadline long past. */
  function Foreign(): Header {
    Header(Zeros(16), Zeros(16), KdfParams(1024, 1, 1), Zeros(WRAPPED_KEY_LEN), Zeros(MASTER_WRAP_LEN), Counters(2, 1), 0, 0, true)
  }

  function Here(): bytes { Zeros(32) }

  function There(): bytes { seq(32, i => 1) }

  /** One wrong password at any sane time after the deadline is recorded and the next one is allowed
      at once, where one attempt was to be left. */
  lemma ExpiredDeadlineReopens(now: u64)
    requires 1 <= now <= LAST_SANE_CLOCK
    ensures var c := Knowing(Written());
            c.Ideal()
            && var f, t := ToBytes(c, Foreign(), There()), Try(Password([]), now);
               var g := Attempt(c, f, t.cred, Here(), now).file;
            && Parse(c, f, Here()).Ok? && !Parse(c, f, Here()).value.hmacOk && Records(c, f, t, Here())
            && Parse(c, g, Here()).Ok? && Permits(Parse(c, g, Here()).value.lockout, now)
  {
    hide Knowing, ToBytes, FromBytes, Attempt, Permits;
    var c := Knowing(Written());
    KnowingIsIdeal(Written());
    ForeignParses();
    var f, t := ToBytes(c, Foreign(), There()), Try(Password([]), now);
    ForeignRecords(now);
    ForeignHeaderArms(c, f, t, Here());
  }

  lemma ForeignParses()
    ensures var c := Knowing(Written());
            c.Ideal()
            && var f := ToBytes(c, Foreign(), There());
               var p := Parse(c, f, Here());
            && p.Ok? && !p.value.hmacOk && p.value.lockout == Counters(2, 1) && p.value.SameMaterial(Foreign())
  {
    hide ToBytes, FromBytes, Knowing;
    var c := Knowing(Written());
    KnowingIsIdeal(Written());
    var f := ToBytes(c, Foreign(), There());
    ParseOfPrint(c, Foreign(), There());
    assert f[..HEADER_LEN] == f;
    ParseIgnoresKey(c, f, There(), Here());
    Layout(c, Foreign(), There());
    MacShowsKey(Front(Foreign()) + Back(Foreign()));
    MacOfParse(c, f, Here());
  }

  lemma MacShowsKey(m: bytes)
    ensures Knowing(Written()).mac(There(), m) == There() && Knowing(Written()).mac(Here(), m) == Here()
    ensures There() != Here()
  {
    assert There()[0] == 1 && Here()[0] == 0;
  }

  lemma MacOfParse(c: Primitives, f: bytes, k: bytes)
    requires |f| == HEADER_LEN && Parse(c, f, k).Ok?
    ensures Parse(c, f, k).value.hmacOk <==> f[HMAC_OFFSET..] == c.mac(k, f[..HMAC_OFFSET])
  {
    assert f[..HEADER_LEN] == f;
  }

  lemma ForeignRecords(now: u64)
    requires 1 <= now
    ensures Records(Knowing(Written()), ToBytes(Knowing(Written()), Foreign(), There()), Try(Password([]), now), Here())
  {
    hide ToBytes, FromBytes, Knowing;
    ForeignParses();
    ForeignWrapStaysShut();
  }

  lemma ForeignWrapStaysShut()
    ensures UnwrapKey(Knowing(Written()), Knowing(Written()).argon2([], Zeros(16), KdfParams(1024, 1, 1)), Zeros(WRAPPED_KEY_LEN)).None?
  {
    var b := Zeros(WRAPPED_KEY_LEN)[NONCE_LEN..];
    assert b[|b| - TAG_LEN..][0] == 0 && Mark()[0] == 170;
    assert |Aad(Written().uuid, MANIFEST_SEQ)| == 24;
    assert forall i :: |ChunkAad(Written().uuid, i)| == 24;
  }
}
