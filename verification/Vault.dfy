/** `lock_folder` and `unlock_container`: the operations as the caller sees them. */
module Vault {
  import opened Bytes
  import opened Entries
  import opened Paths
  import opened Crypto
  import opened Lockout
  import opened Header
  import opened Frames
  import opened Container
  import opened ContainerProofs
  import opened ContainerIO
  import opened Walk
  import opened WalkProofs
  import opened WalkComplete
  import opened ContainerFile
  import opened Authorize
  import opened Journal
  import opened Protocol
  import opened ProtocolProofs
  import R = RecoveryCodeProofs

  /** Up to the one path and what lies below it, both disks are the same. */
  predicate SameBut(d1: Disk, d2: Disk, p: string) {
    Without(d1, {p}) == Without(d2, {p})
  }

  /** Deleting one path and writing another can be done in either order. */
  lemma DeleteThenWrite(d: Disk, p: string, q: string, o: Object)
    requires !Covers(p, q)
    ensures Without(d[q := o], {p}) == Without(d, {p})[q := o]
  {
    hide Covers;
    var a, b := Without(d[q := o], {p}), Without(d, {p})[q := o];
    forall x ensures x in a <==> x in b {
      WithoutOne(d[q := o], p, x);
      WithoutOne(d, p, x);
    }
  }

  /** What is at or below a path does not matter to the disk without it. */
  lemma DeleteAfterWrite(d: Disk, p: string, o: Object)
    ensures Without(d[p := o], {p}) == Without(d, {p})
    ensures Without(Without(d, {p}), {p}) == Without(d, {p})
  {
    hide Covers;
    CoversItself(p);
    var a, b := Without(d[p := o], {p}), Without(d, {p});
    forall x ensures x in a <==> x in b {
      WithoutOne(d[p := o], p, x);
      WithoutOne(d, p, x);
    }
    WithoutTwice(d, {p}, {p});
    assert {p} + {p} == {p};
  }

  lemma DeleteIsGone(d: Disk, p: string)
    ensures p !in Without(d, {p})
  {
    hide Without, Covers;
    CoversItself(p);
    WithoutOne(d, p, p);
  }

  /** The disk after a lock: the container is there, and the folder is gone or what a failing delete
      left of it. */
  function LockedDisk(e: Setup, d: Disk, file: Object, left: Option<FileTree>): Disk {
    var d1 := Without(d, {e.LockStaging()});
    (if left.Some? then d1[e.folder := DirObject(left.value)] else Without(d1, {e.folder}))[e.Container() := file]
  }

  /** From the journal record to its removal: the source goes only after the container is in place.
      `left` is what a failing delete leaves of the folder. */
  method CommitLock(files: Files, e: Setup, u: string, left: Option<FileTree>) returns (r: Result<string>)
    requires e.LockStaging() in files.disk && u !in files.journal
    modifies files
    ensures r == if left.None? then Ok(e.Container()) else Err(Io)
    ensures files.disk == LockedDisk(e, old(files.disk), old(files.disk)[e.LockStaging()], left)
    ensures files.journal == if left.None? then old(files.journal) else old(files.journal)[u := Readable(e.LockRecord())]
  {
    hide Without, Covers, Setup.Container, Setup.LockStaging, Setup.UnlockStaging;
    NamesApart(e);
    PathsOfSlots(e);
    ghost var d, file := files.disk, files.disk[e.LockStaging()];
    files.journal := files.journal[u := Readable(e.LockRecord())];
    files.disk := Without(files.disk, {e.LockStaging()})[e.Container() := files.disk[e.LockStaging()]];
    if left.Some? {
      files.disk := files.disk[e.folder := DirObject(left.value)];
      return Err(Io);
    }
    DeleteThenWrite(Without(d, {e.LockStaging()}), e.folder, e.Container(), file);
    files.disk := Without(files.disk, {e.folder});
    files.journal := files.journal - {u};
    return Ok(e.Container());
  }

  /** Does the writer get everything it needs? */
  ghost predicate Lockable(e: Setup, d: Disk, w: Scanned, source: Source)
    requires Sized(Visits(w.root))
  {
    && e.Container() !in d && !IsDir(Found(d, e.LockStaging())) && !HasLink(w.root)
    && w.opts.kdf.Validate() && ManifestFits(e.c, w.Entries()) && AllFaithful(w.Entries(), source)
  }

  /** Lock the folder. `source` is what its files show when they are read, which need not be what
      they showed when it was scanned. Whatever fails before the rename leaves the source untouched
      and no container behind; in particular any file that was not copied whole does. A delete that
      fails after it leaves both copies and the record for recovery. */
  method LockFolder(files: Files, e: Setup, w: Scanned, source: Source, password: bytes, u: string, left: Option<FileTree>)
    returns (r: Result<string>)
    requires e.c.Ideal() && w.random.Valid() && Sized(Visits(w.root)) && |w.Entries()| <= U64_MAX
    requires u !in files.journal
    modifies files
    ensures r.Ok? <==> Lockable(e, old(files.disk), w, source) && left.None?
    ensures r.Ok? ==> r.value == e.Container()
    ensures !Lockable(e, old(files.disk), w, source) ==>
              && files.journal == old(files.journal)
              && (if e.Container() in old(files.disk) || IsDir(Found(old(files.disk), e.LockStaging()))
                  then files.disk == old(files.disk)
                  else SameBut(files.disk, old(files.disk), e.LockStaging()) && e.LockStaging() !in files.disk)
              && r == Err(if e.Container() in old(files.disk) then Exists(e.Container())
                          else if IsDir(Found(old(files.disk), e.LockStaging())) then Io
                          else if HasLink(w.root) then Unsupported
                          else if !w.opts.kdf.Validate() then Tampered
                          else if !ManifestFits(e.c, w.Entries()) then Other
                          else FirstFault(w.Entries(), source))
    ensures Lockable(e, old(files.disk), w, source) ==>
              && files.disk == LockedDisk(e, old(files.disk), FileObject(
                   Finished(e.c, password, e.hmacKey, w.opts, w.random, w.Entries(), WrapU64(TotalBytes(w.root)), source)), left)
              && files.journal == if left.None? then old(files.journal) else old(files.journal)[u := Readable(e.LockRecord())]
  {
    hide ToBytes, Body, AllFaithful, FromBytes, Without, Covers, Setup.Container, Setup.LockStaging, Setup.UnlockStaging;
    NamesApart(e);
    PathsOfSlots(e);
    ghost var d := files.disk;
    if e.Container() in files.disk {
      return Err(Exists(e.Container()));
    }
    if e.LockStaging() in files.disk {
      if files.disk[e.LockStaging()].DirObject? {
        return Err(Io);
      }
      DeleteIsGone(files.disk, e.LockStaging());
      DeleteAfterWrite(files.disk, e.LockStaging(), files.disk[e.LockStaging()]);
      files.disk := Without(files.disk, {e.LockStaging()});
    }
    var walker := new Walker();
    var scan := walker.Scan(w.root);
    if scan.Err? {
      return Err(scan.error);
    }
    var written := WriteContainer(e.c, password, e.hmacKey, w.opts, w.random, scan.value.entries, scan.value.totalBytes, source);
    if written.Err? {
      DeleteIsGone(files.disk, e.LockStaging());
      DeleteAfterWrite(files.disk, e.LockStaging(), FileObject([]));
      files.disk := Without(files.disk, {e.LockStaging()});
      return Err(written.error);
    }
    DeleteAfterWrite(files.disk, e.LockStaging(), FileObject(written.value));
    files.disk := files.disk[e.LockStaging() := FileObject(written.value)];
    r := CommitLock(files, e, u, left);
  }

  /** What a body's manifest says for the owner of a data key. */
  function Manifest(c: Primitives, dk: bytes, h: Header, body: bytes): Result<seq<Entry>> {
    match ParseFrame(body, MAX_MANIFEST_LEN)
    case Failed(x) => Err(x)
    case Parsed(f, _) =>
      match c.open(dk, f.nonce, Aad(h.uuid, MANIFEST_SEQ), f.blob)
      case None => Err(Tampered)
      case Some(m) =>
        var es := c.deserialize(m);
        if es.Some? && |es.value| == h.entryCount then Ok(es.value) else Err(Tampered)
  }

  /** The manifest, once the key is known; the reader is left at the first chunk. */
  method OpenManifest(c: Primitives, dk: bytes, h: Header, rd: Reader) returns (entries: Result<seq<Entry>>)
    modifies rd
    ensures entries == Manifest(c, dk, h, old(rd.rest))
    ensures var t := Unlocked(c, dk, h.uuid, h.entryCount, old(rd.rest));
            match entries
            case Err(x) => t == Err(x)
            case Ok(es) => t == Extract(c, dk, h.uuid, es, map[], rd.rest, 0)
  {
    var manifest := rd.ReadFrameInto(MAX_MANIFEST_LEN);
    if manifest.Err? {
      return Err(manifest.error);
    }
    var plain := c.open(dk, manifest.value.nonce, Aad(h.uuid, MANIFEST_SEQ), manifest.value.blob);
    if plain.None? {
      return Err(Tampered);
    }
    var es := c.deserialize(plain.value);
    if es.None? || |es.value| != h.entryCount {
      return Err(Tampered);
    }
    return Ok(es.value);
  }

  /** The disk after an unlock: the folder is there, and the container gone or, if it is stuck, not. */
  function UnlockedDisk(e: Setup, d: Disk, t: Object, stuck: bool): Disk {
    var d1 := Without(d, {e.UnlockStaging()});
    (if stuck then d1 else Without(d1, {e.Container()}))[e.folder := t]
  }

  /** From the journal record to its removal: the container goes only after the folder is in place.
      `stuck` says that it cannot be deleted. */
  method CommitUnlock(files: Files, e: Setup, u: string, stuck: bool) returns (r: Result<string>)
    requires e.UnlockStaging() in files.disk && u !in files.journal
    modifies files
    ensures r == if stuck then Err(Io) else Ok(e.folder)
    ensures files.disk == UnlockedDisk(e, old(files.disk), old(files.disk)[e.UnlockStaging()], stuck)
    ensures files.journal == if stuck then old(files.journal)[u := Readable(e.UnlockRecord())] else old(files.journal)
  {
    hide Without, Covers, Setup.Container, Setup.LockStaging, Setup.UnlockStaging;
    NamesApart(e);
    PathsOfSlots(e);
    ghost var d, t := files.disk, files.disk[e.UnlockStaging()];
    files.journal := files.journal[u := Readable(e.UnlockRecord())];
    files.disk := Without(files.disk, {e.UnlockStaging()})[e.folder := files.disk[e.UnlockStaging()]];
    if stuck {
      return Err(Io);
    }
    DeleteThenWrite(Without(d, {e.UnlockStaging()}), e.Container(), e.folder, t);
    files.disk := Without(files.disk, {e.Container()});
    files.journal := files.journal - {u};
    return Ok(e.folder);
  }

  /** Extraction into the staging directory, if the destination is free. If it fails nothing is left of
      the staging directory, not even what was there before. */
  method RestoreTo(files: Files, e: Setup, dk: bytes, uuid: bytes, rd: Reader, entries: seq<Entry>) returns (r: Result<()>)
    modifies files, rd
    ensures var d, t := old(files.disk), Extract(e.c, dk, uuid, entries, map[], old(rd.rest), 0);
            if e.folder in d then r == Err(Exists(e.folder)) && files.disk == d
            else if IsFile(Found(d, e.UnlockStaging())) then r == Err(Io) && files.disk == d
            else match t
                 case Err(x) => r == Err(x) && files.disk == Without(d, {e.UnlockStaging()})
                 case Ok(tree) =>
                   && r == Ok(()) && Found(files.disk, e.UnlockStaging()) == Some(DirObject(tree))
                   && SameBut(files.disk, d, e.UnlockStaging())
    ensures files.journal == old(files.journal)
  {
    hide Extract, Without, Setup.UnlockStaging;
    ghost var d := files.disk;
    if e.folder in files.disk {
      return Err(Exists(e.folder));
    }
    if e.UnlockStaging() in files.disk {
      if files.disk[e.UnlockStaging()].FileObject? {
        return Err(Io);
      }
      DeleteAfterWrite(files.disk, e.UnlockStaging(), files.disk[e.UnlockStaging()]);
      files.disk := Without(files.disk, {e.UnlockStaging()});
    }
    DeleteAfterWrite(files.disk, e.UnlockStaging(), DirObject(map[]));
    files.disk := files.disk[e.UnlockStaging() := DirObject(map[])];
    var tree := ExtractEntries(e.c, dk, uuid, rd, entries);
    if tree.Err? {
      files.disk := Without(files.disk, {e.UnlockStaging()});
      return Err(tree.error);
    }
    DeleteAfterWrite(files.disk, e.UnlockStaging(), DirObject(tree.value));
    files.disk := files.disk[e.UnlockStaging() := DirObject(tree.value)];
    return Ok(());
  }

  /** Is the way free and the whole body authentic? */
  ghost predicate Unlockable(e: Setup, d: Disk, a: Outcome, f: bytes) {
    && a.result.Ok? && e.folder !in d && !IsFile(Found(d, e.UnlockStaging()))
    && TreeIn(e.c, f, a.result.value.dk).Ok?
  }

  function ManifestIn(c: Primitives, f: bytes, dk: bytes): Result<seq<Entry>> {
    match Parse(c, f, [])
    case Err(x) => Err(x)
    case Ok(h) => Manifest(c, dk, h, f[HEADER_LEN..])
  }

  /** Unlock the container of the folder. Whatever fails before the rename leaves the container in
      place, with its counters as the attempt left them, and never a half-restored folder: staging is
      what it was or, once extraction has begun, gone. A container that cannot be deleted after the
      rename stays, with the record for recovery. */
  method UnlockContainer(files: Files, e: Setup, cred: Credential, now: u64, u: string, stuck: bool)
    returns (r: Result<string>)
    requires e.c.Ideal() && IsFile(Found(files.disk, e.Container())) && u !in files.journal
    modifies files
    ensures var f := old(files.disk)[e.Container()].data;
            var a := Attempt(e.c, f, cred, e.hmacKey, now);
            r.Ok? <==> Unlockable(e, old(files.disk), a, f) && !stuck
    ensures var f := old(files.disk)[e.Container()].data;
            var a := Attempt(e.c, f, cred, e.hmacKey, now);
            var d := old(files.disk)[e.Container() := FileObject(a.file)];
            match a.result
            case Err(x) => r == Err(x) && files.disk == d
            case Ok(access) =>
              var m := ManifestIn(e.c, f, access.dk);
              if m.Err? then r == Err(m.error) && files.disk == d
              else if e.folder in old(files.disk) then r == Err(Exists(e.folder)) && files.disk == d
              else if IsFile(Found(d, e.UnlockStaging())) then r == Err(Io) && files.disk == d
              else match TreeIn(e.c, f, access.dk)
                   case Err(x) => r == Err(x) && files.disk == Without(d, {e.UnlockStaging()})
                   case Ok(t) =>
                     && r == (if stuck then Err(Io) else Ok(e.folder))
                     && files.disk == UnlockedDisk(e, d, DirObject(t), stuck)
    ensures files.journal
            == if Unlockable(e, old(files.disk),
                             Attempt(e.c, old(files.disk)[e.Container()].data, cred, e.hmacKey, now),
                             old(files.disk)[e.Container()].data) && stuck
               then old(files.journal)[u := Readable(e.UnlockRecord())] else old(files.journal)
  {
    hide FromBytes, Unlocked, ToBytes, Attempt, Parse, Extract, Without, Covers, Manifest, ManifestIn, TreeIn,
         Setup.UnlockStaging, Setup.Container, Setup.LockStaging;
    NamesApart(e);
    PathsOfSlots(e);
    var f := files.disk[e.Container()].data;
    var onDisk := new ContainerOnDisk(f);
    var access, wasReadonly := onDisk.OpenAndAuthorize(e.c, cred, e.hmacKey, now);
    files.disk := files.disk[e.Container() := FileObject(onDisk.data)];
    if access.Err? {
      return Err(access.error);
    }
    AccessReads(e.c, f, cred, e.hmacKey, now);
    var rd := new Reader(onDisk.data[HEADER_LEN..]);
    var entries := OpenManifest(e.c, access.value.dk, access.value.header, rd);
    if entries.Err? {
      return Err(entries.error);
    }
    var restored := RestoreTo(files, e, access.value.dk, access.value.header.uuid, rd, entries.value);
    if restored.Err? {
      return Err(restored.error);
    }
    r := CommitUnlock(files, e, u, stuck);
  }

  /** The header handed out and the file left behind lead to the tree the file held. */
  lemma AccessReads(c: Primitives, f: bytes, cred: Credential, hmacKey: bytes, now: u64)
    requires c.Ideal() && Attempt(c, f, cred, hmacKey, now).result.Ok?
    ensures var a := Attempt(c, f, cred, hmacKey, now);
            var h := a.result.value.header;
            && |a.file| >= HEADER_LEN
            && (forall dk :: Unlocked(c, dk, h.uuid, h.entryCount, a.file[HEADER_LEN..]) == TreeIn(c, f, dk))
            && (forall dk :: Manifest(c, dk, h, a.file[HEADER_LEN..]) == ManifestIn(c, f, dk))
            && (forall dk :: ManifestIn(c, f, dk).Err? ==> TreeIn(c, f, dk).Err?)
  {
    hide ParseFrame, Extract;
    AttemptKeepsVault(c, f, cred, hmacKey, now);
    AccessHeader(c, f, cred, hmacKey, now);
    ParseIgnoresKey(c, f, hmacKey, []);
  }

  lemma AccessHeader(c: Primitives, f: bytes, cred: Credential, hmacKey: bytes, now: u64)
    requires c.IdealHashes() && Attempt(c, f, cred, hmacKey, now).result.Ok?
    ensures Parse(c, f, hmacKey).Ok?
    ensures Attempt(c, f, cred, hmacKey, now).result.value.header.SameMaterial(Parse(c, f, hmacKey).value)
  {
    hide FromBytes, Rewritten;
  }

  /** A locked folder comes back with all its contents, everything its listing shows and nothing else,
      exactly when extraction accepts the names of its directories: the writer checks only the paths
      of files. */
  lemma LockedTreeComesBack(c: Primitives, w: Scanned, t: FileTree, password: bytes, hmacKey: bytes)
    requires c.Ideal() && w.Writable(c, t)
    ensures KeyOf(c, w.File(c, password, hmacKey, t), password) == Some(w.random.dk)
    ensures TreeIn(c, w.File(c, password, hmacKey, t), w.random.dk)
            == if NamesSafe(t, true) then Ok(t) else Err(Tampered)
  {
    hide Finished, KeyOf, TreeIn, AllFaithful, NamesSafe, Shows, Visits, WellFormed;
    RestoredIsShown(w.root, t);
    FinishedOpens(c, password, hmacKey, w.opts, w.random, w.Entries(), WrapU64(TotalBytes(w.root)), SourceOf(t));
  }

  lemma {:induction false} ChunksAtMostBytes(entries: seq<Entry>)
    ensures ChunkSum(entries) <= SizeSum(entries)
  {
    if entries == [] {
    } else {
      ChunksAtMostBytes(entries[1..]);
      SizeSumConcat([entries[0]], entries[1..]);
      assert entries == [entries[0]] + entries[1..];
      assert [entries[0]][..0] == [] && SizeSum([entries[0]]) == entries[0].size;
    }
  }

  /** No frame of this file's body opens under the lock's data key to anything but what the lock sealed
      as that frame. */
  ghost predicate BodyUnforged(c: Primitives, w: Scanned, t: FileTree, f: bytes)
    requires w.Writable(c, t)
  {
    Parse(c, f, []).Ok?
    && NothingForged(c, w.random.dk, w.random.uuid, c.serialize(w.Entries()), AllChunks(w.Entries(), SourceOf(t)),
                     Parse(c, f, []).value.uuid, f[HEADER_LEN..])
  }

  /** Tampering shows or does not matter: a file of any origin that gives up a tree under the lock's
      data key, and in whose body nothing is forged, gives up the very tree that was locked. */
  lemma TamperedFileYieldsOriginal(c: Primitives, w: Scanned, t: FileTree, f: bytes)
    requires c.Ideal() && w.Writable(c, t) && TotalBytes(w.root) < U64_MAX
    requires BodyUnforged(c, w, t, f) && TreeIn(c, f, w.random.dk).Ok?
    ensures TreeIn(c, f, w.random.dk) == Ok(t)
  {
    hide FromBytes, Unlocked, AllFaithful, NothingForged, Shows, NamesSafe;
    var h := Parse(c, f, []).value;
    var es, source := w.Entries(), SourceOf(t);
    assert |h.uuid| == 16 by {
      FieldsTile(c, f[..HEADER_LEN], []);
    }
    ScanIsLossless(w.root);
    ChunksAtMostBytes(es);
    ChunkSumCounts(es, source);
    UnlockedIsGenuine(c, w.random.dk, w.random.uuid, es, source, h.uuid, h.entryCount, f[HEADER_LEN..]);
    RestoredIsShown(w.root, t);
  }

  /** The wrap that this credential would open in this file's header opens to the lock's data key or
      not at all. */
  ghost predicate WrapUnforged(c: Primitives, w: Scanned, cred: Credential, f: bytes)
    requires c.IdealHashes()
  {
    Parse(c, f, []).Ok? ==>
      var h := Parse(c, f, []).value;
      h.Valid() ==>
        match cred
        case Password(pw) =>
          h.kdf.Validate() ==> UnwrapKey(c, c.argon2(pw, h.salt, h.kdf), h.wrappedDkPw) in {None, Some(w.random.dk)}
        case MasterCode(code) => R.OpenedDk(c, code, h.wrappedDkMk) in {None, Some(w.random.dk)}
  }

  lemma OwnWrapIsUnforged(c: Primitives, w: Scanned, password: bytes, f: bytes)
    requires c.IdealHashes() && KeyOf(c, f, password) == Some(w.random.dk)
    ensures WrapUnforged(c, w, Password(password), f)
  {
    hide FromBytes, UnwrapKey;
  }

  /** So whatever a credential unlocks from a file of any origin is the tree that was locked. */
  lemma TamperedUnlockYieldsOriginal(c: Primitives, w: Scanned, t: FileTree, f: bytes, cred: Credential, hmacKey: bytes, now: u64)
    requires c.Ideal() && w.Writable(c, t) && TotalBytes(w.root) < U64_MAX
    requires BodyUnforged(c, w, t, f) && WrapUnforged(c, w, cred, f)
    requires var a := Attempt(c, f, cred, hmacKey, now).result; a.Ok? && TreeIn(c, f, a.value.dk).Ok?
    ensures TreeIn(c, f, Attempt(c, f, cred, hmacKey, now).result.value.dk) == Ok(t)
  {
    hide BodyUnforged, Scanned.Writable, TreeIn;
    GrantedIsUnforged(c, w, f, cred, hmacKey, now);
    TamperedFileYieldsOriginal(c, w, t, f);
  }

  lemma GrantedIsUnforged(c: Primitives, w: Scanned, f: bytes, cred: Credential, hmacKey: bytes, now: u64)
    requires c.IdealHashes() && WrapUnforged(c, w, cred, f) && Attempt(c, f, cred, hmacKey, now).result.Ok?
    ensures Attempt(c, f, cred, hmacKey, now).result.value.dk == w.random.dk
  {
    hide FromBytes, Rewritten, UnwrapKey, R.OpenedDk, R.IsEnrolled;
    ParseIgnoresKey(c, f, hmacKey, []);
    FieldsTile(c, f[..HEADER_LEN], hmacKey);
  }

  /** Lock, then unlock with the same password: the folder is back as it was, and the disk is the same
      but for stale staging and what lay below the four paths under names of its own. */
  method LockThenUnlock(files: Files, e: Setup, w: Scanned, password: bytes, now: u64, u: string) returns (r: Result<string>)
    requires e.c.Ideal() && w.Writable(e.c, e.tree) && NamesSafe(e.tree, true) && u !in files.journal
    requires FolderWhole(e, ViewOf(e, files.disk)) && e.Container() !in files.disk
    requires !IsDir(Found(files.disk, e.LockStaging())) && !IsFile(Found(files.disk, e.UnlockStaging()))
    modifies files
    ensures r == Ok(e.folder)
    ensures files.disk
            == Without(old(files.disk), {e.folder, e.Container(), e.LockStaging(), e.UnlockStaging()})[e.folder := DirObject(e.tree)]
    ensures files.journal == old(files.journal)
  {
    hide Finished, KeyOf, TreeIn, AllFaithful, NamesSafe, Shows, Unlocked, FromBytes, Without, Covers, Setup.UnlockStaging,
         Setup.Container, Setup.LockStaging;
    NamesApart(e);
    PathsOfSlots(e);
    ghost var d := files.disk;
    var source := SourceOf(e.tree);
    var locked := LockFolder(files, e, w, source, password, u, None);
    var file := w.File(e.c, password, e.hmacKey, e.tree);
    LockedView(e, d, FileObject(file), None);
    LockedTreeComesBack(e.c, w, e.tree, password, e.hmacKey);
    FreshOpens(e.c, w, e.tree, password, e.hmacKey, now);
    r := UnlockContainer(files, e, Password(password), now, u, false);
    RoundTripDisk(e, d, FileObject(file), FileObject(Attempt(e.c, file, Password(password), e.hmacKey, now).file), DirObject(e.tree));
  }

  /** What a lock leaves at the four paths, and that it leaves everything else alone. */
  lemma LockedView(e: Setup, d: Disk, file: Object, left: Option<FileTree>)
    ensures ViewOf(e, LockedDisk(e, d, file, left))
            == View(if left.Some? then Some(DirObject(left.value)) else None, Some(file), None, Found(d, e.UnlockStaging()))
    ensures forall q :: !Covered(OwnPaths(e), q) ==> Found(LockedDisk(e, d, file, left), q) == Found(d, q)
  {
    hide Without, ViewOf, Covers, Setup.UnlockStaging, Setup.Container, Setup.LockStaging;
    PathsOfSlots(e);
    var d1 := Without(d, {e.LockStaging()});
    ViewAfterDelete(e, d, AtLockStaging);
    if left.Some? {
      ViewAfterWrite(e, d1, AtFolder, DirObject(left.value));
      ViewAfterWrite(e, d1[e.folder := DirObject(left.value)], AtContainer, file);
    } else {
      ViewAfterDelete(e, d1, AtFolder);
      ViewAfterWrite(e, Without(d1, {e.folder}), AtContainer, file);
    }
    ViewParts(e, d);
    forall q | !Covered(OwnPaths(e), q) ensures Found(LockedDisk(e, d, file, left), q) == Found(d, q) {
      NotOwn(e, q);
      Elsewhere(d, e.LockStaging(), q);
      Elsewhere(d1, e.folder, q);
    }
  }

  /** The same for an unlock. */
  lemma UnlockedView(e: Setup, d: Disk, t: Object, stuck: bool)
    ensures ViewOf(e, UnlockedDisk(e, d, t, stuck))
            == View(Some(t), if stuck then Found(d, e.Container()) else None, Found(d, e.LockStaging()), None)
    ensures forall q :: !Covered(OwnPaths(e), q) ==> Found(UnlockedDisk(e, d, t, stuck), q) == Found(d, q)
  {
    hide Without, ViewOf, Covers, Setup.UnlockStaging, Setup.Container, Setup.LockStaging;
    PathsOfSlots(e);
    var d1 := Without(d, {e.UnlockStaging()});
    ViewAfterDelete(e, d, AtUnlockStaging);
    ViewAfterDelete(e, d1, AtContainer);
    ViewAfterWrite(e, if stuck then d1 else Without(d1, {e.Container()}), AtFolder, t);
    ViewParts(e, d);
    forall q | !Covered(OwnPaths(e), q) ensures Found(UnlockedDisk(e, d, t, stuck), q) == Found(d, q) {
      NotOwn(e, q);
      Elsewhere(d, e.UnlockStaging(), q);
      Elsewhere(d1, e.Container(), q);
    }
  }

  function OwnPaths(e: Setup): set<string> {
    {e.folder, e.Container(), e.LockStaging(), e.UnlockStaging()}
  }

  lemma ViewParts(e: Setup, d: Disk)
    ensures ViewOf(e, d) == View(Found(d, e.folder), Found(d, e.Container()), Found(d, e.LockStaging()), Found(d, e.UnlockStaging()))
  {
  }

  lemma NotOwn(e: Setup, q: string)
    requires !Covered(OwnPaths(e), q)
    ensures !Covers(e.folder, q) && !Covers(e.Container(), q) && !Covers(e.LockStaging(), q) && !Covers(e.UnlockStaging(), q)
    ensures q != e.folder && q != e.Container() && q != e.LockStaging() && q != e.UnlockStaging()
  {
    hide Setup.UnlockStaging, Setup.Container, Setup.LockStaging;
    assert e.folder in OwnPaths(e) && e.Container() in OwnPaths(e);
    assert e.LockStaging() in OwnPaths(e) && e.UnlockStaging() in OwnPaths(e);
  }

  lemma Elsewhere(d: Disk, p: string, q: string)
    requires !Covers(p, q)
    ensures Found(Without(d, {p}), q) == Found(d, q)
  {
    hide Without, Covers;
    WithoutOne(d, p, q);
    WithoutKeeps(d, {p}, q);
  }

  /** The two outcomes one after the other. */
  lemma RoundTripDisk(e: Setup, d: Disk, file: Object, g: Object, t: Object)
    ensures UnlockedDisk(e, LockedDisk(e, d, file, None)[e.Container() := g], t, false)
            == Without(d, {e.folder, e.Container(), e.LockStaging(), e.UnlockStaging()})[e.folder := t]
  {
    hide Without, Covers, Setup.UnlockStaging, Setup.Container, Setup.LockStaging;
    NamesApart(e);
    PathsOfSlots(e);
    var l, f, c, u := e.LockStaging(), e.folder, e.Container(), e.UnlockStaging();
    var x := Without(Without(d, {l}), {f});
    assert LockedDisk(e, d, file, None)[c := g] == x[c := g];
    DeleteThenWrite(x, u, c, g);
    DeleteAfterWrite(Without(x, {u}), c, g);
    WithoutTwice(d, {l}, {f});
    WithoutTwice(d, {l} + {f}, {u});
    WithoutTwice(d, {l} + {f} + {u}, {c});
    assert {l} + {f} + {u} + {c} == {f, c, l, u};
  }

  /** A fresh container lets its password in at any time. */
  lemma FreshOpens(c: Primitives, w: Scanned, t: FileTree, password: bytes, hmacKey: bytes, now: u64)
    requires c.Ideal() && w.Writable(c, t)
    ensures var a := Attempt(c, w.File(c, password, hmacKey, t), Password(password), hmacKey, now);
            a.result.Ok? && a.result.value.dk == w.random.dk
  {
    hide Finished, FromBytes, AllFaithful, Shows;
    var es, source, total := w.Entries(), SourceOf(t), WrapU64(TotalBytes(w.root));
    FinishedHeader(c, password, hmacKey, w.opts, w.random, es, total, source, hmacKey);
    var kek := c.argon2(password, w.random.salt, w.opts.kdf);
    UnwrapInvertsWrap(c, kek, w.random.pwNonce, w.random.dk);
  }

  /** `file_stem`: the name up to its last dot. */
  function FileStem(name: string): string {
    if name == "" then "" else if name[|name| - 1] == '.' then name[..|name| - 1] else FileStem(name[..|name| - 1])
  }

  /** Unlock derives the folder's own path from the container's. */
  lemma StemOfContainer(folder: string)
    ensures FileStem(folder + ".fvlt") == folder
  {
    var s := folder + ".fvlt";
    assert s[..|s| - 1] == folder + ".fvl";
    assert (folder + ".fvl")[..|s| - 2] == folder + ".fv";
    assert (folder + ".fv")[..|s| - 3] == folder + ".f";
    assert (folder + ".f")[..|s| - 4] == folder + ".";
    assert FileStem(folder + ".") == folder;
    assert FileStem(folder + ".f") == folder;
    assert FileStem(folder + ".fv") == folder;
    assert FileStem(folder + ".fvl") == folder;
  }

  lemma AuxIsReserved()
    ensures IsFileName("aux") && !IsSafeComponent("aux")
  {
    assert "aux"[1..] == "ux" && "ux"[1..] == "x" && "x"[1..] == "";
    assert Paths.Stem("aux") == "aux";
    assert AsciiUpper("aux") == "AUX" == RESERVED_NAMES[2];
  }

  lemma AuxVisits(root: seq<Item>)
    requires root == [DirItem("aux", 0, [])]
    ensures Visits(root) == [Visit(["aux"], DirNode, 0)]
    ensures WellFormed(root) && !HasLink(root)
    ensures Shows(root, map[["aux"] := DirNode])
  {
    hide ListedAt, VisitAll;
    AuxIsReserved();
    OneDirectory(root, root[0]);
    ContentsAreListed(root);
    var v := Visit(["aux"], DirNode, 0);
    assert [v][..0] == [] && TreeOf([]) == map[];
    assert Contents(root) == map[][v.path := v.node];
  }

  lemma OneDirectory(root: seq<Item>, item: Item)
    requires root == [item] && item.DirItem? && item.kids == []
    ensures Visits(root) == [Visit([item.name], DirNode, item.mtime)]
    ensures !HasLink(root)
  {
    var p: Path := [item.name];
    assert [] + p == p && root[..0] == [];
    forall dirs ensures VisitAll([], root, dirs) == if dirs then [Visit(p, DirNode, item.mtime)] else [] {
      assert VisitAll(p, item.kids, dirs) == [];
      assert VisitAll([], root, dirs) == [] + VisitItem([], item, dirs);
    }
  }

  /** A folder whose only content is an empty directory called "aux" locks, and never unlocks. */
  lemma UnsafeDirectoryIsStranded(c: Primitives, w: Scanned, password: bytes, hmacKey: bytes)
    requires c.Ideal() && w.root == [DirItem("aux", 0, [])] && w.random.Valid() && w.opts.kdf.Validate()
    ensures Sized(Visits(w.root)) && |w.Entries()| == 1
    ensures var t := map[["aux"] := DirNode];
            ManifestFits(c, w.Entries()) ==>
              w.Writable(c, t) && TreeIn(c, w.File(c, password, hmacKey, t), w.random.dk) == Err(Tampered)
  {
    hide Finished, KeyOf, TreeIn, IsSafeComponent, WellFormed, Visits, Shows;
    var t := map[["aux"] := DirNode];
    AuxVisits(w.root);
    AuxIsReserved();
    RestoredIsShown(w.root, t);
    assert !AllSafe(["aux"]) by {
      assert ["aux"][0] == "aux";
    }
    if ManifestFits(c, w.Entries()) {
      LockedTreeComesBack(c, w, t, password, hmacKey);
    }
  }
}
