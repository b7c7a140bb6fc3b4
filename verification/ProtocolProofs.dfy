/** No run of lock, unlock and recover loses the data, and recovery converges. */
module ProtocolProofs {
  import opened Bytes
  import opened Entries
  import opened Paths
  import opened Crypto
  import opened Lockout
  import opened Header
  import opened Frames
  import opened Container
  import opened ContainerProofs
  import opened Walk
  import opened WalkProofs
  import opened WalkComplete
  import opened ContainerFile
  import opened Authorize
  import opened Journal
  import opened Protocol
  import opened RecoveryCode
  import R = RecoveryCodeProofs

  // ----- soundness of containers -----

  /** A header rewrite, whole or torn, leaves a sound container sound. */
  lemma SoundKept(e: Setup, f: bytes, g: bytes, password: bytes)
    requires SameVault(e.c, f, g, e.hmacKey) && Sound(e, f, password)
    ensures Sound(e, g, password)
  {
    hide FromBytes, KeyOf, TreeIn, ParseFrame, CountFrames;
    SameVaultSameContents(e.c, f, g, e.hmacKey);
  }

  /** What lock writes for an unchanging folder is a sound container for it. */
  lemma FinishedSound(e: Setup, w: Scanned, password: bytes)
    requires e.Valid() && w.Writable(e.c, e.tree)
    ensures Sound(e, w.File(e.c, password, e.hmacKey, e.tree), password)
  {
    hide FromBytes, Unlocked, Finished, AllFaithful, AllSafe, Verified, Parse, Shows, Visits, WellFormed;
    var es, source, total := w.Entries(), SourceOf(e.tree), WrapU64(TotalBytes(w.root));
    RestoredIsShown(w.root, e.tree);
    FinishedOpens(e.c, password, e.hmacKey, w.opts, w.random, es, total, source);
    FinishedHeader(e.c, password, e.hmacKey, w.opts, w.random, es, total, source, e.hmacKey);
    var fs := FinishedVerifies(e.c, password, e.hmacKey, w.opts, w.random, es, total, source, e.hmacKey);
    FreshHoldsKey(e.c, password, w.opts, w.random, |es|, total);
  }

  lemma FreshHoldsKey(c: Primitives, password: bytes, opts: LockOptions, r: LockRandom, n: u64, total: u64)
    requires c.Ideal() && r.Valid()
    ensures HoldsKey(c, NewHeader(c, password, opts, r, n, total), r.dk)
  {
  }

  /** A wrap opens to the key it holds or not at all. */
  lemma WrapOpensToItsKey(c: Primitives, kek: bytes, wrap: bytes, dk: bytes)
    requires c.Binding() && Wraps(c, wrap, dk) && |wrap| == WRAPPED_KEY_LEN
    ensures UnwrapKey(c, kek, wrap).Some? ==> UnwrapKey(c, kek, wrap) == Some(dk)
  {
  }

  /** Whatever credential a sound container lets in, it is given the vault's own key. */
  lemma GrantIsOwn(e: Setup, f: bytes, cred: Credential, now: u64, password: bytes)
    requires e.c.Ideal() && e.c.Binding() && Sound(e, f, password) && Attempt(e.c, f, cred, e.hmacKey, now).result.Ok?
    ensures KeyOf(e.c, f, password) == Some(Attempt(e.c, f, cred, e.hmacKey, now).result.value.dk)
  {
    hide FromBytes, Rewritten, Verified, TreeIn, Wraps, Decoded, KeyOf, R.IsEnrolled, UnwrapKey;
    var h := Parse(e.c, f, e.hmacKey).value;
    var dk := KeyOf(e.c, f, password).value;
    FieldsTile(e.c, f[..HEADER_LEN], e.hmacKey);
    match cred
    case Password(pw) =>
      WrapOpensToItsKey(e.c, e.c.argon2(pw, h.salt, h.kdf), h.wrappedDkPw, dk);
    case MasterCode(code) =>
      if R.IsEnrolled(h.wrappedDkMk) && Decoded(e.c, code).Some? {
        var kek := R.KekFromShared(e.c, e.c.agree(Decoded(e.c, code).value, h.wrappedDkMk[..32]));
        WrapOpensToItsKey(e.c, kek, h.wrappedDkMk[32..], dk);
      }
  }

  // ----- the four paths -----

  /** The operations' paths are four different ones, and none lies below another. */
  lemma NamesApart(e: Setup)
    ensures forall a, b :: a != b ==> e.PathOf(a) != e.PathOf(b)
    ensures forall a, b :: a != b ==> !Covers(e.PathOf(a), e.PathOf(b))
    ensures forall a :: SlotOf(e, e.PathOf(a)) == a
  {
    var c, l, u := e.Container(), e.LockStaging(), e.UnlockStaging();
    assert |e.folder| < |c| < |l| < |u|;
    assert c[|e.folder|] == '.' && l[|e.folder|] == '.' && u[|e.folder|] == '.';
    assert l[|c|] == '.' && u[|c|] == 's' && u[|l|] == 'i';
  }

  lemma PathsOfSlots(e: Setup)
    ensures e.PathOf(AtFolder) == e.folder && e.PathOf(AtContainer) == e.Container()
    ensures e.PathOf(AtLockStaging) == e.LockStaging() && e.PathOf(AtUnlockStaging) == e.UnlockStaging()
    ensures PathsOf(e.LockRecord()) == {e.PathOf(AtFolder), e.PathOf(AtContainer), e.PathOf(AtLockStaging)}
    ensures PathsOf(e.UnlockRecord()) == {e.PathOf(AtFolder), e.PathOf(AtContainer), e.PathOf(AtUnlockStaging)}
  {
  }

  lemma ViewAt(e: Setup, d: Disk, slot: Slot)
    ensures ViewOf(e, d).At(slot) == Found(d, e.PathOf(slot))
  {
  }

  /** Writing one of the paths changes the view there only. */
  lemma ViewAfterWrite(e: Setup, d: Disk, slot: Slot, o: Object)
    ensures ViewOf(e, d[e.PathOf(slot) := o]) == ViewOf(e, d).Put(slot, Some(o))
  {
    hide Setup.Container, Setup.LockStaging, Setup.UnlockStaging, Covers;
    NamesApart(e);
    PathsOfSlots(e);
  }

  /** So does deleting it. */
  lemma ViewAfterDelete(e: Setup, d: Disk, slot: Slot)
    ensures ViewOf(e, Without(d, {e.PathOf(slot)})) == ViewOf(e, d).Put(slot, None)
  {
    hide Setup.Container, Setup.LockStaging, Setup.UnlockStaging, Covers, Without, Covered;
    NamesApart(e);
    PathsOfSlots(e);
    CoversItself(e.PathOf(slot));
    forall a: Slot ensures Found(Without(d, {e.PathOf(slot)}), e.PathOf(a)) == if a == slot then None else Found(d, e.PathOf(a)) {
      WithoutOne(d, e.PathOf(slot), e.PathOf(a));
      WithoutKeeps(d, {e.PathOf(slot)}, e.PathOf(a));
    }
  }

  lemma ViewOfDiskOf(e: Setup, v: View)
    ensures ViewOf(e, DiskOf(e, v)) == v
  {
    hide Setup.Container, Setup.LockStaging, Setup.UnlockStaging, Covers;
    NamesApart(e);
    PathsOfSlots(e);
  }

  /** A replay of an own record decides alike on all disks with the same view. */
  lemma SameViewSameDecision(e: Setup, rec: Record, d1: Disk, d2: Disk)
    requires rec in {e.LockRecord(), e.UnlockRecord()} && ViewOf(e, d1) == ViewOf(e, d2)
    ensures Decision(e.c, e.hmacKey, rec, d1) == Decision(e.c, e.hmacKey, rec, d2)
    ensures Decision(e.c, e.hmacKey, rec, d1).Some? ==>
              var a := Decision(e.c, e.hmacKey, rec, d1).value;
              a.path in d1 && a.path in d2 && (Removable(a, d1) <==> Removable(a, d2)) && e.PathOf(SlotOf(e, a.path)) == a.path
  {
    hide Setup.Container, Setup.LockStaging, Setup.UnlockStaging, Covers, Decision, Removable;
    PathsOfSlots(e);
    forall slot: Slot ensures Found(d1, e.PathOf(slot)) == Found(d2, e.PathOf(slot)) {
      ViewAt(e, d1, slot);
      ViewAt(e, d2, slot);
    }
    forall p | p in PathsOf(rec) ensures (p in d1 <==> p in d2) && (p in d1 ==> d1[p] == d2[p]) {
      var slot :| p == e.PathOf(slot);
      assert Found(d1, p) == Found(d2, p);
    }
    DecisionLocal(e.c, e.hmacKey, rec, d1, d2);
    if Decision(e.c, e.hmacKey, rec, d1).Some? {
      var slot :| Decision(e.c, e.hmacKey, rec, d1).value.path == e.PathOf(slot);
      NamesApart(e);
    }
  }

  /** What replaying a lock record deletes. */
  lemma PlannedForLock(e: Setup, s: State, u: string)
    requires u in s.journal && s.journal[u] == Readable(e.LockRecord())
    ensures var v := s.view;
            Planned(e, s, u)
            == if v.lockStaging.Some? then (if IsFile(v.lockStaging) then Deleting(u, AtLockStaging) else Dropping(u))
               else if v.folder.Some? && IsFile(v.container) && Verified(e.c, v.container.value.data, e.hmacKey).Ok?
               then Deleting(u, AtFolder) else Dropping(u)
  {
    hide Setup.Container, Setup.LockStaging, Setup.UnlockStaging, Covers, DiskOf, Verified, SlotOf;
    NamesApart(e);
    PathsOfSlots(e);
    ViewOfDiskOf(e, s.view);
  }

  lemma PlannedForUnlock(e: Setup, s: State, u: string)
    requires u in s.journal && s.journal[u] == Readable(e.UnlockRecord())
    ensures var v := s.view;
            Planned(e, s, u)
            == if v.unlockStaging.Some? then (if IsDir(v.unlockStaging) then Deleting(u, AtUnlockStaging) else Dropping(u))
               else if v.folder.Some? && v.container.Some? then Deleting(u, AtContainer) else Dropping(u)
  {
    hide Setup.Container, Setup.LockStaging, Setup.UnlockStaging, Covers, DiskOf, Verified, SlotOf;
    NamesApart(e);
    PathsOfSlots(e);
    ViewOfDiskOf(e, s.view);
  }

  // ----- the invariant -----

  /** What a readable lock record means. */
  ghost predicate LockPending(e: Setup, s: State) {
    var v := s.view;
    if v.lockStaging.Some? then IsFile(v.lockStaging) && FolderWhole(e, v) && v.container.None?
    else if v.container.Some? then ContainerSound(e, v, s.password)
    else FolderWhole(e, v)
  }

  /** What a readable unlock record means. */
  ghost predicate UnlockPending(e: Setup, s: State) {
    var v := s.view;
    if v.unlockStaging.Some? then IsDir(v.unlockStaging) && ContainerSound(e, v, s.password) && v.folder.None?
    else
      && (v.folder.Some? && v.container.Some? ==> FolderWhole(e, v))
      && (v.folder.None? ==> ContainerSound(e, v, s.password))
      && (v.container.None? ==> FolderWhole(e, v))
  }

  ghost predicate RecordFits(e: Setup, s: State, rf: RecordFile) {
    rf.Readable? ==>
      || (rf.record == e.LockRecord() && LockPending(e, s))
      || (rf.record == e.UnlockRecord() && UnlockPending(e, s))
  }

  ghost predicate JournalFits(e: Setup, s: State) {
    && (forall u, v :: u in s.journal && v in s.journal ==> u == v)
    && forall u :: u in s.journal ==> RecordFits(e, s, s.journal[u])
  }

  ghost predicate NoRecord(s: State) {
    forall u :: u in s.journal ==> s.journal[u].Unreadable?
  }

  ghost predicate StagedLock(e: Setup, s: State) {
    && FolderWhole(e, s.view) && s.view.container.None?
    && IsFile(s.view.lockStaging) && Sound(e, s.view.lockStaging.value.data, s.password)
  }

  ghost predicate StagedUnlock(e: Setup, s: State) {
    ContainerSound(e, s.view, s.password) && s.view.folder.None? && s.view.unlockStaging == Some(DirObject(e.tree))
  }

  /** The slot a replay deletes, and why that is harmless. */
  ghost predicate Deletable(e: Setup, s: State, rec: Record, slot: Slot) {
    var v := s.view;
    v.At(slot).Some?
    && if rec.op.Lock? then
         || (slot.AtLockStaging? && IsFile(v.lockStaging))
         || (slot.AtFolder? && v.lockStaging.None? && ContainerSound(e, v, s.password))
       else
         || slot.AtUnlockStaging?
         || (slot.AtContainer? && v.unlockStaging.None? && FolderWhole(e, v))
  }

  ghost predicate PhaseFits(e: Setup, s: State, strict: bool) {
    var v, j := s.view, s.journal;
    match s.phase
    case Off => true
    case Recovering => true
    case Deleting(u, slot) => u in j && j[u].Readable? && Deletable(e, s, j[u].record, slot)
    case Dropping(u) => u in j && (strict ==> Tidy(e, s))
    case Ready => j == map[]
    case LockWriting => j == map[] && FolderWhole(e, v) && v.container.None?
    case LockWritten => j == map[] && StagedLock(e, s)
    case LockRecording(u) => j == map[u := Unreadable] && StagedLock(e, s)
    case LockRecorded(u) => j == map[u := Readable(e.LockRecord())] && StagedLock(e, s)
    case LockRenamed(u) =>
      j == map[u := Readable(e.LockRecord())] && ContainerSound(e, v, s.password) && v.lockStaging.None?
    case LockCleared(u) =>
      && j == map[u := Readable(e.LockRecord())] && ContainerSound(e, v, s.password)
      && v.lockStaging.None? && v.folder.None?
    case UnlockOpened(dk) =>
      && j == map[] && IsFile(v.container)
      && (ContainerSound(e, v, s.password) ==> KeyOf(e.c, v.container.value.data, s.password) == Some(dk))
    case UnlockExtracting(dk) =>
      && j == map[] && ContainerSound(e, v, s.password) && v.folder.None?
      && KeyOf(e.c, v.container.value.data, s.password) == Some(dk)
    case UnlockExtracted => j == map[] && StagedUnlock(e, s)
    case UnlockRecording(u) => j == map[u := Unreadable] && StagedUnlock(e, s)
    case UnlockRecorded(u) => j == map[u := Readable(e.UnlockRecord())] && StagedUnlock(e, s)
    case UnlockRenamed(u) =>
      j == map[u := Readable(e.UnlockRecord())] && FolderWhole(e, v) && v.unlockStaging.None?
    case UnlockCleared(u) =>
      && j == map[u := Readable(e.UnlockRecord())] && FolderWhole(e, v)
      && v.unlockStaging.None? && v.container.None?
  }

  /** Holds in every reachable state; the strict form needs recovery's deletes to succeed. */
  ghost predicate Inv(e: Setup, s: State, strict: bool) {
    && Safe(e, s)
    && JournalFits(e, s)
    && (strict && NoRecord(s) ==> Tidy(e, s))
    && PhaseFits(e, s, strict)
  }

  // ----- every step keeps it -----

  lemma KeepsWhenStopped(e: Setup, s: State, strict: bool)
    requires Inv(e, s, strict)
    ensures Inv(e, s.(phase := Off), strict) && Inv(e, s.(phase := Recovering), strict)
    ensures s.journal == map[] ==> Inv(e, s.(phase := Ready), strict)
  {
    hide Sound, KeyOf, Setup.LockRecord, Setup.UnlockRecord;
  }

  lemma DropUnreadableStep(e: Setup, s: State, u: string, strict: bool)
    requires Inv(e, s, strict) && s.phase.Recovering? && u in s.journal && s.journal[u].Unreadable?
    ensures Inv(e, s.(journal := s.journal - {u}), strict)
  {
    hide Sound, KeyOf, Setup.LockRecord, Setup.UnlockRecord;
  }

  lemma ReplayStep(e: Setup, s: State, u: string, strict: bool)
    requires Inv(e, s, strict) && s.phase.Recovering? && u in s.journal && s.journal[u].Readable?
    ensures Inv(e, s.(phase := Planned(e, s, u)), strict)
  {
    hide Decodes, Parse, HoldsKey, KeyOf, Planned, Setup.Container, Setup.LockStaging, Setup.UnlockStaging;
    if s.journal[u].record == e.LockRecord() {
      PlannedForLock(e, s, u);
    } else {
      PlannedForUnlock(e, s, u);
    }
  }

  lemma DropStep(e: Setup, s: State, u: string, strict: bool)
    requires Inv(e, s, strict)
    requires s.phase == Dropping(u) || s.phase == LockCleared(u) || s.phase == UnlockCleared(u)
    ensures Inv(e, s.(journal := s.journal - {u}, phase := if s.phase.Dropping? then Recovering else Ready), strict)
  {
    hide Sound, KeyOf, Setup.LockRecord, Setup.UnlockRecord;
    assert s.journal - {u} == map[];
  }

  /** A recursive delete of a recovery gets on. */
  lemma ReplayDeletesSome(e: Setup, s: State, u: string, slot: Slot, left: FileTree, strict: bool)
    requires Inv(e, s, strict) && s.phase == Deleting(u, slot) && IsDir(s.view.At(slot))
    ensures Inv(e, s.(view := s.view.Put(slot, Some(DirObject(left)))), strict)
  {
    hide Sound, KeyOf, Setup.Container, Setup.LockStaging, Setup.UnlockStaging;
  }

  lemma ReplayDeletes(e: Setup, s: State, u: string, slot: Slot, strict: bool)
    requires Inv(e, s, strict) && s.phase == Deleting(u, slot)
    ensures Inv(e, s.(view := s.view.Put(slot, None), phase := Dropping(u)), strict)
  {
    hide Sound, KeyOf, Setup.Container, Setup.LockStaging, Setup.UnlockStaging;
  }

  lemma ReplayGivesUp(e: Setup, s: State, u: string, slot: Slot)
    requires Inv(e, s, false) && s.phase == Deleting(u, slot)
    ensures Inv(e, s.(phase := Dropping(u)), false)
  {
    hide Sound, KeyOf, Setup.LockRecord, Setup.UnlockRecord;
  }

  lemma SourceDeletesSome(e: Setup, s: State, u: string, left: FileTree, strict: bool)
    requires Inv(e, s, strict) && s.phase == LockRenamed(u)
    ensures Inv(e, s.(view := s.view.(folder := Some(DirObject(left)))), strict)
  {
    hide Sound, KeyOf, Setup.Container, Setup.LockStaging, Setup.UnlockStaging;
    var s' := s.(view := s.view.(folder := Some(DirObject(left))));
    assert s'.journal[u] == Readable(e.LockRecord()) && LockPending(e, s');
    assert RecordFits(e, s', s'.journal[u]);
  }

  lemma SourceDeletes(e: Setup, s: State, u: string, strict: bool)
    requires Inv(e, s, strict) && s.phase == LockRenamed(u)
    ensures Inv(e, s.(view := s.view.(folder := None), phase := LockCleared(u)), strict)
  {
    hide Sound, KeyOf, Setup.Container, Setup.LockStaging, Setup.UnlockStaging;
    var s' := s.(view := s.view.(folder := None), phase := LockCleared(u));
    assert s'.journal[u] == Readable(e.LockRecord()) && LockPending(e, s');
    assert RecordFits(e, s', s'.journal[u]);
  }

  lemma ContainerDeletes(e: Setup, s: State, u: string, strict: bool)
    requires Inv(e, s, strict) && s.phase == UnlockRenamed(u)
    ensures Inv(e, s.(view := s.view.(container := None), phase := UnlockCleared(u)), strict)
  {
    hide Sound, KeyOf, Setup.Container, Setup.LockStaging, Setup.UnlockStaging;
    var s' := s.(view := s.view.(container := None), phase := UnlockCleared(u));
    assert s'.journal[u] == Readable(e.UnlockRecord()) && UnlockPending(e, s');
    assert RecordFits(e, s', s'.journal[u]);
  }

  lemma StartLockStep(e: Setup, s: State, password: bytes, strict: bool)
    requires Inv(e, s, strict) && s.phase.Ready? && s.view.container.None?
    ensures Inv(e, s.(view := s.view.(lockStaging := None), phase := LockWriting, password := password), strict)
  {
    hide Sound, KeyOf, Setup.LockRecord, Setup.UnlockRecord;
  }

  lemma WriteStep(e: Setup, s: State, data: bytes, strict: bool)
    requires Inv(e, s, strict) && s.phase.LockWriting?
    ensures var s' := s.(view := s.view.(lockStaging := Some(FileObject(data))));
            Inv(e, s', strict) && (Sound(e, data, s.password) ==> Inv(e, s'.(phase := LockWritten), strict))
  {
    hide Sound, KeyOf, Setup.LockRecord, Setup.UnlockRecord;
  }

  lemma WriteDoneStep(e: Setup, s: State, w: Scanned, strict: bool)
    requires e.Valid() && Inv(e, s, strict) && s.phase.LockWriting? && w.Writable(e.c, e.tree)
    ensures var f := w.File(e.c, s.password, e.hmacKey, e.tree);
            Inv(e, s.(view := s.view.(lockStaging := Some(FileObject(f))), phase := LockWritten), strict)
  {
    hide Inv, Sound;
    FinishedSound(e, w, s.password);
    WriteStep(e, s, w.File(e.c, s.password, e.hmacKey, e.tree), strict);
  }

  lemma AbortLockStep(e: Setup, s: State, strict: bool)
    requires Inv(e, s, strict) && (s.phase.LockWriting? || s.phase.LockWritten?)
    ensures Inv(e, s.(view := s.view.(lockStaging := None), phase := Off), strict)
  {
    hide Sound, KeyOf, Setup.LockRecord, Setup.UnlockRecord;
  }

  lemma LockRecordSteps(e: Setup, s: State, u: string, strict: bool)
    requires Inv(e, s, strict) && (s.phase.LockWritten? || s.phase == LockRecording(u))
    ensures s.phase.LockWritten? ==> Inv(e, s.(journal := s.journal[u := Unreadable], phase := LockRecording(u)), strict)
    ensures s.phase.LockRecording? ==>
              Inv(e, s.(journal := s.journal[u := Readable(e.LockRecord())], phase := LockRecorded(u)), strict)
  {
    hide Sound, KeyOf, Setup.LockRecord, Setup.UnlockRecord;
  }

  lemma UnlockRecordSteps(e: Setup, s: State, u: string, strict: bool)
    requires Inv(e, s, strict) && (s.phase.UnlockExtracted? || s.phase == UnlockRecording(u))
    ensures s.phase.UnlockExtracted? ==> Inv(e, s.(journal := s.journal[u := Unreadable], phase := UnlockRecording(u)), strict)
    ensures s.phase.UnlockRecording? ==>
              Inv(e, s.(journal := s.journal[u := Readable(e.UnlockRecord())], phase := UnlockRecorded(u)), strict)
  {
    hide Sound, KeyOf, Setup.LockRecord, Setup.UnlockRecord;
  }

  lemma LockRenameStep(e: Setup, s: State, u: string, strict: bool)
    requires Inv(e, s, strict) && s.phase == LockRecorded(u)
    ensures Inv(e, s.(view := s.view.(lockStaging := None, container := s.view.lockStaging), phase := LockRenamed(u)), strict)
  {
    hide Sound, KeyOf, Setup.Container, Setup.LockStaging, Setup.UnlockStaging;
    var s' := s.(view := s.view.(lockStaging := None, container := s.view.lockStaging), phase := LockRenamed(u));
    assert s'.journal[u] == Readable(e.LockRecord()) && LockPending(e, s');
    assert RecordFits(e, s', s'.journal[u]);
  }

  lemma UnlockRenameStep(e: Setup, s: State, u: string, strict: bool)
    requires Inv(e, s, strict) && s.phase == UnlockRecorded(u)
    ensures Inv(e, s.(view := s.view.(unlockStaging := None, folder := s.view.unlockStaging), phase := UnlockRenamed(u)), strict)
  {
    hide Sound, KeyOf, Setup.Container, Setup.LockStaging, Setup.UnlockStaging;
    var s' := s.(view := s.view.(unlockStaging := None, folder := s.view.unlockStaging), phase := UnlockRenamed(u));
    assert s'.journal[u] == Readable(e.UnlockRecord()) && UnlockPending(e, s');
    assert RecordFits(e, s', s'.journal[u]);
  }

  /** An attempt on the container, whole or torn, keeps it sound if it was. */
  lemma AttemptSound(e: Setup, s: State, cred: Credential, now: u64, k: nat)
    requires e.c.Ideal() && IsFile(s.view.container) && k <= HEADER_LEN
    ensures var f := s.view.container.value.data;
            var g := Attempt(e.c, f, cred, e.hmacKey, now).file;
            && (Sound(e, f, s.password) ==> Sound(e, g, s.password))
            && (Sound(e, f, s.password) ==> Sound(e, TornAttempt(e.c, f, cred, e.hmacKey, now, k), s.password))
            && (Attempt(e.c, f, cred, e.hmacKey, now).result.Ok? ==>
                 (Sound(e, g, s.password) ==> Sound(e, f, s.password))
                 && KeyOf(e.c, g, s.password) == KeyOf(e.c, f, s.password))
  {
    hide TornAttempt, KeyOf, Parse, Decodes, Verified, ByPassword, ByCode;
    var f := s.view.container.value.data;
    if Parse(e.c, f, e.hmacKey).Ok? {
      AttemptKeepsVault(e.c, f, cred, e.hmacKey, now);
      TornAttemptKeepsVault(e.c, f, cred, e.hmacKey, now, k);
      SameVaultSameContents(e.c, f, Attempt(e.c, f, cred, e.hmacKey, now).file, e.hmacKey);
      if Sound(e, f, s.password) {
        SoundKept(e, f, Attempt(e.c, f, cred, e.hmacKey, now).file, s.password);
        SoundKept(e, f, TornAttempt(e.c, f, cred, e.hmacKey, now, k), s.password);
      }
      if Sound(e, Attempt(e.c, f, cred, e.hmacKey, now).file, s.password) {
        SoundKept(e, Attempt(e.c, f, cred, e.hmacKey, now).file, f, s.password);
      }
    }
  }

  /** At rest, replacing the container by one that is sound if it was keeps the invariant. */
  lemma ContainerSwapped(e: Setup, s: State, g: bytes, strict: bool)
    requires Inv(e, s, strict) && s.phase.Ready? && IsFile(s.view.container)
    requires Sound(e, s.view.container.value.data, s.password) ==> Sound(e, g, s.password)
    ensures var s' := s.(view := s.view.(container := Some(FileObject(g))));
            && Inv(e, s', strict) && Inv(e, s'.(phase := Off), strict)
            && forall dk :: (Sound(e, g, s.password) ==> KeyOf(e.c, g, s.password) == Some(dk)) ==>
                 Inv(e, s'.(phase := UnlockOpened(dk)), strict)
  {
    hide Sound, KeyOf, Setup.LockRecord, Setup.UnlockRecord;
  }

  lemma ClearStagingStep(e: Setup, s: State, left: FileTree, strict: bool)
    requires Inv(e, s, strict) && s.phase.UnlockOpened?
    ensures Inv(e, s.(view := s.view.(unlockStaging := Some(DirObject(left)))), strict)
    ensures Inv(e, s.(phase := Ready), strict)
    ensures s.view.folder.None? ==>
              Inv(e, s.(view := s.view.(unlockStaging := Some(DirObject(map[]))), phase := UnlockExtracting(s.phase.dk)), strict)
  {
    hide Sound, KeyOf, Setup.LockRecord, Setup.UnlockRecord;
  }

  lemma ExtractStep(e: Setup, s: State, t: FileTree, strict: bool)
    requires Inv(e, s, strict) && s.phase.UnlockExtracting?
    ensures var s' := s.(view := s.view.(unlockStaging := Some(DirObject(t))));
            Inv(e, s', strict) && (t == e.tree ==> Inv(e, s'.(phase := UnlockExtracted), strict))
  {
    hide Sound, KeyOf, Setup.LockRecord, Setup.UnlockRecord;
  }

  /** What extraction reads out of a sound container is the tree. */
  lemma ExtractedIsTree(e: Setup, s: State, t: FileTree, strict: bool)
    requires Inv(e, s, strict) && s.phase.UnlockExtracting? && IsFile(s.view.container)
    requires TreeIn(e.c, s.view.container.value.data, s.phase.dk) == Ok(t)
    ensures t == e.tree
  {
    hide KeyOf, TreeIn, Parse, Verified, HoldsKey, JournalFits, Safe, Setup.LockRecord, Setup.UnlockRecord;
  }

  lemma AbortUnlockStep(e: Setup, s: State, strict: bool)
    requires Inv(e, s, strict) && (s.phase.UnlockExtracting? || s.phase.UnlockExtracted?)
    ensures Inv(e, s.(view := s.view.(unlockStaging := None), phase := Off), strict)
  {
    hide Sound, KeyOf, Setup.LockRecord, Setup.UnlockRecord;
  }

  lemma LockingWhole(e: Setup, s: State, strict: bool)
    requires Inv(e, s, strict) && s.phase.LockWriting?
    ensures FolderWhole(e, s.view)
  {
  }

  lemma AttemptSteps(e: Setup, s: State, ev: Event, strict: bool)
    requires e.Valid() && Inv(e, s, strict) && Enabled(e, s, ev, !strict) && Enabled(e, s, ev, true) && Unforged(e, s, ev)
    requires ev.TryAndFail? || ev.TearHeader? || ev.GrantUnlock?
    ensures Inv(e, Next(e, s, ev), strict)
  {
    hide Inv, Sound, Attempt, TornAttempt, KeyOf, Scanned.Writable, Planned;
    AttemptSound(e, s, ev.cred, ev.now, if ev.TearHeader? then ev.k else 0);
    var f := s.view.container.value.data;
    if ev.TearHeader? {
      ContainerSwapped(e, s, TornAttempt(e.c, f, ev.cred, e.hmacKey, ev.now, ev.k), strict);
    } else {
      ContainerSwapped(e, s, Attempt(e.c, f, ev.cred, e.hmacKey, ev.now).file, strict);
    }
  }

  lemma OtherSteps(e: Setup, s: State, ev: Event, strict: bool)
    requires e.Valid() && Inv(e, s, strict) && Enabled(e, s, ev, !strict) && Enabled(e, s, ev, true)
    requires !ev.TryAndFail? && !ev.TearHeader? && !ev.GrantUnlock?
    ensures Inv(e, Next(e, s, ev), strict)
  {
    hide Inv, Sound, Attempt, TornAttempt, KeyOf, Scanned.Writable, Scanned.File, Planned, Primitives.Ideal,
         Setup.Container, Setup.LockStaging, Setup.UnlockStaging, Setup.LockRecord, Setup.UnlockRecord, View.Put;
    match ev
    case Crash => KeepsWhenStopped(e, s, strict);
    case StartRecover => KeepsWhenStopped(e, s, strict);
    case RecoverDone => KeepsWhenStopped(e, s, strict);
    case DropUnreadable(u) => DropUnreadableStep(e, s, u, strict);
    case ReplayRecord(u) => ReplayStep(e, s, u, strict);
    case DropRecord => DropStep(e, s, s.phase.name, strict);
    case DeleteSome(left) =>
      if s.phase.Deleting? {
        ReplayDeletesSome(e, s, s.phase.name, s.phase.slot, left, strict);
      } else {
        FolderSlot(s.view, left);
        SourceDeletesSome(e, s, s.phase.name, left, strict);
      }
    case DeleteDone =>
      if s.phase.Deleting? {
        ReplayDeletes(e, s, s.phase.name, s.phase.slot, strict);
      } else if s.phase.LockRenamed? {
        SourceDeletes(e, s, s.phase.name, strict);
      } else {
        ContainerDeletes(e, s, s.phase.name, strict);
      }
    case DeleteFails =>
      if s.phase.Deleting? {
        ReplayGivesUp(e, s, s.phase.name, s.phase.slot);
      } else {
        KeepsWhenStopped(e, s, strict);
      }
    case StartLock(password) => StartLockStep(e, s, password, strict);
    case WriteSome(data) => WriteStep(e, s, data, strict);
    case WriteDone(w) =>
      LockingWhole(e, s, strict);
      WriteDoneStep(e, s, w, strict);
    case AbortLock => AbortLockStep(e, s, strict);
    case BeginRecord(u) =>
      if s.phase.LockWritten? {
        LockRecordSteps(e, s, u, strict);
      } else {
        UnlockRecordSteps(e, s, u, strict);
      }
    case SyncRecord =>
      if s.phase.LockRecording? {
        LockRecordSteps(e, s, s.phase.name, strict);
      } else {
        UnlockRecordSteps(e, s, s.phase.name, strict);
      }
    case Rename =>
      if s.phase.LockRecorded? {
        LockRenameStep(e, s, s.phase.name, strict);
      } else {
        UnlockRenameStep(e, s, s.phase.name, strict);
      }
    case RefuseUnlock => ClearStagingStep(e, s, map[], strict);
    case ClearStaging(left) => ClearStagingStep(e, s, left, strict);
    case StartExtract => ClearStagingStep(e, s, map[], strict);
    case ExtractSome(t) => ExtractStep(e, s, t, strict);
    case ExtractDone(t) =>
      ExtractedIsTree(e, s, t, strict);
      ExtractStep(e, s, t, strict);
    case AbortUnlock => AbortUnlockStep(e, s, strict);
  }

  lemma FolderSlot(v: View, left: FileTree)
    ensures v.Put(AtFolder, Some(DirObject(left))) == v.(folder := Some(DirObject(left)))
  {
  }

  lemma StepKeepsInv(e: Setup, s: State, ev: Event, strict: bool)
    requires e.Valid() && Inv(e, s, strict) && Enabled(e, s, ev, !strict) && Enabled(e, s, ev, true) && Unforged(e, s, ev)
    ensures Inv(e, Next(e, s, ev), strict)
  {
    hide Inv, Enabled, Next, Unforged;
    if ev.TryAndFail? || ev.TearHeader? || ev.GrantUnlock? {
      AttemptSteps(e, s, ev, strict);
    } else {
      OtherSteps(e, s, ev, strict);
    }
  }

  lemma {:induction false} RunKeepsInv(e: Setup, s: State, evs: seq<Event>, strict: bool)
    requires e.Valid() && Inv(e, s, strict) && Run(e, s, evs, !strict) && Honest(e, s, evs, !strict)
    ensures Inv(e, After(e, s, evs, !strict), strict)
    decreases |evs|
  {
    hide Inv, Enabled, Next, Unforged;
    if evs == [] {
    } else {
      StepKeepsInv(e, s, evs[0], strict);
      RunKeepsInv(e, Next(e, s, evs[0]), evs[1..], strict);
    }
  }

  /** A machine at rest: no process, no record, one whole copy; any staging leftovers. */
  ghost predicate AtRest(e: Setup, s: State) {
    s.phase.Off? && s.journal == map[] && Tidy(e, s)
  }

  lemma AtRestInv(e: Setup, s: State, strict: bool)
    requires AtRest(e, s)
    ensures Inv(e, s, strict)
  {
    hide Sound;
  }

  /** No run loses the data: whatever is locked, unlocked, attempted and recovered, and wherever it
      crashes or recovery's deletes fail, the folder is whole or the container restores it. */
  lemma NoRunLosesData(e: Setup, s: State, evs: seq<Event>)
    requires e.Valid() && AtRest(e, s) && Run(e, s, evs, true) && Honest(e, s, evs, true)
    ensures Safe(e, After(e, s, evs, true))
  {
    hide AtRest, Run, After, Honest, PhaseFits, Safe, JournalFits;
    AtRestInv(e, s, false);
    RunKeepsInv(e, s, evs, false);
  }

  /** Recovery converges: if its deletes succeed, then every time it is done exactly one copy is
      left, whole, with an empty journal, and so again when nothing is running and no record waits. */
  lemma RecoveryConverges(e: Setup, s: State, evs: seq<Event>)
    requires e.Valid() && AtRest(e, s) && Run(e, s, evs, false) && Honest(e, s, evs, false)
    ensures var s' := After(e, s, evs, false);
            && (s'.phase.Ready? ==> s'.journal == map[] && Tidy(e, s'))
            && (s'.phase.Off? && s'.journal == map[] ==> AtRest(e, s'))
  {
    hide Run, After, Honest, Safe, JournalFits, Tidy;
    AtRestInv(e, s, true);
    RunKeepsInv(e, s, evs, true);
  }

  // ----- which runs are honest -----

  /** Where sealed texts open to nothing but their plaintexts, every run is honest. */
  lemma {:induction false} BindingMakesHonest(e: Setup, s: State, evs: seq<Event>, faults: bool)
    requires e.c.Ideal() && e.c.Binding() && Run(e, s, evs, faults)
    ensures Honest(e, s, evs, faults)
    decreases |evs|
  {
    hide Enabled, Next, Unforged, Primitives.Ideal, Primitives.Binding;
    if evs == [] {
    } else {
      if evs[0].GrantUnlock? {
        GrantUnforged(e, s, evs[0]);
      } else {
        NoGrantUnforged(e, s, evs[0]);
      }
      BindingMakesHonest(e, Next(e, s, evs[0]), evs[1..], faults);
    }
  }

  lemma GrantUnforged(e: Setup, s: State, ev: Event)
    requires e.c.Ideal() && e.c.Binding() && ev.GrantUnlock?
    ensures Unforged(e, s, ev)
  {
    hide Sound, Attempt, KeyOf;
    if ContainerSound(e, s.view, s.password) && Tried(e, s, ev.cred, ev.now).result.Ok? {
      GrantIsOwn(e, s.view.container.value.data, ev.cred, ev.now, s.password);
    }
  }

  lemma NoGrantUnforged(e: Setup, s: State, ev: Event)
    requires e.c.Ideal() && !ev.GrantUnlock?
    ensures Unforged(e, s, ev)
  {
  }

  /** So is a run in which nothing is unlocked. */
  lemma {:induction false} NoGrantsHonest(e: Setup, s: State, evs: seq<Event>, faults: bool)
    requires e.c.Ideal() && Run(e, s, evs, faults) && forall i :: 0 <= i < |evs| ==> !evs[i].GrantUnlock?
    ensures Honest(e, s, evs, faults)
    decreases |evs|
  {
    hide Enabled, Next, Unforged, Primitives.Ideal;
    if evs == [] {
    } else {
      NoGrantUnforged(e, s, evs[0]);
      NoGrantsHonest(e, Next(e, s, evs[0]), evs[1..], faults);
    }
  }
}
