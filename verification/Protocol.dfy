/**
 * Lock, unlock and recover as one machine over the four paths they work on and the journal. Every event is one
 * file-system step of one process; a crash may come between any two, in the middle of a write,
 * of a recursive delete or of a header rewrite, and during recovery itself.
 */
module Protocol {
  import opened Bytes
  import opened Entries
  import opened Paths
  import opened Crypto
  import opened Lockout
  import opened Header
  import opened Container
  import opened ContainerProofs
  import opened Walk
  import opened WalkProofs
  import opened WalkComplete
  import opened ContainerFile
  import opened Authorize
  import opened Journal
  import R = RecoveryCodeProofs

  /** One folder and the names the operations derive from it. */
  datatype Setup = Setup(c: Primitives, hmacKey: bytes, folder: string, tree: FileTree) {
    function Container(): string { folder + ".fvlt" }

    function LockStaging(): string { folder + ".fvlt.tmp" }

    function UnlockStaging(): string { folder + ".__restoring" }

    function PathOf(slot: Slot): string {
      match slot
      case AtFolder => folder
      case AtContainer => Container()
      case AtLockStaging => LockStaging()
      case AtUnlockStaging => UnlockStaging()
    }

    /** The primitives are ideal, and extraction accepts every name of the folder. */
    ghost predicate Valid() {
      c.Ideal() && forall p :: p in tree ==> AllSafe(p)
    }

    function LockRecord(): Record {
      Record(OpKind.Lock, folder, Container(), LockStaging())
    }

    function UnlockRecord(): Record {
      Record(OpKind.Unlock, folder, Container(), UnlockStaging())
    }
  }

  datatype Slot = AtFolder | AtContainer | AtLockStaging | AtUnlockStaging

  /** What is at the four paths. */
  datatype View = View(
    folder: Option<Object>, container: Option<Object>, lockStaging: Option<Object>, unlockStaging: Option<Object>
  ) {
    function At(slot: Slot): Option<Object> {
      match slot
      case AtFolder => folder
      case AtContainer => container
      case AtLockStaging => lockStaging
      case AtUnlockStaging => unlockStaging
    }

    function Put(slot: Slot, o: Option<Object>): View {
      match slot
      case AtFolder => this.(folder := o)
      case AtContainer => this.(container := o)
      case AtLockStaging => this.(lockStaging := o)
      case AtUnlockStaging => this.(unlockStaging := o)
    }
  }

  function Found(d: Disk, p: string): Option<Object> {
    if p in d then Some(d[p]) else None
  }

  /** The view of a disk, which may hold other things besides. */
  function ViewOf(e: Setup, d: Disk): View {
    View(Found(d, e.folder), Found(d, e.Container()), Found(d, e.LockStaging()), Found(d, e.UnlockStaging()))
  }

  function Add(d: Disk, p: string, o: Option<Object>): Disk {
    if o.Some? then d[p := o.value] else d
  }

  /** The disk that holds nothing else. */
  function DiskOf(e: Setup, v: View): Disk {
    Add(Add(Add(Add(map[], e.folder, v.folder), e.Container(), v.container), e.LockStaging(), v.lockStaging),
        e.UnlockStaging(), v.unlockStaging)
  }

  /** The slot of a path among the four. */
  function SlotOf(e: Setup, p: string): Slot {
    if p == e.folder then AtFolder
    else if p == e.Container() then AtContainer
    else if p == e.LockStaging() then AtLockStaging
    else AtUnlockStaging
  }

  /** Where the running process is; Off when none runs. The key and the name of the record file are
      what the process remembers. */
  datatype Phase =
    | Off
    | Recovering
    | Deleting(name: string, slot: Slot)
    | Dropping(name: string)
    | Ready
    | LockWriting
    | LockWritten
    | LockRecording(name: string)
    | LockRecorded(name: string)
    | LockRenamed(name: string)
    | LockCleared(name: string)
    | UnlockOpened(dk: bytes)
    | UnlockExtracting(dk: bytes)
    | UnlockExtracted
    | UnlockRecording(name: string)
    | UnlockRecorded(name: string)
    | UnlockRenamed(name: string)
    | UnlockCleared(name: string)

  /** `password` is the one the latest lock was given. */
  datatype State = State(view: View, journal: JournalDir, phase: Phase, password: bytes)

  /** What the writer is given: the listing it scanned, its options and its randomness. */
  datatype Scanned = Scanned(root: seq<Item>, opts: LockOptions, random: LockRandom) {
    function Entries(): seq<Entry>
      requires Sized(Visits(root))
    {
      EntriesOf(Visits(root))
    }

    /** The conditions under which `write_container` succeeds on an unchanging folder with this tree. */
    ghost predicate Writable(c: Primitives, t: FileTree) {
      && WellFormed(root) && Shows(root, t) && !HasLink(root) && random.Valid() && opts.kdf.Validate()
      && Sized(Visits(root)) && |Entries()| <= U64_MAX && ManifestFits(c, Entries())
      && AllFaithful(Entries(), SourceOf(t))
    }

    function File(c: Primitives, password: bytes, hmacKey: bytes, t: FileTree): bytes
      requires Sized(Visits(root)) && |Entries()| <= U64_MAX && AllFaithful(Entries(), SourceOf(t))
    {
      Finished(c, password, hmacKey, opts, random, Entries(), WrapU64(TotalBytes(root)), SourceOf(t))
    }
  }

  datatype Event =
    | Crash
    | StartRecover
    | DropUnreadable(u: string)
    | ReplayRecord(u: string)
    | DeleteSome(left: FileTree)
    | DeleteDone
    | DeleteFails
    | DropRecord
    | RecoverDone
    | TryAndFail(cred: Credential, now: u64)
    | TearHeader(cred: Credential, now: u64, k: nat)
    | StartLock(newPassword: bytes)
    | WriteSome(data: bytes)
    | WriteDone(scanned: Scanned)
    | AbortLock
    | BeginRecord(u: string)
    | SyncRecord
    | Rename
    | GrantUnlock(cred: Credential, now: u64)
    | RefuseUnlock
    | ClearStaging(left: FileTree)
    | StartExtract
    | ExtractSome(partial: FileTree)
    | ExtractDone(restored: FileTree)
    | AbortUnlock

  predicate IsFile(o: Option<Object>) { o.Some? && o.value.FileObject? }

  predicate IsDir(o: Option<Object>) { o.Some? && o.value.DirObject? }

  ghost function Tried(e: Setup, s: State, cred: Credential, now: u64): Outcome
    requires e.c.Ideal() && IsFile(s.view.container)
  {
    Attempt(e.c, s.view.container.value.data, cred, e.hmacKey, now)
  }

  /** May this event happen? Only a failing delete during recovery counts as a fault. */
  ghost predicate Enabled(e: Setup, s: State, ev: Event, faults: bool)
    requires e.c.Ideal()
  {
    var v := s.view;
    match ev
    case Crash => true
    case StartRecover => s.phase.Off?
    case DropUnreadable(u) => s.phase.Recovering? && u in s.journal && s.journal[u].Unreadable?
    case ReplayRecord(u) => s.phase.Recovering? && u in s.journal && s.journal[u].Readable?
    case DeleteSome(_) => (s.phase.Deleting? && IsDir(v.At(s.phase.slot))) || (s.phase.LockRenamed? && IsDir(v.folder))
    case DeleteDone => s.phase.Deleting? || s.phase.LockRenamed? || s.phase.UnlockRenamed?
    case DeleteFails => (s.phase.Deleting? && faults) || s.phase.LockRenamed? || s.phase.UnlockRenamed?
    case DropRecord => s.phase.Dropping? || s.phase.LockCleared? || s.phase.UnlockCleared?
    case RecoverDone => s.phase.Recovering? && s.journal == map[]
    case TryAndFail(cred, now) => s.phase.Ready? && IsFile(v.container) && Tried(e, s, cred, now).result.Err?
    case TearHeader(cred, now, k) => s.phase.Ready? && IsFile(v.container) && k <= HEADER_LEN
    case StartLock(_) => s.phase.Ready? && v.container.None? && IsDir(v.folder)
    case WriteSome(_) => s.phase.LockWriting?
    case WriteDone(w) => s.phase.LockWriting? && IsDir(v.folder) && w.Writable(e.c, v.folder.value.tree)
    case AbortLock => s.phase.LockWriting? || s.phase.LockWritten?
    case BeginRecord(u) => s.phase.LockWritten? || s.phase.UnlockExtracted?
    case SyncRecord => s.phase.LockRecording? || s.phase.UnlockRecording?
    case Rename =>
      (s.phase.LockRecorded? && v.lockStaging.Some?) || (s.phase.UnlockRecorded? && v.unlockStaging.Some?)
    case GrantUnlock(cred, now) => s.phase.Ready? && IsFile(v.container) && Tried(e, s, cred, now).result.Ok?
    case RefuseUnlock => s.phase.UnlockOpened?
    case ClearStaging(_) => s.phase.UnlockOpened? && IsDir(v.unlockStaging)
    case StartExtract => s.phase.UnlockOpened? && v.folder.None?
    case ExtractSome(_) => s.phase.UnlockExtracting?
    case ExtractDone(t) =>
      && s.phase.UnlockExtracting? && IsFile(v.container)
      && TreeIn(e.c, v.container.value.data, s.phase.dk) == Ok(t)
    case AbortUnlock => s.phase.UnlockExtracting? || s.phase.UnlockExtracted?
  }

  /** What a replay sets out to delete. */
  function Planned(e: Setup, s: State, u: string): Phase
    requires u in s.journal && s.journal[u].Readable?
  {
    var d := DiskOf(e, s.view);
    match Decision(e.c, e.hmacKey, s.journal[u].record, d)
    case None => Dropping(u)
    case Some(a) => if a.path in d && Removable(a, d) then Deleting(u, SlotOf(e, a.path)) else Dropping(u)
  }

  ghost function Next(e: Setup, s: State, ev: Event): State
    requires e.c.Ideal() && Enabled(e, s, ev, true)
  {
    var v := s.view;
    match ev
    case Crash => s.(phase := Off)
    case StartRecover => s.(phase := Recovering)
    case DropUnreadable(u) => s.(journal := s.journal - {u})
    case ReplayRecord(u) => s.(phase := Planned(e, s, u))
    case DeleteSome(left) =>
      s.(view := v.Put(if s.phase.Deleting? then s.phase.slot else AtFolder, Some(DirObject(left))))
    case DeleteDone =>
      (match s.phase
       case Deleting(u, slot) => s.(view := v.Put(slot, None), phase := Dropping(u))
       case LockRenamed(u) => s.(view := v.(folder := None), phase := LockCleared(u))
       case UnlockRenamed(u) => s.(view := v.(container := None), phase := UnlockCleared(u))
       case _ => s)
    case DeleteFails => s.(phase := if s.phase.Deleting? then Dropping(s.phase.name) else Off)
    case DropRecord =>
      s.(journal := s.journal - {s.phase.name}, phase := if s.phase.Dropping? then Recovering else Ready)
    case RecoverDone => s.(phase := Ready)
    case TryAndFail(cred, now) => s.(view := v.(container := Some(FileObject(Tried(e, s, cred, now).file))))
    case TearHeader(cred, now, k) =>
      s.(view := v.(container := Some(FileObject(TornAttempt(e.c, v.container.value.data, cred, e.hmacKey, now, k)))),
         phase := Off)
    case StartLock(pw) => s.(view := v.(lockStaging := None), phase := LockWriting, password := pw)
    case WriteSome(data) => s.(view := v.(lockStaging := Some(FileObject(data))))
    case WriteDone(w) =>
      s.(view := v.(lockStaging := Some(FileObject(w.File(e.c, s.password, e.hmacKey, v.folder.value.tree)))),
         phase := LockWritten)
    case AbortLock => s.(view := v.(lockStaging := None), phase := Off)
    case BeginRecord(u) =>
      s.(journal := s.journal[u := Unreadable], phase := if s.phase.LockWritten? then LockRecording(u) else UnlockRecording(u))
    case SyncRecord =>
      var u := s.phase.name;
      if s.phase.LockRecording?
      then s.(journal := s.journal[u := Readable(e.LockRecord())], phase := LockRecorded(u))
      else s.(journal := s.journal[u := Readable(e.UnlockRecord())], phase := UnlockRecorded(u))
    case Rename =>
      var u := s.phase.name;
      if s.phase.LockRecorded?
      then s.(view := v.(lockStaging := None, container := v.lockStaging), phase := LockRenamed(u))
      else s.(view := v.(unlockStaging := None, folder := v.unlockStaging), phase := UnlockRenamed(u))
    case GrantUnlock(cred, now) =>
      var o := Tried(e, s, cred, now);
      s.(view := v.(container := Some(FileObject(o.file))), phase := UnlockOpened(o.result.value.dk))
    case RefuseUnlock => s.(phase := Ready)
    case ClearStaging(left) => s.(view := v.(unlockStaging := Some(DirObject(left))))
    case StartExtract => s.(view := v.(unlockStaging := Some(DirObject(map[]))), phase := UnlockExtracting(s.phase.dk))
    case ExtractSome(t) => s.(view := v.(unlockStaging := Some(DirObject(t))))
    case ExtractDone(t) => s.(view := v.(unlockStaging := Some(DirObject(t))), phase := UnlockExtracted)
    case AbortUnlock => s.(view := v.(unlockStaging := None), phase := Off)
  }

  // ----- runs -----

  ghost predicate Run(e: Setup, s: State, evs: seq<Event>, faults: bool)
    requires e.c.Ideal()
    decreases |evs|
  {
    evs == []
    || (Enabled(e, s, evs[0], faults) && Enabled(e, s, evs[0], true) && Run(e, Next(e, s, evs[0]), evs[1..], faults))
  }

  ghost function After(e: Setup, s: State, evs: seq<Event>, faults: bool): State
    requires e.c.Ideal() && Run(e, s, evs, faults)
    decreases |evs|
  {
    if evs == [] then s else After(e, Next(e, s, evs[0]), evs[1..], faults)
  }

  // ----- what is at stake -----

  /** The folder holds the whole tree. */
  predicate FolderWhole(e: Setup, v: View) {
    v.folder == Some(DirObject(e.tree))
  }

  /** Is this a wrap of the key, under whatever it was wrapped with? */
  ghost predicate Wraps(c: Primitives, wrap: bytes, dk: bytes) {
    exists kek, nonce :: |nonce| == NONCE_LEN && wrap == WrapKey(c, kek, nonce, dk)
  }

  /** Both wraps of a header hold this one key; the second may be absent. */
  ghost predicate HoldsKey(c: Primitives, h: Header, dk: bytes) {
    && Wraps(c, h.wrappedDkPw, dk)
    && (R.IsEnrolled(h.wrappedDkMk) ==> |h.wrappedDkMk| == MASTER_WRAP_LEN && Wraps(c, h.wrappedDkMk[32..], dk))
  }

  /** A container that opens with the password, restores the tree and passes the structural check,
      and whose wraps hold the one data key. */
  ghost predicate Sound(e: Setup, f: bytes, password: bytes) {
    && Parse(e.c, f, e.hmacKey).Ok?
    && Decodes(e.c, f, password, e.tree)
    && Verified(e.c, f, e.hmacKey).Ok?
    && HoldsKey(e.c, Parse(e.c, f, e.hmacKey).value, KeyOf(e.c, f, password).value)
  }

  ghost predicate ContainerSound(e: Setup, v: View, password: bytes) {
    IsFile(v.container) && Sound(e, v.container.value.data, password)
  }

  /** The data is not lost. */
  ghost predicate Safe(e: Setup, s: State) {
    FolderWhole(e, s.view) || ContainerSound(e, s.view, s.password)
  }

  /** Exactly one copy exists, and it is whole. */
  ghost predicate Tidy(e: Setup, s: State) {
    || (FolderWhole(e, s.view) && s.view.container.None?)
    || (ContainerSound(e, s.view, s.password) && s.view.folder.None?)
  }

  // ----- honest runs -----

  /** Whatever credential a sound container lets in here is given the key its password opens, as it
      is unless one of its two wraps opens to a forged key under that credential. */
  ghost predicate Unforged(e: Setup, s: State, ev: Event)
    requires e.c.Ideal()
  {
    ev.GrantUnlock? && ContainerSound(e, s.view, s.password) && Tried(e, s, ev.cred, ev.now).result.Ok? ==>
      KeyOf(e.c, s.view.container.value.data, s.password) == Some(Tried(e, s, ev.cred, ev.now).result.value.dk)
  }

  /** No credential of this run forges a key. */
  ghost predicate Honest(e: Setup, s: State, evs: seq<Event>, faults: bool)
    requires e.c.Ideal() && Run(e, s, evs, faults)
    decreases |evs|
  {
    evs == [] || (Unforged(e, s, evs[0]) && Honest(e, Next(e, s, evs[0]), evs[1..], faults))
  }
}
