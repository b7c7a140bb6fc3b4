/** The machine's runs and the operations: what the methods do undisturbed is a run of the machine,
    and recovery gets through from wherever a crash left things. */
module ProtocolRuns {
  import opened Bytes
  import opened Crypto
  import opened Container
  import opened Walk
  import opened ContainerFile
  import opened Authorize
  import opened Journal
  import opened Protocol
  import opened ProtocolProofs

  lemma {:induction false} RunConcat(e: Setup, s: State, a: seq<Event>, b: seq<Event>, faults: bool)
    requires e.c.Ideal() && Run(e, s, a, faults) && Run(e, After(e, s, a, faults), b, faults)
    ensures Run(e, s, a + b, faults)
    ensures After(e, s, a + b, faults) == After(e, After(e, s, a, faults), b, faults)
    decreases |a|
  {
    hide Enabled, Next;
    if a == [] {
      assert a + b == b;
    } else {
      RunConcat(e, Next(e, s, a[0]), a[1..], b, faults);
      assert (a + b)[1..] == a[1..] + b;
    }
  }

  lemma Single(e: Setup, t: State, ev: Event, evs: seq<Event>)
    requires e.c.Ideal() && evs == [ev] && Enabled(e, t, ev, false) && Enabled(e, t, ev, true)
    ensures Run(e, t, evs, false) && After(e, t, evs, false) == Next(e, t, ev)
  {
    hide Enabled, Next;
    Empty(e, Next(e, t, ev));
    assert evs[1..] == [];
  }

  /** One more event at the end. */
  lemma Extend(e: Setup, s: State, evs: seq<Event>, ev: Event, s': State) returns (more: seq<Event>)
    requires e.c.Ideal() && Run(e, s, evs, false)
    requires var t := After(e, s, evs, false); Enabled(e, t, ev, false) && Enabled(e, t, ev, true) && s' == Next(e, t, ev)
    ensures Run(e, s, more, false) && After(e, s, more, false) == s' && more == evs + [ev]
  {
    hide Enabled, Next;
    more := evs + [ev];
    var t := After(e, s, evs, false);
    Single(e, t, ev, [ev]);
    RunConcat(e, s, evs, [ev], false);
  }

  lemma Empty(e: Setup, s: State)
    requires e.c.Ideal()
    ensures Run(e, s, [], false) && After(e, s, [], false) == s
  {
  }

  // ----- undisturbed operations -----

  /** From a finished staging file to its rename. */
  lemma LockRenameRun(e: Setup, s: State, evs: seq<Event>, u: string) returns (more: seq<Event>)
    requires e.c.Ideal() && Run(e, s, evs, false)
    requires After(e, s, evs, false).phase.LockWritten? && After(e, s, evs, false).view.lockStaging.Some?
    ensures Run(e, s, more, false)
    ensures var t := After(e, s, evs, false);
            After(e, s, more, false)
            == State(t.view.(lockStaging := None, container := t.view.lockStaging),
                     t.journal[u := Readable(e.LockRecord())], LockRenamed(u), t.password)
  {
    hide Run, After, Attempt, KeyOf, TreeIn, Planned, Setup.LockRecord, Scanned.Writable, Primitives.Ideal;
    var t := After(e, s, evs, false);
    var j := t.journal[u := Readable(e.LockRecord())];
    more := Extend(e, s, evs, BeginRecord(u), t.(journal := t.journal[u := Unreadable], phase := LockRecording(u)));
    assert t.journal[u := Unreadable][u := Readable(e.LockRecord())] == j;
    more := Extend(e, s, more, SyncRecord, t.(journal := j, phase := LockRecorded(u)));
    more := Extend(e, s, more, Rename,
                   State(t.view.(lockStaging := None, container := t.view.lockStaging), j, LockRenamed(u), t.password));
  }

  /** From the start of a lock to its finished staging file. */
  lemma LockWriteRun(e: Setup, s: State, w: Scanned, password: bytes) returns (evs: seq<Event>)
    requires e.c.Ideal() && s.phase.Ready? && s.view.container.None?
    requires IsDir(s.view.folder) && w.Writable(e.c, s.view.folder.value.tree)
    ensures Run(e, s, evs, false)
    ensures var file := FileObject(w.File(e.c, password, e.hmacKey, s.view.folder.value.tree));
            After(e, s, evs, false) == State(s.view.(lockStaging := Some(file)), s.journal, LockWritten, password)
  {
    hide Run, After, Attempt, KeyOf, TreeIn, Planned, Setup.LockRecord, Finished, AllFaithful, Shows;
    Empty(e, s);
    var t := State(s.view.(lockStaging := None), s.journal, LockWriting, password);
    evs := Extend(e, s, [], StartLock(password), t);
    var file := FileObject(w.File(e.c, password, e.hmacKey, s.view.folder.value.tree));
    evs := Extend(e, s, evs, WriteDone(w), t.(view := s.view.(lockStaging := Some(file)), phase := LockWritten));
  }

  /** From the rename to the end of a lock. */
  lemma LockFinishRun(e: Setup, s: State, evs: seq<Event>, u: string) returns (more: seq<Event>)
    requires e.c.Ideal() && Run(e, s, evs, false)
    requires var t := After(e, s, evs, false); t.phase == LockRenamed(u) && t.journal.Keys == {u}
    ensures Run(e, s, more, false)
    ensures var t := After(e, s, evs, false);
            After(e, s, more, false) == State(t.view.(folder := None), map[], Ready, t.password)
  {
    hide Run, After, Attempt, KeyOf, TreeIn, Planned, Scanned.Writable, Primitives.Ideal;
    var t := After(e, s, evs, false);
    more := Extend(e, s, evs, DeleteDone, t.(view := t.view.(folder := None), phase := LockCleared(u)));
    assert t.journal - {u} == map[];
    more := Extend(e, s, more, DropRecord, State(t.view.(folder := None), map[], Ready, t.password));
  }

  /** An undisturbed lock is a run, with the outcome on disk that `LockFolder` promises. */
  lemma LockIsARun(e: Setup, s: State, d: Disk, w: Scanned, password: bytes, u: string) returns (evs: seq<Event>)
    requires e.c.Ideal() && s.phase.Ready? && s.journal == map[] && s.view == ViewOf(e, d) && s.view.container.None?
    requires IsDir(s.view.folder) && w.Writable(e.c, s.view.folder.value.tree)
    ensures Run(e, s, evs, false)
    ensures var file := FileObject(w.File(e.c, password, e.hmacKey, s.view.folder.value.tree));
            After(e, s, evs, false)
            == State(ViewOf(e, Without(Without(d, {e.LockStaging()}), {e.folder})[e.Container() := file]), map[], Ready, password)
  {
    hide Run, After, Attempt, Setup.Container, Setup.LockStaging, Setup.UnlockStaging, Setup.LockRecord, Primitives.Ideal,
         ViewOf, Without, AllFaithful, Shows, Finished, Enabled, Next;
    var file := FileObject(w.File(e.c, password, e.hmacKey, s.view.folder.value.tree));
    evs := LockWriteRun(e, s, w, password);
    evs := LockRenameRun(e, s, evs, u);
    evs := LockFinishRun(e, s, evs, u);
    PathsOfSlots(e);
    ViewAfterDelete(e, d, AtLockStaging);
    ViewAfterDelete(e, Without(d, {e.LockStaging()}), AtFolder);
    ViewAfterWrite(e, Without(Without(d, {e.LockStaging()}), {e.folder}), AtContainer, file);
  }

  /** From a granted credential to the complete staging directory. */
  lemma ExtractRun(e: Setup, s: State, evs: seq<Event>, t: FileTree) returns (more: seq<Event>)
    requires e.c.Ideal() && Run(e, s, evs, false)
    requires var x := After(e, s, evs, false);
             && x.phase.UnlockOpened? && x.view.folder.None? && IsFile(x.view.container)
             && TreeIn(e.c, x.view.container.value.data, x.phase.dk) == Ok(t)
    ensures Run(e, s, more, false)
    ensures var x := After(e, s, evs, false);
            After(e, s, more, false) == x.(view := x.view.(unlockStaging := Some(DirObject(t))), phase := UnlockExtracted)
  {
    hide Run, After, Attempt, KeyOf, TreeIn, Planned, Scanned.Writable, Primitives.Ideal;
    var x := After(e, s, evs, false);
    more := Extend(e, s, evs, StartExtract,
                   x.(view := x.view.(unlockStaging := Some(DirObject(map[]))), phase := UnlockExtracting(x.phase.dk)));
    more := Extend(e, s, more, ExtractDone(t),
                   x.(view := x.view.(unlockStaging := Some(DirObject(t))), phase := UnlockExtracted));
  }

  lemma GrantedTree(e: Setup, f: bytes, cred: Credential, now: u64)
    requires e.c.Ideal() && Attempt(e.c, f, cred, e.hmacKey, now).result.Ok?
    ensures forall dk :: TreeIn(e.c, Attempt(e.c, f, cred, e.hmacKey, now).file, dk) == TreeIn(e.c, f, dk)
  {
    hide TreeIn, ByPassword, ByCode;
    AttemptKeepsVault(e.c, f, cred, e.hmacKey, now);
    SameVaultSameContents(e.c, f, Attempt(e.c, f, cred, e.hmacKey, now).file, e.hmacKey);
  }

  /** From a complete staging directory to its rename. */
  lemma UnlockRenameRun(e: Setup, s: State, evs: seq<Event>, u: string) returns (more: seq<Event>)
    requires e.c.Ideal() && Run(e, s, evs, false)
    requires After(e, s, evs, false).phase.UnlockExtracted? && After(e, s, evs, false).view.unlockStaging.Some?
    ensures Run(e, s, more, false)
    ensures var t := After(e, s, evs, false);
            After(e, s, more, false)
            == State(t.view.(unlockStaging := None, folder := t.view.unlockStaging),
                     t.journal[u := Readable(e.UnlockRecord())], UnlockRenamed(u), t.password)
  {
    hide Run, After, Attempt, KeyOf, TreeIn, Planned, Setup.UnlockRecord, Scanned.Writable, Primitives.Ideal;
    var t := After(e, s, evs, false);
    var j := t.journal[u := Readable(e.UnlockRecord())];
    more := Extend(e, s, evs, BeginRecord(u), t.(journal := t.journal[u := Unreadable], phase := UnlockRecording(u)));
    assert t.journal[u := Unreadable][u := Readable(e.UnlockRecord())] == j;
    more := Extend(e, s, more, SyncRecord, t.(journal := j, phase := UnlockRecorded(u)));
    more := Extend(e, s, more, Rename,
                   State(t.view.(unlockStaging := None, folder := t.view.unlockStaging), j, UnlockRenamed(u), t.password));
  }

  /** From the rename to the end of an unlock. */
  lemma UnlockFinishRun(e: Setup, s: State, evs: seq<Event>, u: string) returns (more: seq<Event>)
    requires e.c.Ideal() && Run(e, s, evs, false)
    requires var t := After(e, s, evs, false); t.phase == UnlockRenamed(u) && t.journal.Keys == {u}
    ensures Run(e, s, more, false)
    ensures var t := After(e, s, evs, false);
            After(e, s, more, false) == State(t.view.(container := None), map[], Ready, t.password)
  {
    hide Run, After, Attempt, KeyOf, TreeIn, Planned, Scanned.Writable, Primitives.Ideal;
    var t := After(e, s, evs, false);
    more := Extend(e, s, evs, DeleteDone, t.(view := t.view.(container := None), phase := UnlockCleared(u)));
    assert t.journal - {u} == map[];
    more := Extend(e, s, more, DropRecord, State(t.view.(container := None), map[], Ready, t.password));
  }

  /** An undisturbed unlock is a run, with the outcome on disk that `UnlockContainer` promises. */
  lemma UnlockIsARun(e: Setup, s: State, d: Disk, cred: Credential, now: u64, u: string) returns (evs: seq<Event>)
    requires e.c.Ideal() && s.phase.Ready? && s.journal == map[] && s.view == ViewOf(e, d)
    requires IsFile(s.view.container) && s.view.folder.None? && !IsFile(s.view.unlockStaging)
    requires var a := Tried(e, s, cred, now);
             a.result.Ok? && TreeIn(e.c, s.view.container.value.data, a.result.value.dk).Ok?
    ensures Run(e, s, evs, false)
    ensures var t := TreeIn(e.c, s.view.container.value.data, Tried(e, s, cred, now).result.value.dk).value;
            After(e, s, evs, false)
            == State(ViewOf(e, Without(Without(d, {e.UnlockStaging()}), {e.Container()})[e.folder := DirObject(t)]),
                     map[], Ready, s.password)
  {
    hide Run, After, Attempt, KeyOf, TreeIn, Planned, Setup.Container, Setup.LockStaging, Setup.UnlockStaging,
         Scanned.Writable, Primitives.Ideal, ViewOf, Without;
    var f := s.view.container.value.data;
    var a := Tried(e, s, cred, now);
    GrantedTree(e, f, cred, now);
    Empty(e, s);
    evs := Extend(e, s, [], GrantUnlock(cred, now),
                  s.(view := s.view.(container := Some(FileObject(a.file))), phase := UnlockOpened(a.result.value.dk)));
    var t := TreeIn(e.c, a.file, a.result.value.dk).value;
    evs := ExtractRun(e, s, evs, t);
    evs := UnlockRenameRun(e, s, evs, u);
    evs := UnlockFinishRun(e, s, evs, u);
    PathsOfSlots(e);
    ViewAfterDelete(e, d, AtUnlockStaging);
    ViewAfterDelete(e, Without(d, {e.UnlockStaging()}), AtContainer);
    ViewAfterWrite(e, Without(Without(d, {e.UnlockStaging()}), {e.Container()}), AtFolder, DirObject(t));
  }

  // ----- recovery gets through -----

  /** The record of a crashed state, if one is there, in listing order. */
  ghost predicate Lists(names: seq<string>, journal: JournalDir) {
    |names| <= 1 && forall u :: u in names <==> u in journal
  }

  ghost predicate OwnRecords(e: Setup, journal: JournalDir) {
    forall u :: u in journal && journal[u].Readable? ==> journal[u].record in {e.LockRecord(), e.UnlockRecord()}
  }

  /** What replaying an own record does to the view. */
  lemma ReplayedView(e: Setup, s: State, d: Disk, u: string)
    requires u in s.journal && s.journal[u].Readable? && s.journal[u].record in {e.LockRecord(), e.UnlockRecord()}
    requires s.view == ViewOf(e, d)
    ensures ViewOf(e, Replayed(e.c, e.hmacKey, s.journal[u].record, d))
            == if Planned(e, s, u).Deleting? then s.view.Put(Planned(e, s, u).slot, None) else s.view
    ensures Planned(e, s, u).Deleting? || Planned(e, s, u).Dropping?
    ensures Planned(e, s, u).name == u
  {
    hide ViewOf, DiskOf, Decision, Removable, Without, SlotOf, Setup.LockRecord, Setup.UnlockRecord, Setup.PathOf;
    var rec := s.journal[u].record;
    ViewOfDiskOf(e, s.view);
    SameViewSameDecision(e, rec, d, DiskOf(e, s.view));
    var a := Decision(e.c, e.hmacKey, rec, d);
    if a.Some? {
      ViewAfterDelete(e, d, SlotOf(e, a.value.path));
    }
  }

  /** The replay of one own record, up to its removal. */
  lemma ReplayRun(e: Setup, s: State, evs: seq<Event>, d: Disk, u: string) returns (more: seq<Event>)
    requires e.c.Ideal() && Run(e, s, evs, false)
    requires var t := After(e, s, evs, false);
             && t.phase.Recovering? && t.journal.Keys == {u} && t.journal[u].Readable?
             && t.journal[u].record in {e.LockRecord(), e.UnlockRecord()} && t.view == ViewOf(e, d)
    ensures Run(e, s, more, false)
    ensures var t := After(e, s, evs, false);
            After(e, s, more, false)
            == State(ViewOf(e, Replayed(e.c, e.hmacKey, t.journal[u].record, d)), map[], Recovering, t.password)
    ensures NoGrants(evs) ==> NoGrants(more)
  {
    hide Run, After, Attempt, Planned, Replayed, ViewOf, Scanned.Writable, Primitives.Ideal,
         Setup.LockRecord, Setup.UnlockRecord, Setup.Container, Setup.LockStaging, Setup.UnlockStaging;
    var t := After(e, s, evs, false);
    var v := ViewOf(e, Replayed(e.c, e.hmacKey, t.journal[u].record, d));
    ReplayedView(e, t, d, u);
    var x := t.(phase := Planned(e, t, u));
    more := Extend(e, s, evs, ReplayRecord(u), x);
    if x.phase.Deleting? {
      more := Extend(e, s, more, DeleteDone, t.(view := v, phase := Dropping(u)));
    }
    assert t.journal - {u} == map[];
    more := Extend(e, s, more, DropRecord, State(v, map[], Recovering, t.password));
  }

  predicate NoGrants(evs: seq<Event>) {
    forall i :: 0 <= i < |evs| ==> !evs[i].GrantUnlock?
  }

  lemma OneRecord(e: Setup, journal: JournalDir, u: string, d: Disk)
    requires Lists([u], journal)
    ensures u in journal && journal.Keys == {u} && journal - {u} == map[]
    ensures var r := Recovered(e.c, e.hmacKey, journal, [u], d);
            r.disk == if journal[u].Readable? then Replayed(e.c, e.hmacKey, journal[u].record, d) else d
  {
    hide Replayed;
    assert u in [u];
    forall w | w in journal ensures w == u {
      assert w in [u];
    }
    assert [u][..0] == [];
    assert Recovered(e.c, e.hmacKey, journal, [u][..0], d) == Recovery(d, []);
  }

  /** Wherever a crash left things, a recovery whose deletes succeed comes to its end, and leaves
      exactly what `Recover` computes. */
  lemma RecoverIsARun(e: Setup, s: State, d: Disk, names: seq<string>) returns (evs: seq<Event>)
    requires e.c.Ideal() && s.phase.Off? && Lists(names, s.journal) && OwnRecords(e, s.journal) && s.view == ViewOf(e, d)
    ensures Run(e, s, evs, false) && NoGrants(evs)
    ensures After(e, s, evs, false)
            == State(ViewOf(e, Recovered(e.c, e.hmacKey, s.journal, names, d).disk), map[], Ready, s.password)
  {
    hide Run, After, Attempt, Planned, Replayed, ViewOf, Scanned.Writable, Primitives.Ideal,
         Setup.LockRecord, Setup.UnlockRecord;
    Empty(e, s);
    evs := Extend(e, s, [], StartRecover, s.(phase := Recovering));
    var v := ViewOf(e, Recovered(e.c, e.hmacKey, s.journal, names, d).disk);
    if names == [] {
      assert s.journal == map[];
    } else {
      var u := names[0];
      assert names == [u];
      OneRecord(e, s.journal, u, d);
      if s.journal[u].Unreadable? {
        evs := Extend(e, s, evs, DropUnreadable(u), s.(journal := map[], phase := Recovering));
      } else {
        evs := ReplayRun(e, s, evs, d, u);
      }
    }
    evs := Extend(e, s, evs, RecoverDone, State(v, map[], Ready, s.password));
  }

  lemma CrashedFits(e: Setup, t: State)
    requires Inv(e, t, true)
    ensures Inv(e, t.(phase := Off), true) && OwnRecords(e, t.journal)
  {
    hide Sound, KeyOf, Setup.LockRecord, Setup.UnlockRecord;
  }

  /** Crash anywhere, then recover: exactly one copy is left, whole. */
  lemma CrashThenRecover(e: Setup, s: State, before: seq<Event>, d: Disk, names: seq<string>)
    requires e.Valid() && AtRest(e, s) && Run(e, s, before, false) && Honest(e, s, before, false)
    requires Lists(names, After(e, s, before, false).journal) && After(e, s, before, false).view == ViewOf(e, d)
    ensures var t := After(e, s, before, false);
            Tidy(e, State(ViewOf(e, Recovered(e.c, e.hmacKey, t.journal, names, d).disk), map[], Ready, t.password))
  {
    hide Run, After, Honest, Tidy, AtRest, Recovered, ViewOf, OwnRecords, Lists, Safe, JournalFits;
    var t := After(e, s, before, false);
    AtRestInv(e, s, true);
    RunKeepsInv(e, s, before, true);
    CrashedFits(e, t);
    var evs := RecoverIsARun(e, t.(phase := Off), d, names);
    NoGrantsHonest(e, t.(phase := Off), evs, false);
    RunKeepsInv(e, t.(phase := Off), evs, true);
  }

  /** One pending record: its replay clears its staging, touches no other, and leaves nothing to do. */
  lemma PendingReplay(e: Setup, t: State, d: Disk, u: string)
    requires Inv(e, t, true) && u in t.journal && t.journal[u].Readable? && t.view == ViewOf(e, d)
    ensures var rec := t.journal[u].record;
            var d' := Replayed(e.c, e.hmacKey, rec, d);
            && rec.staging !in d'
            && (e.LockStaging() != rec.staging ==> (e.LockStaging() in d' <==> e.LockStaging() in d))
            && (e.UnlockStaging() != rec.staging ==> (e.UnlockStaging() in d' <==> e.UnlockStaging() in d))
            && Decision(e.c, e.hmacKey, rec, d').None?
  {
    hide Decodes, Parse, HoldsKey, Verified, KeyOf, Tidy, PhaseFits, Setup.Container, Setup.LockStaging, Setup.UnlockStaging,
         Without, Covers, Planned, Replayed, Removable, DiskOf;
    NamesApart(e);
    PathsOfSlots(e);
    var rec := t.journal[u].record;
    var d' := Replayed(e.c, e.hmacKey, rec, d);
    ReplayedView(e, t, d, u);
    assert ViewOf(e, d') == ViewOf(e, d) || exists slot :: ViewOf(e, d') == ViewOf(e, d).Put(slot, None);
    if rec == e.LockRecord() {
      PlannedForLock(e, t, u);
      assert IsFile(t.view.container) ==> Verified(e.c, t.view.container.value.data, e.hmacKey).Ok?;
    } else {
      PlannedForUnlock(e, t, u);
    }
  }

  /** After a crash anywhere and one recovery, a staging path is left exactly when it was there and
      no readable record named it: the crash came before the record was complete. Replaying the
      records again, had their removal failed, would do nothing. */
  lemma LeftoversAfterCrash(e: Setup, s: State, before: seq<Event>, d: Disk, names: seq<string>)
    requires e.Valid() && AtRest(e, s) && Run(e, s, before, false) && Honest(e, s, before, false)
    requires Lists(names, After(e, s, before, false).journal) && After(e, s, before, false).view == ViewOf(e, d)
    ensures var j := After(e, s, before, false).journal;
            var d' := Recovered(e.c, e.hmacKey, j, names, d).disk;
            && (forall p :: p in {e.LockStaging(), e.UnlockStaging()} ==>
                 (p in d' <==> p in d && !exists u :: u in j && j[u].Readable? && j[u].record.staging == p))
            && Recovered(e.c, e.hmacKey, j, names, d') == Recovery(d', [])
  {
    hide Run, After, Honest, Replayed, Decision, Inv, AtRest, ViewOf;
    var t := After(e, s, before, false);
    AtRestInv(e, s, true);
    RunKeepsInv(e, s, before, true);
    if names == [] {
    } else {
      var u := names[0];
      assert names[..0] == [] && u in names;
      assert names == [u];
      if t.journal[u].Readable? {
        PendingReplay(e, t, d, u);
        AgainNothing(e, t.journal[u].record, Replayed(e.c, e.hmacKey, t.journal[u].record, d));
      }
    }
  }

  lemma AgainNothing(e: Setup, rec: Record, d: Disk)
    requires Decision(e.c, e.hmacKey, rec, d).None?
    ensures Replayed(e.c, e.hmacKey, rec, d) == d
  {
  }

  // ----- why the journal must be empty first -----

  /** A lock stopped while it deletes the folder, and the next start. */
  lemma CrashWhileDeletingRun(e: Setup, s: State, evs: seq<Event>, left: FileTree) returns (more: seq<Event>)
    requires e.c.Ideal() && Run(e, s, evs, false)
    requires After(e, s, evs, false).phase.LockRenamed? && IsDir(After(e, s, evs, false).view.folder)
    ensures Run(e, s, more, false)
    ensures var t := After(e, s, evs, false);
            After(e, s, more, false) == t.(view := t.view.(folder := Some(DirObject(left))), phase := Recovering)
  {
    hide Run, After, Attempt, KeyOf, TreeIn, Planned, Scanned.Writable, Primitives.Ideal;
    var t := After(e, s, evs, false);
    var v := t.view.(folder := Some(DirObject(left)));
    more := Extend(e, s, evs, DeleteSome(left), t.(view := v));
    more := Extend(e, s, more, Crash, t.(view := v, phase := Off));
    more := Extend(e, s, more, StartRecover, t.(view := v, phase := Recovering));
  }

  /** The replay of an unlock record when both copies are there. */
  lemma ReplayUnlockRun(e: Setup, s: State, evs: seq<Event>, u: string) returns (more: seq<Event>)
    requires e.c.Ideal() && Run(e, s, evs, false)
    requires var t := After(e, s, evs, false);
             && t.phase.Recovering? && u in t.journal && t.journal[u] == Readable(e.UnlockRecord())
             && t.view.unlockStaging.None? && t.view.folder.Some? && t.view.container.Some?
    ensures Run(e, s, more, false)
    ensures var t := After(e, s, evs, false);
            After(e, s, more, false) == t.(view := t.view.(container := None), phase := Dropping(u))
  {
    hide Run, After, Attempt, KeyOf, TreeIn, Planned, Scanned.Writable, Primitives.Ideal,
         Setup.UnlockRecord, Setup.Container, Setup.LockStaging, Setup.UnlockStaging;
    var t := After(e, s, evs, false);
    PlannedForUnlock(e, t, u);
    more := Extend(e, s, evs, ReplayRecord(u), t.(phase := Deleting(u, AtContainer)));
    more := Extend(e, s, more, DeleteDone, t.(view := t.view.(container := None), phase := Dropping(u)));
  }

  /** A record of an earlier unlock that is still in the journal when a lock starts loses the data, if
      the lock crashes while it deletes the folder: recovery takes what is left of the folder for the
      restored one and deletes the container. The run starts from a whole folder and no container. */
  lemma StaleRecordLosesData(e: Setup, s: State, w: Scanned, password: bytes, stale: string, own: string, left: FileTree)
    returns (evs: seq<Event>)
    requires e.c.Ideal() && s.phase.Ready? && s.journal == map[stale := Readable(e.UnlockRecord())] && own != stale
    requires FolderWhole(e, s.view) && s.view.container.None? && s.view.unlockStaging.None?
    requires w.Writable(e.c, e.tree) && left != e.tree
    ensures Run(e, s, evs, false) && !Safe(e, After(e, s, evs, false))
  {
    hide Run, After, Attempt, Sound, Setup.LockRecord, Setup.UnlockRecord, Scanned.Writable, Primitives.Ideal, Enabled, Next;
    evs := LockWriteRun(e, s, w, password);
    evs := LockRenameRun(e, s, evs, own);
    evs := CrashWhileDeletingRun(e, s, evs, left);
    evs := ReplayUnlockRun(e, s, evs, stale);
  }

  /** With the lock's own record beside the stale one, the directory order decides: records of one
      folder overlap, which is what order independence excludes. */
  lemma ListingOrderDecides(e: Setup, d: Disk, stale: string, own: string, password: bytes, left: FileTree)
    requires e.c.Ideal() && left != e.tree && stale != own
    requires var v := ViewOf(e, d);
             && ContainerSound(e, v, password) && v.folder == Some(DirObject(left))
             && v.lockStaging.None? && v.unlockStaging.None?
    ensures var j := map[stale := Readable(e.UnlockRecord()), own := Readable(e.LockRecord())];
            var first, second := Recovered(e.c, e.hmacKey, j, [stale, own], d), Recovered(e.c, e.hmacKey, j, [own, stale], d);
            && !Safe(e, State(ViewOf(e, first.disk), map[], Ready, password))
            && Safe(e, State(ViewOf(e, second.disk), map[], Ready, password))
  {
    hide Decodes, Parse, HoldsKey, KeyOf, Setup.Container, Setup.LockStaging, Setup.UnlockStaging, Without, Covers, Replayed;
    var j := map[stale := Readable(e.UnlockRecord()), own := Readable(e.LockRecord())];
    assert [stale, own][..1] == [stale] && [own, stale][..1] == [own] && [stale][..0] == [own][..0] == [];
    assert Recovered(e.c, e.hmacKey, j, [], d) == Recovery(d, []);
    var a, b := Without(d, {e.Container()}), Without(d, {e.folder});
    PathsOfSlots(e);
    ViewAfterDelete(e, d, AtContainer);
    ViewAfterDelete(e, d, AtFolder);
    ReplayOfBoth(e, d, password);
    assert Recovered(e.c, e.hmacKey, j, [stale], d).disk == a;
    assert Recovered(e.c, e.hmacKey, j, [own], d).disk == b;
    ReplayOfOne(e, a);
    ReplayOfOne(e, b);
  }

  /** With both copies there, an unlock record deletes the container and a lock record the folder. */
  lemma ReplayOfBoth(e: Setup, d: Disk, password: bytes)
    requires ContainerSound(e, ViewOf(e, d), password) && ViewOf(e, d).folder.Some?
    requires ViewOf(e, d).lockStaging.None? && ViewOf(e, d).unlockStaging.None?
    ensures Replayed(e.c, e.hmacKey, e.UnlockRecord(), d) == Without(d, {e.Container()})
    ensures Replayed(e.c, e.hmacKey, e.LockRecord(), d) == Without(d, {e.folder})
  {
    hide Decodes, Parse, HoldsKey, KeyOf, Verified, Setup.Container, Setup.LockStaging, Setup.UnlockStaging, Without, Covers;
  }

  /** With one copy gone and no staging, no record deletes anything. */
  lemma ReplayOfOne(e: Setup, d: Disk)
    requires ViewOf(e, d).folder.None? || ViewOf(e, d).container.None?
    requires ViewOf(e, d).lockStaging.None? && ViewOf(e, d).unlockStaging.None?
    ensures Replayed(e.c, e.hmacKey, e.UnlockRecord(), d) == d
    ensures Replayed(e.c, e.hmacKey, e.LockRecord(), d) == d
  {
    hide Verified, Setup.Container, Setup.LockStaging, Setup.UnlockStaging, Without, Covers;
  }
}
