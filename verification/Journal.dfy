/** The crash-recovery journal of journal.rs: records, and the decisions `recover` takes from what
    it can observe. */
module Journal {
  import opened Bytes
  import opened Paths
  import opened Crypto
  import opened Container
  import opened ContainerFile

  /** What is at a path: a file, or a directory with everything below it. */
  datatype Object = FileObject(data: bytes) | DirObject(tree: FileTree)

  /** The objects at the paths that records name. Named paths may lie below one another. */
  type Disk = map<string, Object>

  predicate Below(q: string, p: string) {
    |q| > |p| && q[..|p|] == p && IsSeparator(q[|p|])
  }

  /** Does deleting p delete q? */
  predicate Covers(p: string, q: string) {
    q == p || Below(q, p)
  }

  predicate Covered(gone: set<string>, q: string) {
    exists p :: p in gone && Covers(p, q)
  }

  /** The disk after these deletes: whatever lies below a deleted directory goes with it. */
  function Without(disk: Disk, gone: set<string>): Disk {
    map q | q in disk && !Covered(gone, q) :: disk[q]
  }

  datatype OpKind = Lock | Unlock

  datatype Record = Record(op: OpKind, folder: string, container: string, staging: string)

  /** A record file: half-written, or readable. */
  datatype RecordFile = Unreadable | Readable(record: Record)

  type JournalDir = map<string, RecordFile>

  datatype RecoveryAction =
    | FinishedLock(path: string)
    | RolledBackLock(path: string)
    | FinishedUnlock(path: string)
    | RolledBackUnlock(path: string)

  /** Does `verify_structure` accept what is at this path? */
  predicate Verifies(c: Primitives, hmacKey: bytes, disk: Disk, p: string) {
    p in disk && disk[p].FileObject? && Verified(c, disk[p].data, hmacKey).Ok?
  }

  /** What a replay decides to delete, and how it will report that. */
  function Decision(c: Primitives, hmacKey: bytes, rec: Record, disk: Disk): Option<RecoveryAction> {
    match rec.op
    case Lock =>
      if rec.staging in disk then Some(RolledBackLock(rec.staging))
      else if rec.folder in disk && Verifies(c, hmacKey, disk, rec.container) then Some(FinishedLock(rec.folder))
      else None
    case Unlock =>
      if rec.staging in disk then Some(RolledBackUnlock(rec.staging))
      else if rec.folder in disk && rec.container in disk then Some(FinishedUnlock(rec.container))
      else None
  }

  /** `remove_file` does not remove directories, and `remove_dir_all` only removes them. */
  predicate Removable(a: RecoveryAction, disk: Disk)
    requires a.path in disk
  {
    match a
    case RolledBackLock(p) => disk[p].FileObject?
    case RolledBackUnlock(p) => disk[p].DirObject?
    case _ => true
  }

  /** One replay whose deletes succeed. */
  function Replayed(c: Primitives, hmacKey: bytes, rec: Record, disk: Disk): Disk {
    match Decision(c, hmacKey, rec, disk)
    case None => disk
    case Some(a) => if Removable(a, disk) then Without(disk, {a.path}) else disk
  }

  datatype Recovery = Recovery(disk: Disk, actions: seq<RecoveryAction>)

  /** Replaying the named records in listing order. */
  function Recovered(c: Primitives, hmacKey: bytes, journal: JournalDir, names: seq<string>, disk: Disk): Recovery
    requires forall i :: 0 <= i < |names| ==> names[i] in journal
  {
    if names == [] then Recovery(disk, [])
    else
      var front := Recovered(c, hmacKey, journal, names[..|names| - 1], disk);
      match journal[names[|names| - 1]]
      case Unreadable => front
      case Readable(rec) =>
        Recovery(Replayed(c, hmacKey, rec, front.disk),
                 front.actions + match Decision(c, hmacKey, rec, front.disk) { case None => [] case Some(a) => [a] })
  }

  lemma NoRecords(c: Primitives, hmacKey: bytes, journal: JournalDir, none: seq<string>, disk: Disk)
    requires none == []
    ensures Recovered(c, hmacKey, journal, none, disk) == Recovery(disk, [])
  {
  }

  /** Recovery goes on by one record. */
  lemma NextRecord(c: Primitives, hmacKey: bytes, journal: JournalDir, names: seq<string>, i: nat, disk: Disk)
    requires i < |names| && forall k :: 0 <= k < |names| ==> names[k] in journal
    ensures var before := Recovered(c, hmacKey, journal, names[..i], disk);
            Recovered(c, hmacKey, journal, names[..i + 1], disk)
            == match journal[names[i]]
               case Unreadable => before
               case Readable(rec) =>
                 Recovery(Replayed(c, hmacKey, rec, before.disk),
                          before.actions + match Decision(c, hmacKey, rec, before.disk) { case None => [] case Some(a) => [a] })
  {
    hide Decision, Replayed;
    assert names[..i + 1][..i] == names[..i];
  }

  /** The records still to be replayed. */
  function Rest(journal: JournalDir, todo: seq<string>): JournalDir {
    map n | n in journal && n in todo :: journal[n]
  }

  lemma AllRecords(journal: JournalDir, names: seq<string>)
    requires forall n :: n in journal ==> n in names
    ensures Rest(journal, names[0..]) == journal
    ensures Rest(journal, names[|names|..]) == map[]
  {
    assert names[0..] == names;
  }

  lemma RestStep(journal: JournalDir, names: seq<string>, i: nat)
    requires i < |names| && names[i] in journal
    requires forall k, m :: 0 <= k < m < |names| ==> names[k] != names[m]
    ensures names[i] in Rest(journal, names[i..]) && Rest(journal, names[i..])[names[i]] == journal[names[i]]
    ensures Rest(journal, names[i..]) - {names[i]} == Rest(journal, names[i + 1..])
  {
    assert names[i..] == [names[i]] + names[i + 1..];
  }

  /** The directories the program works on. */
  class Files {
    var disk: Disk
    var journal: JournalDir

    method Replay(c: Primitives, hmacKey: bytes, rec: Record) returns (action: Option<RecoveryAction>)
      modifies this
      ensures action == Decision(c, hmacKey, rec, old(disk))
      ensures disk == Replayed(c, hmacKey, rec, old(disk)) && journal == old(journal)
    {
      match rec.op {
        case Lock =>
          if rec.staging in disk {
            if disk[rec.staging].FileObject? {
              disk := Without(disk, {rec.staging});
            }
            return Some(RolledBackLock(rec.staging));
          }
          if rec.folder in disk && rec.container in disk && disk[rec.container].FileObject? {
            var v := VerifyStructure(c, disk[rec.container].data, hmacKey);
            if v.Ok? {
              disk := Without(disk, {rec.folder});
              return Some(FinishedLock(rec.folder));
            }
          }
          return None;
        case Unlock =>
          if rec.staging in disk {
            if disk[rec.staging].DirObject? {
              disk := Without(disk, {rec.staging});
            }
            return Some(RolledBackUnlock(rec.staging));
          }
          if rec.folder in disk && rec.container in disk {
            disk := Without(disk, {rec.container});
            return Some(FinishedUnlock(rec.container));
          }
          return None;
      }
    }

    /** Replays every record in listing order and leaves the journal empty. */
    method Recover(c: Primitives, hmacKey: bytes, names: seq<string>) returns (actions: seq<RecoveryAction>)
      requires forall i, j :: 0 <= i < j < |names| ==> names[i] != names[j]
      requires forall n :: n in names <==> n in journal
      modifies this
      ensures Recovery(disk, actions) == Recovered(c, hmacKey, old(journal), names, old(disk))
      ensures journal == map[]
    {
      hide Decision, Replayed, Recovered, Rest;
      actions := [];
      ghost var j0, d0 := journal, disk;
      NoRecords(c, hmacKey, j0, names[..0], d0);
      AllRecords(j0, names);
      var i := 0;
      while i < |names|
        invariant 0 <= i <= |names|
        invariant Recovery(disk, actions) == Recovered(c, hmacKey, j0, names[..i], d0)
        invariant journal == Rest(j0, names[i..])
      {
        var name := names[i];
        assert name in names;
        RestStep(j0, names, i);
        NextRecord(c, hmacKey, j0, names, i, d0);
        if journal[name].Readable? {
          var a := Replay(c, hmacKey, journal[name].record);
          if a.Some? {
            actions := actions + [a.value];
          } else {
            assert actions + [] == actions;
          }
        }
        journal := journal - {name};
        i := i + 1;
      }
      assert names[..i] == names;
    }
  }

  // ----- what one replay does -----

  /** A replay creates and alters nothing, and deletes at most its record's own paths and what lies
      below them. */
  lemma ReplayFrame(c: Primitives, hmacKey: bytes, rec: Record, disk: Disk, p: string)
    ensures p in Replayed(c, hmacKey, rec, disk) ==> p in disk && Replayed(c, hmacKey, rec, disk)[p] == disk[p]
    ensures p in disk && p !in Replayed(c, hmacKey, rec, disk) ==> Covered(PathsOf(rec), p)
  {
    hide Verified, Covers;
  }

  /** The three paths are different and none lies below another, as for the names lock and unlock use. */
  predicate Unnested(rec: Record) {
    && !Covers(rec.folder, rec.container) && !Covers(rec.folder, rec.staging)
    && !Covers(rec.container, rec.folder) && !Covers(rec.container, rec.staging)
    && !Covers(rec.staging, rec.folder) && !Covers(rec.staging, rec.container)
  }

  lemma WithoutOne(disk: Disk, p: string, q: string)
    ensures q in Without(disk, {p}) <==> q in disk && !Covers(p, q)
  {
    assert p in {p};
  }

  /** A second replay of a record decides nothing, unless the first was a roll-back: once staging is
      gone the rename can only be seen to have happened if both copies are there. */
  lemma ReplayTwice(c: Primitives, hmacKey: bytes, rec: Record, disk: Disk)
    requires Unnested(rec)
    requires Decision(c, hmacKey, rec, disk).Some? ==> Removable(Decision(c, hmacKey, rec, disk).value, disk)
    ensures var d := Replayed(c, hmacKey, rec, disk);
            Decision(c, hmacKey, rec, d).Some? <==>
              rec.staging in disk && rec.folder in disk
              && (if rec.op.Lock? then Verifies(c, hmacKey, disk, rec.container) else rec.container in disk)
  {
    hide Verified, Without, Covers;
    var a := Decision(c, hmacKey, rec, disk);
    if a.Some? {
      forall q ensures q in Without(disk, {a.value.path}) <==> q in disk && !Covers(a.value.path, q) {
        WithoutOne(disk, a.value.path, q);
      }
      WithoutKeeps(disk, {a.value.path}, rec.container);
      assert Covers(a.value.path, a.value.path) by {
        CoversItself(a.value.path);
      }
    }
  }

  lemma CoversItself(p: string)
    ensures Covers(p, p)
  {
  }

  lemma WithoutKeeps(disk: Disk, gone: set<string>, q: string)
    ensures q in Without(disk, gone) ==> q in disk && Without(disk, gone)[q] == disk[q]
  {
  }

  // ----- what recovery reports -----

  /** The report is true of this record on this disk: a roll-back names the staging that was there, a
      finished operation the copy that was left over beside the other one once staging was gone. */
  predicate Tells(c: Primitives, hmacKey: bytes, a: RecoveryAction, rec: Record, d: Disk) {
    match a
    case RolledBackLock(p) => rec.op == OpKind.Lock && p == rec.staging && rec.staging in d
    case RolledBackUnlock(p) => rec.op == OpKind.Unlock && p == rec.staging && rec.staging in d
    case FinishedLock(p) =>
      && rec.op == OpKind.Lock && p == rec.folder && rec.staging !in d && rec.folder in d
      && rec.container in d && d[rec.container].FileObject? && Verified(c, d[rec.container].data, hmacKey).Ok?
    case FinishedUnlock(p) =>
      rec.op == OpKind.Unlock && p == rec.container && rec.staging !in d && rec.folder in d && rec.container in d
  }

  /** A record has one thing to tell at most. */
  lemma TellsOnce(c: Primitives, hmacKey: bytes, a: RecoveryAction, b: RecoveryAction, rec: Record, d: Disk)
    requires Tells(c, hmacKey, a, rec, d) && Tells(c, hmacKey, b, rec, d)
    ensures a == b
  {
    hide Verified;
  }

  lemma DecisionTells(c: Primitives, hmacKey: bytes, a: RecoveryAction, rec: Record, d: Disk)
    ensures Decision(c, hmacKey, rec, d) == Some(a) <==> Tells(c, hmacKey, a, rec, d)
  {
    hide Verified;
  }

  /** The reports of a recovery: each readable record adds the one that is true of it when its turn
      comes, if there is one; no other report is ever made. */
  lemma ReportsAreTrue(c: Primitives, hmacKey: bytes, journal: JournalDir, names: seq<string>, i: nat, disk: Disk)
    requires i < |names| && forall k :: 0 <= k < |names| ==> names[k] in journal
    ensures var before := Recovered(c, hmacKey, journal, names[..i], disk);
            var after := Recovered(c, hmacKey, journal, names[..i + 1], disk);
            && before.actions <= after.actions && |after.actions| <= |before.actions| + 1
            && (forall a :: after.actions == before.actions + [a] <==>
                 journal[names[i]].Readable? && Tells(c, hmacKey, a, journal[names[i]].record, before.disk))
  {
    hide Recovered, Decision, Replayed, Tells;
    NextRecord(c, hmacKey, journal, names, i, disk);
    var before := Recovered(c, hmacKey, journal, names[..i], disk);
    var after := Recovered(c, hmacKey, journal, names[..i + 1], disk);
    forall a ensures after.actions == before.actions + [a] <==>
                     journal[names[i]].Readable? && Tells(c, hmacKey, a, journal[names[i]].record, before.disk)
    {
      if journal[names[i]].Readable? {
        DecisionTells(c, hmacKey, a, journal[names[i]].record, before.disk);
      }
      LastOf(before.actions, a);
    }
  }

  lemma LastOf(s: seq<RecoveryAction>, a: RecoveryAction)
    ensures s != s + [a]
    ensures forall b :: s + [a] == s + [b] ==> a == b
  {
    assert (s + [a])[|s|] == a;
    forall b | s + [a] == s + [b] ensures a == b {
      assert (s + [b])[|s|] == b;
    }
  }

  /** So a report occurs exactly if it was true of some record when its turn came. */
  lemma {:induction false} ReportedIffTrue(c: Primitives, hmacKey: bytes, journal: JournalDir, names: seq<string>,
                                           disk: Disk, a: RecoveryAction)
    requires forall k :: 0 <= k < |names| ==> names[k] in journal
    ensures a in Recovered(c, hmacKey, journal, names, disk).actions
            <==> exists i :: 0 <= i < |names| && TrueOf(c, hmacKey, journal, names, i, disk, a)
  {
    hide Tells, Decision, Replayed, TrueOf;
    if names == [] {
    } else {
      var n := |names| - 1;
      var front := names[..n];
      ReportedIffTrue(c, hmacKey, journal, front, disk, a);
      forall i | 0 <= i < n
        ensures TrueOf(c, hmacKey, journal, front, i, disk, a) <==> TrueOf(c, hmacKey, journal, names, i, disk, a)
      {
        TrueEarlier(c, hmacKey, journal, names, i, disk, a);
      }
      TrueLast(c, hmacKey, journal, names, disk, a);
    }
  }

  ghost predicate TrueOf(c: Primitives, hmacKey: bytes, journal: JournalDir, names: seq<string>, i: nat, disk: Disk, a: RecoveryAction)
    requires i < |names| && forall k :: 0 <= k < |names| ==> names[k] in journal
  {
    journal[names[i]].Readable?
    && Tells(c, hmacKey, a, journal[names[i]].record, Recovered(c, hmacKey, journal, names[..i], disk).disk)
  }

  lemma TrueEarlier(c: Primitives, hmacKey: bytes, journal: JournalDir, names: seq<string>, i: nat, disk: Disk, a: RecoveryAction)
    requires i < |names| - 1 && forall k :: 0 <= k < |names| ==> names[k] in journal
    ensures TrueOf(c, hmacKey, journal, names[..|names| - 1], i, disk, a) <==> TrueOf(c, hmacKey, journal, names, i, disk, a)
  {
    hide Tells, Recovered;
    assert names[..|names| - 1][..i] == names[..i];
  }

  lemma TrueLast(c: Primitives, hmacKey: bytes, journal: JournalDir, names: seq<string>, disk: Disk, a: RecoveryAction)
    requires names != [] && forall k :: 0 <= k < |names| ==> names[k] in journal
    ensures var front := Recovered(c, hmacKey, journal, names[..|names| - 1], disk);
            a in Recovered(c, hmacKey, journal, names, disk).actions
            <==> a in front.actions || TrueOf(c, hmacKey, journal, names, |names| - 1, disk, a)
  {
    hide Tells, Decision, Replayed, Recovered;
    var n := |names| - 1;
    NextRecord(c, hmacKey, journal, names, n, disk);
    assert names[..n + 1] == names;
    if journal[names[n]].Readable? {
      DecisionTells(c, hmacKey, a, journal[names[n]].record, Recovered(c, hmacKey, journal, names[..n], disk).disk);
    }
  }

  // ----- independence of the listing order -----

  function PathsOf(rec: Record): set<string> {
    {rec.folder, rec.container, rec.staging}
  }

  /** A decision looks at the record's own paths only. */
  lemma DecisionLocal(c: Primitives, hmacKey: bytes, rec: Record, d1: Disk, d2: Disk)
    requires forall p :: p in PathsOf(rec) ==> (p in d1 <==> p in d2) && (p in d1 ==> d1[p] == d2[p])
    ensures Decision(c, hmacKey, rec, d1) == Decision(c, hmacKey, rec, d2)
    ensures Decision(c, hmacKey, rec, d1).Some? ==>
              var a := Decision(c, hmacKey, rec, d1).value;
              a.path in PathsOf(rec) && a.path in d1 && a.path in d2 && (Removable(a, d1) <==> Removable(a, d2))
  {
    hide Verified;
  }

  /** The path a record's replay deletes from a disk, if any. */
  function Victims(c: Primitives, hmacKey: bytes, rf: RecordFile, disk: Disk): set<string> {
    match rf
    case Unreadable => {}
    case Readable(rec) =>
      match Decision(c, hmacKey, rec, disk)
      case None => {}
      case Some(a) => if Removable(a, disk) then {a.path} else {}
  }

  function ActionOf(c: Primitives, hmacKey: bytes, rf: RecordFile, disk: Disk): seq<RecoveryAction> {
    match rf
    case Unreadable => []
    case Readable(rec) => match Decision(c, hmacKey, rec, disk) { case None => [] case Some(a) => [a] }
  }

  /** No path of one record is, or lies below, a path of another. */
  ghost predicate Apart(journal: JournalDir) {
    forall m, n :: m in journal && n in journal && m != n && journal[m].Readable? && journal[n].Readable? ==>
      ApartFrom(journal[m].record, journal[n].record)
  }

  predicate ApartFrom(a: Record, b: Record) {
    forall q :: q in PathsOf(b) ==> !Covered(PathsOf(a), q)
  }

  function AllVictims(c: Primitives, hmacKey: bytes, journal: JournalDir, names: seq<string>, disk: Disk): set<string>
    requires forall i :: 0 <= i < |names| ==> names[i] in journal
  {
    if names == [] then {}
    else AllVictims(c, hmacKey, journal, names[..|names| - 1], disk)
         + Victims(c, hmacKey, journal[names[|names| - 1]], disk)
  }

  function AllActions(c: Primitives, hmacKey: bytes, journal: JournalDir, names: seq<string>, disk: Disk): seq<RecoveryAction>
    requires forall i :: 0 <= i < |names| ==> names[i] in journal
  {
    if names == [] then []
    else AllActions(c, hmacKey, journal, names[..|names| - 1], disk)
         + ActionOf(c, hmacKey, journal[names[|names| - 1]], disk)
  }

  lemma {:induction false} VictimsFrom(c: Primitives, hmacKey: bytes, journal: JournalDir, names: seq<string>, disk: Disk, p: string)
    requires forall i :: 0 <= i < |names| ==> names[i] in journal
    ensures p in AllVictims(c, hmacKey, journal, names, disk)
            <==> exists i :: 0 <= i < |names| && p in Victims(c, hmacKey, journal[names[i]], disk)
  {
    hide Victims;
    if names == [] {
    } else {
      var front := names[..|names| - 1];
      VictimsFrom(c, hmacKey, journal, front, disk, p);
      if i :| 0 <= i < |front| && p in Victims(c, hmacKey, journal[front[i]], disk) {
        assert names[i] == front[i];
      }
    }
  }

  lemma VictimsAreOwn(c: Primitives, hmacKey: bytes, rf: RecordFile, disk: Disk)
    ensures rf.Unreadable? ==> Victims(c, hmacKey, rf, disk) == {}
    ensures rf.Readable? ==> Victims(c, hmacKey, rf, disk) <= PathsOf(rf.record)
  {
  }

  lemma WithoutTwice(disk: Disk, a: set<string>, b: set<string>)
    ensures Without(Without(disk, a), b) == Without(disk, a + b)
    ensures Without(disk, {}) == disk
  {
    hide Covers;
    forall q ensures Covered(a + b, q) <==> Covered(a, q) || Covered(b, q) {
      if p :| p in a && Covers(p, q) {
        assert p in a + b;
      }
      if p :| p in b && Covers(p, q) {
        assert p in a + b;
      }
    }
  }

  /** With records apart, each replay decides as if it came first. */
  lemma {:induction false} RecoveredAtOnce(c: Primitives, hmacKey: bytes, journal: JournalDir, names: seq<string>, disk: Disk)
    requires Apart(journal)
    requires forall i :: 0 <= i < |names| ==> names[i] in journal
    requires forall i, j :: 0 <= i < j < |names| ==> names[i] != names[j]
    ensures var r := Recovered(c, hmacKey, journal, names, disk);
            && r.disk == Without(disk, AllVictims(c, hmacKey, journal, names, disk))
            && r.actions == AllActions(c, hmacKey, journal, names, disk)
  {
    hide Verified, Victims, Decision, ActionOf, Removable, Without, Replayed, Apart;
    if names == [] {
      WithoutTwice(disk, {}, {});
    } else {
      var front, last := names[..|names| - 1], names[|names| - 1];
      RecoveredAtOnce(c, hmacKey, journal, front, disk);
      OneMoreReplay(c, hmacKey, journal, front, last, disk);
      WithoutTwice(disk, AllVictims(c, hmacKey, journal, front, disk), Victims(c, hmacKey, journal[last], disk));
    }
  }

  /** No path of a record is hit by what the other records delete. */
  lemma OthersMiss(c: Primitives, hmacKey: bytes, journal: JournalDir, front: seq<string>, last: string, disk: Disk, q: string)
    requires Apart(journal) && last in journal && last !in front && journal[last].Readable?
    requires forall i :: 0 <= i < |front| ==> front[i] in journal
    requires q in PathsOf(journal[last].record)
    ensures !Covered(AllVictims(c, hmacKey, journal, front, disk), q)
  {
    hide Victims, Covers, PathsOf;
    forall p | p in AllVictims(c, hmacKey, journal, front, disk) ensures !Covers(p, q) {
      VictimsFrom(c, hmacKey, journal, front, disk, p);
      var i :| 0 <= i < |front| && p in Victims(c, hmacKey, journal[front[i]], disk);
      VictimsAreOwn(c, hmacKey, journal[front[i]], disk);
      assert front[i] in front;
      assert ApartFrom(journal[front[i]].record, journal[last].record);
    }
  }

  lemma OneMoreReplay(c: Primitives, hmacKey: bytes, journal: JournalDir, front: seq<string>, last: string, disk: Disk)
    requires Apart(journal) && last in journal && last !in front
    requires forall i :: 0 <= i < |front| ==> front[i] in journal
    ensures var d := Without(disk, AllVictims(c, hmacKey, journal, front, disk));
            match journal[last]
            case Unreadable =>
              && Without(d, Victims(c, hmacKey, journal[last], disk)) == d
              && ActionOf(c, hmacKey, journal[last], disk) == []
            case Readable(rec) =>
              && Replayed(c, hmacKey, rec, d) == Without(d, Victims(c, hmacKey, journal[last], disk))
              && ActionOf(c, hmacKey, journal[last], disk)
                 == match Decision(c, hmacKey, rec, d) { case None => [] case Some(a) => [a] }
  {
    hide Decision, Removable, Without, Covered, AllVictims, Apart;
    var d := Without(disk, AllVictims(c, hmacKey, journal, front, disk));
    WithoutTwice(d, {}, {});
    if journal[last].Readable? {
      var rec := journal[last].record;
      forall q | q in PathsOf(rec) ensures (q in d <==> q in disk) && (q in d ==> d[q] == disk[q]) {
        OthersMiss(c, hmacKey, journal, front, last, disk, q);
        WithoutMissed(disk, AllVictims(c, hmacKey, journal, front, disk), q);
      }
      DecisionLocal(c, hmacKey, rec, d, disk);
    }
  }

  lemma WithoutMissed(disk: Disk, gone: set<string>, q: string)
    requires !Covered(gone, q)
    ensures q in Without(disk, gone) <==> q in disk
    ensures q in disk ==> Without(disk, gone)[q] == disk[q]
  {
  }

  lemma {:induction false} ActionsCount(c: Primitives, hmacKey: bytes, journal: JournalDir, names: seq<string>, disk: Disk, a: RecoveryAction)
    requires forall i :: 0 <= i < |names| ==> names[i] in journal
    ensures a in AllActions(c, hmacKey, journal, names, disk)
            <==> exists i :: 0 <= i < |names| && a in ActionOf(c, hmacKey, journal[names[i]], disk)
  {
    hide ActionOf;
    if names == [] {
    } else {
      var front := names[..|names| - 1];
      ActionsCount(c, hmacKey, journal, front, disk, a);
      if i :| 0 <= i < |front| && a in ActionOf(c, hmacKey, journal[front[i]], disk) {
        assert names[i] == front[i];
      }
    }
  }

  /** Whatever order the directory lists disjoint records in, recovery leaves the same disk and
      takes the same set of actions; unreadable records change nothing. */
  lemma OrderDoesNotMatter(c: Primitives, hmacKey: bytes, journal: JournalDir, a: seq<string>, b: seq<string>, disk: Disk)
    requires Apart(journal)
    requires forall i :: 0 <= i < |a| ==> a[i] in journal
    requires forall i :: 0 <= i < |b| ==> b[i] in journal
    requires forall i, j :: 0 <= i < j < |a| ==> a[i] != a[j]
    requires forall i, j :: 0 <= i < j < |b| ==> b[i] != b[j]
    requires forall n :: n in journal && journal[n].Readable? ==> (n in a <==> n in b)
    ensures var ra, rb := Recovered(c, hmacKey, journal, a, disk), Recovered(c, hmacKey, journal, b, disk);
            ra.disk == rb.disk && forall x :: x in ra.actions <==> x in rb.actions
  {
    hide Verified, Victims, ActionOf, Recovered, Decision;
    RecoveredAtOnce(c, hmacKey, journal, a, disk);
    RecoveredAtOnce(c, hmacKey, journal, b, disk);
    VictimsSame(c, hmacKey, journal, a, b, disk);
    VictimsSame(c, hmacKey, journal, b, a, disk);
    assert AllVictims(c, hmacKey, journal, a, disk) == AllVictims(c, hmacKey, journal, b, disk);
    ActionsSame(c, hmacKey, journal, a, b, disk);
    ActionsSame(c, hmacKey, journal, b, a, disk);
  }

  /** Nested records are not independent. Two locks past their renames, one of a folder and one of a
      folder inside it: whether the inner one is reported depends on which is listed first. */
  lemma NestedRecordsDiffer(c: Primitives, hmacKey: bytes, outer: Record, inner: Record, a: string, b: string, disk: Disk)
    requires a != b && outer.op.Lock? && inner.op.Lock? && Below(inner.folder, outer.folder)
    requires outer.staging !in disk && inner.staging !in disk && outer.folder in disk && inner.folder in disk
    requires Verifies(c, hmacKey, disk, outer.container) && Verifies(c, hmacKey, disk, inner.container)
    requires !Covers(inner.folder, outer.folder) && !Covers(inner.folder, outer.container)
    ensures var j := map[a := Readable(outer), b := Readable(inner)];
            && Recovered(c, hmacKey, j, [a, b], disk).actions == [FinishedLock(outer.folder)]
            && Recovered(c, hmacKey, j, [b, a], disk).actions == [FinishedLock(inner.folder), FinishedLock(outer.folder)]
  {
    hide Verified, Without, Below;
    var j := map[a := Readable(outer), b := Readable(inner)];
    assert [a, b][..1] == [a] && [b, a][..1] == [b] && [a][..0] == [b][..0] == [];
    assert Recovered(c, hmacKey, j, [], disk) == Recovery(disk, []);
    assert Recovered(c, hmacKey, j, [a], disk) == Recovery(Without(disk, {outer.folder}), [FinishedLock(outer.folder)]);
    assert Recovered(c, hmacKey, j, [b], disk) == Recovery(Without(disk, {inner.folder}), [FinishedLock(inner.folder)]);
    WithoutOne(disk, outer.folder, inner.folder);
    WithoutOne(disk, outer.folder, inner.staging);
    WithoutOne(disk, inner.folder, outer.folder);
    WithoutOne(disk, inner.folder, outer.staging);
    WithoutOne(disk, inner.folder, outer.container);
    WithoutKeeps(disk, {inner.folder}, outer.container);
  }

  lemma VictimsSame(c: Primitives, hmacKey: bytes, journal: JournalDir, a: seq<string>, b: seq<string>, disk: Disk)
    requires forall i :: 0 <= i < |a| ==> a[i] in journal
    requires forall i :: 0 <= i < |b| ==> b[i] in journal
    requires forall n :: n in journal && journal[n].Readable? && n in a ==> n in b
    ensures AllVictims(c, hmacKey, journal, a, disk) <= AllVictims(c, hmacKey, journal, b, disk)
  {
    hide Victims;
    forall p | p in AllVictims(c, hmacKey, journal, a, disk) ensures p in AllVictims(c, hmacKey, journal, b, disk) {
      VictimsFrom(c, hmacKey, journal, a, disk, p);
      VictimsFrom(c, hmacKey, journal, b, disk, p);
      var i :| 0 <= i < |a| && p in Victims(c, hmacKey, journal[a[i]], disk);
      VictimsAreOwn(c, hmacKey, journal[a[i]], disk);
      assert a[i] in a;
      var j :| 0 <= j < |b| && b[j] == a[i];
      assert p in Victims(c, hmacKey, journal[b[j]], disk);
    }
  }

  lemma ActionsSame(c: Primitives, hmacKey: bytes, journal: JournalDir, a: seq<string>, b: seq<string>, disk: Disk)
    requires forall i :: 0 <= i < |a| ==> a[i] in journal
    requires forall i :: 0 <= i < |b| ==> b[i] in journal
    requires forall n :: n in journal && journal[n].Readable? && n in a ==> n in b
    ensures forall x :: x in AllActions(c, hmacKey, journal, a, disk) ==> x in AllActions(c, hmacKey, journal, b, disk)
  {
    hide Decision;
    forall x | x in AllActions(c, hmacKey, journal, a, disk) ensures x in AllActions(c, hmacKey, journal, b, disk) {
      ActionsCount(c, hmacKey, journal, a, disk, x);
      ActionsCount(c, hmacKey, journal, b, disk, x);
      var i :| 0 <= i < |a| && x in ActionOf(c, hmacKey, journal[a[i]], disk);
      assert a[i] in a && journal[a[i]].Readable?;
      var j :| 0 <= j < |b| && b[j] == a[i];
      assert x in ActionOf(c, hmacKey, journal[b[j]], disk);
    }
  }
}
