# FolderVault: a verified model of vault-core

FolderVault turns a folder into one encrypted file beside it (`<name>.fvlt`) and back. This project
models its core crate, `vault-core`, in Dafny 4.11 and proves what the crate exists to promise: no
crash loses the data, a locked tree comes back unchanged, tampering never yields a different tree,
guessing is slow, and the recovery code keeps working.

`dafny verify dfyconfig.toml` checks everything. No file depends on anything outside this directory.

## How the model is laid out

| files | what they cover |
|---|---|
| `Bytes`, `Bits`, `Entries` | bytes, fixed-width integers, bit strings, the manifest entry |
| `Crypto`, `Instance` | the primitives as a record of functions, and an instance that meets every assumption |
| `Header`, `Lockout`, `Authorize`, `AttemptRuns` | the 268-byte header, the lockout machine, one credential attempt, runs of attempts |
| `Alphabet`, `Accumulator`, `RecoveryCode`, `RecoveryCodeProofs` | the base32 recovery code and the key sealed to it |
| `Paths`, `Names`, `Walk`, `WalkProofs`, `WalkComplete` | relative paths, which names are accepted, the folder scan, why it misses nothing and can be inverted |
| `Frames`, `Container`, `ContainerProofs`, `ContainerIO`, `ContainerFile` | the frame grammar, the body, the loops that write, read and check it, the whole file |
| `Journal` | crash-recovery records and their replay |
| `Protocol`, `ProtocolProofs`, `ProtocolRuns` | lock, unlock, attempts and recovery as one state machine with crashes |
| `Vault` | `lock_folder` and `unlock_container` from end to end |
| `Witness` | concrete containers: one that meets the integrity hypotheses, one whose header escapes the clamp |

Code that is an expression in the crate is a function here. Code that works step by step is a method,
most of them on a class holding the fields the crate mutates (`LockoutState`, `ContainerOnDisk`,
`Reader`, `Walker`, `Files`) or over an array filled in place (the header, the sealed key). Each such
method is proved equal to a specification function, and the theorems are about those functions. What a
function accepts, refuses or reports is proved besides in terms that do not mention it.

## What is assumed

* The primitives are parameters. `Primitives.Ideal` says that opening inverts sealing and strips 16
  bytes, that digests and derived keys have their widths, that both sides of a key exchange agree
  (section 6.1 of RFC 7748), and that reading a serialized manifest gives it back.
  `Instance.IdealIsConsistent` shows that all of this can hold together. Sealing has the interface of
  sections 2.1 and 2.2 of RFC 5116.
* A folder is its directory listing (`Walk.Item`), and its tree is what the listing shows
  (`Walk.Shows`): each name of a path is looked up in turn. The listing is `WellFormed` when it has
  proper names, no two alike in one directory.
* Integrity (`UnlockedIsGenuine`, `TamperedFileYieldsOriginal`) is proved under `NothingForged`: whatever
  frame of the presented stream opens under the data key, as a frame of the presented container with
  any number, is one the writer sealed under that number. The frames may come in any order, any number
  of times and at any place. For an unlock, `WrapUnforged` says the same of the one key wrap that the
  credential opens. `IntegrityIsNotVacuous` gives a finished container that meets all of it.
* Deleting a directory deletes what lies below it, named paths included (`Journal.Without`). Apart from
  that the disk is flat: it maps the paths that operations and records name to a file's bytes or a
  directory's whole tree. Recovery is independent of the listing order for records that are apart, no
  path of one equal to or below a path of another (`Apart`); `NestedRecordsDiffer` shows that nested
  ones are not.
* The state machine works on one folder's four paths. It has one process at a time, a journal that
  recovery has emptied before an operation starts (`crates/vault-app/src/main.rs:39-42`), successful
  removal of record files, an atomic rename, and no edits from outside. A crash may come between any
  two steps, inside a write, a recursive delete or a header rewrite, and inside recovery. An error exit
  after staging has begun is a crash of the machine: the operation stops where it is. The folder's
  names are ones extraction accepts (`Setup.Valid`), as `LockedTreeComesBack` shows they must be.
  `StaleRecordLosesData` and `ListingOrderDecides` show that the empty journal is needed.
* Its theorems are about `Honest` runs: a credential that a sound container lets in during the run is
  given the key that its password opens, that is, no wrap opens to a forged key under a credential
  tried there. `BindingMakesHonest` shows that every run is honest where sealed texts open to nothing
  but their own plaintexts.
* Randomness and clock readings are inputs.

## Where the code is not what it says

* The repository's description of the lockout, and the comment at `crates/vault-core/src/format.rs:424-425`,
  promise exactly one attempt under a header whose MAC is bad. `ForeignHeaderArms` proves when that is
  so: exactly when the file shows no deadline at all and its failure count is not 2^32 - 1. An expired
  deadline opens a fresh window, which undoes the clamp, and the largest count wraps to zero.
  `ExpiredDeadlineReopens` is such a file.
* The writer checks the names on the way to files, not those of directories (`crates/vault-core/src/format.rs:369-371`),
  while extraction checks every entry. `LockedTreeComesBack` proves that a locked folder comes back
  exactly when extraction accepts its directories' names too; `UnsafeDirectoryIsStranded` is a folder,
  holding one empty directory called `aux`, that locks and never unlocks.
* `decode_code` ignores the last four of its 260 data bits, so a secret has 16 accepted spellings
  (`SixteenSpellings`), and compares characters after truncating them to a byte, so that U+0130 reads
  as the digit 0 (`AcceptedBeyondAscii`).
* "Not enrolled" is spelled as 92 zero bytes; `CodeStillOpens` therefore holds exactly when a real wrap
  does not come out all zero.
* The deadline is a wrapping sum. `FailureKeepsConsistent` names the one clock second at which it comes
  out as zero, "not locked". Time theorems ask for clocks before that (`LAST_SANE_CLOCK`).

## Model

| member | source | states |
|---|---|---|
| ProtocolProofs.NoRunLosesData | crates/vault-core/src/format.rs:222-600 | In every state of every honest run of lock, unlock, attempts and recovery, with crashes anywhere and failing deletes, the folder has all that its listing showed or the container opens with its password, verifies, and restores exactly that |
| ProtocolProofs.RecoveryConverges | crates/vault-core/src/journal.rs:78-139 | If recovery's deletes succeed, then whenever it is done the journal is empty and exactly one of folder and container exists, whole |
| ProtocolProofs.RunKeepsInv | crates/vault-core/src/journal.rs:99-139 | The invariant of the machine (what each readable record and each program point implies about the disk) holds along every run |
| ProtocolProofs.StepKeepsInv | crates/vault-core/src/format.rs:242-285 | Every single file-system step, of either operation or of recovery, keeps that invariant |
| ProtocolProofs.FinishedSound | crates/vault-core/src/format.rs:316-394 | What the writer finishes for an unchanging folder opens with the password, restores all that the folder's listing shows and passes the structural check |
| ProtocolProofs.SoundKept | crates/vault-core/src/format.rs:100-105 | A header rewrite, whole or torn, leaves a sound container sound |
| ProtocolProofs.GrantIsOwn | crates/vault-core/src/format.rs:430-463 | Where sealed texts open to nothing but their plaintexts, any credential a sound container lets in is given the vault's own data key |
| ProtocolProofs.BindingMakesHonest | crates/vault-core/src/format.rs:430-463 | There every run is honest |
| ProtocolRuns.LockIsARun | crates/vault-core/src/format.rs:242-286 | An undisturbed lock, step by step, is a run of the machine and ends with the container in place of the folder and an empty journal |
| ProtocolRuns.UnlockIsARun | crates/vault-core/src/format.rs:507-600 | The same for an unlock: it ends with the container's tree in place of the container |
| ProtocolRuns.RecoverIsARun | crates/vault-core/src/journal.rs:78-97 | From any crashed state recovery runs to its end and leaves at the four paths exactly what replaying the record on the whole disk computes |
| ProtocolRuns.CrashThenRecover | crates/vault-core/src/journal.rs:78-139 | Crash after any step, then recover: exactly one copy is left, whole |
| ProtocolRuns.LeftoversAfterCrash | crates/vault-core/src/journal.rs:99-139 | After that a staging path is left exactly when it was there and no readable record named it, and replaying again takes no action |
| ProtocolRuns.StaleRecordLosesData | crates/vault-app/src/main.rs:39-42 | Without the emptied journal the promise fails: from a whole folder and a record left by an earlier unlock there is a run, a lock that crashes while it deletes the folder and a recovery, after which neither copy is whole |
| ProtocolRuns.ListingOrderDecides | crates/vault-core/src/journal.rs:80-95 | With overlapping records the directory order decides whether the data survives |
| Journal.Files.Replay | crates/vault-core/src/journal.rs:105-139 | One replay takes the decision and makes the deletion that the specification derives from what exists and what verifies |
| Journal.Files.Recover | crates/vault-core/src/journal.rs:78-97 | All records are replayed in listing order, unreadable ones dropped; the journal ends empty |
| Journal.ReportsAreTrue | crates/vault-core/src/journal.rs:80-95 | Each readable record adds at most one report, at the end, and it is the one that is true of the record and the disk when its turn comes |
| Journal.ReportedIffTrue | crates/vault-core/src/journal.rs:105-139 | A roll-back is reported exactly for a record of that kind whose staging was there, and names it; a finished lock exactly when staging was gone and the folder and a verifying container were there, and names the folder; a finished unlock exactly when staging was gone and both were there, and names the container |
| Journal.ReplayFrame | crates/vault-core/src/journal.rs:105-139 | A replay creates and alters nothing and deletes at most paths of its own record and what lies below them |
| Journal.ReplayTwice | crates/vault-core/src/journal.rs:99-139 | A second replay of one record acts exactly when the first removed staging while both copies were there |
| Journal.RecoveredAtOnce | crates/vault-core/src/journal.rs:78-97 | With no path of one record at or below a path of another, each replay decides as if it came first |
| Journal.OrderDoesNotMatter | crates/vault-core/src/journal.rs:78-97 | With no path of one record at or below a path of another, any listing order gives the same disk and the same set of actions, and unreadable records change nothing |
| Journal.NestedRecordsDiffer | crates/vault-core/src/journal.rs:114-124 | For a lock of a folder and one of a folder inside it, both past the rename, the listing order decides whether the inner one is reported |
| Vault.LockFolder | crates/vault-core/src/format.rs:222-287 | Locking succeeds exactly when the destination is free, the tree has no link, the manifest fits, every file was copied whole and the source could be deleted; before the rename any failure has its own error, leaves source and destination as they were and, once begun, no staging file; after it both copies and the record stay |
| Vault.CommitLock | crates/vault-core/src/format.rs:256-285 | The source goes only after the container is in place; if it cannot go, the record stays |
| Vault.UnlockContainer | crates/vault-core/src/format.rs:507-600 | Error, disk and journal for every outcome: before extraction nothing changes but the counters; a failed extraction leaves no staging directory, the container and no folder; after the rename a stuck container and the record stay |
| Vault.CommitUnlock | crates/vault-core/src/format.rs:580-598 | The container goes only after the folder is in place; if it cannot go, the record stays |
| Vault.LockedView | crates/vault-core/src/format.rs:256-285 | A lock leaves the container, no staging, and the folder gone or as the failing delete left it, and nothing else on the disk changes |
| Vault.UnlockedView | crates/vault-core/src/format.rs:580-598 | An unlock leaves the folder, no staging, and the container gone unless it is stuck, and nothing else changes |
| Vault.RestoreTo | crates/vault-core/src/format.rs:562-578 | With the destination taken or a file at the staging path nothing is touched; a failed extraction leaves no staging directory; a good one leaves the whole tree there |
| Vault.OpenManifest | crates/vault-core/src/format.rs:535-552 | The manifest is accepted only if it is authentic, readable and of the announced length |
| Vault.LockThenUnlock | crates/vault-core/tests/roundtrip.rs:72-86 | Lock, then unlock with the same password at any time: the folder has exactly the tree its listing showed, and the rest of the disk and the journal are what they were, but for stale staging and what lay below the four paths |
| Vault.LockedTreeComesBack | crates/vault-core/src/format.rs:369-371 | A locked folder of any shape and size restores to exactly what its listing shows if all its directories' names are safe, and fails as tampered otherwise |
| Vault.UnsafeDirectoryIsStranded | crates/vault-core/src/format.rs:117-139 | A folder holding only an empty directory named aux locks and then never unlocks |
| Vault.TamperedFileYieldsOriginal | crates/vault-core/src/crypto.rs:140-186 | Whatever was done to the file, if nothing in its body is forged and it gives up a tree under the lock's key, then it is the tree that was locked |
| Vault.TamperedUnlockYieldsOriginal | crates/vault-core/src/format.rs:507-578 | So is whatever a password or a recovery code unlocks from it, if the wrap it opens is not forged |
| Witness.IntegrityIsNotVacuous | crates/vault-core/src/crypto.rs:140-186 | A finished container of a folder with one file meets all that the integrity theorems ask for, body and password wrap |
| Witness.UnmarkedIsUnforged | crates/vault-core/src/crypto.rs:151-186 | Under primitives that know what was sealed, nothing is forged in any stream that does not hold the mark they give to everything else |
| Witness.ExpiredDeadlineReopens | crates/vault-core/src/format.rs:424-446 | A header of another install with an expired deadline records a wrong password and allows the next attempt at once |
| Vault.FreshOpens | crates/vault-core/src/format.rs:430-436 | A fresh container lets its password in at any time, with its data key |
| Vault.StemOfContainer | crates/vault-core/src/format.rs:554-566 | Unlock derives the path of the original folder from the container's name |
| ContainerProofs.ExtractWritten | crates/vault-core/src/format.rs:602-652 | For any manifest, extraction over the written chunks equals restoring the files from their contents, with no cipher and no stream in between |
| ContainerProofs.UnlockWritten | crates/vault-core/src/format.rs:535-578 | A finished body under its own key and header totals restores what its entries describe |
| ContainerProofs.UnlockCutBody | crates/vault-core/src/format.rs:626-638 | No strict prefix of a finished body unlocks |
| ContainerProofs.ReadWrittenFile | crates/vault-core/src/format.rs:372-382 | Reading a file's chunks gives back its contents, the rest of the stream and the next chunk number, for any contents |
| ContainerProofs.UnlockedIsGenuine | crates/vault-core/src/format.rs:535-576 | A body of any provenance in which nothing is forged and that unlocks is under the writer's uuid and entry count, and restores exactly what the writer's does |
| ContainerProofs.FileIsGenuine | crates/vault-core/src/format.rs:626-638 | Chunks read in sequence from a stream in which nothing is forged are the writer's chunks of that file, in order |
| ContainerProofs.ChunkIsGenuine | crates/vault-core/src/crypto.rs:14-16 | What opens under chunk number i is the writer's chunk i, since no data number is the manifest's |
| Container.BadManifestIsTampered | crates/vault-core/src/format.rs:539-552 | A manifest that does not open under the last number, does not parse or has another length than announced is tampering |
| Container.BadChunkIsTampered | crates/vault-core/src/format.rs:626-634 | So is a chunk that does not open under its number or not to a megabyte or the rest of the file |
| Container.MakeDirsExactly | crates/vault-core/src/format.rs:614-622 | Creating a directory works exactly when no file is in the way; it adds the directories above it and changes nothing else |
| Container.PlaceExactly | crates/vault-core/src/format.rs:614-624 | An entry can be placed exactly when its path is accepted, no file is in its way and no directory or read-only file at its place |
| Container.ExtractedIsRooted | crates/vault-core/src/format.rs:602-652 | Whatever a stream makes of any manifest, every extracted node lies in an extracted directory |
| ContainerIO.Reader.ReadFrameInto | crates/vault-core/src/format.rs:174-191 | The frame reader accepts, consumes and refuses as the frame grammar does, with its errors |
| ContainerIO.Reader.CountToEnd | crates/vault-core/src/format.rs:673-694 | The probing loop of the structural check counts the frames of the rest of the file, with its errors |
| ContainerIO.Reader.ReadChunks | crates/vault-core/src/format.rs:626-638 | The loop over one file's chunks reads what the specification reads |
| ContainerIO.ExtractEntries | crates/vault-core/src/format.rs:602-652 | The extraction loop rebuilds the tree the specification extracts, or fails with its error |
| ContainerIO.SealTo | crates/vault-core/src/crypto.rs:151-170 | Sealing appends exactly one frame |
| ContainerIO.WriteFile | crates/vault-core/src/format.rs:370-390 | A file is written exactly if it still has its scanned size, neither shorter nor longer, and then all its bytes are framed |
| ContainerIO.WriteFiles | crates/vault-core/src/format.rs:366-391 | The payload is complete exactly if every file entry has an acceptable path and was copied whole |
| ContainerIO.WriteBody | crates/vault-core/src/format.rs:354-393 | Success means manifest and payload in full; an oversized manifest fails |
| ContainerIO.OnlyFault | crates/vault-core/src/format.rs:366-390 | The error is that of the first file that cannot be copied |
| ContainerIO.FaultKinds | crates/vault-core/src/format.rs:368-389 | Tampering for a name extraction refuses, an input error for a file that is gone, and a changed file exactly when its size is no longer the scanned one |
| ContainerFile.WriteContainer | crates/vault-core/src/format.rs:316-394 | The writer returns a container only for valid parameters and a faithful copy, and then it is the specified one |
| ContainerFile.VerifyStructure | crates/vault-core/src/format.rs:665-695 | The check computes the frame count the specification assigns to the file |
| ContainerFile.FinishedHeader | crates/vault-core/src/format.rs:336-350 | The header of a finished container reads back with its uuid, salt, parameters, wraps, entry count and total, clean counters and, under its own install key, a good MAC |
| ContainerFile.FinishedOpens | crates/vault-core/src/format.rs:430-436 | A finished container opens with its password to its data key and restores its entries |
| ContainerFile.FinishedVerifies | crates/vault-core/src/format.rs:665-695 | The check accepts a finished container and returns the sum of ceil(size / CHUNK_SIZE) over its files; of its prefixes it accepts exactly the cuts at a frame boundary from the end of the manifest on |
| ContainerFile.CutFileFails | crates/vault-core/src/format.rs:626-638 | No strict prefix of a finished container gives up a tree under its own key |
| ContainerFile.ShortFileIsIo | crates/vault-core/src/format.rs:665-668 | A file shorter than a header is an input error for every reader |
| ContainerFile.FormatNumbers | crates/vault-core/src/format.rs:23-26 | The numbers of the format |
| Frames.AcceptedPayloads | crates/vault-core/src/format.rs:673-694 | The check accepts exactly the concatenations of well-sized frames, and counts them |
| Frames.AcceptedPrefixes | crates/vault-core/src/format.rs:673-694 | Of such a stream it accepts exactly the prefixes that end at a frame boundary |
| Frames.ParseOfFrame | crates/vault-core/src/format.rs:174-191 | A written frame is read back, with what follows it |
| Frames.CutFrameFails | crates/vault-core/src/format.rs:174-191 | A frame cut short anywhere is an input error |
| Frames.BadLengthIsTampered | crates/vault-core/src/format.rs:183-186 | A length field out of range is tampering |
| Frames.CutStreamError | crates/vault-core/src/format.rs:673-694 | The check reports an input error for a stream cut before the end of a length field and tampering for one cut in a blob |
| Frames.BadLengthError | crates/vault-core/src/format.rs:684-687 | It reports tampering for a length field out of range after any frames |
| Crypto.UnwrapInvertsWrap | crates/vault-core/src/crypto.rs:102-126 | Unwrapping inverts wrapping, at 60 bytes |
| Crypto.AadInjective | crates/vault-core/src/crypto.rs:140-145 | The associated data determines container and sequence number |
| Walk.Walker.WalkInto | crates/vault-core/src/walk.rs:44-88 | The recursive walk fails exactly on a link anywhere below, and otherwise has appended the directories, the files and the bytes of the subtree |
| Walk.Walker.Scan | crates/vault-core/src/walk.rs:31-42 | The scan lists all directories, then all files, and their total in wrapping 64-bit arithmetic |
| WalkComplete.ScanIsLossless | crates/vault-core/src/walk.rs:31-99 | The manifest has an entry with the right path, size, time, kind and read-only bit for everything the listing shows and no other entry; paths are distinct, directories come before files and before what they hold, and the sizes add up to the folder's bytes |
| WalkComplete.VisitedIffListed | crates/vault-core/src/walk.rs:44-88 | What the walk visits is exactly what the listing shows, with its contents and read-only bit |
| WalkComplete.LinksAreFound | crates/vault-core/src/walk.rs:56-60 | The scan is refused exactly when the listing shows a link at any depth |
| WalkComplete.ShownIsContents | crates/vault-core/src/walk.rs:44-88 | A well-formed listing shows one tree, the one the visits make up |
| WalkComplete.RestoredIsShown | crates/vault-core/src/format.rs:602-652 | Restoring a scan's entries rebuilds exactly the tree the listing shows if all directories' names are safe, and is refused otherwise; copying is faithful exactly if the files' names are |
| WalkProofs.TreeIsVisits | crates/vault-core/src/walk.rs:44-88 | The tree built of visits has exactly their paths and nodes |
| WalkProofs.RestoredIsContents | crates/vault-core/src/format.rs:602-652 | Restoring a scan's entries rebuilds the tree of its visits, or is refused |
| WalkProofs.AncestorsFirst | crates/vault-core/src/walk.rs:24-42 | Whatever lies below a directory is listed after it |
| Paths.SafeJoin | crates/vault-core/src/format.rs:145-163 | The loop over components returns the path, or the refusal, of the specification |
| Names.NameAccepted | crates/vault-core/src/format.rs:117-139 | A text without separators is accepted, as itself, exactly when it is not empty, has none of the nine refused characters and none below 0x20, ends in neither dot nor space, and does not spell one of the 22 device names before its first dot in any case; otherwise it is tampering |
| Names.PathAccepted | crates/vault-core/src/format.rs:145-163 | A path is accepted exactly when it starts with such a name and each further piece is one, empty or a single dot; it is then the path of those names |
| Names.EveryTextIsWoven | crates/vault-core/src/format.rs:149-150 | Every text is such a path of pieces and separators |
| Names.SafeIsPlain | crates/vault-core/src/format.rs:117-139 | The component test says the same as those characters and names |
| Names.JoinExamples | crates/vault-core/src/format.rs:702-733 | a.txt is accepted; NUL.txt, name. and a<b are tampering |
| Paths.JoinInvertsRelPath | crates/vault-core/src/walk.rs:90-99 | Joining a printed relative path onto any root gives root and path back exactly when all its names are safe |
| Paths.JoinStaysBelowRoot | crates/vault-core/src/format.rs:145-163 | For every string, an accepted path is the root followed by one or more safe names |
| Paths.RelPathInjective | crates/vault-core/src/walk.rs:90-99 | Different paths print differently |
| Paths.NoBackslash | crates/vault-core/src/walk.rs:90-99 | Printed paths hold no backslash |
| Header.ParseOfPrint | crates/vault-core/src/format.rs:46-97 | Reading a written header restores every field and finds the MAC good, for all field values |
| Header.PrintOfParse | crates/vault-core/src/format.rs:46-97 | Writing a read header gives the same 268 bytes exactly when the MAC was good and bytes 208..212 are zero |
| Header.FieldsTile | crates/vault-core/src/format.rs:68-97 | The parsed fields determine every byte before the MAC but the reserved four |
| Header.AlteredByte | crates/vault-core/src/format.rs:68-97 | One altered byte makes a written header another format, another version, or one with a bad MAC, unless the MACs of both texts collide |
| Header.MagicText | crates/vault-core/src/lib.rs:22 | The magic bytes spell FVLT |
| Header.FillHeader | crates/vault-core/src/format.rs:46-66 | The buffer filled field by field in place is the specified header |
| Header.TornRewriteKeepsMaterial | crates/vault-core/src/format.rs:99-105 | A rewrite torn at any byte still parses to the same uuid, salt, parameters, wraps and totals, with a deadline no later than one of the two versions |
| Authorize.ContainerOnDisk.OpenAndAuthorize | crates/vault-core/src/format.rs:405-469 | Result, file and read-only guard after an attempt are as specified, the exits that leave the guard off included |
| Authorize.AttemptKeepsVault | crates/vault-core/src/format.rs:425-468 | No attempt changes the body, the key material or the totals |
| Authorize.TornAttemptKeepsVault | crates/vault-core/src/format.rs:425-468 | Nor does an attempt whose rewrite is torn at any byte, and its deadline is no later than before or after |
| Authorize.SameVaultSameContents | crates/vault-core/src/format.rs:430-463 | Keys and tree depend on nothing an attempt changes |
| AttemptRuns.GuessRateOnFile | crates/vault-core/src/lockout.rs:20-42 | Over any mix of failing attempts from a clean header, four recorded wrong passwords in a row span 86400 seconds, and the one with index k comes 86400 times floor(k / 3) seconds after the first |
| AttemptRuns.CountdownOnFile | crates/vault-core/src/format.rs:441-444 | Over such a run the wrong passwords surface two left, one left and a deadline 86400 seconds on, and again |
| AttemptRuns.FailedAttempt | crates/vault-core/src/format.rs:430-463 | A failed attempt writes nothing unless it records a wrong password; a wrong code writes nothing ever |
| AttemptRuns.SuccessClears | crates/vault-core/src/format.rs:464-468 | Any success leaves clear counters under a good MAC and returns the header then on disk |
| AttemptRuns.CountersFollow | crates/vault-core/src/format.rs:425-446 | The counters in the file are those of the recorded failures, and each was permitted when it came |
| AttemptRuns.HeaderStaysConsistent | crates/vault-core/src/lockout.rs:20-47 | On headers this install wrote every run keeps at most three failures, and three exactly while a deadline is set |
| AttemptRuns.ForeignHeaderArms | crates/vault-core/src/format.rs:424-446 | Under a bad MAC one wrong password arms and authenticates a day's lockout exactly if no deadline is shown and the count does not wrap; otherwise the next attempt is open |
| AttemptRuns.PasswordStillOpens | crates/vault-core/src/format.rs:430-446 | After any attempts the password opens the vault exactly when the counters permit it, to the same key and tree |
| AttemptRuns.PasswordOpensInADay | crates/vault-core/src/lockout.rs:20-42 | Where no deadline was set at first, it does so at every time from 86400 seconds after the last recorded wrong password on |
| AttemptRuns.DeadlineFollows | crates/vault-core/src/lockout.rs:29-42 | The only deadline there can be is that of the last recorded wrong password |
| AttemptRuns.CodeStillOpens | crates/vault-core/src/recovery.rs:49-74 | After any attempts and at any time the enrolled code opens the vault to the same key and tree, exactly if the sealed key is not 92 zero bytes |
| AttemptRuns.NoKeyNoCode | crates/vault-core/src/recovery.rs:72-74 | A header whose wrap is all zero refuses every code and nothing is written |
| AttemptRuns.LockedWithoutKey | crates/vault-core/src/format.rs:342-345 | A container locked without a recovery key refuses every code after any attempts |
| AttemptRuns.NoCodeRefused | crates/vault-core/src/format.rs:455-461 | A text that is no code is refused and nothing is written |
| AttemptRuns.OtherCodeRefused | crates/vault-core/src/recovery.rs:42-70 | A code for another secret is refused if the labelled MAC of its exchange does not open the wrap |
| AttemptRuns.OtherPasswordRefused | crates/vault-core/src/format.rs:436-446 | A password whose derived key does not open the wrap is refused, and recorded exactly when it is permitted |
| AttemptRuns.LockedOutMeansOut | crates/vault-core/src/format.rs:432-435 | While a deadline runs every password is turned away with it and nothing is written |
| AttemptRuns.ParametersAreBounded | crates/vault-core/src/crypto.rs:72-81 | Key-derivation parameters are taken for tampering exactly outside 1 MiB to 1 GiB, 1 to 16 passes and 1 to 16 lanes |
| AttemptRuns.NoHeaderRefused | crates/vault-core/src/format.rs:421-423 | What is no header is refused with the header's error and nothing is written |
| AttemptRuns.TriesKeepVault | crates/vault-core/src/format.rs:405-469 | No run of attempts changes body, key material or totals |
| Lockout.LockoutState.Check | crates/vault-core/src/lockout.rs:20-25 | A password may be tried exactly when no deadline is running |
| Lockout.LockoutState.RecordFailure | crates/vault-core/src/lockout.rs:29-42 | New counters and surfaced error after a wrong password |
| Lockout.FailureKeepsConsistent | crates/vault-core/src/lockout.rs:29-42 | A failure keeps the counters consistent except as the third at the one second whose deadline wraps to zero |
| Lockout.FailureNeverMovesADeadline | crates/vault-core/src/lockout.rs:29-42 | A permitted failure never replaces one deadline by another |
| Lockout.CountersAfterFailures | crates/vault-core/src/lockout.rs:29-42 | After n permitted failures the count is n modulo three in 1..3, and a deadline is set exactly after each third |
| Lockout.ErrorAfterFailures | crates/vault-core/src/lockout.rs:29-42 | The surfaced error counts down over each round of three and gives the new deadline at its end |
| Lockout.FourSpanADay | crates/vault-core/src/lockout.rs:20-42 | Any four failures in a row span at least the lockout time |
| Lockout.GuessRate | crates/vault-core/src/lockout.rs:20-42 | The failure with index k comes floor(k / 3) lockouts after the first |
| RecoveryCode.EncodeBase32 | crates/vault-core/src/recovery.rs:88-105 | The loop over a wrapping 32-bit accumulator prints the bit groups of section 6 of RFC 4648, the last one zero-filled |
| RecoveryCode.DecodeData | crates/vault-core/src/recovery.rs:123-141 | The reverse loop regroups 260 bits into 32 bytes and drops the last four |
| RecoveryCode.Symbols | crates/vault-core/src/recovery.rs:108-119 | The lexing loop returns the normalised symbols, or nothing at the first foreign character |
| RecoveryCode.DecodeCode | crates/vault-core/src/recovery.rs:107-149 | Parsing is a function of the normalised symbols: 56 of them, the last four the check of the others |
| RecoveryCodeProofs.EncodeCode | crates/vault-core/src/recovery.rs:76-86 | The printed code is data and check symbols, dashed in fours |
| RecoveryCodeProofs.DecodeInvertsEncode | crates/vault-core/src/recovery.rs:76-149 | Every 32-byte secret comes back from its printed code |
| RecoveryCodeProofs.EncodeInvertsDecode | crates/vault-core/src/recovery.rs:76-149 | Printing a parsed code gives its symbols back exactly when its pad bits are zero |
| RecoveryCodeProofs.AcceptedSpellings | crates/vault-core/src/recovery.rs:107-149 | The symbol strings that decode to a secret are exactly its spellings, one for each value of the pad bits |
| RecoveryCodeProofs.SixteenSpellings | crates/vault-core/src/recovery.rs:107-149 | Each secret has exactly 16 accepted symbol strings |
| RecoveryCodeProofs.SpellingsDiffer | crates/vault-core/src/recovery.rs:123-141 | They differ in the low four bits of the 52nd symbol only |
| RecoveryCodeProofs.NoiseIsIgnored | crates/vault-core/src/recovery.rs:107-122 | Any series of added or removed separators, case changes and look-alikes leaves the result as it was |
| RecoveryCodeProofs.ForeignCharacterRefused | crates/vault-core/src/recovery.rs:117 | One foreign character anywhere and the code is refused |
| RecoveryCodeProofs.ChecksumBinds | crates/vault-core/src/recovery.rs:142-148 | The last four symbols of an accepted code are the first 20 bits of the secret's digest |
| RecoveryCodeProofs.SlipsShow | crates/vault-core/src/recovery.rs:165-172 | Accepted codes with one check are for secrets whose digests agree in those bits |
| RecoveryCodeProofs.CodeShape | crates/vault-core/src/recovery.rs:76-86 | A printed code has 69 characters, every fifth a dash and the others from the alphabet |
| RecoveryCodeProofs.EnrolledIffNonZero | crates/vault-core/src/recovery.rs:72-74 | A wrap counts as enrolled exactly when it is not all zero |
| RecoveryCodeProofs.KekLabel | crates/vault-core/src/recovery.rs:42-47 | The text of the label |
| RecoveryCodeProofs.SealDk | crates/vault-core/src/recovery.rs:49-58 | The 92 bytes are the ephemeral public key and the wrapped data key |
| RecoveryCodeProofs.CodeOpensSealedKey | crates/vault-core/src/recovery.rs:49-70 | Any text that parses to the master secret opens what was sealed to its public key |
| Alphabet.FindPosition | crates/vault-core/src/recovery.rs:110-119 | The table search finds the one position of a character code, or none |
| Alphabet.AlphabetInOrder | crates/vault-core/src/recovery.rs:20 | The alphabet is the digits and then the capital letters but I, L, O and U, in order |
| Alphabet.CharacterMeaning | crates/vault-core/src/recovery.rs:109-117 | Dashes and spaces are dropped, I, L and O in either case are digits, and any other character is the symbol its byte stands at in the alphabet, or is refused |
| Alphabet.RefusedIffForeign | crates/vault-core/src/recovery.rs:109-117 | A text is refused exactly when one of its characters is none of those |
| Alphabet.AcceptedAscii | crates/vault-core/src/recovery.rs:109-120 | Of ASCII the parser accepts exactly the alphabet in either case and I, L and O |
| Alphabet.AcceptedBeyondAscii | crates/vault-core/src/recovery.rs:109-120 | Beyond ASCII only the low byte of a character counts, so some are accepted |
| Accumulator.ShiftInHolds | crates/vault-core/src/recovery.rs:91-96 | Shifting into the wrapping accumulator keeps its pending bits and appends the new ones |
| Accumulator.TakeOutHolds | crates/vault-core/src/recovery.rs:95-99 | The masked shift takes out the oldest pending bits and leaves the others |
| Instance.IdealIsConsistent | crates/vault-core/src/crypto.rs:100-186 | The assumptions on the primitives can be met together |

## Left out

- The window, registry, shell, installer and command-line code: no part of the container's logic.
- The internals of AES-GCM, Argon2id, HMAC, SHA-256, X25519 and bincode, which enter as `Primitives`.
- Power loss with volatile caches: only process crashes are modelled. Extraction never flushes its files to disk, so nothing is claimed of unlock beyond them.
- Concurrent processes, and aliasing of names that differ in case only.
- Modification times and read-only bits of directories, which are not restored, and of files the modification times, which are restored best-effort.
- Names that are not valid Unicode, which are printed lossily; only the components Windows knows are modelled.
- Bytes after the last chunk and the payload length field: extraction checks neither, and neither is claimed.
- Progress reports, `inspect`, and the choice between recycling, wiping and plain deletion: a deletion may leave any partial contents behind until it is done.
- Named paths below a directory that is renamed: the staging directories are fresh and have none.
- Record files that exist but cannot be read by the system at all: recovery skips them without removing them, while here every record file is readable or half-written.
- The journal as an option: every operation here has one.
- `verify_and_delete` beyond its credential check, which is the same `OpenAndAuthorize` as unlock's.
- The guard bit of the container after unlock's own failures, which several early exits leave off; `OpenAndAuthorize` states it for its own exits.
- Nonce uniqueness: nonces are drawn at random and enter as inputs.
- Vault.LockFolder: a source file is read as one unchanging content that may differ from what was scanned; changes between two reads of one file are not captured.
- Vault.LockFolder: errors carry no text, so the different "other" errors are one.
- Vault.LockFolder: the folder's own read errors while it is scanned are not modelled, only links; what is scanned is the listing it is given.
- Journal.Files.Replay: its deletes succeed; failing ones are a step of the state machine, and the loss of nothing but tidiness is what `NoRunLosesData` says of them.
- Journal.Files.Recover: removal of a record file succeeds.
- ContainerIO.WriteFile: the output is a value that grows, not a buffered file; buffers reused between chunks are not modelled.
