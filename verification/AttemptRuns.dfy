/** Runs of unlock and delete attempts on one container file. */
module AttemptRuns {
  import opened Bytes
  import opened Entries
  import opened Crypto
  import opened Lockout
  import opened Header
  import opened Container
  import opened ContainerProofs
  import opened ContainerFile
  import opened Authorize
  import opened RecoveryCode
  import R = RecoveryCodeProofs

  datatype Try = Try(cred: Credential, now: u64)

  /** The file after a run of attempts. */
  ghost function AfterTries(c: Primitives, f: bytes, tries: seq<Try>, hmacKey: bytes): bytes
    requires c.IdealHashes()
  {
    if tries == [] then f
    else
      var last := tries[|tries| - 1];
      Attempt(c, AfterTries(c, f, tries[..|tries| - 1], hmacKey), last.cred, hmacKey, last.now).file
  }

  /** Is this attempt a wrong password that counts? */
  predicate Records(c: Primitives, f: bytes, t: Try, hmacKey: bytes) {
    && t.cred.Password? && Parse(c, f, hmacKey).Ok?
    && var h := Parse(c, f, hmacKey).value;
    && Permits(Clamped(h).lockout, t.now)
    && h.kdf.Validate()
    && UnwrapKey(c, c.argon2(t.cred.password, h.salt, h.kdf), h.wrappedDkPw).None?
  }

  /** The times of the wrong passwords a run records. */
  ghost function Recorded(c: Primitives, f: bytes, tries: seq<Try>, hmacKey: bytes): seq<u64>
    requires c.IdealHashes()
  {
    if tries == [] then []
    else
      var front, last := tries[..|tries| - 1], tries[|tries| - 1];
      Recorded(c, f, front, hmacKey)
      + if Records(c, AfterTries(c, f, front, hmacKey), last, hmacKey) then [last.now] else []
  }

  /** No attempt of the run succeeds. */
  ghost predicate AllFail(c: Primitives, f: bytes, tries: seq<Try>, hmacKey: bytes)
    requires c.IdealHashes()
  {
    tries == []
    || (var front, last := tries[..|tries| - 1], tries[|tries| - 1];
        AllFail(c, f, front, hmacKey)
        && Attempt(c, AfterTries(c, f, front, hmacKey), last.cred, hmacKey, last.now).result.Err?)
  }

  lemma {:induction false} TriesKeepVault(c: Primitives, f: bytes, tries: seq<Try>, hmacKey: bytes)
    requires c.IdealHashes() && Parse(c, f, hmacKey).Ok?
    ensures SameVault(c, f, AfterTries(c, f, tries, hmacKey), hmacKey)
  {
    hide FromBytes, Attempt;
    if tries == [] {
    } else {
      var front, last := tries[..|tries| - 1], tries[|tries| - 1];
      TriesKeepVault(c, f, front, hmacKey);
      AttemptKeepsVault(c, AfterTries(c, f, front, hmacKey), last.cred, hmacKey, last.now);
    }
  }

  /** A failed attempt writes nothing unless it records a wrong password; a wrong recovery code
      never does. */
  lemma FailedAttempt(c: Primitives, f: bytes, t: Try, hmacKey: bytes)
    requires c.IdealHashes() && Parse(c, f, hmacKey).Ok?
    requires Attempt(c, f, t.cred, hmacKey, t.now).result.Err?
    ensures var h, g := Parse(c, f, hmacKey).value, Attempt(c, f, t.cred, hmacKey, t.now).file;
            && h.Valid()
            && g == (if Records(c, f, t, hmacKey)
                     then Rewritten(c, f, h.(lockout := AfterFailure(Clamped(h).lockout, t.now)), hmacKey)
                     else f)
    ensures t.cred.MasterCode? ==> Attempt(c, f, t.cred, hmacKey, t.now).file == f
  {
  }

  /** Success leaves clear counters under a good MAC, and hands out the header that is now on disk. */
  lemma SuccessClears(c: Primitives, f: bytes, t: Try, hmacKey: bytes)
    requires c.IdealHashes() && Attempt(c, f, t.cred, hmacKey, t.now).result.Ok?
    ensures var a := Attempt(c, f, t.cred, hmacKey, t.now);
            var g := Parse(c, a.file, hmacKey);
            && g.Ok? && g.value.hmacOk && g.value.lockout == UNLOCKED
            && a.result.value.header == g.value.(hmacOk := a.result.value.header.hmacOk)
            && (Parse(c, f, hmacKey).value.hmacOk && Parse(c, f, hmacKey).value.lockout == Counters(0, 0) ==> a.file == f)
  {
    hide FromBytes, ToBytes, Rewritten;
    var h := Parse(c, f, hmacKey).value;
    RewriteKeepsVault(c, f, UNLOCKED, hmacKey);
    assert Clamped(h).(lockout := UNLOCKED) == h.(lockout := UNLOCKED);
  }

  // ----- the guess rate -----

  /** Along a run without success, from a clean authentic header, the counters in the file are those
      of the recorded failures, each of which was permitted. */
  lemma {:induction false} CountersFollow(c: Primitives, f: bytes, tries: seq<Try>, hmacKey: bytes)
    requires c.IdealHashes() && Parse(c, f, hmacKey).Ok? && AllFail(c, f, tries, hmacKey)
    requires Parse(c, f, hmacKey).value.hmacOk && Parse(c, f, hmacKey).value.lockout == UNLOCKED
    ensures var p := Parse(c, AfterTries(c, f, tries, hmacKey), hmacKey);
            && p.Ok? && p.value.hmacOk
            && p.value.lockout == AfterFailures(UNLOCKED, Recorded(c, f, tries, hmacKey))
    ensures AllPermitted(UNLOCKED, Recorded(c, f, tries, hmacKey))
  {
    hide FromBytes, Attempt, AfterFailure, Rewritten;
    if tries == [] {
    } else {
      var front, last := tries[..|tries| - 1], tries[|tries| - 1];
      CountersFollow(c, f, front, hmacKey);
      var g := AfterTries(c, f, front, hmacKey);
      var h := Parse(c, g, hmacKey).value;
      FailedAttempt(c, g, last, hmacKey);
      assert Clamped(h) == h;
      var times := Recorded(c, f, front, hmacKey);
      if Records(c, g, last, hmacKey) {
        RewriteKeepsVault(c, g, AfterFailure(h.lockout, last.now), hmacKey);
        PermittedSnoc(times, last.now);
      } else {
        assert times + [] == times;
      }
    }
  }

  lemma PermittedSnoc(times: seq<u64>, now: u64)
    requires AllPermitted(UNLOCKED, times) && Permits(AfterFailures(UNLOCKED, times), now)
    ensures AllPermitted(UNLOCKED, times + [now])
    ensures AfterFailures(UNLOCKED, times + [now]) == AfterFailure(AfterFailures(UNLOCKED, times), now)
  {
    hide AfterFailure, Permits;
    var all := times + [now];
    assert all[..|times|] == times;
    forall k | 0 <= k < |all| ensures Permits(AfterFailures(UNLOCKED, all[..k]), all[k]) {
      if k < |times| {
        assert all[..k] == times[..k];
      }
    }
  }

  predicate ClockRunsOn(tries: seq<Try>) {
    && (forall i, j :: 0 <= i < j < |tries| ==> tries[i].now <= tries[j].now)
    && (forall i :: 0 <= i < |tries| ==> tries[i].now <= LAST_SANE_CLOCK)
  }

  lemma {:induction false} RecordedTimes(c: Primitives, f: bytes, tries: seq<Try>, hmacKey: bytes)
    requires c.IdealHashes() && ClockRunsOn(tries)
    ensures var times := Recorded(c, f, tries, hmacKey);
            && NonDecreasing(times) && Sane(times)
            && forall k :: 0 <= k < |times| ==> tries != [] && times[k] <= tries[|tries| - 1].now
  {
    hide Records;
    if tries == [] {
    } else {
      var front := tries[..|tries| - 1];
      RecordedTimes(c, f, front, hmacKey);
    }
  }

  /** However unlock and delete attempts are mixed, any four recorded wrong passwords in a row span at
      least 24 hours, and the one with index k comes one day for each full round of three after the
      first. */
  lemma GuessRateOnFile(c: Primitives, f: bytes, tries: seq<Try>, hmacKey: bytes, k: nat)
    requires c.IdealHashes() && Parse(c, f, hmacKey).Ok? && AllFail(c, f, tries, hmacKey) && ClockRunsOn(tries)
    requires Parse(c, f, hmacKey).value.hmacOk && Parse(c, f, hmacKey).value.lockout == UNLOCKED
    requires k < |Recorded(c, f, tries, hmacKey)|
    ensures var times := Recorded(c, f, tries, hmacKey);
            && times[k] as int >= times[0] as int + 86400 * (k / 3)
            && (k + 3 < |times| ==> times[k + 3] as int >= times[k] as int + 86400)
  {
    hide FromBytes, Recorded, AfterTries, AllFail;
    CountersFollow(c, f, tries, hmacKey);
    RecordedTimes(c, f, tries, hmacKey);
    GuessRate(Recorded(c, f, tries, hmacKey), k);
    if k + 3 < |Recorded(c, f, tries, hmacKey)| {
      FourSpanADay(Recorded(c, f, tries, hmacKey), k);
    }
  }

  /** On headers this install wrote, every attempt at a sane clock keeps the counters consistent:
      at most three failures, and three exactly while a deadline is set. */
  lemma {:induction false} HeaderStaysConsistent(c: Primitives, f: bytes, tries: seq<Try>, hmacKey: bytes)
    requires c.IdealHashes() && Parse(c, f, hmacKey).Ok? && ClockRunsOn(tries)
    requires Parse(c, f, hmacKey).value.hmacOk && Consistent(Parse(c, f, hmacKey).value.lockout)
    ensures var p := Parse(c, AfterTries(c, f, tries, hmacKey), hmacKey);
            p.Ok? && p.value.hmacOk && Consistent(p.value.lockout)
  {
    hide FromBytes, Attempt, AfterFailure, Rewritten;
    if tries == [] {
    } else {
      var front, last := tries[..|tries| - 1], tries[|tries| - 1];
      HeaderStaysConsistent(c, f, front, hmacKey);
      var g := AfterTries(c, f, front, hmacKey);
      var h := Parse(c, g, hmacKey).value;
      AttemptEffect(c, g, last.cred, hmacKey, last.now);
      RewriteKeepsVault(c, g, UNLOCKED, hmacKey);
      RewriteKeepsVault(c, g, AfterFailure(h.lockout, last.now), hmacKey);
      assert Clamped(h) == h;
      if Permits(h.lockout, last.now) {
        FailureKeepsConsistent(h.lockout, last.now);
      }
    }
  }

  /** Under a bad MAC one recorded wrong password arms and authenticates a 24-hour lockout exactly
      when the file shows no deadline, expired or not, and a failure count that does not wrap: an
      expired deadline opens a fresh window that undoes the clamp. */
  lemma ForeignHeaderArms(c: Primitives, f: bytes, t: Try, hmacKey: bytes)
    requires c.IdealHashes() && Parse(c, f, hmacKey).Ok? && !Parse(c, f, hmacKey).value.hmacOk
    requires Records(c, f, t, hmacKey) && t.now <= LAST_SANE_CLOCK
    ensures var s := Parse(c, f, hmacKey).value.lockout;
            var g := Parse(c, Attempt(c, f, t.cred, hmacKey, t.now).file, hmacKey);
            && g.Ok? && g.value.hmacOk
            && (g.value.lockout.lockedUntil == t.now + LOCKOUT_SECS
                <==> s.lockedUntil == 0 && s.failCount != 0xFFFF_FFFF)
            && (g.value.lockout.lockedUntil != t.now + LOCKOUT_SECS ==> Permits(g.value.lockout, t.now))
  {
    hide FromBytes, Rewritten;
    var h := Parse(c, f, hmacKey).value;
    FailedAttempt(c, f, t, hmacKey);
    RewriteKeepsVault(c, f, AfterFailure(Clamped(h).lockout, t.now), hmacKey);
  }

  // ----- both credentials keep working -----

  /** After any attempts at all, the password opens the vault once the counters permit it. */
  lemma PasswordStillOpens(c: Primitives, f: bytes, tries: seq<Try>, hmacKey: bytes, password: bytes, dk: bytes, now: u64)
    requires c.IdealHashes() && Parse(c, f, hmacKey).Ok? && KeyOf(c, f, password) == Some(dk)
    ensures var g := AfterTries(c, f, tries, hmacKey);
            && Parse(c, g, hmacKey).Ok?
            && (Permits(Parse(c, g, hmacKey).value.lockout, now) <==>
                 Attempt(c, g, Password(password), hmacKey, now).result.Ok?)
            && (Permits(Parse(c, g, hmacKey).value.lockout, now) ==>
                 Attempt(c, g, Password(password), hmacKey, now).result.value.dk == dk)
            && forall key :: TreeIn(c, g, key) == TreeIn(c, f, key)
  {
    hide FromBytes, AfterTries, ToBytes, Unlocked;
    var g := AfterTries(c, f, tries, hmacKey);
    TriesKeepVault(c, f, tries, hmacKey);
    SameVaultSameContents(c, f, g, hmacKey);
    ParseIgnoresKey(c, g, hmacKey, []);
    FieldsTile(c, g[..HEADER_LEN], hmacKey);
  }

  /** When the deadline of the last recorded failure, if any, has passed. */
  function Expiry(times: seq<u64>): nat {
    if times == [] then 0 else times[|times| - 1] + LOCKOUT_SECS
  }

  lemma DeadlineOfFailure(s: Counters, now: u64)
    requires Permits(s, now) && now <= LAST_SANE_CLOCK
    ensures AfterFailure(s, now).lockedUntil <= now + LOCKOUT_SECS
  {
  }

  /** Where no deadline was set, the only one there can be is that of the last recorded failure. */
  lemma {:induction false} DeadlineFollows(c: Primitives, f: bytes, tries: seq<Try>, hmacKey: bytes)
    requires c.IdealHashes() && Parse(c, f, hmacKey).Ok? && ClockRunsOn(tries)
    requires Parse(c, f, hmacKey).value.lockout.lockedUntil == 0
    ensures var p := Parse(c, AfterTries(c, f, tries, hmacKey), hmacKey);
            p.Ok? && p.value.lockout.lockedUntil <= Expiry(Recorded(c, f, tries, hmacKey))
  {
    hide FromBytes, Attempt, AfterFailure, Rewritten, Permits;
    if tries == [] {
    } else {
      var front, last := tries[..|tries| - 1], tries[|tries| - 1];
      DeadlineFollows(c, f, front, hmacKey);
      var g := AfterTries(c, f, front, hmacKey);
      var h := Parse(c, g, hmacKey).value;
      var times := Recorded(c, f, front, hmacKey);
      if Attempt(c, g, last.cred, hmacKey, last.now).result.Ok? {
        SuccessClears(c, g, last, hmacKey);
      } else {
        FailedAttempt(c, g, last, hmacKey);
        if Records(c, g, last, hmacKey) {
          RewriteKeepsVault(c, g, AfterFailure(Clamped(h).lockout, last.now), hmacKey);
          DeadlineOfFailure(Clamped(h).lockout, last.now);
          assert Expiry(times + [last.now]) == last.now + LOCKOUT_SECS;
        } else {
          assert times + [] == times;
        }
      }
    }
  }

  /** The password is never locked out for longer than that: from 24 hours after the last recorded
      wrong password on, whatever was tried before, it opens the vault. */
  lemma PasswordOpensInADay(c: Primitives, f: bytes, tries: seq<Try>, hmacKey: bytes, password: bytes, dk: bytes, now: u64)
    requires c.IdealHashes() && Parse(c, f, hmacKey).Ok? && KeyOf(c, f, password) == Some(dk)
    requires Parse(c, f, hmacKey).value.lockout.lockedUntil == 0 && ClockRunsOn(tries)
    requires var times := Recorded(c, f, tries, hmacKey); times == [] || now as int >= times[|times| - 1] as int + 86400
    ensures var a := Attempt(c, AfterTries(c, f, tries, hmacKey), Password(password), hmacKey, now);
            a.result.Ok? && a.result.value.dk == dk
  {
    hide FromBytes, AfterTries, Recorded, KeyOf, Attempt;
    PasswordStillOpens(c, f, tries, hmacKey, password, dk, now);
    DeadlineFollows(c, f, tries, hmacKey);
  }

  /** After any attempts at all and at any time, the code enrolled at lock time opens the vault;
      the one exception is a wrap whose 92 bytes all came out zero, which reads as not enrolled. */
  lemma CodeStillOpens(c: Primitives, password: bytes, hmacKey: bytes, opts: LockOptions, r: LockRandom,
                       entries: seq<Entry>, total: u64, source: Source, tries: seq<Try>,
                       sk: bytes, code: string, now: u64)
    requires c.Ideal() && r.Valid() && |entries| <= U64_MAX && AllFaithful(entries, source)
    requires opts.masterPub == Some(c.public(sk)) && Decoded(c, code) == Some(sk)
    ensures var f := Finished(c, password, hmacKey, opts, r, entries, total, source);
            var g := AfterTries(c, f, tries, hmacKey);
            var a := Attempt(c, g, MasterCode(code), hmacKey, now).result;
            && (a.Ok? <==> R.SealedDk(c, c.public(sk), r.eph, r.mkNonce, r.dk) != Zeros(92))
            && (a.Ok? ==> a.value.dk == r.dk)
            && forall key :: TreeIn(c, g, key) == TreeIn(c, f, key)
  {
    hide FromBytes, AfterTries, ToBytes, Unlocked, Finished, Decoded, R.IsEnrolled, R.SealedDk;
    var f := Finished(c, password, hmacKey, opts, r, entries, total, source);
    var g := AfterTries(c, f, tries, hmacKey);
    FinishedHeader(c, password, hmacKey, opts, r, entries, total, source, hmacKey);
    TriesKeepVault(c, f, tries, hmacKey);
    SameVaultSameContents(c, f, g, hmacKey);
    FieldsTile(c, g[..HEADER_LEN], hmacKey);
    R.CodeOpensSealedKey(c, code, sk, r.eph, r.mkNonce, r.dk);
    R.EnrolledIffNonZero(R.SealedDk(c, c.public(sk), r.eph, r.mkNonce, r.dk));
  }

  // ----- what is refused -----

  /** What is no header is refused with the header's error, and nothing is written. */
  lemma NoHeaderRefused(c: Primitives, f: bytes, t: Try, hmacKey: bytes)
    requires c.IdealHashes() && Parse(c, f, hmacKey).Err?
    ensures Attempt(c, f, t.cred, hmacKey, t.now) == Outcome(Err(Parse(c, f, hmacKey).error), f)
    ensures |f| < 268 ==> Attempt(c, f, t.cred, hmacKey, t.now) == Outcome(Err(Io), f)
  {
  }

  /** Without an enrolled key every code is refused, and nothing is written. */
  lemma NoKeyNoCode(c: Primitives, f: bytes, code: string, hmacKey: bytes, now: u64)
    requires c.IdealHashes() && Parse(c, f, hmacKey).Ok? && Parse(c, f, hmacKey).value.wrappedDkMk == Zeros(92)
    ensures Attempt(c, f, MasterCode(code), hmacKey, now) == Outcome(Err(Other), f)
  {
    hide FromBytes, R.IsEnrolled, R.OpenedDk;
    FieldsTile(c, f[..HEADER_LEN], hmacKey);
    R.EnrolledIffNonZero(Zeros(92));
  }

  /** A container locked without a recovery key refuses every code for ever. */
  lemma LockedWithoutKey(c: Primitives, password: bytes, hmacKey: bytes, opts: LockOptions, r: LockRandom,
                         entries: seq<Entry>, total: u64, source: Source, tries: seq<Try>, code: string, now: u64)
    requires c.Ideal() && r.Valid() && |entries| <= U64_MAX && AllFaithful(entries, source) && opts.masterPub == None
    ensures var g := AfterTries(c, Finished(c, password, hmacKey, opts, r, entries, total, source), tries, hmacKey);
            Attempt(c, g, MasterCode(code), hmacKey, now) == Outcome(Err(Other), g)
  {
    hide FromBytes, AfterTries, ToBytes, Finished, Attempt;
    var f := Finished(c, password, hmacKey, opts, r, entries, total, source);
    FinishedHeader(c, password, hmacKey, opts, r, entries, total, source, hmacKey);
    TriesKeepVault(c, f, tries, hmacKey);
    NoKeyNoCode(c, AfterTries(c, f, tries, hmacKey), code, hmacKey, now);
  }

  /** A text that is no code is refused, and nothing is written. */
  lemma NoCodeRefused(c: Primitives, f: bytes, code: string, hmacKey: bytes, now: u64)
    requires c.IdealHashes() && Parse(c, f, hmacKey).Ok? && Decoded(c, code) == None
    ensures Attempt(c, f, MasterCode(code), hmacKey, now) == Outcome(Err(Other), f)
  {
    hide FromBytes, R.IsEnrolled, Decoded;
    FieldsTile(c, f[..HEADER_LEN], hmacKey);
  }

  /** A code for another secret is refused where the key it derives does not open what was sealed: the
      key is the labelled MAC of the secret's exchange with the ephemeral key of the wrap. */
  lemma OtherCodeRefused(c: Primitives, f: bytes, code: string, sk': bytes, pub: bytes, eph: bytes, nonce: bytes,
                         dk: bytes, hmacKey: bytes, now: u64)
    requires c.Ideal() && Parse(c, f, hmacKey).Ok? && Decoded(c, code) == Some(sk') && |nonce| == 12
    requires Parse(c, f, hmacKey).value.wrappedDkMk
             == c.public(eph) + (nonce + c.seal(c.mac(R.KEK_LABEL, c.agree(eph, pub)), nonce, [], dk))
    requires c.open(c.mac(R.KEK_LABEL, c.agree(sk', c.public(eph))), nonce, [],
                    c.seal(c.mac(R.KEK_LABEL, c.agree(eph, pub)), nonce, [], dk)) == None
    ensures Attempt(c, f, MasterCode(code), hmacKey, now) == Outcome(Err(Other), f)
  {
    hide FromBytes, R.IsEnrolled, Decoded;
    FieldsTile(c, f[..HEADER_LEN], hmacKey);
    var wrap := Parse(c, f, hmacKey).value.wrappedDkMk;
    var boxed := c.seal(c.mac(R.KEK_LABEL, c.agree(eph, pub)), nonce, [], dk);
    assert wrap[..32] == c.public(eph) && wrap[32..] == nonce + boxed;
    assert (nonce + boxed)[..12] == nonce && (nonce + boxed)[12..] == boxed;
  }

  /** A password whose derived key does not open the wrap is refused: it is recorded, or the lockout
      turns it away. */
  lemma OtherPasswordRefused(c: Primitives, f: bytes, password: bytes, kek: bytes, nonce: bytes, dk: bytes, hmacKey: bytes, now: u64)
    requires c.IdealHashes() && Parse(c, f, hmacKey).Ok? && |nonce| == 12
    requires var h := Parse(c, f, hmacKey).value;
             && h.wrappedDkPw == nonce + c.seal(kek, nonce, [], dk)
             && c.open(c.argon2(password, h.salt, h.kdf), nonce, [], c.seal(kek, nonce, [], dk)) == None
             && h.kdf.Validate()
    ensures Attempt(c, f, Password(password), hmacKey, now).result.Err?
    ensures Permits(Parse(c, f, hmacKey).value.lockout, now) <==> Records(c, f, Try(Password(password), now), hmacKey)
  {
    hide FromBytes, Rewritten, AfterFailure, FailureError;
    FieldsTile(c, f[..HEADER_LEN], hmacKey);
    var w := Parse(c, f, hmacKey).value.wrappedDkPw;
    assert w[..12] == nonce && w[12..] == c.seal(kek, nonce, [], dk);
  }

  /** While a deadline runs every password is turned away with it, the right one too, and nothing is
      written. */
  lemma LockedOutMeansOut(c: Primitives, f: bytes, password: bytes, hmacKey: bytes, now: u64)
    requires c.IdealHashes() && Parse(c, f, hmacKey).Ok? && now < Parse(c, f, hmacKey).value.lockout.lockedUntil
    ensures Attempt(c, f, Password(password), hmacKey, now)
            == Outcome(Err(LockedOut(Parse(c, f, hmacKey).value.lockout.lockedUntil)), f)
  {
    hide FromBytes;
    FieldsTile(c, f[..HEADER_LEN], hmacKey);
  }

  /** Key-derivation parameters outside 1 MiB to 1 GiB of memory, 1 to 16 passes or 1 to 16 lanes are
      taken for tampering, and those inside, the default among them, are not. */
  lemma ParametersAreBounded(c: Primitives, f: bytes, password: bytes, hmacKey: bytes, now: u64)
    requires c.IdealHashes() && Parse(c, f, hmacKey).Ok? && Permits(Parse(c, f, hmacKey).value.lockout, now)
    ensures var q := Parse(c, f, hmacKey).value.kdf;
            Attempt(c, f, Password(password), hmacKey, now).result == Err(Tampered)
            <==> !(1024 <= q.mCostKib <= 1048576 && 1 <= q.tCost <= 16 && 1 <= q.lanes <= 16)
    ensures var q := Parse(c, f, hmacKey).value.kdf;
            Attempt(c, f, Password(password), hmacKey, now).result == Err(Tampered)
            ==> q != KdfParams(65536, 3, 4) && Attempt(c, f, Password(password), hmacKey, now).file == f
  {
    hide FromBytes, Rewritten, AfterFailure, UnwrapKey;
    FieldsTile(c, f[..HEADER_LEN], hmacKey);
  }

  /** What is surfaced along a run without success from a clean authentic header: after n recorded
      wrong passwords the next one counts down from three and every third one names the new deadline. */
  lemma CountdownOnFile(c: Primitives, f: bytes, tries: seq<Try>, hmacKey: bytes, t: Try)
    requires c.IdealHashes() && Parse(c, f, hmacKey).Ok? && AllFail(c, f, tries, hmacKey) && ClockRunsOn(tries)
    requires Parse(c, f, hmacKey).value.hmacOk && Parse(c, f, hmacKey).value.lockout == Counters(0, 0)
    requires Records(c, AfterTries(c, f, tries, hmacKey), t, hmacKey) && t.now < 0x1_0000_0000_0000_0000 - 86400
    ensures var n := (|Recorded(c, f, tries, hmacKey)| + 1) % 3;
            Attempt(c, AfterTries(c, f, tries, hmacKey), t.cred, hmacKey, t.now).result
            == Err(if n == 0 then LockedOut(t.now + 86400) else WrongPassword(3 - n))
  {
    hide FromBytes, AllFail, AfterTries, Recorded, FailureError, AfterFailure, Attempt;
    CountersFollow(c, f, tries, hmacKey);
    RecordedTimes(c, f, tries, hmacKey);
    var g := AfterTries(c, f, tries, hmacKey);
    assert Clamped(Parse(c, g, hmacKey).value) == Parse(c, g, hmacKey).value;
    ErrorAfterFailures(Recorded(c, f, tries, hmacKey), t.now);
    RecordedError(c, g, t, hmacKey);
  }

  lemma RecordedError(c: Primitives, g: bytes, t: Try, hmacKey: bytes)
    requires c.IdealHashes() && Records(c, g, t, hmacKey)
    ensures Attempt(c, g, t.cred, hmacKey, t.now).result
            == Err(FailureError(Clamped(Parse(c, g, hmacKey).value).lockout, t.now))
  {
    hide FromBytes, FailureError, AfterFailure, Rewritten, Permits;
    FieldsTile(c, g[..HEADER_LEN], hmacKey);
  }
}
