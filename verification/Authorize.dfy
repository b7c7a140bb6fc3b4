/**
 * Opening a container with a credential (open_and_authorize in format.rs): the persisted lockout
 * machine over the header bytes, and what any run of attempts leaves intact.
 */
module Authorize {
  import opened Bytes
  import opened Entries
  import opened Crypto
  import opened Lockout
  import opened Header
  import opened Container
  import opened ContainerFile
  import R = RecoveryCodeProofs

  datatype Credential = Password(password: bytes) | MasterCode(code: string)

  datatype Access = Access(header: Header, dk: bytes)

  /** What the caller gets, and the file as the attempt leaves it. */
  datatype Outcome = Outcome(result: Result<Access>, file: bytes)

  /** Lockout fields under a bad MAC are not believed: one attempt is left. */
  function Clamped(h: Header): Header {
    if !h.hmacOk && h.lockout.failCount < MAX_ATTEMPTS - 1
    then h.(lockout := Counters(MAX_ATTEMPTS - 1, h.lockout.lockedUntil))
    else h
  }

  /** `rewrite_header` */
  function Rewritten(c: Primitives, f: bytes, h: Header, hmacKey: bytes): bytes
    requires |f| >= HEADER_LEN
  {
    ToBytes(c, h, hmacKey) + f[HEADER_LEN..]
  }

  /** The credential was right: clear the counters unless they are clear and authentic. */
  function Granted(c: Primitives, f: bytes, h: Header, dk: bytes, hmacKey: bytes): Outcome
    requires |f| >= HEADER_LEN
  {
    if h.lockout != UNLOCKED || !h.hmacOk then
      var h' := h.(lockout := UNLOCKED);
      Outcome(Ok(Access(h', dk)), Rewritten(c, f, h', hmacKey))
    else Outcome(Ok(Access(h, dk)), f)
  }

  function ByPassword(c: Primitives, f: bytes, h: Header, password: bytes, hmacKey: bytes, now: u64): Outcome
    requires |f| >= HEADER_LEN && h.Valid()
  {
    if !Permits(h.lockout, now) then Outcome(Err(LockedOut(h.lockout.lockedUntil)), f)
    else
      match DeriveKek(c, password, h.salt, h.kdf)
      case Err(e) => Outcome(Err(e), f)
      case Ok(kek) =>
        match UnwrapKey(c, kek, h.wrappedDkPw)
        case Some(dk) => Granted(c, f, h, dk, hmacKey)
        case None =>
          Outcome(Err(FailureError(h.lockout, now)),
                  Rewritten(c, f, h.(lockout := AfterFailure(h.lockout, now)), hmacKey))
  }

  ghost function ByCode(c: Primitives, f: bytes, h: Header, code: string, hmacKey: bytes): Outcome
    requires c.IdealHashes() && |f| >= HEADER_LEN && h.Valid()
  {
    if !R.IsEnrolled(h.wrappedDkMk) then Outcome(Err(Other), f)
    else
      match R.OpenedDk(c, code, h.wrappedDkMk)
      case None => Outcome(Err(Other), f)
      case Some(dk) => Granted(c, f, h, dk, hmacKey)
  }

  ghost function Attempt(c: Primitives, f: bytes, cred: Credential, hmacKey: bytes, now: u64): Outcome
    requires c.IdealHashes()
  {
    match Parse(c, f, hmacKey)
    case Err(e) => Outcome(Err(e), f)
    case Ok(h) =>
      match cred
      case Password(pw) => ByPassword(c, f, Clamped(h), pw, hmacKey, now)
      case MasterCode(code) => ByCode(c, f, Clamped(h), code, hmacKey)
  }

  /** The container on disk: its bytes and its read-only attribute. */
  class ContainerOnDisk {
    var data: bytes
    var readonly: bool

    constructor (f: bytes)
      ensures data == f && !readonly
    {
      data, readonly := f, false;
    }

    method RewriteHeader(c: Primitives, h: Header, hmacKey: bytes)
      requires c.IdealHashes() && h.Valid() && |data| >= HEADER_LEN
      modifies this
      ensures data == Rewritten(c, old(data), h, hmacKey) && readonly == old(readonly)
    {
      var hb := FillHeader(c, h, hmacKey);
      data := hb[..] + data[HEADER_LEN..];
    }

    /** The guard is lifted on entry. Wrong passwords, lockouts and bad or missing codes put it
        back; an unreadable header and bad key-derivation parameters do not. */
    method OpenAndAuthorize(c: Primitives, cred: Credential, hmacKey: bytes, now: u64)
      returns (r: Result<Access>, wasReadonly: bool)
      requires c.IdealHashes()
      modifies this
      ensures Outcome(r, data) == Attempt(c, old(data), cred, hmacKey, now)
      ensures wasReadonly == old(readonly)
      ensures readonly == (old(readonly) && r.Err? && Parse(c, old(data), hmacKey).Ok?
                           && !(r.error.Tampered? && !Parse(c, old(data), hmacKey).value.kdf.Validate()))
    {
      hide FromBytes, ToBytes, FailureError, AfterFailure;
      wasReadonly := readonly;
      readonly := false;
      if |data| < HEADER_LEN {
        return Err(Io), wasReadonly;
      }
      var parsed := FromBytes(c, data[..HEADER_LEN], hmacKey);
      if parsed.Err? {
        return Err(parsed.error), wasReadonly;
      }
      FieldsTile(c, data[..HEADER_LEN], hmacKey);
      var h := parsed.value;
      if !h.hmacOk && h.lockout.failCount < MAX_ATTEMPTS - 1 {
        h := h.(lockout := Counters(MAX_ATTEMPTS - 1, h.lockout.lockedUntil));
      }
      var lockout := new LockoutState(h.lockout);
      var dk: bytes;
      match cred {
        case Password(pw) =>
          var allowed := lockout.Check(now);
          if allowed.Err? {
            readonly := wasReadonly;
            return Err(allowed.error), wasReadonly;
          }
          var kek := DeriveKek(c, pw, h.salt, h.kdf);
          if kek.Err? {
            return Err(kek.error), wasReadonly;
          }
          var key := UnwrapKey(c, kek.value, h.wrappedDkPw);
          if key.None? {
            var e := lockout.RecordFailure(now);
            RewriteHeader(c, h.(lockout := lockout.State()), hmacKey);
            readonly := wasReadonly;
            return Err(e), wasReadonly;
          }
          dk := key.value;
        case MasterCode(code) =>
          var enrolled := FindNonZero(h.wrappedDkMk);
          if !enrolled {
            readonly := wasReadonly;
            return Err(Other), wasReadonly;
          }
          var key := R.OpenDk(c, code, h.wrappedDkMk);
          if key.None? {
            readonly := wasReadonly;
            return Err(Other), wasReadonly;
          }
          dk := key.value;
      }
      if lockout.State() != UNLOCKED || !h.hmacOk {
        lockout.Reset();
        h := h.(lockout := lockout.State());
        RewriteHeader(c, h, hmacKey);
      }
      r := Ok(Access(h, dk));
    }
  }

  method FindNonZero(wrap: bytes) returns (found: bool)
    ensures found <==> R.IsEnrolled(wrap)
  {
    var i := 0;
    while i < |wrap|
      invariant 0 <= i <= |wrap| && forall j :: 0 <= j < i ==> wrap[j] == 0
    {
      if wrap[i] != 0 {
        return true;
      }
      i := i + 1;
    }
    return false;
  }

  // ----- what every attempt keeps -----

  /** Same length, same body, same key material and totals. */
  ghost predicate SameVault(c: Primitives, f: bytes, g: bytes, hmacKey: bytes) {
    && |f| == |g| && Parse(c, f, hmacKey).Ok? && Parse(c, g, hmacKey).Ok?
    && f[HEADER_LEN..] == g[HEADER_LEN..]
    && Parse(c, g, hmacKey).value.SameMaterial(Parse(c, f, hmacKey).value)
  }

  lemma RewriteKeepsVault(c: Primitives, f: bytes, s: Counters, hmacKey: bytes)
    requires c.IdealHashes() && Parse(c, f, hmacKey).Ok?
    ensures var h := Parse(c, f, hmacKey).value.(lockout := s);
            var g := Rewritten(c, f, h, hmacKey);
            && h.Valid() && SameVault(c, f, g, hmacKey)
            && Parse(c, g, hmacKey) == Ok(h.(hmacOk := true))
  {
    var h := Parse(c, f, hmacKey).value.(lockout := s);
    FieldsTile(c, f[..HEADER_LEN], hmacKey);
    ParseOfPrint(c, h, hmacKey);
    var g := Rewritten(c, f, h, hmacKey);
    assert g[..HEADER_LEN] == ToBytes(c, h, hmacKey);
  }

  /** A file is left alone or has its counters rewritten, to nothing or by a failure. */
  lemma AttemptEffect(c: Primitives, f: bytes, cred: Credential, hmacKey: bytes, now: u64)
    requires c.IdealHashes() && Parse(c, f, hmacKey).Ok?
    ensures var h := Parse(c, f, hmacKey).value;
            var g := Attempt(c, f, cred, hmacKey, now).file;
            || g == f
            || g == Rewritten(c, f, h.(lockout := UNLOCKED), hmacKey)
            || (Permits(h.lockout, now)
                && g == Rewritten(c, f, h.(lockout := AfterFailure(Clamped(h).lockout, now)), hmacKey))
  {
    hide Rewritten, AfterFailure, FromBytes;
    var h := Parse(c, f, hmacKey).value;
    assert Clamped(h).(lockout := UNLOCKED) == h.(lockout := UNLOCKED);
    assert Clamped(h).(lockout := AfterFailure(Clamped(h).lockout, now)) == h.(lockout := AfterFailure(Clamped(h).lockout, now));
  }

  lemma AttemptKeepsVault(c: Primitives, f: bytes, cred: Credential, hmacKey: bytes, now: u64)
    requires c.IdealHashes() && Parse(c, f, hmacKey).Ok?
    ensures SameVault(c, f, Attempt(c, f, cred, hmacKey, now).file, hmacKey)
  {
    hide Attempt, FromBytes, ToBytes;
    var h := Parse(c, f, hmacKey).value;
    AttemptEffect(c, f, cred, hmacKey, now);
    RewriteKeepsVault(c, f, UNLOCKED, hmacKey);
    RewriteKeepsVault(c, f, AfterFailure(Clamped(h).lockout, now), hmacKey);
  }

  /** The header rewrite of an attempt, interrupted after k bytes. */
  ghost function TornAttempt(c: Primitives, f: bytes, cred: Credential, hmacKey: bytes, now: u64, k: nat): bytes
    requires c.IdealHashes() && k <= HEADER_LEN
  {
    var g := Attempt(c, f, cred, hmacKey, now).file;
    if |g| == |f| && |f| >= HEADER_LEN then Torn(g[..HEADER_LEN], f[..HEADER_LEN], k) + f[HEADER_LEN..] else f
  }

  lemma TornRewriteKeepsVault(c: Primitives, f: bytes, s: Counters, hmacKey: bytes, k: nat)
    requires c.IdealHashes() && Parse(c, f, hmacKey).Ok? && k <= HEADER_LEN
    requires Parse(c, f, hmacKey).value.lockout.lockedUntil == 0 || s.lockedUntil == 0
    ensures var h := Parse(c, f, hmacKey).value;
            var new_ := ToBytes(c, h.(lockout := s), hmacKey);
            && |new_| == HEADER_LEN
            && var t := Torn(new_, f[..HEADER_LEN], k) + f[HEADER_LEN..];
            && SameVault(c, f, t, hmacKey)
            && (Parse(c, t, hmacKey).value.lockout.lockedUntil <= h.lockout.lockedUntil
                || Parse(c, t, hmacKey).value.lockout.lockedUntil <= s.lockedUntil)
  {
    hide FromBytes, ToBytes, Torn;
    var h := Parse(c, f, hmacKey).value;
    TornRewriteKeepsMaterial(c, f[..HEADER_LEN], s, hmacKey, k);
    TornLength(ToBytes(c, h.(lockout := s), hmacKey), f[..HEADER_LEN], k);
    var t := Torn(ToBytes(c, h.(lockout := s), hmacKey), f[..HEADER_LEN], k) + f[HEADER_LEN..];
    assert t[..HEADER_LEN] == Torn(ToBytes(c, h.(lockout := s), hmacKey), f[..HEADER_LEN], k);
    assert t[HEADER_LEN..] == f[HEADER_LEN..];
  }

  lemma TornLength(a: bytes, b: bytes, k: nat)
    requires |a| == |b| && k <= |a|
    ensures |Torn(a, b, k)| == |a|
  {
  }

  /** A crash at any byte of the rewrite leaves the vault whole, and no later deadline than one of
      the two versions had: no rewrite ever replaces a running deadline by another. */
  lemma TornAttemptKeepsVault(c: Primitives, f: bytes, cred: Credential, hmacKey: bytes, now: u64, k: nat)
    requires c.IdealHashes() && Parse(c, f, hmacKey).Ok? && k <= HEADER_LEN
    ensures var t := TornAttempt(c, f, cred, hmacKey, now, k);
            var g := Attempt(c, f, cred, hmacKey, now).file;
            && SameVault(c, f, t, hmacKey) && Parse(c, g, hmacKey).Ok?
            && (Parse(c, t, hmacKey).value.lockout.lockedUntil <= Parse(c, f, hmacKey).value.lockout.lockedUntil
                || Parse(c, t, hmacKey).value.lockout.lockedUntil <= Parse(c, g, hmacKey).value.lockout.lockedUntil)
  {
    hide Attempt, FromBytes, ToBytes;
    var h := Parse(c, f, hmacKey).value;
    var g := Attempt(c, f, cred, hmacKey, now).file;
    var s := AfterFailure(Clamped(h).lockout, now);
    AttemptEffect(c, f, cred, hmacKey, now);
    if g == f {
      assert Torn(f[..HEADER_LEN], f[..HEADER_LEN], k) == f[..HEADER_LEN];
      assert f[..HEADER_LEN] + f[HEADER_LEN..] == f;
    } else if g == Rewritten(c, f, h.(lockout := UNLOCKED), hmacKey) {
      RewriteKeepsVault(c, f, UNLOCKED, hmacKey);
      TornRewriteKeepsVault(c, f, UNLOCKED, hmacKey, k);
      assert g[..HEADER_LEN] == ToBytes(c, h.(lockout := UNLOCKED), hmacKey);
    } else {
      FailureNeverMovesADeadline(Clamped(h).lockout, now);
      RewriteKeepsVault(c, f, s, hmacKey);
      TornRewriteKeepsVault(c, f, s, hmacKey, k);
      assert g[..HEADER_LEN] == ToBytes(c, h.(lockout := s), hmacKey);
    }
  }

  /** The vault's contents for both kinds of credential depend on nothing an attempt changes. */
  lemma SameVaultSameContents(c: Primitives, f: bytes, g: bytes, hmacKey: bytes)
    requires SameVault(c, f, g, hmacKey)
    ensures forall pw :: KeyOf(c, g, pw) == KeyOf(c, f, pw)
    ensures forall dk :: TreeIn(c, g, dk) == TreeIn(c, f, dk)
    ensures forall pw, t :: Decodes(c, g, pw, t) <==> Decodes(c, f, pw, t)
  {
  }
}
