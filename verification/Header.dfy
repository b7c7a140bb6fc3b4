/** The 268-byte container header: its codec and the effect of a torn in-place rewrite. */
module Header {
  import opened Bytes
  import opened Crypto
  import opened Lockout

  const HEADER_LEN: nat := 268
  const HMAC_OFFSET: nat := 236
  const MAGIC: bytes := [0x46, 0x56, 0x4C, 0x54]
  const VERSION: u32 := 1

  datatype Header = Header(
    uuid: bytes,
    salt: bytes,
    kdf: KdfParams,
    wrappedDkPw: bytes,
    wrappedDkMk: bytes,
    lockout: Counters,
    entryCount: u64,
    payloadLen: u64,
    hmacOk: bool
  ) {
    /** The widths of the fixed-size arrays. */
    predicate Valid() {
      && |uuid| == 16 && |salt| == 16
      && |wrappedDkPw| == WRAPPED_KEY_LEN && |wrappedDkMk| == MASTER_WRAP_LEN
    }

    /** Everything but the lockout counters and the MAC verdict. */
    predicate SameMaterial(h: Header) {
      && uuid == h.uuid && salt == h.salt && kdf == h.kdf
      && wrappedDkPw == h.wrappedDkPw && wrappedDkMk == h.wrappedDkMk
      && entryCount == h.entryCount && payloadLen == h.payloadLen
    }
  }

  /** Bytes 0..204: the fields no rewrite changes. */
  function Front(h: Header): bytes {
    MAGIC + LE(VERSION, 4) + h.uuid + h.salt + LE(h.kdf.mCostKib, 4) + LE(h.kdf.tCost, 4)
    + LE(h.kdf.lanes, 4) + h.wrappedDkPw + h.wrappedDkMk
  }

  /** Bytes 204..236: the counters, four reserved zero bytes between them, and the totals. */
  function Back(h: Header): bytes {
    LE(h.lockout.failCount, 4) + Zeros(4) + LE(h.lockout.lockedUntil, 8)
    + LE(h.entryCount, 8) + LE(h.payloadLen, 8)
  }

  function ToBytes(c: Primitives, h: Header, hmacKey: bytes): bytes {
    Front(h) + Back(h) + c.mac(hmacKey, Front(h) + Back(h))
  }

  function FromBytes(c: Primitives, b: bytes, hmacKey: bytes): Result<Header>
    requires |b| == HEADER_LEN
  {
    if b[0..4] != MAGIC then Err(BadMagic)
    else if ReadU32(b[4..8]) != VERSION then Err(BadVersion(ReadU32(b[4..8])))
    else Ok(Header(
      b[8..24],
      b[24..40],
      KdfParams(ReadU32(b[40..44]), ReadU32(b[44..48]), ReadU32(b[48..52])),
      b[52..112],
      b[112..204],
      Counters(ReadU32(b[204..208]), ReadU64(b[212..220])),
      ReadU64(b[220..228]),
      ReadU64(b[228..236]),
      b[HMAC_OFFSET..] == c.mac(hmacKey, b[..HMAC_OFFSET])
    ))
  }

  lemma FrontParts(m: bytes, v: bytes, u: bytes, s: bytes, k0: bytes, k1: bytes, k2: bytes, pw: bytes, mk: bytes)
    requires |m| == 4 && |v| == 4 && |u| == 16 && |s| == 16
    requires |k0| == 4 && |k1| == 4 && |k2| == 4 && |pw| == 60 && |mk| == 92
    ensures var f := m + v + u + s + k0 + k1 + k2 + pw + mk;
            && |f| == 204 && f[0..4] == m && f[4..8] == v && f[8..24] == u && f[24..40] == s
            && f[40..44] == k0 && f[44..48] == k1 && f[48..52] == k2
            && f[52..112] == pw && f[112..204] == mk
  {
  }

  lemma BackParts(n: bytes, z: bytes, l: bytes, e: bytes, p: bytes)
    requires |n| == 4 && |z| == 4 && |l| == 8 && |e| == 8 && |p| == 8
    ensures var f := n + z + l + e + p;
            && |f| == 32 && f[0..4] == n && f[4..8] == z && f[8..16] == l && f[16..24] == e && f[24..32] == p
  {
  }

  /** A header's bytes, by position. */
  lemma Layout(c: Primitives, h: Header, hmacKey: bytes)
    requires c.IdealHashes() && h.Valid()
    ensures var b := ToBytes(c, h, hmacKey);
            && |b| == HEADER_LEN && b[0..4] == MAGIC && b[4..8] == LE(VERSION, 4)
            && b[8..24] == h.uuid && b[24..40] == h.salt && b[40..44] == LE(h.kdf.mCostKib, 4)
            && b[44..48] == LE(h.kdf.tCost, 4) && b[48..52] == LE(h.kdf.lanes, 4)
            && b[52..112] == h.wrappedDkPw && b[112..204] == h.wrappedDkMk
            && b[204..208] == LE(h.lockout.failCount, 4) && b[208..212] == Zeros(4)
            && b[212..220] == LE(h.lockout.lockedUntil, 8)
            && b[220..228] == LE(h.entryCount, 8) && b[228..236] == LE(h.payloadLen, 8)
            && b[..HMAC_OFFSET] == Front(h) + Back(h)
            && b[HMAC_OFFSET..] == c.mac(hmacKey, Front(h) + Back(h))
  {
    FrontParts(MAGIC, LE(VERSION, 4), h.uuid, h.salt, LE(h.kdf.mCostKib, 4), LE(h.kdf.tCost, 4),
               LE(h.kdf.lanes, 4), h.wrappedDkPw, h.wrappedDkMk);
    BackParts(LE(h.lockout.failCount, 4), Zeros(4), LE(h.lockout.lockedUntil, 8),
              LE(h.entryCount, 8), LE(h.payloadLen, 8));
    Shift(Front(h), Back(h), c.mac(hmacKey, Front(h) + Back(h)));
  }

  /** Slices of a concatenation are slices of its parts. */
  lemma Shift(f: bytes, g: bytes, m: bytes)
    requires |f| == 204 && |g| == 32 && |m| == 32
    ensures var b := f + g + m;
            && |b| == 268 && b[..236] == f + g && b[236..] == m
            && (forall i, j :: 0 <= i <= j <= 204 ==> b[i..j] == f[i..j])
            && (forall i, j :: 0 <= i <= j <= 32 ==> b[204 + i..204 + j] == g[i..j])
  {
  }

  /** Reading back what was written restores every field and finds the MAC good. */
  lemma ParseOfPrint(c: Primitives, h: Header, hmacKey: bytes)
    requires c.IdealHashes() && h.Valid()
    ensures |ToBytes(c, h, hmacKey)| == HEADER_LEN
    ensures FromBytes(c, ToBytes(c, h, hmacKey), hmacKey) == Ok(h.(hmacOk := true))
  {
    Layout(c, h, hmacKey);
    U32RoundTrip(VERSION);
    U32RoundTrip(h.kdf.mCostKib);
    U32RoundTrip(h.kdf.tCost);
    U32RoundTrip(h.kdf.lanes);
    U32RoundTrip(h.lockout.failCount);
    U64RoundTrip(h.lockout.lockedUntil);
    U64RoundTrip(h.entryCount);
    U64RoundTrip(h.payloadLen);
  }

  /** Bytes 0..204 are a function of the parsed fields, and so are bytes 212..236. */
  lemma FieldsTile(c: Primitives, b: bytes, hmacKey: bytes)
    requires |b| == HEADER_LEN && FromBytes(c, b, hmacKey).Ok?
    ensures var h := FromBytes(c, b, hmacKey).value;
            h.Valid() && Front(h) == b[..204]
            && LE(h.lockout.failCount, 4) == b[204..208] && LE(h.lockout.lockedUntil, 8) == b[212..220]
            && LE(h.entryCount, 8) == b[220..228] && LE(h.payloadLen, 8) == b[228..236]
  {
    LEOfFromLE(b[4..8]);
    LEOfFromLE(b[40..44]);
    LEOfFromLE(b[44..48]);
    LEOfFromLE(b[48..52]);
    LEOfFromLE(b[204..208]);
    LEOfFromLE(b[212..220]);
    LEOfFromLE(b[220..228]);
    LEOfFromLE(b[228..236]);
    assert b[..204] == b[0..4] + b[4..8] + b[8..24] + b[24..40] + b[40..44] + b[44..48] + b[48..52] + b[52..112]
                       + b[112..204];
  }

  /** Writing back what was read gives the same bytes exactly when the MAC was good and the
      reserved bytes are zero. */
  lemma PrintOfParse(c: Primitives, b: bytes, hmacKey: bytes)
    requires c.IdealHashes() && |b| == HEADER_LEN && FromBytes(c, b, hmacKey).Ok?
    ensures var h := FromBytes(c, b, hmacKey).value;
            ToBytes(c, h, hmacKey) == b <==> h.hmacOk && b[208..212] == Zeros(4)
  {
    var h := FromBytes(c, b, hmacKey).value;
    FieldsTile(c, b, hmacKey);
    Layout(c, h, hmacKey);
    Reassemble(b);
  }

  lemma Reassemble(b: bytes)
    requires |b| == HEADER_LEN
    ensures b[..HMAC_OFFSET]
            == b[..204] + (b[204..208] + b[208..212] + b[212..220] + b[220..228] + b[228..236])
    ensures b == b[..HMAC_OFFSET] + b[HMAC_OFFSET..]
  {
  }

  /** One altered byte: in the first four it is another format, in the next four another version, in the
      MAC it is a bad MAC, and anywhere else the MAC is still good only if the two texts collide. */
  lemma AlteredByte(c: Primitives, h: Header, hmacKey: bytes, i: nat, x: byte)
    requires c.IdealHashes() && h.Valid() && i < 268
    requires |ToBytes(c, h, hmacKey)| == 268 && x != ToBytes(c, h, hmacKey)[i]
    ensures var b := ToBytes(c, h, hmacKey);
            var r := FromBytes(c, b[i := x], hmacKey);
            && (i < 4 ==> r == Err(BadMagic))
            && (4 <= i < 8 ==> r.Err? && r.error.BadVersion? && r.error.version != 1)
            && (i >= 8 ==> r.Ok?)
            && (i >= 236 ==> !r.value.hmacOk)
            && (8 <= i < 236 ==> (r.value.hmacOk <==> c.mac(hmacKey, b[i := x][..236]) == c.mac(hmacKey, b[..236])))
  {
    hide ToBytes;
    var b := ToBytes(c, h, hmacKey);
    var t := b[i := x];
    Layout(c, h, hmacKey);
    U32RoundTrip(VERSION);
    if i < 4 {
      assert t[0..4][i] == x && b[0..4][i] == b[i];
    } else if i < 8 {
      assert t[0..4] == b[0..4];
      assert t[4..8][i - 4] == x && b[4..8][i - 4] == b[i];
      LEOfFromLE(t[4..8]);
    } else {
      assert t[0..4] == b[0..4] && t[4..8] == b[4..8];
      if i < HMAC_OFFSET {
        assert t[HMAC_OFFSET..] == b[HMAC_OFFSET..];
      } else {
        assert t[..HMAC_OFFSET] == b[..HMAC_OFFSET];
        assert t[HMAC_OFFSET..][i - HMAC_OFFSET] == x && b[HMAC_OFFSET..][i - HMAC_OFFSET] == b[i];
      }
    }
  }

  /** The magic bytes spell FVLT. */
  lemma MagicText()
    ensures var text := "FVLT";
            |MAGIC| == |text| && forall i :: 0 <= i < |text| ==> MAGIC[i] == text[i] as int
  {
  }

  /** A rewrite interrupted after k bytes. */
  function Torn(new_: bytes, old_: bytes, k: nat): bytes
    requires |new_| == |old_| && k <= |new_|
  {
    new_[..k] + old_[k..]
  }

  /** Tearing between a value and zero gives at most that value. */
  lemma TornValue(a: bytes, b: bytes, j: nat)
    requires |a| == |b| && j <= |a|
    requires FromLE(a) == 0 || FromLE(b) == 0
    ensures FromLE(Torn(a, b, j)) <= FromLE(a) || FromLE(Torn(a, b, j)) <= FromLE(b)
  {
    hide FromLE, Pow256;
    FromLEConcat(a[..j], b[j..]);
    FromLEConcat(a[..j], a[j..]);
    FromLEConcat(b[..j], b[j..]);
    assert a == a[..j] + a[j..] && b == b[..j] + b[j..];
    var p := Pow256(j);
    NonNegative(p, FromLE(a[j..]));
    NonNegative(p, FromLE(b[j..]));
    if FromLE(b) == 0 {
      ZeroFactor(p, FromLE(b[j..]));
    }
  }

  lemma NonNegative(p: nat, x: nat)
    ensures p * x >= 0
  {
  }

  lemma ZeroFactor(p: nat, x: nat)
    requires p > 0 && p * x == 0
    ensures x == 0
  {
  }

  lemma TornSlice(a: bytes, b: bytes, k: nat, i: nat, j: nat)
    requires |a| == |b| && k <= |a| && i <= j <= |a|
    ensures var m := if k <= i then 0 else if k >= j then j - i else k - i;
            Torn(a, b, k)[i..j] == Torn(a[i..j], b[i..j], m)
  {
    var m := if k <= i then 0 else if k >= j then j - i else k - i;
    var x, y := Torn(a, b, k)[i..j], Torn(a[i..j], b[i..j], m);
    forall n | 0 <= n < j - i ensures x[n] == y[n] {
      TornAt(a, b, k, i + n);
      TornAt(a[i..j], b[i..j], m, n);
    }
  }

  lemma TornAt(a: bytes, b: bytes, k: nat, i: nat)
    requires |a| == |b| && k <= |a| && i < |a|
    ensures |Torn(a, b, k)| == |a| && Torn(a, b, k)[i] == if i < k then a[i] else b[i]
  {
  }

  /** Where both versions agree, so does every torn one. */
  lemma TornAgree(a: bytes, b: bytes, k: nat, i: nat, j: nat)
    requires |a| == |b| && k <= |a| && i <= j <= |a| && a[i..j] == b[i..j]
    ensures Torn(a, b, k)[i..j] == a[i..j]
  {
  }

  /** A rewrite of the counters torn at any byte leaves all key material and totals readable, and
      its deadline is no later than the later of the two versions. */
  lemma TornRewriteKeepsMaterial(c: Primitives, old_: bytes, s: Counters, hmacKey: bytes, k: nat)
    requires c.IdealHashes() && |old_| == HEADER_LEN && k <= HEADER_LEN
    requires FromBytes(c, old_, hmacKey).Ok?
    requires var h := FromBytes(c, old_, hmacKey).value; h.lockout.lockedUntil == 0 || s.lockedUntil == 0
    ensures var h := FromBytes(c, old_, hmacKey).value;
            var new_ := ToBytes(c, h.(lockout := s), hmacKey);
            && |new_| == HEADER_LEN && h.Valid()
            && var r := FromBytes(c, Torn(new_, old_, k), hmacKey);
            && r.Ok? && r.value.SameMaterial(h)
            && (r.value.lockout.lockedUntil <= h.lockout.lockedUntil
                || r.value.lockout.lockedUntil <= s.lockedUntil)
  {
    var h := FromBytes(c, old_, hmacKey).value;
    FieldsTile(c, old_, hmacKey);
    var h' := h.(lockout := s);
    assert Front(h') == Front(h);
    Layout(c, h', hmacKey);
    var new_ := ToBytes(c, h', hmacKey);
    assert new_[0..204] == old_[0..204] by {
      assert new_[0..204] == (Front(h') + Back(h'))[..204] == Front(h');
    }
    TornFields(c, new_, old_, hmacKey, k);
    U64RoundTrip(s.lockedUntil);
    TornSlice(new_, old_, k, 212, 220);
    var m := if k <= 212 then 0 else if k >= 220 then 8 else k - 212;
    TornValue(new_[212..220], old_[212..220], m);
  }

  lemma SliceOfSlice(s: bytes, n: nat, i: nat, j: nat)
    requires i <= j <= n <= |s|
    ensures s[0..n][i..j] == s[i..j]
  {
  }

  lemma TornFields(c: Primitives, new_: bytes, old_: bytes, hmacKey: bytes, k: nat)
    requires |old_| == |new_| == HEADER_LEN && k <= HEADER_LEN
    requires FromBytes(c, old_, hmacKey).Ok?
    requires new_[0..204] == old_[0..204] && new_[220..228] == old_[220..228] && new_[228..236] == old_[228..236]
    ensures var r := FromBytes(c, Torn(new_, old_, k), hmacKey);
            r.Ok? && r.value.SameMaterial(FromBytes(c, old_, hmacKey).value)
  {
    var t := Torn(new_, old_, k);
    TornAgree(new_, old_, k, 0, 204);
    assert t[0..204] == old_[0..204];
    forall i, j | 0 <= i <= j <= 204 ensures t[i..j] == old_[i..j] {
      SliceOfSlice(t, 204, i, j);
      SliceOfSlice(old_, 204, i, j);
    }
    TornAgree(new_, old_, k, 220, 228);
    TornAgree(new_, old_, k, 228, 236);
  }

  /** Copying the next field, for a buffer that holds a prefix and zeros after it. */
  method Fill(b: array<byte>, ghost done: bytes, off: nat, src: bytes)
    requires off == |done| && off + |src| <= b.Length
    requires b[..] == done + Zeros(b.Length - off)
    modifies b
    ensures b[..] == done + src + Zeros(b.Length - off - |src|)
  {
    ghost var was := b[..];
    assert was[..off] == done && was[off + |src|..] == Zeros(b.Length - off - |src|);
    CopyInto(b, off, src);
  }

  method FillFront(b: array<byte>, m: bytes, v: bytes, u: bytes, s: bytes, k0: bytes, k1: bytes, k2: bytes,
                   pw: bytes, mk: bytes)
    requires |m| == 4 && |v| == 4 && |u| == 16 && |s| == 16
    requires |k0| == 4 && |k1| == 4 && |k2| == 4 && |pw| == 60 && |mk| == 92
    requires b.Length == HEADER_LEN && b[..] == Zeros(HEADER_LEN)
    modifies b
    ensures b[..] == m + v + u + s + k0 + k1 + k2 + pw + mk + Zeros(64)
  {
    assert b[..] == [] + Zeros(HEADER_LEN);
    Fill(b, [], 0, m);
    Fill(b, [] + m, 4, v);
    Fill(b, [] + m + v, 8, u);
    Fill(b, [] + m + v + u, 24, s);
    Fill(b, [] + m + v + u + s, 40, k0);
    Fill(b, [] + m + v + u + s + k0, 44, k1);
    Fill(b, [] + m + v + u + s + k0 + k1, 48, k2);
    Fill(b, [] + m + v + u + s + k0 + k1 + k2, 52, pw);
    Fill(b, [] + m + v + u + s + k0 + k1 + k2 + pw, 112, mk);
    assert [] + m == m;
  }

  /** Bytes 208..212 are reserved and stay zero. */
  method FillBack(b: array<byte>, ghost front: bytes, n: bytes, l: bytes, e: bytes, p: bytes)
    requires |front| == 204 && |n| == 4 && |l| == 8 && |e| == 8 && |p| == 8
    requires b.Length == HEADER_LEN && b[..] == front + Zeros(64)
    modifies b
    ensures b[..] == front + (n + Zeros(4) + l + e + p) + Zeros(32)
  {
    Fill(b, front, 204, n);
    ghost var d := front + n + Zeros(4);
    assert b[..] == d + Zeros(56);
    Fill(b, d, 212, l);
    Fill(b, d + l, 220, e);
    Fill(b, d + l + e, 228, p);
  }

  /** The header is filled in place, field by field, and sealed with its MAC. */
  method FillHeader(c: Primitives, h: Header, hmacKey: bytes) returns (b: array<byte>)
    requires c.IdealHashes() && h.Valid()
    ensures fresh(b) && b[..] == ToBytes(c, h, hmacKey)
  {
    b := new byte[HEADER_LEN](_ => 0);
    assert b[..] == Zeros(HEADER_LEN);
    FillFront(b, MAGIC, LE(VERSION, 4), h.uuid, h.salt, LE(h.kdf.mCostKib, 4), LE(h.kdf.tCost, 4),
              LE(h.kdf.lanes, 4), h.wrappedDkPw, h.wrappedDkMk);
    FillBack(b, Front(h), LE(h.lockout.failCount, 4), LE(h.lockout.lockedUntil, 8),
             LE(h.entryCount, 8), LE(h.payloadLen, 8));
    SealMac(c, b, Front(h) + Back(h), hmacKey);
  }

  method SealMac(c: Primitives, b: array<byte>, ghost body: bytes, hmacKey: bytes)
    requires c.IdealHashes() && |body| == HMAC_OFFSET
    requires b.Length == HEADER_LEN && b[..] == body + Zeros(32)
    modifies b
    ensures b[..] == body + c.mac(hmacKey, body)
  {
    assert b[..HMAC_OFFSET] == body;
    Fill(b, body, HMAC_OFFSET, c.mac(hmacKey, b[..HMAC_OFFSET]));
    assert Zeros(0) == [];
  }
}
