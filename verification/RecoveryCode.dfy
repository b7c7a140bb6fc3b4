/** The recovery code: a base32 printer and parser, and the sealed data key it opens (recovery.rs). */
module RecoveryCode {
  import opened Bytes
  import opened Bits
  import opened Accumulator
  import opened Alphabet
  import opened Crypto

  const CODE_DATA_CHARS: nat := 52
  const CODE_CHECK_CHARS: nat := 4

  lemma BytesBelow(data: bytes)
    ensures Below(data, 8)
    ensures |Spread(data, 8)| == 8 * |data|
  {
  }

  /** The symbols of the bit grouping in section 6 of RFC 4648, without its padding characters:
      the first 5n bits, or all of them and a last group filled up with zeros. */
  function Encoded(data: bytes, n: nat): symbols {
    BytesBelow(data);
    var b := Spread(data, 8);
    if 5 * n <= |b| then Groups(b[..5 * n], n)
    else
      var k := |b| / 5 + 1;
      Groups(b + ToBits(0, 5 * k - |b|), k)
  }

  function Groups(b: bits, n: nat): (r: symbols)
    requires |b| == 5 * n
    ensures |r| == n
  {
    GroupedLength(b, 5, n);
    PackBelow(b, 5, n);
    Pow2Small();
    Pack(b, 5, n)
  }

  lemma SymbolsBelow(vals: symbols)
    ensures Below(vals, 5)
  {
  }

  lemma GroupsSnoc(b: bits, n: nat, last: bits)
    requires |b| == 5 * n && |last| == 5
    ensures FromBits(last) < 32
    ensures Groups(b + last, n + 1) == Groups(b, n) + [FromBits(last)]
  {
    FromBitsBound(last);
    Pow2Small();
    GroupedLength(b + last, 5, n + 1);
    assert (b + last)[..5 * n] == b && (b + last)[5 * n..] == last;
  }

  /** What the emission loop has written and still holds, over the bits s read so far. */
  ghost predicate Emitting(s: bits, n: nat, vals: symbols, acc: u32, pending: nat) {
    && |vals| <= n
    && 5 * |vals| <= |s|
    && vals == Groups(s[..5 * |vals|], |vals|)
    && (|vals| < n ==> pending == |s| - 5 * |vals| && pending <= 12 && Holds(acc, s[5 * |vals|..]))
  }

  lemma ReadByte(s: bits, d: byte, n: nat, vals: symbols, acc: u32, pending: nat)
    requires Emitting(s, n, vals, acc, pending)
    requires |vals| < n ==> pending < 5
    ensures d < Pow2(8)
    ensures Emitting(s + ToBits(d, 8), n, vals, ShiftIn(acc, d, 8), pending + 8)
  {
    hide Groups, ToBits, ShiftIn, Holds, Pow2;
    assert d < Pow2(8) by {
      Pow2Small();
    }
    var e, s' := 5 * |vals|, s + ToBits(d, 8);
    assert s'[..e] == s[..e];
    if |vals| < n {
      ShiftInHolds(acc, s[e..], d, 8);
      assert s'[e..] == s[e..] + ToBits(d, 8);
    }
  }

  lemma SpreadNext(data: bytes, i: nat)
    requires i < |data|
    ensures Spread(data[..i + 1], 8) == Spread(data[..i], 8) + ToBits(data[i], 8)
  {
    assert data[..i + 1] == data[..i] + [data[i]];
    SpreadSnoc(data[..i], data[i], 8);
  }

  lemma EmitSymbol(s: bits, n: nat, vals: symbols, acc: u32, pending: nat)
    requires Emitting(s, n, vals, acc, pending) && |vals| < n && pending >= 5
    ensures TakeOut(acc, pending - 5, 5) < 32
    ensures Emitting(s, n, vals + [TakeOut(acc, pending - 5, 5)], acc, pending - 5)
  {
    var e := 5 * |vals|;
    TakeOutHolds(acc, s[e..], 5);
    var g := s[e..][..5];
    GroupsSnoc(s[..e], |vals|, g);
    assert s[..e] + g == s[..e + 5];
    assert s[e..][5..] == s[e + 5..];
  }

  lemma PaddedSplit(s: bits, e: nat, pad: nat)
    requires e <= |s|
    ensures s + ToBits(0, pad) == s[..e] + (s[e..] + ToBits(0, pad))
  {
  }

  /** With fewer than five bits left over, one more group is started and filled up with zeros. */
  lemma LastGroupStarts(total: nat, k: nat, pending: nat, n: nat)
    requires k < n && pending == total - 5 * k && pending < 5
    ensures 5 * n > total && total / 5 + 1 == k + 1 && 5 * (k + 1) - total == 5 - pending
  {
  }

  lemma FlushLast(data: bytes, n: nat, vals: symbols, acc: u32, pending: nat)
    requires Emitting(Spread(data, 8), n, vals, acc, pending) && |vals| < n && pending < 5
    ensures Flush(acc, pending) < 32
    ensures Encoded(data, n) == vals + [Flush(acc, pending)]
  {
    hide Flush, Groups, Spread, FromBits;
    var s := Spread(data, 8);
    var k := |vals|;
    BytesBelow(data);
    FlushHolds(acc, s[5 * k..]);
    GroupsSnoc(s[..5 * k], k, s[5 * k..] + ToBits(0, 5 - pending));
    PaddedSplit(s, 5 * k, 5 - pending);
    LastGroupStarts(|s|, k, pending, n);
  }

  lemma EmittedAll(data: bytes, n: nat, vals: symbols, acc: u32, pending: nat)
    requires Emitting(Spread(data, 8), n, vals, acc, pending) && |vals| == n
    ensures Encoded(data, n) == vals
  {
  }

  lemma NothingEmitted(n: nat)
    ensures Emitting([], n, [], 0, 0)
  {
    BytesBelow([]);
  }

  method Push(out: string, ghost before: string, ghost vals: symbols, v: symbol) returns (r: string)
    requires out == before + Print(vals)
    ensures r == before + Print(vals + [v])
  {
    AlphabetAt(v);
    PrintSnoc(vals, v);
    r := out + [CROCKFORD[v]];
  }

  method EncodeBase32(data: bytes, nChars: nat, out0: string) returns (out: string)
    ensures out == out0 + Print(Encoded(data, nChars))
  {
    hide Emitting, Spread, Encoded, ShiftIn, TakeOut, Flush, ToBits;
    out := out0;
    var acc: u32, pending: nat, emitted: nat := 0, 0, 0;
    ghost var vals: symbols := [];
    ghost var s: bits := [];
    var i := 0;
    assert data[..0] == [];
    SpreadNothing(8);
    NothingEmitted(nChars);
    while i < |data|
      invariant 0 <= i <= |data| && s == Spread(data[..i], 8)
      invariant emitted == |vals| <= nChars && out == out0 + Print(vals)
      invariant emitted < nChars ==> pending < 5
      invariant Emitting(s, nChars, vals, acc, pending)
    {
      ReadByte(s, data[i], nChars, vals, acc, pending);
      SpreadNext(data, i);
      acc := ShiftIn(acc, data[i], 8);
      s := s + ToBits(data[i], 8);
      pending := pending + 8;
      while pending >= 5 && emitted < nChars
        invariant emitted == |vals| <= nChars && out == out0 + Print(vals)
        invariant Emitting(s, nChars, vals, acc, pending)
      {
        EmitSymbol(s, nChars, vals, acc, pending);
        pending := pending - 5;
        var v: symbol := TakeOut(acc, pending, 5);
        out := Push(out, out0, vals, v);
        vals := vals + [v];
        emitted := emitted + 1;
      }
      i := i + 1;
    }
    assert data[..i] == data;
    if emitted < nChars {
      FlushLast(data, nChars, vals, acc, pending);
      var v: symbol := Flush(acc, pending);
      out := Push(out, out0, vals, v);
    } else {
      EmittedAll(data, nChars, vals, acc, pending);
    }
  }

  /** The first three bytes of the digest of the secret, as four symbols. */
  function Check(c: Primitives, secret: bytes): symbols
    requires c.IdealHashes()
  {
    Encoded(c.sha256(secret)[..3], CODE_CHECK_CHARS)
  }

  /** Groups of eight bits as bytes. */
  function Octets(b: bits, n: nat): (r: bytes)
    requires |b| == 8 * n
    ensures |r| == n
  {
    GroupedLength(b, 8, n);
    PackBelow(b, 8, n);
    Pow2Small();
    Pack(b, 8, n)
  }

  lemma OctetsSnoc(b: bits, n: nat, last: bits)
    requires |b| == 8 * n && |last| == 8
    ensures FromBits(last) < 256
    ensures Octets(b + last, n + 1) == Octets(b, n) + [FromBits(last)]
  {
    FromBitsBound(last);
    Pow2Small();
    GroupedLength(b + last, 8, n + 1);
    assert (b + last)[..8 * n] == b && (b + last)[8 * n..] == last;
  }

  lemma DataBits(vals: symbols)
    ensures |Spread(vals, 5)| == 5 * |vals|
  {
  }

  /** The secret 56 symbols spell, if their last four are its check. Of the 260 data bits the
      last four are ignored. */
  function DecodeSymbols(c: Primitives, vals: symbols): Option<bytes>
    requires c.IdealHashes()
  {
    if |vals| != CODE_DATA_CHARS + CODE_CHECK_CHARS then None
    else
      DataBits(vals[..CODE_DATA_CHARS]);
      var secret := Octets(Spread(vals[..CODE_DATA_CHARS], 5)[..256], 32);
      if vals[CODE_DATA_CHARS..] == Check(c, secret) then Some(secret) else None
  }

  ghost function Decoded(c: Primitives, code: string): Option<bytes>
    requires c.IdealHashes()
  {
    match Normalize(code)
    case None => None
    case Some(vals) => DecodeSymbols(c, vals)
  }

  /** What the decoding loop has stored and still holds, over the bits s read so far. */
  ghost predicate Storing(s: bits, secret: bytes, acc: u32, pending: nat) {
    && pending < 8
    && |s| == 8 * |secret| + pending
    && secret == Octets(s[..8 * |secret|], |secret|)
    && Holds(acc, s[8 * |secret|..])
  }

  /** The stored bytes and the pending bits after a shift, before any byte is taken out. */
  ghost predicate Shifted(s: bits, secret: bytes, acc: u32, pending: nat) {
    && pending < 13
    && |s| == 8 * |secret| + pending
    && secret == Octets(s[..8 * |secret|], |secret|)
    && Holds(acc, s[8 * |secret|..])
  }

  lemma ReadSymbol(s: bits, secret: bytes, acc: u32, pending: nat, v: symbol)
    requires Storing(s, secret, acc, pending)
    ensures v < Pow2(5)
    ensures Shifted(s + ToBits(v, 5), secret, ShiftIn(acc, v, 5), pending + 5)
  {
    hide Octets, ToBits, ShiftIn, Holds, Pow2;
    assert v < Pow2(5) by {
      Pow2Small();
    }
    var d, s' := 8 * |secret|, s + ToBits(v, 5);
    ShiftInHolds(acc, s[d..], v, 5);
    assert s'[..d] == s[..d] && s'[d..] == s[d..] + ToBits(v, 5);
  }

  lemma StoreByte(s: bits, secret: bytes, acc: u32, pending: nat)
    requires Shifted(s, secret, acc, pending) && pending >= 8
    ensures TakeOut(acc, pending - 8, 8) < 256
    ensures Storing(s, secret + [TakeOut(acc, pending - 8, 8)], acc, pending - 8)
  {
    var d := 8 * |secret|;
    TakeOutHolds(acc, s[d..], 8);
    var g := s[d..][..8];
    OctetsSnoc(s[..d], |secret|, g);
    assert s[..d] + g == s[..d + 8];
    assert s[d..][8..] == s[d + 8..];
  }

  lemma NothingStored()
    ensures Storing([], [], 0, 0)
  {
  }

  /** The data symbols, five bits each, regrouped into bytes; the source's `idx` is |secret|. */
  method DecodeData(vals: symbols) returns (secret: bytes)
    requires |vals| == CODE_DATA_CHARS
    ensures |Spread(vals, 5)| == 260
    ensures secret == Octets(Spread(vals, 5)[..256], 32)
  {
    hide Spread, ShiftIn, TakeOut, ToBits, Octets, Holds;
    secret := [];
    var acc: u32, pending: nat := 0, 0;
    ghost var s: bits := [];
    var i := 0;
    assert vals[..0] == [];
    SpreadNothing(5);
    NothingStored();
    while i < |vals|
      invariant 0 <= i <= |vals| && s == Spread(vals[..i], 5) && |s| == 5 * i
      invariant Storing(s, secret, acc, pending)
    {
      assert vals[..i + 1] == vals[..i] + [vals[i]];
      SpreadSnoc(vals[..i], vals[i], 5);
      ReadSymbol(s, secret, acc, pending, vals[i]);
      acc := ShiftIn(acc, vals[i], 5);
      s := s + ToBits(vals[i], 5);
      pending := pending + 5;
      if pending >= 8 {
        pending := pending - 8;
        StoreByte(s, secret, acc, pending + 8);
        if |secret| < 32 {
          secret := secret + [TakeOut(acc, pending, 8)];
        }
      }
      i := i + 1;
    }
    assert vals[..i] == vals;
  }

  /** One more character. */
  lemma NextCharacter(code: string, i: nat)
    requires i < |code|
    ensures Normalize(code[..i + 1]) == Extend(Normalize(code[..i]), Lex(code[i]))
    ensures Normalize(code[..i + 1]).None? ==> Normalize(code).None?
  {
    hide Lex;
    var s := code[..i + 1];
    assert s[..|s| - 1] == code[..i] && s[|s| - 1] == code[i];
    assert code == s + code[i + 1..];
    NormalizeConcat(s, code[i + 1..]);
  }

  /** The lexing loop of the parser. */
  method Symbols(code: string) returns (r: Option<symbols>)
    ensures r == Normalize(code)
  {
    hide Normalize;
    var vals: symbols := [];
    var i := 0;
    assert code[..0] == "" && Normalize("") == Some([]) by {
      NormalizeNothing("");
    }
    while i < |code|
      invariant 0 <= i <= |code| && Normalize(code[..i]) == Some(vals)
    {
      NextCharacter(code, i);
      var u := ToAsciiUppercase(code[i]);
      if u != '-' && u != ' ' {
        var d := if u == 'I' || u == 'L' then '1' else if u == 'O' then '0' else u;
        var p := FindPosition(d as int % 256);
        if p.None? {
          return None;
        }
        vals := vals + [p.value];
      }
      i := i + 1;
    }
    assert code[..i] == code;
    return Some(vals);
  }

  lemma NormalizeNothing(s: string)
    requires s == ""
    ensures Normalize(s) == Some([])
  {
  }

  method DecodeCode(c: Primitives, code: string) returns (r: Option<bytes>)
    requires c.IdealHashes()
    ensures r == Decoded(c, code)
  {
    hide Normalize, Spread, Octets, Print, Encoded;
    var vals := Symbols(code);
    if vals.None? || |vals.value| != CODE_DATA_CHARS + CODE_CHECK_CHARS {
      return None;
    }
    var secret := DecodeData(vals.value[..CODE_DATA_CHARS]);
    var wanted := EncodeBase32(c.sha256(secret)[..3], CODE_CHECK_CHARS, "");
    var check := vals.value[CODE_DATA_CHARS..];
    assert "" + Print(Check(c, secret)) == Print(Check(c, secret));
    if Print(check) == Print(Check(c, secret)) {
      PrintInjective(check, Check(c, secret));
    }
    return if Print(check) != wanted then None else Some(secret);
  }
}
