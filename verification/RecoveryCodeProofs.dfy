/** What the recovery code promises: the round trip, the accepted spellings, and the sealed key. */
module RecoveryCodeProofs {
  import opened Bytes
  import opened Bits
  import opened Alphabet
  import opened Crypto
  import opened RecoveryCode

  /** The 56 symbols of a secret when the four bits after its last one read `pad`. */
  function Spelling(c: Primitives, secret: bytes, pad: nat): symbols
    requires c.IdealHashes() && |secret| == 32 && pad < 16
  {
    BytesBelow(secret);
    Groups(Spread(secret, 8) + ToBits(pad, 4), CODE_DATA_CHARS) + Check(c, secret)
  }

  lemma CheckLength(c: Primitives, secret: bytes)
    requires c.IdealHashes()
    ensures |Check(c, secret)| == CODE_CHECK_CHARS
  {
    BytesBelow(c.sha256(secret)[..3]);
  }

  lemma SpreadOctets(b: bits, n: nat)
    requires |b| == 8 * n
    ensures Spread(Octets(b, n), 8) == b
  {
    GroupedLength(b, 8, n);
    SpreadOfPack(b, 8, n);
  }

  lemma OctetsSpread(data: bytes)
    ensures |Spread(data, 8)| == 8 * |data|
    ensures Octets(Spread(data, 8), |data|) == data
  {
    BytesBelow(data);
    PackOfSpread(data, 8);
  }

  lemma SpreadGroups(b: bits, n: nat)
    requires |b| == 5 * n
    ensures Spread(Groups(b, n), 5) == b
  {
    GroupedLength(b, 5, n);
    SpreadOfPack(b, 5, n);
  }

  lemma GroupsSpread(vals: symbols)
    ensures |Spread(vals, 5)| == 5 * |vals|
    ensures Groups(Spread(vals, 5), |vals|) == vals
  {
    DataBits(vals);
    SymbolsBelow(vals);
    PackOfSpread(vals, 5);
  }

  lemma EverySpellingDecodes(c: Primitives, secret: bytes, pad: nat)
    requires c.IdealHashes() && |secret| == 32 && pad < 16
    ensures DecodeSymbols(c, Spelling(c, secret, pad)) == Some(secret)
  {
    BytesBelow(secret);
    CheckLength(c, secret);
    var b := Spread(secret, 8) + ToBits(pad, 4);
    var vals := Spelling(c, secret, pad);
    assert vals[..52] == Groups(b, 52) && vals[52..] == Check(c, secret);
    SpreadGroups(b, 52);
    assert b[..256] == Spread(secret, 8);
    OctetsSpread(secret);
  }

  lemma DecodedIsASpelling(c: Primitives, vals: symbols, secret: bytes) returns (pad: nat)
    requires c.IdealHashes() && DecodeSymbols(c, vals) == Some(secret)
    ensures |secret| == 32 && pad < 16 && vals == Spelling(c, secret, pad)
  {
    DataBits(vals[..52]);
    var b := Spread(vals[..52], 5);
    SpreadOctets(b[..256], 32);
    pad := FromBits(b[256..]);
    FromBitsBound(b[256..]);
    Pow2Small();
    ToBitsOfFromBits(b[256..]);
    assert b == b[..256] + b[256..];
    GroupsSpread(vals[..52]);
    assert vals == vals[..52] + vals[52..];
  }

  /** Exactly the spellings of a secret decode to it. */
  lemma AcceptedSpellings(c: Primitives, vals: symbols, secret: bytes)
    requires c.IdealHashes()
    ensures DecodeSymbols(c, vals) == Some(secret)
            <==> |secret| == 32 && exists pad: nat :: pad < 16 && vals == Spelling(c, secret, pad)
  {
    if DecodeSymbols(c, vals) == Some(secret) {
      var pad := DecodedIsASpelling(c, vals, secret);
    }
    if |secret| == 32 {
      forall pad: nat | pad < 16 && vals == Spelling(c, secret, pad) ensures DecodeSymbols(c, vals) == Some(secret) {
        EverySpellingDecodes(c, secret, pad);
      }
    }
  }

  /** Two spellings of a secret agree but for symbol 51, whose low four bits are the pad. */
  lemma SpellingsDiffer(c: Primitives, secret: bytes, pad: nat)
    requires c.IdealHashes() && |secret| == 32 && pad < 16
    ensures var s, s0 := Spelling(c, secret, pad), Spelling(c, secret, 0);
            && |s| == |s0| == 56 && s[51] == s0[51] + pad && s0[51] % 16 == 0
            && forall i :: 0 <= i < 56 && i != 51 ==> s[i] == s0[i]
  {
    hide Groups, Spread, ToBits, Encoded;
    CheckLength(c, secret);
    LastGroup(secret, pad);
    LastGroup(secret, 0);
  }

  lemma LastGroup(secret: bytes, pad: nat)
    requires |secret| == 32 && pad < 16
    ensures |Spread(secret, 8)| == 256
    ensures var b := Spread(secret, 8);
            Groups(b + ToBits(pad, 4), 52) == Groups(b[..255], 51) + [16 * b[255] + pad]
  {
    BytesBelow(secret);
    var b := Spread(secret, 8);
    var last := [b[255]] + ToBits(pad, 4);
    assert b + ToBits(pad, 4) == b[..255] + last;
    GroupsSnoc(b[..255], 51, last);
    FromBitsConcat([b[255]], ToBits(pad, 4));
    Pow2Small();
    FromBitsOfToBits(pad, 4);
    assert [b[255]][..0] == [];
    assert FromBits([b[255]]) == b[255];
  }

  lemma SpellingsInjective(c: Primitives, secret: bytes, p: nat, q: nat)
    requires c.IdealHashes() && |secret| == 32 && p < 16 && q < 16
    ensures Spelling(c, secret, p) == Spelling(c, secret, q) <==> p == q
    ensures Spelling(c, secret, p)[51] % 16 == p
  {
    hide Spelling;
    SpellingsDiffer(c, secret, p);
    SpellingsDiffer(c, secret, q);
  }

  /** The first n spellings of a secret. */
  ghost function Spellings(c: Primitives, secret: bytes, n: nat): set<symbols>
    requires c.IdealHashes() && |secret| == 32 && n <= 16
    decreases n, secret
  {
    if n == 0 then {} else Spellings(c, secret, n - 1) + {Spelling(c, secret, n - 1)}
  }

  ghost predicate IsSpelling(c: Primitives, secret: bytes, n: nat, vals: symbols)
    requires c.IdealHashes() && |secret| == 32 && n <= 16
  {
    exists pad: nat :: pad < n && vals == Spelling(c, secret, pad)
  }

  lemma {:induction false} SpellingsMembers(c: Primitives, secret: bytes, n: nat, vals: symbols)
    requires c.IdealHashes() && |secret| == 32 && n <= 16
    ensures vals in Spellings(c, secret, n) <==> IsSpelling(c, secret, n, vals)
  {
    if n == 0 {
    } else {
      SpellingsMembers(c, secret, n - 1, vals);
    }
  }

  lemma {:induction false} SpellingsCount(c: Primitives, secret: bytes, n: nat)
    requires c.IdealHashes() && |secret| == 32 && n <= 16
    ensures |Spellings(c, secret, n)| == n
  {
    if n == 0 {
    } else {
      SpellingsCount(c, secret, n - 1);
      var last := Spelling(c, secret, n - 1);
      SpellingsMembers(c, secret, n - 1, last);
      forall pad: nat | pad < n - 1 ensures Spelling(c, secret, pad) != last {
        SpellingsInjective(c, secret, pad, n - 1);
      }
    }
  }

  /** Each secret has exactly 16 accepted symbol strings. Section 3.5 of RFC 4648 lets a decoder
      refuse non-zero pad bits; this one ignores them. */
  lemma SixteenSpellings(c: Primitives, secret: bytes)
    requires c.IdealHashes() && |secret| == 32
    ensures |Spellings(c, secret, 16)| == 16
    ensures forall vals :: vals in Spellings(c, secret, 16) <==> DecodeSymbols(c, vals) == Some(secret)
  {
    SpellingsCount(c, secret, 16);
    forall vals ensures vals in Spellings(c, secret, 16) <==> DecodeSymbols(c, vals) == Some(secret) {
      SpellingsMembers(c, secret, 16, vals);
      AcceptedSpellings(c, vals, secret);
    }
  }

  // ----- the printed form -----

  /** `chunks(4)` joined by dashes. */
  function Dashed(chars: string): string {
    if |chars| <= 4 then chars else chars[..4] + "-" + Dashed(chars[4..])
  }

  lemma {:induction false} NormalizeDashed(chars: string)
    ensures Normalize(Dashed(chars)) == Normalize(chars)
  {
    if |chars| <= 4 {
    } else {
      NormalizeDashed(chars[4..]);
      NormalizeOne('-');
      NormalizeConcat(chars[..4], "-");
      NormalizeConcat(chars[..4] + "-", Dashed(chars[4..]));
      NormalizeConcat(chars[..4], chars[4..]);
      assert chars == chars[..4] + chars[4..];
    }
  }

  function Code56(c: Primitives, secret: bytes): string
    requires c.IdealHashes()
  {
    Dashed(Print(Encoded(secret, CODE_DATA_CHARS)) + Print(Check(c, secret)))
  }

  method EncodeCode(c: Primitives, secret: bytes) returns (code: string)
    requires c.IdealHashes()
    ensures code == Code56(c, secret)
  {
    var chars := EncodeBase32(secret, CODE_DATA_CHARS, "");
    chars := EncodeBase32(c.sha256(secret)[..3], CODE_CHECK_CHARS, chars);
    assert "" + Print(Encoded(secret, CODE_DATA_CHARS)) == Print(Encoded(secret, CODE_DATA_CHARS));
    code := "";
    ghost var whole := chars;
    while |chars| > 4
      invariant code + Dashed(chars) == Dashed(whole)
      decreases |chars|
    {
      assert code + Dashed(chars) == code + chars[..4] + "-" + Dashed(chars[4..]);
      code := code + chars[..4] + "-";
      chars := chars[4..];
    }
    code := code + chars;
  }

  lemma EncodedSecret(secret: bytes)
    requires |secret| == 32
    ensures |Spread(secret, 8)| == 256
    ensures Encoded(secret, CODE_DATA_CHARS) == Groups(Spread(secret, 8) + ToBits(0, 4), 52)
  {
    BytesBelow(secret);
  }

  /** The printed code is the spelling whose pad bits are zero. */
  lemma CodeIsSpelling(c: Primitives, secret: bytes)
    requires c.IdealHashes() && |secret| == 32
    ensures Normalize(Code56(c, secret)) == Some(Spelling(c, secret, 0))
  {
    var data, check := Encoded(secret, CODE_DATA_CHARS), Check(c, secret);
    NormalizeDashed(Print(data) + Print(check));
    NormalizeConcat(Print(data), Print(check));
    NormalizePrinted(data);
    NormalizePrinted(check);
    EncodedSecret(secret);
  }

  lemma DecodeInvertsEncode(c: Primitives, secret: bytes)
    requires c.IdealHashes() && |secret| == 32
    ensures Decoded(c, Code56(c, secret)) == Some(secret)
  {
    CodeIsSpelling(c, secret);
    EverySpellingDecodes(c, secret, 0);
  }

  /** Printing what was parsed gives the same symbols exactly when the pad bits were zero. */
  lemma EncodeInvertsDecode(c: Primitives, code: string, secret: bytes)
    requires c.IdealHashes() && Decoded(c, code) == Some(secret)
    ensures Normalize(code).Some? && |Normalize(code).value| == 56
    ensures Normalize(Code56(c, secret)) == Normalize(code) <==> Normalize(code).value[51] % 16 == 0
  {
    var vals := Normalize(code).value;
    var pad := DecodedIsASpelling(c, vals, secret);
    CodeIsSpelling(c, secret);
    SpellingsInjective(c, secret, pad, 0);
  }

  /** Any amount of formatting noise, added or removed, leaves the result as it was. */
  lemma {:induction false} NoiseIsIgnored(c: Primitives, typed: seq<string>)
    requires c.IdealHashes() && typed != []
    requires forall i :: 0 <= i < |typed| - 1 ==>
               OneEdit(typed[i], typed[i + 1]) || OneEdit(typed[i + 1], typed[i])
    ensures Decoded(c, typed[|typed| - 1]) == Decoded(c, typed[0])
  {
    if |typed| <= 1 {
    } else {
      NoiseIsIgnored(c, typed[..|typed| - 1]);
      var s, t := typed[|typed| - 2], typed[|typed| - 1];
      if OneEdit(s, t) {
        EditKeepsSymbols(s, t);
      } else {
        EditKeepsSymbols(t, s);
      }
    }
  }

  /** One foreign character anywhere, such as U or an asterisk, and the code is refused. */
  lemma ForeignCharacterRefused(c: Primitives, code: string, i: nat)
    requires c.IdealHashes() && i < |code| && IsForeign(code[i])
    ensures Decoded(c, code) == None
  {
    RefusedIffForeign(code);
  }

  /** The last four symbols of an accepted code are the first 20 bits of the secret's digest. */
  lemma ChecksumBinds(c: Primitives, vals: symbols, secret: bytes)
    requires c.IdealHashes() && DecodeSymbols(c, vals) == Some(secret)
    ensures |vals| == 56 && |Spread(c.sha256(secret), 8)| == 256
    ensures Spread(vals[52..], 5) == Spread(c.sha256(secret), 8)[..20]
  {
    var digest := c.sha256(secret);
    BytesBelow(digest);
    BytesBelow(digest[..3]);
    SpreadPrefix(digest, 3);
    SpreadGroups(Spread(digest[..3], 8)[..20], 4);
    assert vals[52..] == Groups(Spread(digest[..3], 8)[..20], 4);
  }

  lemma {:induction false} SpreadPrefix(data: bytes, n: nat)
    requires n <= |data|
    ensures Spread(data[..n], 8) <= Spread(data, 8)
    decreases |data|
  {
    hide Spread;
    if n == |data| {
      assert data[..n] == data;
    } else {
      var front := data[..|data| - 1];
      SpreadPrefix(front, n);
      assert front[..n] == data[..n];
      SpreadSnoc(front, data[|data| - 1], 8);
      assert data == front + [data[|data| - 1]];
    }
  }

  /** Two accepted codes with the same last four symbols are for secrets whose digests start alike: a
      slip in the data shows unless the digests of both secrets agree in 20 bits. */
  lemma SlipsShow(c: Primitives, a: symbols, b: symbols)
    requires c.IdealHashes() && DecodeSymbols(c, a).Some? && DecodeSymbols(c, b).Some? && a[52..] == b[52..]
    ensures var x, y := c.sha256(DecodeSymbols(c, a).value), c.sha256(DecodeSymbols(c, b).value);
            && |Spread(x, 8)| == |Spread(y, 8)| == 256
            && Spread(x, 8)[..20] == Spread(y, 8)[..20]
  {
    ChecksumBinds(c, a, DecodeSymbols(c, a).value);
    ChecksumBinds(c, b, DecodeSymbols(c, b).value);
  }

  // ----- the shape of the printed code -----

  lemma {:induction false} DashedLength(chars: string)
    requires chars != "" && |chars| % 4 == 0
    ensures |Dashed(chars)| == |chars| / 4 * 5 - 1
  {
    if |chars| <= 4 {
    } else {
      DashedLength(chars[4..]);
    }
  }

  /** Every fifth character is a dash, and the others are the symbols in order. */
  lemma {:induction false} DashedAt(chars: string, i: nat)
    requires chars != "" && |chars| % 4 == 0 && i < |chars| / 4 * 5 - 1
    ensures i < |Dashed(chars)|
    ensures Dashed(chars)[i] == if i % 5 == 4 then '-' else chars[i / 5 * 4 + i % 5]
    decreases |chars|
  {
    DashedLength(chars);
    if i >= 5 {
      DashedAt(chars[4..], i - 5);
      assert Dashed(chars)[i] == Dashed(chars[4..])[i - 5];
    }
  }

  /** A printed code is 69 characters long: fourteen groups of four alphabet characters, with dashes. */
  lemma CodeShape(c: Primitives, secret: bytes, i: nat)
    requires c.IdealHashes() && |secret| == 32 && i < 69
    ensures |Code56(c, secret)| == 69
    ensures Code56(c, secret)[i] == '-' <==> i % 5 == 4
    ensures i % 5 != 4 ==> Code56(c, secret)[i] in CROCKFORD
  {
    EncodedSecret(secret);
    CheckLength(c, secret);
    var data, check := Encoded(secret, CODE_DATA_CHARS), Check(c, secret);
    var chars := Print(data) + Print(check);
    assert |chars| == 56;
    DashedLength(chars);
    DashedAt(chars, i);
    if i % 5 != 4 {
      var k := i / 5 * 4 + i % 5;
      var v: symbol := if k < 52 then data[k] else check[k - 52];
      AlphabetAt(v);
      assert chars[k] == CROCKFORD[v];
    }
  }

  // ----- the sealed data key -----

  /** "fvlt-master-kek-v1" */
  const KEK_LABEL: bytes := [102, 118, 108, 116, 45, 109, 97, 115, 116, 101, 114, 45, 107, 101, 107, 45, 118, 49]

  /** The label's text as bytes. */
  lemma KekLabel()
    ensures var text := "fvlt-master-kek-v1";
            |KEK_LABEL| == |text| && forall i :: 0 <= i < |text| ==> KEK_LABEL[i] == text[i] as int
  {
  }

  function KekFromShared(c: Primitives, shared: bytes): bytes {
    c.mac(KEK_LABEL, shared)
  }

  /** Ephemeral public key, then the data key wrapped under the shared secret. */
  function SealedDk(c: Primitives, masterPub: bytes, eph: bytes, nonce: bytes, dk: bytes): bytes {
    c.public(eph) + WrapKey(c, KekFromShared(c, c.agree(eph, masterPub)), nonce, dk)
  }

  method SealDk(c: Primitives, masterPub: bytes, eph: bytes, nonce: bytes, dk: bytes) returns (out: array<byte>)
    requires c.Ideal() && |nonce| == NONCE_LEN && |dk| == KEY_LEN
    ensures out[..] == SealedDk(c, masterPub, eph, nonce, dk)
  {
    out := new byte[MASTER_WRAP_LEN](_ => 0);
    var kek := KekFromShared(c, c.agree(eph, masterPub));
    UnwrapInvertsWrap(c, kek, nonce, dk);
    CopyInto(out, 0, c.public(eph));
    assert out[..32] == c.public(eph);
    CopyInto(out, 32, WrapKey(c, kek, nonce, dk));
  }

  ghost function OpenedDk(c: Primitives, code: string, wrap: bytes): Option<bytes>
    requires c.IdealHashes() && |wrap| == MASTER_WRAP_LEN
  {
    match Decoded(c, code)
    case None => None
    case Some(sk) => UnwrapKey(c, KekFromShared(c, c.agree(sk, wrap[..32])), wrap[32..])
  }

  method OpenDk(c: Primitives, code: string, wrap: bytes) returns (dk: Option<bytes>)
    requires c.IdealHashes() && |wrap| == MASTER_WRAP_LEN
    ensures dk == OpenedDk(c, code, wrap)
  {
    var sk := DecodeCode(c, code);
    if sk.None? {
      return None;
    }
    dk := UnwrapKey(c, KekFromShared(c, c.agree(sk.value, wrap[..32])), wrap[32..]);
  }

  predicate IsEnrolled(wrap: bytes) {
    exists i :: 0 <= i < |wrap| && wrap[i] != 0
  }

  /** A wrap counts as enrolled exactly when it is not all zero. */
  lemma EnrolledIffNonZero(wrap: bytes)
    ensures IsEnrolled(wrap) <==> wrap != Zeros(|wrap|)
  {
    if !IsEnrolled(wrap) {
      assert forall i :: 0 <= i < |wrap| ==> wrap[i] == Zeros(|wrap|)[i];
    } else {
      var i :| 0 <= i < |wrap| && wrap[i] != 0;
      assert Zeros(|wrap|)[i] == 0;
    }
  }

  /** Any text the parser reads as the master secret opens what was sealed to its public key. */
  lemma CodeOpensSealedKey(c: Primitives, code: string, sk: bytes, eph: bytes, nonce: bytes, dk: bytes)
    requires c.Ideal() && Decoded(c, code) == Some(sk)
    requires |nonce| == NONCE_LEN && |dk| == KEY_LEN
    ensures |SealedDk(c, c.public(sk), eph, nonce, dk)| == MASTER_WRAP_LEN
    ensures OpenedDk(c, code, SealedDk(c, c.public(sk), eph, nonce, dk)) == Some(dk)
  {
  }
}
