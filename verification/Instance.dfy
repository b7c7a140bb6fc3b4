/** The assumptions made of the primitives are consistent: an instance meets all of them. */
module Instance {
  import opened Bytes
  import opened Entries
  import opened Crypto

  predicate IsScalar(n: nat) { n < 0xD800 || 0xE000 <= n < 0x11_0000 }

  function PutString(s: string): bytes {
    if s == "" then [0] else [1] + LE(s[0] as int, 3) + PutString(s[1..])
  }

  function GetString(b: bytes): Option<(string, bytes)>
    decreases |b|
  {
    if |b| == 0 then None
    else if b[0] == 0 then Some(("", b[1..]))
    else if |b| < 4 || !IsScalar(FromLE(b[1..4])) then None
    else
      match GetString(b[4..])
      case None => None
      case Some((s, rest)) => Some(([FromLE(b[1..4]) as char] + s, rest))
  }

  lemma {:induction false} GetPutString(s: string, rest: bytes)
    ensures GetString(PutString(s) + rest) == Some((s, rest))
  {
    var b := PutString(s) + rest;
    if s == "" {
      assert b[1..] == rest;
    } else {
      var code := s[0] as int;
      GetPutString(s[1..], rest);
      assert IsScalar(code) && code as char == s[0];
      assert b == [1] + LE(code, 3) + (PutString(s[1..]) + rest);
      assert b[1..4] == LE(code, 3) && b[4..] == PutString(s[1..]) + rest;
      assert Pow256(3) == 256 * Pow256(2) == 256 * (256 * Pow256(1)) && Pow256(1) == 256 * Pow256(0);
      FromLEOfLE(code, 3);
      assert [s[0]] + s[1..] == s;
    }
  }

  function Flag(b: bool): byte { if b then 1 else 0 }

  function PutEntry(e: Entry): bytes {
    PutString(e.relPath) + (LE(e.size, 8) + LE(e.mtime, 8) + [Flag(e.isDir), Flag(e.readonly)])
  }

  function GetEntry(b: bytes): Option<(Entry, bytes)> {
    match GetString(b)
    case None => None
    case Some((s, r)) =>
      if |r| < 18 then None
      else Some((Entry(s, ReadU64(r[..8]), ReadU64(r[8..16]), r[16] == 1, r[17] == 1), r[18..]))
  }

  lemma GetPutEntry(e: Entry, rest: bytes)
    ensures GetEntry(PutEntry(e) + rest) == Some((e, rest))
  {
    var r := LE(e.size, 8) + LE(e.mtime, 8) + [Flag(e.isDir), Flag(e.readonly)] + rest;
    assert PutEntry(e) + rest == PutString(e.relPath) + r;
    GetPutString(e.relPath, r);
    assert r[..8] == LE(e.size, 8) && r[8..16] == LE(e.mtime, 8) && r[18..] == rest;
    U64RoundTrip(e.size);
    U64RoundTrip(e.mtime);
  }

  function PutAll(es: seq<Entry>): bytes {
    if es == [] then [0] else [1] + PutEntry(es[0]) + PutAll(es[1..])
  }

  lemma {:induction false} GetStringShrinks(b: bytes)
    ensures GetString(b).Some? ==> |GetString(b).value.1| < |b|
    decreases |b|
  {
    if |b| < 4 {
    } else {
      GetStringShrinks(b[4..]);
    }
  }

  function GetAll(b: bytes): Option<seq<Entry>>
    decreases |b|
  {
    if |b| == 0 then None
    else if b[0] == 0 then Some([])
    else
      GetStringShrinks(b[1..]);
      match GetEntry(b[1..])
      case None => None
      case Some((e, rest)) =>
        match GetAll(rest)
        case None => None
        case Some(es) => Some([e] + es)
  }

  lemma {:induction false} GetPutAll(es: seq<Entry>)
    ensures GetAll(PutAll(es)) == Some(es)
  {
    hide PutEntry, GetEntry;
    if es == [] {
    } else {
      GetPutAll(es[1..]);
      GetPutEntry(es[0], PutAll(es[1..]));
      assert PutAll(es)[1..] == PutEntry(es[0]) + PutAll(es[1..]);
      assert es == [es[0]] + es[1..];
    }
  }

  function Open(b: bytes): Option<bytes> {
    if |b| < TAG_LEN then None else Some(b[..|b| - TAG_LEN])
  }

  function Trivial(): Primitives {
    Primitives(
      (k: bytes, n: bytes, a: bytes, p: bytes) => p + Zeros(TAG_LEN),
      (k: bytes, n: bytes, a: bytes, b: bytes) => Open(b),
      (k: bytes, m: bytes) => Zeros(32),
      (m: bytes) => Zeros(32),
      (p: bytes, s: bytes, q: KdfParams) => Zeros(32),
      (s: bytes) => Zeros(32),
      (s: bytes, t: bytes) => Zeros(32),
      (es: seq<Entry>) => PutAll(es),
      (b: bytes) => GetAll(b))
  }

  lemma IdealIsConsistent()
    ensures Trivial().Ideal() && Trivial().Binding()
  {
    var c := Trivial();
    forall k, n, a, p ensures c.open(k, n, a, c.seal(k, n, a, p)) == Some(p) {
      assert (p + Zeros(TAG_LEN))[..|p|] == p;
    }
    forall es ensures c.deserialize(c.serialize(es)) == Some(es) {
      GetPutAll(es);
    }
  }
}
