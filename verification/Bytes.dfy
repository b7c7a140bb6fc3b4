/** Bytes, fixed-width integers and their little-endian encoding. */
module Bytes {
  type byte = b: int | 0 <= b < 256
  type bytes = seq<byte>
  type u32 = x: int | 0 <= x < 0x1_0000_0000
  type u64 = x: int | 0 <= x < 0x1_0000_0000_0000_0000

  const U64_MAX: u64 := 0xFFFF_FFFF_FFFF_FFFF

  datatype Option<+T> = None | Some(value: T)

  /** The errors of the crate (lib.rs); payloads that carry only text are dropped. */
  datatype VaultError =
    | WrongPassword(attemptsLeft: int)
    | LockedOut(untilUnix: int)
    | Tampered
    | BadMagic
    | BadVersion(version: int)
    | Exists(path: string)
    | Unsupported
    | Other
    | Io

  datatype Result<+T> = Ok(value: T) | Err(error: VaultError)

  function Zeros(n: nat): (r: bytes)
    ensures |r| == n
  {
    seq(n, i => 0)
  }

  /** 256^w. */
  function Pow256(w: nat): (r: nat)
    ensures r > 0
  {
    if w == 0 then 1 else 256 * Pow256(w - 1)
  }

  lemma Pow256Values()
    ensures Pow256(1) == 0x100
    ensures Pow256(4) == 0x1_0000_0000
    ensures Pow256(8) == 0x1_0000_0000_0000_0000
  {
  }

  /** `to_le_bytes`: the low w bytes of n, least significant first. */
  function LE(n: nat, w: nat): (r: bytes)
    ensures |r| == w
  {
    seq(w, i requires 0 <= i < w => (n / Pow256(i)) % 256)
  }

  lemma DivDiv(n: nat, p: nat)
    requires p > 0
    ensures n / (256 * p) == (n / 256) / p
  {
    var q, r := n / (256 * p), n % (256 * p);
    var d, m := r / 256, r % 256;
    assert n == q * (256 * p) + r == 256 * (q * p + d) + m by {
      assert q * (256 * p) == 256 * (q * p);
    }
    assert d < p;
    assert n / 256 == q * p + d;
    Quotient(q * p + d, q, p, d);
  }

  lemma Quotient(x: nat, q: nat, p: nat, d: nat)
    requires d < p && x == q * p + d
    ensures x / p == q
  {
    var e := x / p - q;
    assert e * p == (x / p) * p - q * p;
    if e >= 1 {
      AtLeast(e, p);
    } else if e <= -1 {
      AtLeast(-e, p);
    }
  }

  lemma AtLeast(e: int, p: nat)
    requires e >= 1
    ensures e * p >= p
  {
  }

  lemma LEStep(n: nat, w: nat)
    requires w > 0
    ensures LE(n, w) == [n % 256] + LE(n / 256, w - 1)
  {
    forall i | 0 < i < w ensures (n / Pow256(i)) % 256 == ((n / 256) / Pow256(i - 1)) % 256 {
      DivDiv(n, Pow256(i - 1));
    }
    assert Pow256(0) == 1;
  }

  /** The least significant byte comes first. */
  lemma LeastFirst()
    ensures LE(0x0403_0201, 4) == [1, 2, 3, 4]
  {
    var n := 0x0403_0201;
    LEStep(n, 4);
    LEStep(n / 256, 3);
    LEStep(n / 256 / 256, 2);
    LEStep(n / 256 / 256 / 256, 1);
    assert LE(0, 0) == [];
  }

  /** `from_le_bytes`. */
  function FromLE(b: bytes): nat {
    if b == [] then 0 else b[0] + 256 * FromLE(b[1..])
  }

  lemma {:induction false} FromLEBound(b: bytes)
    ensures FromLE(b) < Pow256(|b|)
  {
    if b == [] {
    } else {
      FromLEBound(b[1..]);
    }
  }

  lemma {:induction false} FromLEOfLE(n: nat, w: nat)
    requires n < Pow256(w)
    ensures FromLE(LE(n, w)) == n
    decreases w
  {
    if w == 0 {
    } else {
      FromLEOfLE(n / 256, w - 1);
      LEStep(n, w);
      assert LE(n, w)[1..] == LE(n / 256, w - 1);
    }
  }

  lemma {:induction false} LEOfFromLE(b: bytes)
    ensures LE(FromLE(b), |b|) == b
  {
    if b == [] {
    } else {
      LEOfFromLE(b[1..]);
      var v := FromLE(b);
      assert v % 256 == b[0] && v / 256 == FromLE(b[1..]);
      LEStep(v, |b|);
      assert b == [b[0]] + b[1..];
    }
  }

  lemma {:induction false} FromLEZeros(n: nat)
    ensures FromLE(Zeros(n)) == 0
  {
    if n == 0 {
    } else {
      FromLEZeros(n - 1);
      assert Zeros(n)[1..] == Zeros(n - 1);
    }
  }

  lemma MulAssoc(a: nat, b: nat, c: nat)
    ensures a * (b * c) == (a * b) * c
  {
  }

  /** The value of a concatenation. */
  lemma {:induction false} FromLEConcat(a: bytes, b: bytes)
    ensures FromLE(a + b) == FromLE(a) + Pow256(|a|) * FromLE(b)
  {
    if a == [] {
      assert a + b == b;
    } else {
      var p, x := Pow256(|a| - 1), FromLE(b);
      assert FromLE(a + b) == a[0] + 256 * FromLE(a[1..] + b) by {
        assert (a + b)[1..] == a[1..] + b;
      }
      FromLEConcat(a[1..], b);
      assert FromLE(a[1..] + b) == FromLE(a[1..]) + p * x;
      MulAssoc(256, p, x);
    }
  }

  lemma U32RoundTrip(n: u32)
    ensures FromLE(LE(n, 4)) == n
  {
    Pow256Values();
    FromLEOfLE(n, 4);
  }

  lemma U64RoundTrip(n: u64)
    ensures FromLE(LE(n, 8)) == n
  {
    Pow256Values();
    FromLEOfLE(n, 8);
  }

  /** `u32::from_le_bytes` on four bytes. */
  function ReadU32(b: bytes): u32
    requires |b| == 4
  {
    FromLEBound(b);
    Pow256Values();
    FromLE(b)
  }

  /** `u64::from_le_bytes` on eight bytes. */
  function ReadU64(b: bytes): u64
    requires |b| == 8
  {
    FromLEBound(b);
    Pow256Values();
    FromLE(b)
  }

  /** `copy_from_slice` into b[off..off + |src|]. */
  method CopyInto(b: array<byte>, off: nat, src: bytes)
    requires off + |src| <= b.Length
    modifies b
    ensures b[..] == old(b[..off]) + src + old(b[off + |src|..])
  {
    forall i | 0 <= i < |src| {
      b[off + i] := src[i];
    }
  }
}
