/** A 32-bit shifting accumulator whose low bits are the pending bits of a stream. */
module Accumulator {
  import opened Bytes
  import opened Bits

  /** The low |pending| bits of the accumulator are the pending bits. */
  ghost predicate Holds(acc: u32, pending: bits) {
    acc % Pow2(|pending|) == FromBits(pending)
  }

  /** A left shift on u32 leaves the low bits free. */
  lemma ShiftFits(acc: u32)
    ensures (acc * 32) % 0x1_0000_0000 == 32 * (acc % 0x800_0000)
    ensures (acc * 256) % 0x1_0000_0000 == 256 * (acc % 0x100_0000)
  {
    LowWord(acc * 32, acc / 0x800_0000, 32 * (acc % 0x800_0000));
    LowWord(acc * 256, acc / 0x100_0000, 256 * (acc % 0x100_0000));
  }

  lemma LowWord(x: nat, q: nat, r: nat)
    requires x == q * 0x1_0000_0000 + r && r < 0x1_0000_0000
    ensures x % 0x1_0000_0000 == r
  {
  }

  /** `(acc << w) | v` on u32 for a w-bit v: what passes bit 31 is lost. */
  function ShiftIn(acc: u32, v: nat, w: nat): u32
    requires w == 5 || w == 8
    requires v < Pow2(w)
  {
    Pow2Small();
    ShiftFits(acc);
    if w == 5 then (acc * 32) % 0x1_0000_0000 + v else (acc * 256) % 0x1_0000_0000 + v
  }

  /** `(acc >> rest) & (2^w - 1)` */
  function TakeOut(acc: u32, rest: nat, w: nat): nat {
    (acc / Pow2(rest)) % Pow2(w)
  }

  lemma Grows(e: int, d: nat)
    requires e >= 1
    ensures e * d >= d
  {
  }

  lemma DivMod(x: int, q: int, d: nat, r: nat)
    requires r < d && x == q * d + r
    ensures x / d == q && x % d == r
  {
    var e := x / d - q;
    assert e * d == (x / d) * d - q * d;
    assert x == (x / d) * d + x % d;
    if e >= 1 {
      Grows(e, d);
    } else if e <= -1 {
      Grows(-e, d);
    }
  }

  lemma Product3(a: int, b: int, c: int)
    ensures a * b * c == a * (b * c) && (a + b) * c == a * c + b * c && (a - b) * c == a * c - b * c
  {
  }

  lemma UnderProduct(x: nat, p: nat, w: nat, v: nat)
    requires x < p && v < w
    ensures x * w + v < p * w
  {
    Product3(p, x, w);
    Grows(p - x, w);
  }

  /** Shifting left by a factor w and adding v < w, then reducing modulo p * w, whatever multiple
      of p * w the word size m drops on the way. */
  lemma ShiftInMod(a: nat, v: nat, p: nat, w: nat, k: nat, m: nat)
    requires p > 0 && v < w && m == k * (p * w) && k > 0
    ensures ((a * w) % m + v) % (p * w) == (a % p) * w + v
  {
    var d, q, x := p * w, a / p, a % p;
    UnderProduct(x, p, w, v);
    assert a * w == q * d + x * w by {
      assert a == q * p + x;
      Product3(q * p, x, w);
      Product3(q, p, w);
    }
    var j := (a * w) / m;
    assert (a * w) % m == (q - j * k) * d + x * w by {
      assert a * w == j * m + (a * w) % m;
      Product3(j, k, d);
      Product3(q, j * k, d);
    }
    DivMod((a * w) % m + v, q - j * k, d, x * w + v);
  }

  lemma TakeOutMod(a: nat, r: nat, w: nat)
    requires r > 0 && w > 0 && r * w > 0
    ensures (a / r) % w == (a % (r * w)) / r && a % r == (a % (r * w)) % r
  {
    var d := r * w;
    var q, y := a / d, a % d;
    var z, u := y / r, y % r;
    assert y == z * r + u;
    assert a == (q * w + z) * r + u by {
      assert a == q * d + y;
      Product3(q, w, r);
      Product3(q * w, z, r);
    }
    DivMod(a, q * w + z, r, u);
    if z > w {
      Product3(z, w, r);
      Grows(z - w, r);
    }
    DivMod(q * w + z, q, w, z);
  }

  lemma {:induction false} Pow2Add(a: nat, b: nat)
    ensures Pow2(a + b) == Pow2(a) * Pow2(b)
  {
    if b == 0 {
    } else {
      Pow2Add(a, b - 1);
      Double(Pow2(a), Pow2(b - 1));
    }
  }

  lemma Pow2Word()
    ensures Pow2(32) == 0x1_0000_0000
  {
    Pow2Small();
    Pow2Add(8, 8);
    Pow2Add(16, 16);
  }

  lemma ShiftInArith(acc: u32, k: nat, v: nat, w: nat)
    requires (w == 5 || w == 8) && k + w <= 12 && v < Pow2(w)
    ensures ShiftIn(acc, v, w) % Pow2(k + w) == (acc % Pow2(k)) * Pow2(w) + v
  {
    Pow2Small();
    Pow2Add(k, w);
    Pow2Add(32 - k - w, k + w);
    Pow2Word();
    ShiftInMod(acc, v, Pow2(k), Pow2(w), Pow2(32 - k - w), 0x1_0000_0000);
  }

  lemma ShiftInHolds(acc: u32, p: bits, v: nat, w: nat)
    requires Holds(acc, p) && (w == 5 || w == 8) && |p| + w <= 12 && v < Pow2(w)
    ensures Holds(ShiftIn(acc, v, w), p + ToBits(v, w))
  {
    ShiftInArith(acc, |p|, v, w);
    FromBitsConcat(p, ToBits(v, w));
    FromBitsOfToBits(v, w);
  }

  lemma TakeOutArith(acc: u32, k: nat, w: nat)
    requires (w == 5 || w == 8) && w <= k <= 12
    ensures TakeOut(acc, k - w, w) == (acc % Pow2(k)) / Pow2(k - w)
    ensures acc % Pow2(k - w) == (acc % Pow2(k)) % Pow2(k - w)
  {
    Pow2Small();
    Pow2Add(k - w, w);
    TakeOutMod(acc, Pow2(k - w), Pow2(w));
  }

  /** The top w pending bits come out; the others stay. */
  lemma TakeOutHolds(acc: u32, p: bits, w: nat)
    requires Holds(acc, p) && (w == 5 || w == 8) && w <= |p| <= 12
    ensures TakeOut(acc, |p| - w, w) == FromBits(p[..w])
    ensures Holds(acc, p[w..])
  {
    TakeOutArith(acc, |p|, w);
    assert p == p[..w] + p[w..];
    FromBitsConcat(p[..w], p[w..]);
    FromBitsBound(p[w..]);
    DivMod(FromBits(p), FromBits(p[..w]), Pow2(|p| - w), FromBits(p[w..]));
  }

  /** The final flush: fewer than five bits, left-aligned with zeros after them. */
  function Flush(acc: u32, k: nat): nat
    requires k < 5
  {
    ((acc * Pow2(5 - k)) % 0x1_0000_0000) % 32
  }

  lemma FlushArith(acc: u32, k: nat)
    requires k < 5
    ensures Flush(acc, k) == (acc % Pow2(k)) * Pow2(5 - k)
  {
    Pow2Small();
    Pow2Add(k, 5 - k);
    var p, q := Pow2(k), Pow2(5 - k);
    ShiftInMod(acc, 0, p, q, 0x800_0000, 0x1_0000_0000);
  }

  lemma FlushHolds(acc: u32, p: bits)
    requires Holds(acc, p) && |p| < 5
    ensures Flush(acc, |p|) == FromBits(p + ToBits(0, 5 - |p|))
  {
    FlushArith(acc, |p|);
    FromBitsConcat(p, ToBits(0, 5 - |p|));
    FromBitsOfToBits(0, 5 - |p|);
  }
}
