/** Bit strings, most significant bit first, and their grouping into symbols of w bits. */
module Bits {
  type bit = b: int | b == 0 || b == 1
  type bits = seq<bit>

  function Pow2(k: nat): (r: nat)
    ensures r > 0
  {
    if k == 0 then 1 else 2 * Pow2(k - 1)
  }

  lemma Pow2Small()
    ensures Pow2(0) == 1 && Pow2(1) == 2 && Pow2(2) == 4 && Pow2(3) == 8 && Pow2(4) == 16 && Pow2(5) == 32
    ensures Pow2(6) == 64 && Pow2(7) == 128 && Pow2(8) == 256 && Pow2(9) == 512 && Pow2(10) == 1024
    ensures Pow2(11) == 2048 && Pow2(12) == 4096
  {
  }

  function ToBits(v: nat, w: nat): (r: bits)
    ensures |r| == w
    decreases v, w
  {
    if w == 0 then [] else ToBits(v / 2, w - 1) + [v % 2]
  }

  function FromBits(b: bits): nat {
    if b == [] then 0 else 2 * FromBits(b[..|b| - 1]) + b[|b| - 1]
  }

  lemma {:induction false} FromBitsBound(b: bits)
    ensures FromBits(b) < Pow2(|b|)
  {
    if b == [] {
    } else {
      FromBitsBound(b[..|b| - 1]);
    }
  }

  lemma {:induction false} FromBitsOfToBits(v: nat, w: nat)
    requires v < Pow2(w)
    ensures FromBits(ToBits(v, w)) == v
    decreases w
  {
    if w == 0 {
    } else {
      FromBitsOfToBits(v / 2, w - 1);
      assert ToBits(v, w)[..w - 1] == ToBits(v / 2, w - 1);
    }
  }

  lemma {:induction false} ToBitsOfFromBits(b: bits)
    ensures ToBits(FromBits(b), |b|) == b
  {
    if b == [] {
    } else {
      ToBitsOfFromBits(b[..|b| - 1]);
      assert b == b[..|b| - 1] + [b[|b| - 1]];
    }
  }

  lemma {:induction false} FromBitsConcat(a: bits, b: bits)
    ensures FromBits(a + b) == FromBits(a) * Pow2(|b|) + FromBits(b)
  {
    if b == [] {
      assert a + b == a;
    } else {
      var b' := b[..|b| - 1];
      FromBitsConcat(a, b');
      assert (a + b)[..|a + b| - 1] == a + b';
      Double(FromBits(a), Pow2(|b'|));
    }
  }

  lemma Double(x: nat, p: nat)
    ensures 2 * (x * p) == x * (2 * p)
  {
  }

  /** The bits of all values, w bits each. */
  function Spread(vals: seq<nat>, w: nat): bits {
    if vals == [] then [] else Spread(vals[..|vals| - 1], w) + ToBits(vals[|vals| - 1], w)
  }

  /** Do these bits fall into n groups of w? */
  predicate Grouped(b: bits, w: nat, n: nat)
    decreases n, b
  {
    if n == 0 then b == [] else |b| >= w && Grouped(b[..|b| - w], w, n - 1)
  }

  lemma {:induction false} GroupedLength(b: bits, w: nat, n: nat)
    ensures Grouped(b, w, n) <==> |b| == n * w
    decreases n
  {
    if n == 0 {
    } else {
      Shorter(n, w);
      if |b| >= w {
        GroupedLength(b[..|b| - w], w, n - 1);
      }
    }
  }

  lemma Shorter(n: nat, w: nat)
    requires n > 0
    ensures (n - 1) * w == n * w - w && n * w >= w
  {
  }

  /** The n values that groups of w bits spell. */
  function Pack(b: bits, w: nat, n: nat): (r: seq<nat>)
    requires w > 0 && Grouped(b, w, n)
    ensures |r| == n
    decreases |b|
  {
    if n == 0 then [] else Pack(b[..|b| - w], w, n - 1) + [FromBits(b[|b| - w..])]
  }

  predicate Below(vals: seq<nat>, w: nat) {
    forall i :: 0 <= i < |vals| ==> vals[i] < Pow2(w)
  }

  lemma SpreadNothing(w: nat)
    ensures Spread([], w) == []
  {
  }

  lemma SpreadSnoc(vals: seq<nat>, v: nat, w: nat)
    ensures Spread(vals + [v], w) == Spread(vals, w) + ToBits(v, w)
  {
  }

  lemma {:induction false} SpreadGrouped(vals: seq<nat>, w: nat)
    ensures Grouped(Spread(vals, w), w, |vals|)
    ensures |Spread(vals, w)| == |vals| * w
  {
    if vals != [] {
      var front, b := vals[..|vals| - 1], Spread(vals, w);
      SpreadGrouped(front, w);
      assert b[..|b| - w] == Spread(front, w);
    }
    GroupedLength(Spread(vals, w), w, |vals|);
  }

  lemma {:induction false} PackOfSpread(vals: seq<nat>, w: nat)
    requires w > 0 && Below(vals, w)
    ensures Grouped(Spread(vals, w), w, |vals|)
    ensures Pack(Spread(vals, w), w, |vals|) == vals
  {
    hide FromBits, ToBits, Grouped;
    SpreadGrouped(vals, w);
    if vals == [] {
    } else {
      var front, last, b := vals[..|vals| - 1], vals[|vals| - 1], Spread(vals, w);
      PackOfSpread(front, w);
      assert b[..|b| - w] == Spread(front, w) && b[|b| - w..] == ToBits(last, w);
      FromBitsOfToBits(last, w);
      assert vals == front + [last];
    }
  }

  lemma {:induction false} SpreadOfPack(b: bits, w: nat, n: nat)
    requires w > 0 && Grouped(b, w, n)
    ensures Spread(Pack(b, w, n), w) == b
    decreases n
  {
    hide FromBits, ToBits, Spread;
    if n == 0 {
      SpreadNothing(w);
    } else {
      var front, last := b[..|b| - w], b[|b| - w..];
      SpreadOfPack(front, w, n - 1);
      SpreadSnoc(Pack(front, w, n - 1), FromBits(last), w);
      ToBitsOfFromBits(last);
      assert b == front + last;
    }
  }

  lemma {:induction false} PackBelow(b: bits, w: nat, n: nat)
    requires w > 0 && Grouped(b, w, n)
    ensures Below(Pack(b, w, n), w)
    decreases n
  {
    if n == 0 {
    } else {
      PackBelow(b[..|b| - w], w, n - 1);
      FromBitsBound(b[|b| - w..]);
    }
  }
}
