/** Integer logarithms by halving the range (include/bits.h) and the size classes built on them. */
module Bits {

  function Pow2(k: nat): (p: nat)
    ensures p > 0
  {
    if k == 0 then 1 else 2 * Pow2(k - 1)
  }

  lemma {:induction false} Pow2Mono(a: nat, b: nat)
    requires a < b
    ensures 2 * Pow2(a) <= Pow2(b)
  {
    if a + 1 < b {
      Pow2Mono(a, b - 1);
    }
  }

  /** v >> k */
  function Shr(v: nat, k: nat): (r: nat) {
    if k == 0 then v else Shr(v / 2, k - 1)
  }

  lemma {:induction false} ShrShr(v: nat, a: nat, b: nat)
    ensures Shr(Shr(v, a), b) == Shr(v, a + b)
  {
    if a > 0 {
      ShrShr(v / 2, a - 1, b);
    }
  }

  lemma {:induction false} ShrBounds(v: nat, a: nat, b: nat)
    ensures v < Pow2(a + b) <==> Shr(v, a) < Pow2(b)
  {
    if a > 0 {
      ShrBounds(v / 2, a - 1, b);
    }
  }

  /** What a shift by `k` leaves is 1 exactly when `k` is the position of the leading bit. */
  lemma ShrOne(v: nat, k: nat)
    ensures Shr(v, k) == 1 <==> Pow2(k) <= v < Pow2(k + 1)
  {
    ShrBounds(v, k, 0);
    ShrBounds(v, k, 1);
  }

  function Drop(v: nat, limit: nat, s: nat): (shift: nat) {
    if v > limit then s else 0
  }

  /** ulog2; the shifts are distinct bits, so the `|=` that collects them adds them. */
  function Ulog2(v: nat): (r: nat) {
    var s4 := Drop(v, 0xffff, 16);
    var v4 := Shr(v, s4);
    var s3 := Drop(v4, 0xff, 8);
    var v3 := Shr(v4, s3);
    var s2 := Drop(v3, 0xf, 4);
    var v2 := Shr(v3, s2);
    var s1 := Drop(v2, 0x3, 2);
    var v1 := Shr(v2, s1);
    s4 + s3 + s2 + s1 + Shr(v1, 1)
  }

  /** One halving: a positive value below 2^(2s) becomes a positive value below 2^s. */
  lemma DropStep(v: nat, s: nat, limit: nat)
    requires 0 < v < Pow2(s + s) && limit + 1 == Pow2(s)
    ensures 0 < Shr(v, Drop(v, limit, s)) < Pow2(s)
  {
    ShrBounds(v, s, s);
    ShrBounds(v, s, 0);
  }

  lemma Pow2Values()
    ensures Pow2(2) == 4 && Pow2(4) == 0x10 && Pow2(8) == 0x100 && Pow2(16) == 0x1_0000
  {
    assert Pow2(4) == 0x10;
    assert Pow2(8) == 0x100;
    assert Pow2(12) == 0x1000;
  }

  lemma Pow2Words()
    ensures Pow2(32) == 0x1_0000_0000 && Pow2(64) == 0x1_0000_0000_0000_0000
  {
    Pow2Values();
    assert Pow2(20) == 0x10_0000 && Pow2(24) == 0x100_0000 && Pow2(28) == 0x1000_0000;
    assert Pow2(32) == 0x1_0000_0000 && Pow2(36) == 0x10_0000_0000 && Pow2(40) == 0x100_0000_0000;
    assert Pow2(44) == 0x1000_0000_0000 && Pow2(48) == 0x1_0000_0000_0000 && Pow2(52) == 0x10_0000_0000_0000;
    assert Pow2(56) == 0x100_0000_0000_0000 && Pow2(60) == 0x1000_0000_0000_0000;
  }

  /** The last three halvings, on a value already below 2^8. */
  lemma LowHalvings(v: nat)
    requires 0 < v < 0x100
    ensures var s2 := Drop(v, 0xf, 4); var v2 := Shr(v, s2);
      var s1 := Drop(v2, 0x3, 2); var v1 := Shr(v2, s1);
      Shr(v, s2 + s1 + Shr(v1, 1)) == 1 && s2 + s1 + Shr(v1, 1) < 8
  {
    Pow2Values();
    var s2 := Drop(v, 0xf, 4);
    var v2 := Shr(v, s2);
    DropStep(v, 4, 0xf);
    var s1 := Drop(v2, 0x3, 2);
    var v1 := Shr(v2, s1);
    DropStep(v2, 2, 0x3);
    var s0 := Shr(v1, 1);
    assert Shr(v1, s0) == 1 && s0 <= 1;
    ShrShr(v2, s1, s0);
    ShrShr(v, s2, s1 + s0);
  }

  /** ulog2 shifts every positive 32-bit value down to its leading bit. */
  lemma Ulog2Leads(v: nat)
    requires 0 < v && Shr(v, 16) < 0x1_0000
    ensures Shr(v, Ulog2(v)) == 1 && Ulog2(v) < 32
  {
    Pow2Values();
    var s4 := Drop(v, 0xffff, 16);
    var v4 := Shr(v, s4);
    assert 0 < v4 < 0x1_0000 by { ShrBounds(v, 16, 0); }
    var s3 := Drop(v4, 0xff, 8);
    var v3 := Shr(v4, s3);
    DropStep(v4, 8, 0xff);
    LowHalvings(v3);
    var low := Ulog2(v) - s4 - s3;
    ShrShr(v4, s3, low);
    ShrShr(v, s4, s3 + low);
  }

  lemma Ulog2Floor(v: nat, w: nat)
    requires w == 16 && 1 <= v < Pow2(w + w)
    ensures Pow2(Ulog2(v)) <= v < Pow2(Ulog2(v) + 1) && Ulog2(v) < 32
  {
    ShrBounds(v, w, w);
    Pow2Values();
    Ulog2Leads(v);
    ShrOne(v, Ulog2(v));
  }

  /** So it is the floor of the base-2 logarithm. */
  lemma Ulog2Exact(v: nat)
    requires 1 <= v < 0x1_0000_0000
    ensures Pow2(Ulog2(v)) <= v < Pow2(Ulog2(v) + 1)
  {
    Pow2Words();
    Ulog2Floor(v, 16);
  }

  /** ulog2l */
  function Ulog2l(v: nat): (r: nat) {
    var hi := Shr(v, 32);
    if hi > 0 then Ulog2(hi) + 32 else Ulog2(v)
  }

  lemma Ulog2lFloor(v: nat, w: nat)
    requires w == 16 && 1 <= v < Pow2(w + w + w + w)
    ensures Pow2(Ulog2l(v)) <= v < Pow2(Ulog2l(v) + 1) && Ulog2l(v) < 64
  {
    Pow2Values();
    var hi := Shr(v, w + w);
    ShrBounds(v, w + w, w + w);
    if hi > 0 {
      ShrBounds(hi, w, w);
      Ulog2Leads(hi);
      ShrShr(v, w + w, Ulog2(hi));
      ShrOne(v, Ulog2l(v));
    } else {
      ShrBounds(v, w + w, 0);
      Ulog2Floor(v, w);
    }
  }

  /** The same for every positive 64-bit value. */
  lemma Ulog2lExact(v: nat)
    requires 1 <= v < 0x1_0000_0000_0000_0000
    ensures Pow2(Ulog2l(v)) <= v < Pow2(Ulog2l(v) + 1) && Ulog2l(v) < 64
  {
    Pow2Words();
    Ulog2lFloor(v, 16);
  }

  const MIN_BITS: nat := 3

  /** get_real_size_bits: rounds up to a power of two, at least 8. */
  function SizeBits(size: nat): (slot: nat)
    ensures slot >= MIN_BITS
  {
    var low := Ulog2l(size);
    var slot := if size != Pow2(low) then low + 1 else low;
    if slot > MIN_BITS then slot else MIN_BITS
  }

  /** The result names the least power of two that is at least the size and at least 8. */
  lemma SizeBitsLeast(size: nat, k: nat)
    requires 1 <= size < 0x1_0000_0000_0000_0000 && k >= MIN_BITS
    ensures SizeBits(size) <= k <==> size <= Pow2(k)
  {
    var low, slot := Ulog2l(size), SizeBits(size);
    Ulog2lExact(size);
    if low < k {
      Pow2Mono(low, k);
    } else if k < low {
      Pow2Mono(k, low);
    }
  }
}
