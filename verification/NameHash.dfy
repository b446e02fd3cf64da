/**
 The arithmetic of the name hash (userfs/include/userfs_dentry_hash.h): what `And`, `Xor` and one turn of the hash are on
 32-bit words, bit by bit.
 */
module NameHash {
  import opened Common
  import opened Arith
  import opened Bits
  import opened DentryHash

  /** Bit `i` of a number. */
  predicate Bit(a: nat, i: nat) {
    Shr(a, i) % 2 == 1
  }

  lemma {:induction false} AndBits(a: nat, b: nat, i: nat)
    ensures Bit(And(a, b), i) <==> Bit(a, i) && Bit(b, i)
    decreases i
  {
    ZeroBits(i);
    if i > 0 && a > 0 {
      AndBits(a / 2, b / 2, i - 1);
    }
  }

  lemma {:induction false} XorBits(a: nat, b: nat, i: nat)
    ensures Bit(Xor(a, b), i) <==> Bit(a, i) != Bit(b, i)
    decreases i
  {
    ZeroBits(i);
    if i > 0 && (a > 0 || b > 0) {
      XorBits(a / 2, b / 2, i - 1);
    }
  }

  lemma {:induction false} ZeroBits(i: nat)
    ensures !Bit(0, i)
  {
    if i > 0 {
      ZeroBits(i - 1);
    }
  }

  /** Masking with the highest bit tests it. */
  lemma {:induction false} TopBit(a: nat, k: nat)
    requires a < Pow2(k + 1)
    ensures And(a, Pow2(k)) != 0 <==> a >= Pow2(k)
    decreases k
  {
    if k == 0 {
      assert Pow2(1) == 2;
    } else if a > 0 {
      TopBit(a / 2, k - 1);
    }
  }

  lemma {:induction false} XorBound(a: nat, b: nat, k: nat)
    requires a < Pow2(k) && b < Pow2(k)
    ensures Xor(a, b) < Pow2(k)
    decreases k
  {
    if k > 0 {
      XorBound(a / 2, b / 2, k - 1);
    }
  }

  /**
   One turn of the hash in 32-bit arithmetic: the sum is cut to 32 bits, and where its top bit is set 0x7fffffff is
   subtracted; neither the product nor the exclusive or leaves 32 bits.
   */
  lemma HashStepIs(hash0: nat, hash1: nat, c: Char)
    requires hash0 < WORD && hash1 < WORD
    ensures c * 7152373 < 0x8000_0000 && Xor(hash0, c * 7152373) < WORD
    ensures var h := (hash1 + Xor(hash0, c * 7152373)) % WORD;
      HashStep(hash0, hash1, c) == if And(h, 0x8000_0000) != 0 then (h - 0x7fff_ffff) % WORD else h
  {
    XorInWord(hash0, c * 7152373, 32);
    TopOfWord((hash1 + Xor(hash0, c * 7152373)) % WORD, 31);
  }

  lemma XorInWord(a: nat, b: nat, k: nat)
    requires k == 32 && a < WORD && b < WORD
    ensures Xor(a, b) < WORD
  {
    Pow2Words();
    XorBound(a, b, k);
  }

  lemma TopOfWord(h: nat, k: nat)
    requires k == 31 && h < WORD
    ensures And(h, 0x8000_0000) != 0 <==> h >= 0x8000_0000
  {
    Pow2Words();
    assert Pow2(k + 1) == 2 * Pow2(k);
    TopBit(h, k);
  }

  /** With a power of two of buckets, the bucket is the remainder of the hash. */
  lemma BucketIsRemainder(name: Name, k: nat)
    ensures Bucket(name, Pow2(k)) == Hash(name) % Pow2(k)
  {
    MaskIsRemainder(Hash(name), k);
  }

  lemma {:induction false} MaskIsRemainder(h: nat, k: nat)
    ensures And(h, Pow2(k) - 1) == h % Pow2(k)
    decreases k
  {
    if k == 0 {
      AndZero(h);
    } else {
      MaskIsRemainder(h / 2, k - 1);
      AndOnes(h, Pow2(k - 1));
      HalfRemainder(h, Pow2(k - 1));
    }
  }

  lemma AndZero(a: nat)
    ensures And(a, 0) == 0
  {
  }

  lemma AndOnes(a: nat, p: nat)
    requires p > 0
    ensures And(a, 2 * p - 1) == 2 * And(a / 2, p - 1) + a % 2
  {
    assert (2 * p - 1) / 2 == p - 1 && (2 * p - 1) % 2 == 1;
    if a == 0 {
      assert And(0, p - 1) == 0;
    }
  }

  lemma HalfRemainder(a: nat, p: nat)
    requires p > 0
    ensures a % (2 * p) == 2 * ((a / 2) % p) + a % 2
  {
    var h := a / 2;
    var q, r := h / p, h % p;
    DivModBasic(h, p);
    assert q * (2 * p) == 2 * (q * p);
    DivModUnique(a, q, 2 * r + a % 2, 2 * p);
  }
}
