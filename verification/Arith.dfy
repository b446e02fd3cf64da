/** Division, remainder and powers of two, as the other modules need them. */
module Arith {

  lemma MulLe(x: int, y: int, n: nat)
    requires x <= y
    ensures x * n <= y * n
  {
  }

  lemma MulNext(x: int, n: int)
    ensures (x + 1) * n == x * n + n
  {
  }

  /** The only way to write `a` as a multiple of `n` plus a remainder below `n`. */
  lemma DivModUnique(a: nat, q: nat, r: nat, n: nat)
    requires n > 0 && a == q * n + r && r < n
    ensures a / n == q && a % n == r
  {
    var q', r' := a / n, a % n;
    assert a == q' * n + r' && r' < n;
    if q < q' {
      MulLe(q + 1, q', n);
      MulNext(q, n);
      assert false;
    } else if q' < q {
      MulLe(q' + 1, q, n);
      MulNext(q', n);
      assert false;
    }
  }

  lemma DivModBasic(a: nat, n: nat)
    requires n > 0
    ensures a == (a / n) * n + a % n && a % n < n
  {
  }

  /** Stepping a position by `d < n` either stays in the lap or wraps once. */
  lemma ModStep(a: nat, d: nat, n: nat)
    requires n > 0 && d <= n
    ensures (a + d) % n == if a % n + d < n then a % n + d else a % n + d - n
  {
    var q, r := a / n, a % n;
    DivModBasic(a, n);
    MulNext(q, n);
    if r + d < n {
      DivModUnique(a + d, q, r + d, n);
    } else {
      DivModUnique(a + d, q + 1, r + d - n, n);
    }
  }

  /** Two tickets less than a lap apart share a position exactly when they are equal. */
  lemma ModNear(a: nat, b: nat, n: nat)
    requires n > 0 && a <= b < a + n
    ensures a % n == b % n <==> a == b
  {
    ModStep(a, b - a, n);
  }

  lemma ModNext(a: nat, n: nat)
    requires n > 0
    ensures (a % n + 1) % n == (a + 1) % n
    ensures (a + n) % n == a % n
  {
    ModStep(a, 1, n);
    ModStep(a, n, n);
    var r := a % n;
    if r + 1 == n {
      DivModUnique(r + 1, 1, 0, n);
    } else {
      DivModUnique(r + 1, 0, r + 1, n);
    }
  }

  lemma ModSmall(a: nat, n: nat)
    requires a < n
    ensures a % n == a && a / n == 0
  {
    DivModUnique(a, 0, a, n);
  }

  // Quotient and remainder by repeated subtraction: proofs about them need no multiplication.

  function Quot(a: nat, n: nat): (q: nat)
    requires n > 0
    decreases a
  {
    if a < n then 0 else 1 + Quot(a - n, n)
  }

  function Rem(a: nat, n: nat): (r: nat)
    requires n > 0
    ensures r < n && r <= a
    decreases a
  {
    if a < n then a else Rem(a - n, n)
  }

  /** They are the program's division and remainder. */
  lemma {:induction false} QuotRem(a: nat, n: nat)
    requires n > 0
    ensures Quot(a, n) == a / n && Rem(a, n) == a % n
  {
    if a < n {
      ModSmall(a, n);
    } else {
      QuotRem(a - n, n);
      DivModBasic(a - n, n);
      MulNext((a - n) / n, n);
      DivModUnique(a, (a - n) / n + 1, (a - n) % n, n);
    }
  }

  /** Within one block, offsets differ as positions do. */
  lemma {:induction false} QuotSame(a: nat, b: nat, n: nat)
    requires n > 0 && Quot(a, n) == Quot(b, n)
    ensures Rem(a, n) - Rem(b, n) == a - b
    decreases a
  {
    if a >= n && b >= n {
      QuotSame(a - n, b - n, n);
    }
  }

  lemma {:induction false} QuotStep(a: nat, d: nat, n: nat)
    requires n > 0 && Rem(a, n) + d < n
    ensures Quot(a + d, n) == Quot(a, n) && Rem(a + d, n) == Rem(a, n) + d
    decreases a
  {
    if a >= n {
      QuotStep(a - n, d, n);
    }
  }

  lemma {:induction false} RemAdd(a: nat, b: nat, n: nat)
    requires n > 0 && Rem(b, n) == 0
    ensures Rem(a + b, n) == Rem(a, n)
    decreases b
  {
    if b > 0 {
      RemAdd(a, b - n, n);
    }
  }

  /** A remainder by a multiple of `n` keeps the remainder by `n`. */
  lemma {:induction false} RemRem(a: nat, m: nat, n: nat)
    requires n > 0 && m > 0 && Rem(m, n) == 0
    ensures Rem(Rem(a, m), n) == Rem(a, n)
    decreases a
  {
    if a >= m {
      RemRem(a - m, m, n);
      RemAdd(a - m, m, n);
    }
  }

  /** The block of `a` ends no later than any multiple above `a`. */
  lemma {:induction false} RoundUp(a: nat, b: nat, n: nat)
    requires n > 0 && a < b && Rem(b, n) == 0
    ensures a - Rem(a, n) + n <= b
    decreases a
  {
    if a >= n {
      RoundUp(a - n, b - n, n);
    }
  }
}
