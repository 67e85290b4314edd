/** Bit lengths, bitwise and, and powers of two on natural numbers. */
module Bits {
  import opened Prelude

  /** `int.bit_length` */
  function BitLength(n: nat): nat {
    if n == 0 then 0 else 1 + BitLength(n / 2)
  }

  /** `a & b` */
  function BitAnd(a: nat, b: nat): nat {
    if a == 0 || b == 0 then 0 else 2 * BitAnd(a / 2, b / 2) + if a % 2 == 1 && b % 2 == 1 then 1 else 0
  }

  ghost predicate IsPow2(n: nat) {
    exists k: nat :: n == Pow2(k)
  }

  lemma {:induction false} BitLengthBounds(n: nat)
    requires n > 0
    ensures BitLength(n) >= 1 && Pow2(BitLength(n) - 1) <= n < Pow2(BitLength(n))
  {
    if n > 1 {
      BitLengthBounds(n / 2);
    }
  }

  lemma {:induction false} Pow2Grows(a: nat, b: nat)
    requires a < b
    ensures Pow2(a) < Pow2(b)
  {
    if a + 1 < b {
      Pow2Grows(a, b - 1);
    }
  }

  lemma {:induction false} Pow2Sum(a: nat, b: nat)
    ensures Pow2(a + b) == Pow2(a) * Pow2(b)
  {
    if a > 0 {
      Pow2Sum(a - 1, b);
      assert Pow2(a + b) == 2 * Pow2(a - 1 + b);
      assert Pow2(a) * Pow2(b) == 2 * (Pow2(a - 1) * Pow2(b));
    }
  }

  lemma Pow2AtMost(a: nat, b: nat)
    ensures a <= b <==> Pow2(a) <= Pow2(b)
  {
    if a < b {
      Pow2Grows(a, b);
    } else if b < a {
      Pow2Grows(b, a);
    }
  }

  /** The bit length is the only exponent whose power could be the number. */
  lemma PowerHasItsBitLength(n: nat, k: nat)
    requires n == Pow2(k)
    ensures BitLength(n) == k + 1
  {
    BitLengthBounds(n);
    Pow2AtMost(BitLength(n) - 1, k);
    Pow2AtMost(BitLength(n), k);
  }

  lemma {:induction false} AndItself(n: nat)
    ensures BitAnd(n, n) == n
  {
    if n > 0 {
      AndItself(n / 2);
    }
  }

  lemma {:induction false} AndPredecessor(n: nat)
    requires n > 0
    ensures BitAnd(n, n - 1) == 0 <==> n == Pow2(BitLength(n) - 1)
  {
    if n > 1 {
      var m := n / 2;
      assert BitLength(n) == 1 + BitLength(m) && BitLength(m) >= 1;
      if n % 2 == 0 {
        AndPredecessor(m);
        AndOfEven(m);
      } else {
        AndItself(m);
        AndOfOdd(m);
        assert Pow2(BitLength(n) - 1) == 2 * Pow2(BitLength(m) - 1);
      }
    }
  }

  lemma AndOfEven(m: nat)
    requires m > 0
    ensures BitAnd(2 * m, 2 * m - 1) == 2 * BitAnd(m, m - 1)
  {
    assert (2 * m - 1) / 2 == m - 1 && (2 * m) / 2 == m && (2 * m) % 2 == 0;
  }

  lemma AndOfOdd(m: nat)
    requires m > 0
    ensures BitAnd(2 * m + 1, 2 * m) == 2 * BitAnd(m, m)
  {
    assert (2 * m + 1) / 2 == m && (2 * m) / 2 == m && (2 * m) % 2 == 0;
  }

  /** `value & (value - 1) == 0` tests for powers of two. */
  lemma AndTestIsPow2(n: nat)
    requires n > 0
    ensures BitAnd(n, n - 1) == 0 <==> IsPow2(n)
  {
    AndPredecessor(n);
    if k: nat :| n == Pow2(k) {
      PowerHasItsBitLength(n, k);
    }
  }
}
