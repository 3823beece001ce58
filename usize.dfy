/**
 * Facts about the 64-bit `usize` of the kernel's targets that the model
 * needs: its range, powers of two, Rust's `is_power_of_two` and the
 * release-build meaning of `1_usize << s`.
 */
module Usize {

  /** 2^64, one more than the largest `usize`. */
  const POW64: nat := 0x1_0000_0000_0000_0000

  function Pow2(n: nat): (r: nat)
    ensures r > 0
  {
    if n == 0 then 1 else 2 * Pow2(n - 1)
  }

  /** `usize::is_power_of_two`: exactly one bit is set; 0 is not a power of two. */
  predicate IsPowerOfTwo(n: nat)
    decreases n
  {
    n == 1 || (n > 1 && n % 2 == 0 && IsPowerOfTwo(n / 2))
  }

  lemma {:induction false} PowerOfTwoHasExponent(n: nat)
    requires IsPowerOfTwo(n)
    ensures exists k: nat :: Pow2(k) == n
    decreases n
  {
    if n == 1 {
      assert Pow2(0) == 1;
    } else {
      PowerOfTwoHasExponent(n / 2);
      var k: nat :| Pow2(k) == n / 2;
      assert Pow2(k + 1) == n;
    }
  }

  lemma {:induction false} Pow2IsPowerOfTwo(k: nat)
    ensures IsPowerOfTwo(Pow2(k))
  {
    if k > 0 {
      Pow2IsPowerOfTwo(k - 1);
      assert Pow2(k) / 2 == Pow2(k - 1);
    }
  }

  /** `is_power_of_two` holds exactly of the numbers 2^k. */
  lemma PowerOfTwoIff(n: nat)
    ensures IsPowerOfTwo(n) <==> exists k: nat :: Pow2(k) == n
  {
    if IsPowerOfTwo(n) {
      PowerOfTwoHasExponent(n);
    }
    if exists k: nat :: Pow2(k) == n {
      var k: nat :| Pow2(k) == n;
      Pow2IsPowerOfTwo(k);
    }
  }

  /**
   * `1_usize << s` in a release build: Rust masks the shift amount to its
   * low six bits, so shifting by 64 or more shifts by `s % 64`.
   */
  function Shl1(s: nat): (r: nat)
    ensures r > 0
    ensures s < 64 ==> r == Pow2(s)
  {
    Pow2(s % 64)
  }

  /** Multiplying by the same factor preserves `<=`. */
  lemma MulMono(m: nat, n: nat, p: nat)
    requires m <= n
    ensures m * p <= n * p
  {
  }

  /** Euclidean division is unique: `x == q * a + m` with `0 <= m < a` fixes `x / a` and `x % a`. */
  lemma ModUnique(x: nat, a: nat, q: nat, m: nat)
    requires a > 0 && m < a && x == q * a + m
    ensures x / a == q && x % a == m
  {
    var q0, m0 := x / a, x % a;
    assert x == q0 * a + m0;
    if q0 > q {
      MulMono(1, q0 - q, a);
    } else if q0 < q {
      MulMono(1, q - q0, a);
    }
  }
}
