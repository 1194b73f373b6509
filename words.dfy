/**
 * The fixed-width unsigned integers of the C++ source. A `uint32_t` is an
 * integer below 2^32; multiplication, addition and left shifts reduce
 * modulo 2^32 as unsigned C++ arithmetic does, a right shift divides, and
 * the bitwise operators are defined one binary digit at a time over the 32
 * digits of a word. Bit j of a word is its (j+1)-th binary digit from the
 * least significant end.
 */
module Words {

  const Base: nat := 0x1_0000_0000

  type byte = x: int | 0 <= x < 0x100
  type u32 = x: int | 0 <= x < 0x1_0000_0000

  function Pow2(n: nat): (r: nat)
    ensures r >= 1
  {
    if n == 0 then 1 else 2 * Pow2(n - 1)
  }

  lemma {:induction false} Pow2Below(i: nat, n: nat)
    requires i < n
    ensures Pow2(i) < Pow2(n)
  {
    if i + 1 < n {
      Pow2Below(i, n - 1);
    }
  }

  lemma Pow2Width()
    ensures Pow2(32) == Base
  {
    assert Pow2(4) == 0x10;
    assert Pow2(8) == 0x100;
    assert Pow2(12) == 0x1000;
    assert Pow2(16) == 0x1_0000;
    assert Pow2(20) == 0x10_0000;
    assert Pow2(24) == 0x100_0000;
    assert Pow2(28) == 0x1000_0000;
  }

  /** Bit j of w. */
  predicate Bit(w: nat, j: nat)
  {
    if j == 0 then w % 2 == 1 else Bit(w / 2, j - 1)
  }

  /** The low n bits of a xor b, digit by digit. */
  function XorBits(a: nat, b: nat, n: nat): (r: nat)
    ensures r < Pow2(n)
  {
    if n == 0 then 0
    else (if a % 2 != b % 2 then 1 else 0) + 2 * XorBits(a / 2, b / 2, n - 1)
  }

  /** The low n bits of a | b. */
  function OrBits(a: nat, b: nat, n: nat): (r: nat)
    ensures r < Pow2(n)
  {
    if n == 0 then 0
    else (if a % 2 == 1 || b % 2 == 1 then 1 else 0) + 2 * OrBits(a / 2, b / 2, n - 1)
  }

  /** The low n bits of a & b. */
  function AndBits(a: nat, b: nat, n: nat): (r: nat)
    ensures r < Pow2(n)
  {
    if n == 0 then 0
    else (if a % 2 == 1 && b % 2 == 1 then 1 else 0) + 2 * AndBits(a / 2, b / 2, n - 1)
  }

  /** The low n bits of ~a. */
  function NotBits(a: nat, n: nat): (r: nat)
    ensures r < Pow2(n)
  {
    if n == 0 then 0
    else (if a % 2 == 1 then 0 else 1) + 2 * NotBits(a / 2, n - 1)
  }

  function Xor(a: u32, b: u32): u32
  {
    Pow2Width();
    XorBits(a, b, 32)
  }

  function Or(a: u32, b: u32): u32
  {
    Pow2Width();
    OrBits(a, b, 32)
  }

  function And(a: u32, b: u32): u32
  {
    Pow2Width();
    AndBits(a, b, 32)
  }

  function Not(a: u32): u32
  {
    Pow2Width();
    NotBits(a, 32)
  }

  /** a * b for uint32_t operands: the product modulo 2^32. */
  function Mul(a: u32, b: u32): u32
  {
    (a * b) % Base
  }

  /** a + b for uint32_t operands: the sum modulo 2^32. */
  function Add(a: u32, b: u32): u32
  {
    (a + b) % Base
  }

  /** a << s for a uint32_t a: each step doubles and drops bit 32. */
  function Shl(a: u32, s: nat): u32
    decreases s
  {
    if s == 0 then a else Shl((2 * a) % Base, s - 1)
  }

  /** a >> s for a uint32_t a: each step halves, dropping bit 0. */
  function Shr(a: u32, s: nat): u32
    decreases s
  {
    if s == 0 then a else Shr(a / 2, s - 1)
  }

  /** (x << r) | (x >> (32 - r)), the rotation the hash writes out by hand. */
  function Rotl(x: u32, r: nat): u32
    requires 0 < r < 32
  {
    Or(Shl(x, r), Shr(x, 32 - r))
  }

  // The bitwise operators, bit by bit.

  /** Halving drops bit 0 of a digit pair `low + 2 * high`. */
  lemma BitOfPair(low: nat, high: nat, j: nat)
    requires low < 2
    ensures Bit(low + 2 * high, j) == if j == 0 then low == 1 else Bit(high, j - 1)
  {
  }

  lemma {:induction false} BitOfXor(a: nat, b: nat, n: nat, j: nat)
    requires j < n
    ensures Bit(XorBits(a, b, n), j) == (Bit(a, j) != Bit(b, j))
  {
    var r := XorBits(a, b, n);
    if j == 0 {
      assert r % 2 == if a % 2 != b % 2 then 1 else 0;
    } else {
      assert r / 2 == XorBits(a / 2, b / 2, n - 1);
      BitOfXor(a / 2, b / 2, n - 1, j - 1);
    }
  }

  lemma {:induction false} BitOfOr(a: nat, b: nat, n: nat, j: nat)
    requires j < n
    ensures Bit(OrBits(a, b, n), j) == (Bit(a, j) || Bit(b, j))
  {
    BitOfPair(if a % 2 == 1 || b % 2 == 1 then 1 else 0, OrBits(a / 2, b / 2, n - 1), j);
    if j > 0 {
      BitOfOr(a / 2, b / 2, n - 1, j - 1);
    }
  }

  lemma {:induction false} BitOfAnd(a: nat, b: nat, n: nat, j: nat)
    requires j < n
    ensures Bit(AndBits(a, b, n), j) == (Bit(a, j) && Bit(b, j))
  {
    BitOfPair(if a % 2 == 1 && b % 2 == 1 then 1 else 0, AndBits(a / 2, b / 2, n - 1), j);
    if j > 0 {
      BitOfAnd(a / 2, b / 2, n - 1, j - 1);
    }
  }

  lemma {:induction false} BitOfNot(a: nat, n: nat, j: nat)
    requires j < n
    ensures Bit(NotBits(a, n), j) == !Bit(a, j)
  {
    BitOfPair(if a % 2 == 1 then 0 else 1, NotBits(a / 2, n - 1), j);
    if j > 0 {
      BitOfNot(a / 2, n - 1, j - 1);
    }
  }

  /** 2^i has bit i and no other. */
  lemma {:induction false} BitOfPow2(i: nat, j: nat)
    ensures Bit(Pow2(i), j) == (i == j)
  {
    if i == 0 {
      BitOfPair(1, 0, j);
      if j > 0 {
        BitOfZero(j - 1);
      }
    } else {
      BitOfPair(0, Pow2(i - 1), j);
      if j > 0 {
        BitOfPow2(i - 1, j - 1);
      }
    }
  }

  lemma {:induction false} BitOfZero(j: nat)
    ensures !Bit(0, j)
  {
    if j > 0 {
      BitOfZero(j - 1);
    }
  }

  /** Xoring the same word away again: a ^ b == a ^ c only for b == c. */
  lemma {:induction false} XorCancels(a: nat, b: nat, c: nat, n: nat)
    requires b < Pow2(n) && c < Pow2(n)
    requires XorBits(a, b, n) == XorBits(a, c, n)
    ensures b == c
  {
    if n > 0 {
      XorLowDigit(a, b, n);
      XorLowDigit(a, c, n);
      HalfBelow(b, n);
      HalfBelow(c, n);
      XorCancels(a / 2, b / 2, c / 2, n - 1);
      SameDigits(b, c);
    }
  }

  lemma XorLowDigit(a: nat, b: nat, n: nat)
    requires n > 0
    ensures XorBits(a, b, n) % 2 == (if a % 2 != b % 2 then 1 else 0)
    ensures XorBits(a, b, n) / 2 == XorBits(a / 2, b / 2, n - 1)
  {
  }

  lemma HalfBelow(b: nat, n: nat)
    requires n > 0 && b < Pow2(n)
    ensures b / 2 < Pow2(n - 1)
  {
  }

  lemma SameDigits(b: nat, c: nat)
    requires b % 2 == c % 2 && b / 2 == c / 2
    ensures b == c
  {
  }

  /** a & 2^b keeps bit b of a and clears the rest. */
  lemma {:induction false} AndPow2(a: nat, b: nat, n: nat)
    requires b < n
    ensures AndBits(a, Pow2(b), n) == if Bit(a, b) then Pow2(b) else 0
  {
    if b == 0 {
      AndZero(a / 2, n - 1);
    } else {
      AndPow2(a / 2, b - 1, n - 1);
    }
  }

  lemma {:induction false} AndZero(a: nat, n: nat)
    ensures AndBits(a, 0, n) == 0
  {
    if n > 0 {
      AndZero(a / 2, n - 1);
    }
  }
}
