/** Python's integer bit operators (`&`, `^`, `>>`) on unbounded integers.
    Python reads a negative integer as an infinite two's-complement bit
    string; Dafny's `/` and `%` by 2 are floor division and a non-negative
    remainder, which peel off exactly those bits, so every operator below is
    defined by peeling one bit at a time. */
module Bits {

  function Abs(x: int): nat {
    if x < 0 then -x else x
  }

  /** 2 to the power n. */
  function Pow2(n: nat): (r: nat)
    ensures r >= 1
  {
    if n == 0 then 1 else 2 * Pow2(n - 1)
  }

  /** Python's `x >> n`: floor division by 2^n. */
  function Shr(x: int, n: nat): int
    decreases n
  {
    if n == 0 then x else Shr(x / 2, n - 1)
  }

  /** Bit i of x in Python's two's-complement reading. */
  function Bit(x: int, i: nat): (b: int)
    ensures b == 0 || b == 1
    decreases i
  {
    if i == 0 then x % 2 else Bit(x / 2, i - 1)
  }

  /** Python's `x & y`. */
  function And(x: int, y: int): int
    decreases Abs(x) + Abs(y)
  {
    if x == 0 || y == 0 then 0
    else if x == -1 then y
    else if y == -1 then x
    else 2 * And(x / 2, y / 2) + (if x % 2 == 1 && y % 2 == 1 then 1 else 0)
  }

  /** Python's `x ^ y`. */
  function Xor(x: int, y: int): int
    decreases Abs(x) + Abs(y)
  {
    if x == 0 then y
    else if y == 0 then x
    else if x == -1 then -1 - y
    else if y == -1 then -1 - x
    else 2 * Xor(x / 2, y / 2) + (if x % 2 != y % 2 then 1 else 0)
  }

  /** The number of set bits among bits 0 .. n-1 of x. */
  function CountBits(x: int, n: nat): nat {
    if n == 0 then 0 else CountBits(x, n - 1) + Bit(x, n - 1)
  }

  lemma Pow2Values()
    ensures Pow2(0) == 1 && Pow2(1) == 2 && Pow2(2) == 4 && Pow2(3) == 8
    ensures Pow2(4) == 16 && Pow2(8) == 256
    ensures Pow2(31) == 0x8000_0000 && Pow2(32) == 0x1_0000_0000
  {
    assert Pow2(4) == 16;
    assert Pow2(8) == 256;
    assert Pow2(12) == 4096;
    assert Pow2(16) == 65536;
    assert Pow2(20) == 1048576;
    assert Pow2(24) == 16777216;
    assert Pow2(28) == 268435456;
    assert Pow2(31) == 0x8000_0000;
  }

  lemma {:induction false} BitOfZero(i: nat)
    ensures Bit(0, i) == 0
  {
    if i > 0 { BitOfZero(i - 1); }
  }

  lemma {:induction false} BitOfMinusOne(i: nat)
    ensures Bit(-1, i) == 1
  {
    if i > 0 { BitOfMinusOne(i - 1); }
  }

  /** Bitwise complement: Python's `~y` is `-1 - y`. */
  lemma {:induction false} BitOfNot(y: int, i: nat)
    ensures Bit(-1 - y, i) == 1 - Bit(y, i)
    decreases i
  {
    if i > 0 {
      assert (-1 - y) / 2 == -1 - y / 2;
      BitOfNot(y / 2, i - 1);
    }
  }

  /** Bit i of a shifted value is bit i + k of the original. */
  lemma {:induction false} BitOfShr(x: int, k: nat, i: nat)
    ensures Bit(Shr(x, k), i) == Bit(x, i + k)
    decreases k
  {
    if k > 0 { BitOfShr(x / 2, k - 1, i); }
  }

  lemma {:induction false} BitOfAnd(x: int, y: int, i: nat)
    ensures Bit(And(x, y), i) == if Bit(x, i) == 1 && Bit(y, i) == 1 then 1 else 0
    decreases i
  {
    if x == 0 || y == 0 {
      BitOfZero(i);
    } else if x == -1 || y == -1 {
      BitOfMinusOne(i);
    } else if i > 0 {
      BitOfAnd(x / 2, y / 2, i - 1);
    }
  }

  lemma {:induction false} BitOfXor(x: int, y: int, i: nat)
    ensures Bit(Xor(x, y), i) == if Bit(x, i) != Bit(y, i) then 1 else 0
    decreases i
  {
    if x == 0 || y == 0 {
      BitOfZero(i);
    } else if x == -1 {
      BitOfMinusOne(i);
      BitOfNot(y, i);
    } else if y == -1 {
      BitOfMinusOne(i);
      BitOfNot(x, i);
    } else if i > 0 {
      BitOfXor(x / 2, y / 2, i - 1);
    }
  }

  /** Two integers with the same bits are equal. */
  lemma {:induction false} BitsDetermine(x: int, y: int)
    requires forall i: nat :: Bit(x, i) == Bit(y, i)
    ensures x == y
    decreases Abs(x) + Abs(y)
  {
    assert Bit(x, 0) == Bit(y, 0);
    if !((x == 0 || x == -1) && (y == 0 || y == -1)) {
      forall i: nat
        ensures Bit(x / 2, i) == Bit(y / 2, i)
      {
        assert Bit(x, i + 1) == Bit(y, i + 1);
      }
      BitsDetermine(x / 2, y / 2);
    }
  }

  /** The bits of Pow2(hi) - Pow2(lo) are exactly bits lo .. hi-1: every
      mask the oracle uses (0x4, 0xff, 0x8000_0000, 0xffff_fff0) is of this form. */
  lemma {:induction false} BitOfRange(lo: nat, hi: nat, i: nat)
    requires lo <= hi
    ensures Bit(Pow2(hi) - Pow2(lo), i) == if lo <= i < hi then 1 else 0
    decreases hi
  {
    if lo == hi {
      BitOfZero(i);
    } else if i > 0 {
      if lo > 0 {
        BitOfRange(lo - 1, hi - 1, i - 1);
      } else {
        BitOfRange(0, hi - 1, i - 1);
      }
    }
  }

  /** A non-negative mask bounds the result of `&`. */
  lemma {:induction false} AndBounds(x: int, y: int)
    requires 0 <= y
    ensures 0 <= And(x, y) <= y
    decreases Abs(x) + Abs(y)
  {
    if x != 0 && y != 0 && x != -1 && y != -1 {
      AndBounds(x / 2, y / 2);
    }
  }

  /** `x & 1` is bit 0 of x. */
  lemma AndOne(x: int)
    ensures And(x, 1) == Bit(x, 0)
  {
  }

  /** For a value below 2^(n+1), bit n is set exactly when the value is at least 2^n. */
  lemma {:induction false} TopBit(x: int, n: nat)
    requires 0 <= x < Pow2(n + 1)
    ensures Bit(x, n) == 1 <==> x >= Pow2(n)
  {
    if n > 0 {
      TopBit(x / 2, n - 1);
    }
  }

  /** Adding a multiple of 2^n leaves bits below n alone. */
  lemma {:induction false} BitIgnoresHigh(x: int, n: nat, k: int, i: nat)
    requires i < n
    ensures Bit(x + Pow2(n) * k, i) == Bit(x, i)
    decreases i
  {
    var t := Pow2(n - 1) * k;
    assert Pow2(n) * k == 2 * t;
    if i > 0 {
      assert (x + 2 * t) / 2 == x / 2 + t;
      BitIgnoresHigh(x / 2, n - 1, k, i - 1);
    }
  }

  lemma XorCommutes(x: int, y: int)
    ensures Xor(x, y) == Xor(y, x)
  {
    forall i: nat ensures Bit(Xor(x, y), i) == Bit(Xor(y, x), i) {
      BitOfXor(x, y, i);
      BitOfXor(y, x, i);
    }
    BitsDetermine(Xor(x, y), Xor(y, x));
  }

  lemma XorAssociates(x: int, y: int, z: int)
    ensures Xor(Xor(x, y), z) == Xor(x, Xor(y, z))
  {
    forall i: nat ensures Bit(Xor(Xor(x, y), z), i) == Bit(Xor(x, Xor(y, z)), i) {
      BitOfXor(Xor(x, y), z, i);
      BitOfXor(x, y, i);
      BitOfXor(x, Xor(y, z), i);
      BitOfXor(y, z, i);
    }
    BitsDetermine(Xor(Xor(x, y), z), Xor(x, Xor(y, z)));
  }

  /** Masking twice with the same mask is masking once (used for `&= 0xff`). */
  lemma AndIdempotent(x: int, m: int)
    ensures And(And(x, m), m) == And(x, m)
  {
    forall i: nat ensures Bit(And(And(x, m), m), i) == Bit(And(x, m), i) {
      BitOfAnd(And(x, m), m, i);
      BitOfAnd(x, m, i);
    }
    BitsDetermine(And(And(x, m), m), And(x, m));
  }

  /** Values that agree on bits 0 .. n-1 have as many set bits there. */
  lemma {:induction false} CountBitsAgree(x: int, y: int, n: nat)
    requires forall i: nat | i < n :: Bit(x, i) == Bit(y, i)
    ensures CountBits(x, n) == CountBits(y, n)
  {
    if n > 0 {
      CountBitsAgree(x, y, n - 1);
    }
  }
  lemma {:induction false} Pow2Monotone(lo: nat, hi: nat)
    requires lo <= hi
    ensures Pow2(lo) <= Pow2(hi)
    decreases hi
  {
    if lo < hi {
      Pow2Monotone(lo, hi - 1);
    }
  }

  lemma MulAtLeast(a: int, d: int)
    requires a >= 1 && d > 0
    ensures a * d >= d
  {
  }

  /** Quotient and remainder are the only pair with x == q * d + r and
      0 <= r < d. */
  lemma DivModUnique(x: int, d: int, q: int, r: int)
    requires d > 0 && x == q * d + r && 0 <= r < d
    ensures x % d == r && x / d == q
  {
    var q0 := x / d;
    var r0 := x % d;
    assert x == q0 * d + r0;
    if q0 > q {
      MulAtLeast(q0 - q, d);
      assert false;
    } else if q0 < q {
      MulAtLeast(q - q0, d);
      assert false;
    }
  }

  /** Splitting off bit 0: the remainder modulo 2p is bit 0 plus twice the
      remainder of the halved value modulo p. */
  lemma ModDoubleSplit(x: int, p: int)
    requires p > 0
    ensures x % (2 * p) == x % 2 + 2 * ((x / 2) % p)
  {
    var h := x / 2;
    var q := h / p;
    var r := h % p;
    assert h == q * p + r;
    assert x == q * (2 * p) + (2 * r + x % 2);
    DivModUnique(x, 2 * p, q, 2 * r + x % 2);
  }

  /** Masking with 2^n - 1 (0xff for n = 8) is reduction modulo 2^n, for
      negative x too. */
  lemma {:induction false} AndLowMask(x: int, n: nat)
    ensures And(x, Pow2(n) - 1) == x % Pow2(n)
    decreases n
  {
    if n > 0 && x != 0 && x != -1 {
      AndLowMask(x / 2, n - 1);
      ModDoubleSplit(x, Pow2(n - 1));
      assert (Pow2(n) - 1) / 2 == Pow2(n - 1) - 1;
      if n - 1 == 0 {
        assert Pow2(n) - 1 == 1;
      }
    }
  }

  /** Masking with an even mask clears bit 0 and masks the rest. */
  lemma AndEvenMask(x: int, h: int)
    requires x != 0 && x != -1 && h >= 1
    ensures And(x, 2 * h) == 2 * And(x / 2, h)
  {
    var y := 2 * h;
    assert y / 2 == h && y % 2 == 0;
  }

  /** Masking a value below 2^n with bits lo .. n-1 (0xfffffff0 for lo = 4
      and n = 32) rounds it down to a multiple of 2^lo. */
  lemma {:induction false} AndHighMask(x: int, n: nat, lo: nat)
    requires lo <= n && 0 <= x < Pow2(n)
    ensures And(x, Pow2(n) - Pow2(lo)) == x - x % Pow2(lo)
    decreases n
  {
    if lo == n {
      DivModUnique(x, Pow2(lo), 0, x);
    } else if lo == 0 {
      AndLowMask(x, n);
      DivModUnique(x, Pow2(n), 0, x);
    } else if x == 0 {
      DivModUnique(0, Pow2(lo), 0, 0);
    } else {
      var h := Pow2(n - 1);
      assert Pow2(n) == 2 * h;
      assert 0 <= x / 2 < h by {
        assert x == 2 * (x / 2) + x % 2;
      }
      AndHighMask(x / 2, n - 1, lo - 1);
      AndHighMaskStep(x, n, lo);
    }
  }

  /** One step of AndHighMask: from the halved value to the value. */
  lemma AndHighMaskStep(x: int, n: nat, lo: nat)
    requires 0 < lo < n && x != 0 && 0 <= x
    requires And(x / 2, Pow2(n - 1) - Pow2(lo - 1)) == x / 2 - (x / 2) % Pow2(lo - 1)
    ensures And(x, Pow2(n) - Pow2(lo)) == x - x % Pow2(lo)
  {
    var p := Pow2(lo - 1);
    Pow2Monotone(lo, n - 1);
    var h := Pow2(n - 1) - p;
    assert Pow2(lo) == 2 * p && Pow2(n) - Pow2(lo) == 2 * h;
    AndEvenMask(x, h);
    ModDoubleSplit(x, p);
    assert x - x % 2 == 2 * (x / 2);
  }
}
