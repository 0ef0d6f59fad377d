/** Machine words: Rust's `usize` on a 64-bit target, as a number in
    [0, 2^64), together with the bitwise operators the paging code applies
    to it (`&`, `|`, `!`, `<<`, `>>`). Each operator is defined once, bit by
    bit or by its arithmetic meaning. The lemmas below give the bits of `&`,
    `|` and `!`, the value of `1 << n`, and `x >> n` as a quotient; the
    paging constants are proved from those facts. */
module Bits {

  /** The number of bits in a usize. */
  const WORD_BITS: nat := 64

  /** 2^64: a usize is a number below it. */
  const WORD_MODULUS: nat := 0x1_0000_0000_0000_0000

  /** The largest usize, `usize::MAX`, the word with every bit set. */
  const USIZE_MAX: int := 0xFFFF_FFFF_FFFF_FFFF

  /** A usize. */
  type Usize = x: int | 0 <= x <= USIZE_MAX

  /** 2^n. */
  function Pow2(n: nat): (r: nat)
    ensures r >= 1
  {
    if n == 0 then 1 else 2 * Pow2(n - 1)
  }

  /** 2^(a+b) = 2^a * 2^b. */
  lemma {:induction false} Pow2Add(a: nat, b: nat)
    ensures Pow2(a + b) == Pow2(a) * Pow2(b)
    decreases a
  {
    if a > 0 {
      Pow2Add(a - 1, b);
    }
  }

  /** Powers of two grow strictly with the exponent. */
  lemma {:induction false} Pow2Increasing(a: nat, b: nat)
    requires a < b
    ensures Pow2(a) < Pow2(b)
    decreases b
  {
    if a < b - 1 {
      Pow2Increasing(a, b - 1);
    }
  }

  /** 2^8 = 256, the base of the larger powers below. */
  lemma Pow2Byte()
    ensures Pow2(8) == 256
  {
    assert Pow2(2) == 4;
    assert Pow2(4) == 16;
    Pow2Add(4, 4);
  }

  /** 2^32, half a word. */
  lemma Pow2Half()
    ensures Pow2(32) == 0x1_0000_0000
  {
    Pow2Byte();
    Pow2Add(8, 8);
    Pow2Add(16, 16);
  }

  /** 2^64 is the word modulus. */
  lemma Pow2Word()
    ensures Pow2(64) == WORD_MODULUS
  {
    Pow2Half();
    Pow2Add(32, 32);
  }

  /** Every power of two below 2^64 is a usize. */
  lemma Pow2IsWord(n: nat)
    requires n < WORD_BITS
    ensures Pow2(n) < WORD_MODULUS
  {
    Pow2Word();
    Pow2Increasing(n, 64);
  }

  /** Bit `i` of `x` is one. */
  predicate TestBit(x: nat, i: nat)
  {
    if i == 0 then x % 2 == 1 else TestBit(x / 2, i - 1)
  }

  /** Rust's `&`: bit by bit, one exactly where both operands have one. */
  function And(a: nat, b: nat): (r: nat)
    ensures r <= a && r <= b
    decreases a
  {
    if a == 0 || b == 0 then 0
    else 2 * And(a / 2, b / 2) + (if a % 2 == 1 && b % 2 == 1 then 1 else 0)
  }

  /** Rust's `|`: bit by bit, one where either operand has one. */
  function Or(a: nat, b: nat): (r: nat)
    ensures a <= r <= a + b
    decreases a + b
  {
    if a == 0 then b
    else if b == 0 then a
    else 2 * Or(a / 2, b / 2) + (if a % 2 == 1 || b % 2 == 1 then 1 else 0)
  }

  /** Rust's `!` on a usize: every one of the 64 bits flipped. */
  function Not(x: Usize): Usize
  {
    USIZE_MAX - x
  }

  /** Rust's `<<` on a usize: bits shifted out at the top are lost. A shift
      by 64 or more is an overflow, which Rust rejects in a constant. */
  function Shl(x: Usize, n: nat): Usize
    requires n < WORD_BITS
  {
    (x * Pow2(n)) % WORD_MODULUS
  }

  /** Rust's `>>` on a usize: each step drops the lowest bit. The shift
      amount is bounded as for `<<`. */
  function Shr(x: Usize, n: nat): Usize
    requires n < WORD_BITS
  {
    if n == 0 then x else Shr(x / 2, n - 1)
  }

  /** `x >> n` is the quotient of `x` by 2^n. */
  lemma {:induction false} ShrDivides(x: Usize, n: nat)
    requires n < WORD_BITS
    ensures Shr(x, n) == x / Pow2(n)
  {
    if n > 0 {
      ShrDivides(x / 2, n - 1);
      HalveThenQuotient(x, Pow2(n - 1), Pow2(n));
    }
  }

  /** `1 << n` is 2^n. */
  lemma OneShl(n: nat)
    requires n < WORD_BITS
    ensures Shl(1, n) == Pow2(n)
  {
    Pow2IsWord(n);
  }

  /** Zero has no bit set. */
  lemma {:induction false} ZeroBits(i: nat)
    ensures !TestBit(0, i)
    decreases i
  {
    if i > 0 {
      ZeroBits(i - 1);
    }
  }

  /** A bit of `a & b` is set exactly when it is set in both. */
  lemma {:induction false} AndBit(a: nat, b: nat, i: nat)
    ensures TestBit(And(a, b), i) == (TestBit(a, i) && TestBit(b, i))
    decreases i
  {
    if a == 0 || b == 0 {
      ZeroBits(i);
    } else if i > 0 {
      AndBit(a / 2, b / 2, i - 1);
    }
  }

  /** A bit of `a | b` is set exactly when it is set in either. */
  lemma {:induction false} OrBit(a: nat, b: nat, i: nat)
    ensures TestBit(Or(a, b), i) == (TestBit(a, i) || TestBit(b, i))
    decreases i
  {
    if a == 0 {
      ZeroBits(i);
    } else if b == 0 {
      ZeroBits(i);
    } else if i > 0 {
      OrBit(a / 2, b / 2, i - 1);
    }
  }

  /** Subtracting from 2^n - 1 flips each of the low `n` bits. */
  lemma {:induction false} ComplementBit(n: nat, x: nat, i: nat)
    requires x < Pow2(n) && i < n
    ensures TestBit(Pow2(n) - 1 - x, i) == !TestBit(x, i)
    decreases i
  {
    if i > 0 {
      ComplementBit(n - 1, x / 2, i - 1);
    }
  }

  /** `!x` flips every bit of the word. */
  lemma NotBit(x: Usize, i: nat)
    requires i < WORD_BITS
    ensures TestBit(Not(x), i) == !TestBit(x, i)
  {
    Pow2Word();
    ComplementBit(64, x, i);
  }

  /** 2^n has bit `n` set and no other. */
  lemma {:induction false} SingleBit(n: nat, i: nat)
    ensures TestBit(Pow2(n), i) == (i == n)
    decreases i
  {
    if n == 0 && i > 0 {
      ZeroBits(i - 1);
    } else if n > 0 && i > 0 {
      SingleBit(n - 1, i - 1);
    }
  }

  /** 2^n - 1 has exactly the bits below `n` set. */
  lemma {:induction false} LowBits(n: nat, i: nat)
    ensures TestBit(Pow2(n) - 1, i) == (i < n)
    decreases i
  {
    if n == 0 {
      ZeroBits(i);
    } else if i > 0 {
      LowBits(n - 1, i - 1);
    }
  }

  /** 2^hi - 2^lo has exactly the bits in `[lo, hi)` set. */
  lemma {:induction false} RangeBits(lo: nat, hi: nat, i: nat)
    requires lo <= hi
    ensures Pow2(lo) <= Pow2(hi)
    ensures TestBit(Pow2(hi) - Pow2(lo), i) == (lo <= i < hi)
    decreases lo
  {
    if lo == 0 {
      LowBits(hi, i);
    } else if i == 0 {
      RangeBits(lo - 1, hi - 1, 0);
    } else {
      RangeBits(lo - 1, hi - 1, i - 1);
    }
  }

  /** The word with every bit set has each of its 64 bits set. */
  lemma AllOnesBit(i: nat)
    requires i < WORD_BITS
    ensures TestBit(USIZE_MAX, i)
  {
    Pow2Word();
    LowBits(64, i);
  }

  /** A number below 2^n has no bit at or above `n`. */
  lemma {:induction false} HighBitsClear(n: nat, x: nat, i: nat)
    requires x < Pow2(n) && n <= i
    ensures !TestBit(x, i)
    decreases i
  {
    if n == 0 {
      ZeroBits(i);
    } else {
      HighBitsClear(n - 1, x / 2, i - 1);
    }
  }

  /** Two numbers below 2^n with the same low `n` bits are equal. */
  lemma {:induction false} BitsDetermine(n: nat, a: nat, b: nat)
    requires a < Pow2(n) && b < Pow2(n)
    requires forall i: nat :: i < n ==> TestBit(a, i) == TestBit(b, i)
    ensures a == b
    decreases n
  {
    if n > 0 {
      forall i: nat | i < n - 1
        ensures TestBit(a / 2, i) == TestBit(b / 2, i)
      {
        assert TestBit(a, i + 1) == TestBit(b, i + 1);
      }
      BitsDetermine(n - 1, a / 2, b / 2);
      assert TestBit(a, 0) == TestBit(b, 0);
    }
  }

  /** Two usizes with the same 64 bits are equal. */
  lemma WordsEqual(a: Usize, b: Usize)
    requires forall i: nat :: i < WORD_BITS ==> TestBit(a, i) == TestBit(b, i)
    ensures a == b
  {
    Pow2Word();
    BitsDetermine(64, a, b);
  }

  /** `|` keeps within n bits. */
  lemma {:induction false} OrBelow(n: nat, a: nat, b: nat)
    requires a < Pow2(n) && b < Pow2(n)
    ensures Or(a, b) < Pow2(n)
    decreases n
  {
    if n > 0 && a != 0 && b != 0 {
      OrBelow(n - 1, a / 2, b / 2);
    }
  }

  /** When two numbers share no bit, `|` adds them. */
  lemma {:induction false} DisjointOr(a: nat, b: nat)
    requires And(a, b) == 0
    ensures Or(a, b) == a + b
    decreases a
  {
    if a != 0 && b != 0 {
      DisjointOr(a / 2, b / 2);
    }
  }

  /** A multiple of 2^n shares no bit with a number below 2^n. */
  lemma {:induction false} ShiftedDisjoint(n: nat, high: nat, low: nat)
    requires low < Pow2(n)
    ensures And(high * Pow2(n), low) == 0
    decreases n
  {
    if n > 0 && high != 0 && low != 0 {
      var p := Pow2(n - 1);
      DoubleProduct(high, p, Pow2(n));
      ShiftedDisjoint(n - 1, high, low / 2);
      assert And(2 * (high * p), low) == 2 * And(high * p, low / 2);
    }
  }

  /** Doubling one factor doubles the product. */
  lemma DoubleProduct(a: nat, p: nat, d: nat)
    requires d == 2 * p
    ensures a * d == 2 * (a * p)
  {
  }

  /** `k * d + y` with `0 <= y < d` has quotient `k` and remainder `y`. */
  lemma DivModUnique(x: int, d: int, k: int, y: int)
    requires d > 0 && x == d * k + y && 0 <= y < d
    ensures x / d == k && x % d == y
  {
    var q, r := x / d, x % d;
    assert x == d * q + r;
    if k > q {
      MulAtLeast(d, k - q);
      assert false;
    } else if k < q {
      MulAtLeast(d, q - k);
      assert false;
    }
  }

  lemma MulAtLeast(d: nat, m: int)
    requires m >= 1
    ensures d * m >= d
  {
    assert d * m == d + d * (m - 1);
  }

  /** Dividing by 2p is halving and then dividing by p. */
  lemma HalveThenDivide(x: nat, p: nat, d: nat)
    requires p >= 1 && d == 2 * p
    ensures x % d == 2 * ((x / 2) % p) + x % 2
  {
    var q, r := x / 2, x % 2;
    var k, m := q / p, q % p;
    assert q == p * k + m;
    assert x == d * k + (2 * m + r);
    DivModUnique(x, d, k, 2 * m + r);
  }

  /** Dividing by 2p is halving and then dividing by p (the quotient). */
  lemma HalveThenQuotient(x: nat, p: nat, d: nat)
    requires p >= 1 && d == 2 * p
    ensures x / d == (x / 2) / p
  {
    var q, r := x / 2, x % 2;
    var k, m := q / p, q % p;
    assert q == p * k + m;
    assert x == d * k + (2 * m + r);
    DivModUnique(x, d, k, 2 * m + r);
  }

  /** One step of `&` with an odd mask `m = 2p - 1`: the low bit of `x` is
      kept, and the rest is `(x / 2) & (p - 1)` moved up a place. */
  lemma AndOddMask(x: nat, p: nat, m: nat)
    requires p >= 1 && x > 0 && m == 2 * p - 1
    ensures And(x, m) == 2 * And(x / 2, p - 1) + x % 2
  {
    assert m / 2 == p - 1 && m % 2 == 1;
  }

  /** `x & (2^n - 1)` keeps the low `n` bits: it is `x mod 2^n`. */
  lemma {:induction false} AndLowMask(x: nat, n: nat)
    ensures And(x, Pow2(n) - 1) == x % Pow2(n)
    decreases n
  {
    if n > 0 && x > 0 {
      AndLowMask(x / 2, n - 1);
    }
    AndLowMaskCases(x, n);
  }

  /** The base cases of AndLowMask: no bits kept, or nothing to keep. */
  lemma AndLowMaskBase(x: nat, n: nat)
    requires n == 0 || x == 0
    ensures And(x, Pow2(n) - 1) == x % Pow2(n)
  {
    if n == 0 {
      assert Pow2(n) == 1;
    } else {
      ZeroRemainder(Pow2(n));
    }
  }

  /** AndLowMask for `x` and `n`, given it for `x / 2` and `n - 1` when
      both are positive. */
  lemma AndLowMaskCases(x: nat, n: nat)
    requires n > 0 && x > 0 ==> And(x / 2, Pow2(n - 1) - 1) == (x / 2) % Pow2(n - 1)
    ensures And(x, Pow2(n) - 1) == x % Pow2(n)
  {
    if n > 0 && x > 0 {
      AndOddMask(x, Pow2(n - 1), Pow2(n) - 1);
      HalveThenDivide(x, Pow2(n - 1), Pow2(n));
    } else {
      AndLowMaskBase(x, n);
    }
  }

  /** Zero leaves no remainder. */
  lemma ZeroRemainder(d: nat)
    requires d >= 1
    ensures 0 % d == 0
  {
  }

  /** A word is the union of its parts inside and outside a mask. */
  lemma ComplementJoin(m: Usize, w: Usize)
    ensures w == Or(And(w, m), And(w, Not(m)))
  {
    Pow2Word();
    OrBelow(64, And(w, m), And(w, Not(m)));
    forall i: nat | i < WORD_BITS
      ensures TestBit(w, i) == TestBit(Or(And(w, m), And(w, Not(m))), i)
    {
      OrBit(And(w, m), And(w, Not(m)), i);
      AndBit(w, m, i);
      AndBit(w, Not(m), i);
      NotBit(m, i);
    }
    WordsEqual(w, Or(And(w, m), And(w, Not(m))));
  }

  /** Two words recover each other from their union through a mask and its
      complement exactly when each keeps to its own side of the mask. */
  lemma ComplementFields(m: Usize, inside: Usize, outside: Usize)
    ensures (And(inside, Not(m)) == 0 && And(outside, m) == 0) <==>
              (And(Or(inside, outside), m) == inside &&
               And(Or(inside, outside), Not(m)) == outside)
  {
    Pow2Word();
    OrBelow(64, inside, outside);
    var u := Or(inside, outside);
    if And(inside, Not(m)) == 0 && And(outside, m) == 0 {
      forall i: nat | i < WORD_BITS
        ensures TestBit(And(u, m), i) == TestBit(inside, i)
        ensures TestBit(And(u, Not(m)), i) == TestBit(outside, i)
      {
        AndBit(inside, Not(m), i);
        AndBit(outside, m, i);
        ZeroBits(i);
        OrBit(inside, outside, i);
        AndBit(u, m, i);
        AndBit(u, Not(m), i);
        NotBit(m, i);
      }
      WordsEqual(And(u, m), inside);
      WordsEqual(And(u, Not(m)), outside);
    }
    if And(u, m) == inside && And(u, Not(m)) == outside {
      forall i: nat | i < WORD_BITS
        ensures !TestBit(And(inside, Not(m)), i) && !TestBit(And(outside, m), i)
      {
        AndBit(inside, Not(m), i);
        AndBit(outside, m, i);
        AndBit(u, m, i);
        AndBit(u, Not(m), i);
        NotBit(m, i);
      }
      forall i: nat | i < WORD_BITS
        ensures TestBit(And(inside, Not(m)), i) == TestBit(0, i)
        ensures TestBit(And(outside, m), i) == TestBit(0, i)
      {
        ZeroBits(i);
      }
      WordsEqual(And(inside, Not(m)), 0);
      WordsEqual(And(outside, m), 0);
    }
  }
}
