/** Machine words as bounded integers, and C's bit operators on them.

    `|` and `&` are defined digit by digit, so that the places where the sources
    use them as addition or as remainder are theorems and not modelling choices. */
module Bits {

  const TWO_32: nat := 0x1_0000_0000

  type byte = b: int | 0 <= b < 0x100
  type u16 = x: int | 0 <= x < 0x1_0000
  type u32 = x: int | 0 <= x < 0x1_0000_0000
  type Bit = b: int | 0 <= b < 2

  function Pow2(k: nat): (r: nat)
    ensures r > 0
  {
    if k == 0 then 1 else 2 * Pow2(k - 1)
  }

  lemma Pow2Step(k: nat)
    requires k > 0
    ensures Pow2(k) == 2 * Pow2(k - 1)
  {
  }

  function BitOr(a: nat, b: nat): nat {
    if a == 0 then b
    else if b == 0 then a
    else 2 * BitOr(a / 2, b / 2) + if a % 2 == 1 || b % 2 == 1 then 1 else 0
  }

  function BitAnd(a: nat, b: nat): nat {
    if a == 0 || b == 0 then 0
    else 2 * BitAnd(a / 2, b / 2) + if a % 2 == 1 && b % 2 == 1 then 1 else 0
  }

  /** `x << k` where no bit is lost. */
  function Shl(x: nat, k: nat): nat {
    if k == 0 then x else 2 * Shl(x, k - 1)
  }

  lemma {:induction false} ShlIsMul(x: nat, k: nat)
    ensures Shl(x, k) == x * Pow2(k)
  {
    if k > 0 {
      ShlIsMul(x, k - 1);
      assert x * Pow2(k) == 2 * (x * Pow2(k - 1));
    }
  }

  /** `x >> k`. */
  function Shr(x: nat, k: nat): nat {
    if k == 0 then x else Shr(x, k - 1) / 2
  }

  lemma {:induction false} ShrOfHalf(x: nat, k: nat)
    requires k > 0
    ensures Shr(x, k) == Shr(x / 2, k - 1)
  {
    if k > 1 {
      ShrOfHalf(x, k - 1);
    }
  }

  lemma {:induction false} ShrTwice(x: nat, j: nat, k: nat)
    ensures Shr(Shr(x, j), k) == Shr(x, j + k)
  {
    if k > 0 {
      ShrTwice(x, j, k - 1);
    }
  }

  /** Shifting out what was filled in below gives back the high part. */
  lemma {:induction false} ShrOfShl(high: nat, k: nat, low: nat)
    requires low < Pow2(k)
    ensures Shr(Shl(high, k) + low, k) == high
  {
    if k > 0 {
      ShrOfShl(high, k - 1, low / 2);
      ShrOfHalf(Shl(high, k) + low, k);
    }
  }

  /** Every word is its high part shifted back plus a remainder below 2^k. */
  lemma {:induction false} ShlOfShr(x: nat, k: nat)
    ensures Shl(Shr(x, k), k) <= x < Shl(Shr(x, k), k) + Pow2(k)
  {
    if k > 0 {
      ShrOfHalf(x, k);
      ShlOfShr(x / 2, k - 1);
    }
  }

  lemma {:induction false} ShrIsDiv(x: nat, k: nat)
    ensures Shr(x, k) == x / Pow2(k)
  {
    if k > 0 {
      ShrIsDiv(x, k - 1);
      DivPow2Step(x, k);
    }
  }

  /** `x << k` on a 32-bit word: the bits shifted out are lost. */
  function Shl32(x: u32, k: nat): (r: u32) {
    (x * Pow2(k)) % 0x1_0000_0000
  }

  /** `|` of words that share no digit is their sum. */
  lemma {:induction false} OrOfDisjointIsSum(a: nat, b: nat)
    requires BitAnd(a, b) == 0
    ensures BitOr(a, b) == a + b
  {
    if a != 0 && b != 0 {
      OrOfDisjointIsSum(a / 2, b / 2);
    }
  }

  lemma {:induction false} OrBelow(k: nat, bound: nat, a: nat, b: nat)
    requires bound == Pow2(k) && a < bound && b < bound
    ensures BitOr(a, b) < bound
  {
    if k > 0 && a != 0 && b != 0 {
      OrBelow(k - 1, bound / 2, a / 2, b / 2);
    }
  }

  lemma {:induction false} HighAndLowDisjoint(high: nat, k: nat, low: nat)
    requires low < Pow2(k)
    ensures BitAnd(high * Pow2(k), low) == 0
  {
    if k > 0 && high != 0 && low != 0 {
      assert high * Pow2(k) == 2 * (high * Pow2(k - 1));
      HighAndLowDisjoint(high, k - 1, low / 2);
    }
  }

  /** Filling the low `k` zero bits of a word with `|` adds to it. */
  lemma OrLow(high: nat, k: nat, low: nat)
    requires low < Pow2(k)
    ensures BitOr(high * Pow2(k), low) == high * Pow2(k) + low
  {
    HighAndLowDisjoint(high, k, low);
    OrOfDisjointIsSum(high * Pow2(k), low);
  }

  /** A mask of `k` ones takes the remainder modulo 2^k. */
  lemma {:induction false} AndMaskIsMod(a: nat, k: nat)
    ensures BitAnd(a, Pow2(k) - 1) == a % Pow2(k)
  {
    if k > 0 {
      AndMaskIsMod(a / 2, k - 1);
      ModHalves(a, k);
    }
  }

  lemma ModHalves(a: nat, k: nat)
    requires k > 0
    ensures a % Pow2(k) == 2 * ((a / 2) % Pow2(k - 1)) + a % 2
  {
    var p := Pow2(k - 1);
    var q, r := (a / 2) / p, (a / 2) % p;
    assert a == q * (2 * p) + (2 * r + a % 2);
    DivModUnique(a, 2 * p, q, 2 * r + a % 2);
  }

  /** A quotient and remainder pair within bounds is the quotient and remainder. */
  lemma DivModUnique(a: int, d: int, q: int, r: int)
    requires d > 0 && a == q * d + r && 0 <= r < d
    ensures a / d == q && a % d == r
  {
    var q', r' := a / d, a % d;
    assert a == q' * d + r';
    if q > q' {
      MulGap(q, q', d);
    } else if q < q' {
      MulGap(q', q, d);
    }
  }

  lemma MulGap(x: int, y: int, d: int)
    requires d > 0 && x > y
    ensures x * d >= y * d + d
  {
    var k := x - y - 1;
    assert k * d >= 0;
    assert (y + 1 + k) * d == y * d + d + k * d;
  }

  /** `|` with 2^k sets bit `k`, an addition where that bit was clear. */
  lemma {:induction false} OrClearBit(a: nat, k: nat)
    requires Shr(a, k) % 2 == 0
    ensures BitOr(a, Pow2(k)) == a + Pow2(k)
  {
    if k == 0 {
      assert BitOr(a / 2, 0) == a / 2;
    } else if a != 0 {
      ShrOfHalf(a, k);
      OrClearBit(a / 2, k - 1);
    }
  }

  lemma DivPow2Step(a: nat, k: nat)
    requires k > 0
    ensures a / Pow2(k) == (a / 2) / Pow2(k - 1)
    ensures a / Pow2(k) == (a / Pow2(k - 1)) / 2
  {
    DivTwice(a, Pow2(k - 1));
  }

  lemma DivTwice(a: nat, p: nat)
    requires p > 0
    ensures a / (2 * p) == (a / 2) / p
    ensures a / (2 * p) == (a / p) / 2
  {
    var q, r := a / (2 * p), a % (2 * p);
    assert a == q * (2 * p) + r;
    var qp := q * p;
    assert q * (2 * p) == 2 * qp;
    DivModUnique(a / 2, p, q, r / 2);
    if r < p {
      DivModUnique(a, p, 2 * q, r);
    } else {
      assert (2 * q + 1) * p == 2 * qp + p;
      DivModUnique(a, p, 2 * q + 1, r - p);
    }
  }

  lemma DoubledProduct(p: nat, x: nat)
    ensures 2 * p * x == 2 * (p * x)
  {
    assert p * x + p * x == (p + p) * x;
  }

  /** `&` with 2^k isolates bit `k`. */
  lemma {:induction false} AndSingleBit(a: nat, k: nat)
    ensures BitAnd(a, Pow2(k)) == Pow2(k) * ((a / Pow2(k)) % 2)
  {
    if k == 0 {
      assert BitAnd(a / 2, 0) == 0;
    } else if a != 0 {
      DivPow2Step(a, k);
      AndSingleBit(a / 2, k - 1);
      Pow2Step(k);
      DoubledProduct(Pow2(k - 1), (a / Pow2(k)) % 2);
    }
  }

  lemma {:induction false} Pow2Add(a: nat, b: nat)
    ensures Pow2(a + b) == Pow2(a) * Pow2(b)
  {
    if a > 0 {
      Pow2Add(a - 1, b);
    }
  }

  lemma {:induction false} Pow2Monotone(a: nat, b: nat)
    requires a <= b
    ensures Pow2(a) <= Pow2(b)
  {
    if a < b {
      Pow2Monotone(a, b - 1);
    }
  }

  lemma SmallPowers()
    ensures Pow2(0) == 1 && Pow2(1) == 2 && Pow2(2) == 4 && Pow2(3) == 8 && Pow2(4) == 16
    ensures Pow2(5) == 32 && Pow2(6) == 64 && Pow2(7) == 128 && Pow2(8) == 256
  {
  }

  lemma Pow2Of32()
    ensures Pow2(32) == TWO_32
  {
    SmallPowers();
    Pow2Add(8, 8);
    Pow2Add(16, 16);
  }
}
