/** Unsigned machine words as naturals, with C's bitwise operators defined on binary digits.

    `AndIsBitwise`, `OrIsBitwise` and `NotIsBitwise` show that they are the bit-by-bit
    operators and the only ones; the `Split` and `Field` lemmas relate them to division
    and remainder, which is what the other modules use. */
module Bits {

  type U32 = x: nat | x < 0x1_0000_0000
  type U64 = x: nat | x < 0x1_0000_0000_0000_0000
  type Byte = x: nat | x < 0x100

  function Pow2(k: nat): (p: nat)
    ensures p > 0
  {
    if k == 0 then 1 else 2 * Pow2(k - 1)
  }

  /** Digit `i` of `a`. */
  predicate Bit(a: nat, i: nat) {
    if i == 0 then a % 2 == 1 else Bit(a / 2, i - 1)
  }

  function And(a: nat, b: nat): nat
    decreases a + b
  {
    if a == 0 && b == 0 then 0
    else 2 * And(a / 2, b / 2) + (if a % 2 == 1 && b % 2 == 1 then 1 else 0)
  }

  function Or(a: nat, b: nat): nat
    decreases a + b
  {
    if a == 0 && b == 0 then 0
    else 2 * Or(a / 2, b / 2) + (if a % 2 == 1 || b % 2 == 1 then 1 else 0)
  }

  /** `~m` in a `w`-bit type. */
  function Not(w: nat, m: nat): nat
    requires m < Pow2(w)
  {
    Pow2(w) - 1 - m
  }

  /** `x << k` in a `w`-bit unsigned type. */
  function Shl(w: nat, x: nat, k: nat): nat {
    (x * Pow2(k)) % Pow2(w)
  }

  function Quo(x: nat, d: nat): nat
    requires d > 0
  {
    x / d
  }

  function Rem(x: nat, d: nat): nat
    requires d > 0
  {
    x % d
  }

  /** `x >> k` of an unsigned value. */
  function Shr(x: nat, k: nat): nat {
    Quo(x, Pow2(k))
  }

  /** The low `k` digits. */
  function Low(x: nat, k: nat): nat {
    Rem(x, Pow2(k))
  }

  // ----- the operators digit by digit

  /** One digit of `&`. */
  lemma AndStep(a: nat, b: nat)
    ensures And(a, b) / 2 == And(a / 2, b / 2)
    ensures And(a, b) % 2 == 1 <==> a % 2 == 1 && b % 2 == 1
  {
  }

  /** One digit of `|`. */
  lemma OrStep(a: nat, b: nat)
    ensures Or(a, b) / 2 == Or(a / 2, b / 2)
    ensures Or(a, b) % 2 == 1 <==> a % 2 == 1 || b % 2 == 1
  {
  }

  lemma {:induction false} BitOfAnd(a: nat, b: nat, i: nat)
    ensures Bit(And(a, b), i) <==> Bit(a, i) && Bit(b, i)
    decreases i
  {
    var c := And(a, b);
    AndStep(a, b);
    if i > 0 {
      BitOfAnd(a / 2, b / 2, i - 1);
      assert Bit(c, i) == Bit(c / 2, i - 1);
    }
  }

  lemma {:induction false} BitOfOr(a: nat, b: nat, i: nat)
    ensures Bit(Or(a, b), i) <==> Bit(a, i) || Bit(b, i)
    decreases i
  {
    var c := Or(a, b);
    OrStep(a, b);
    if i > 0 {
      BitOfOr(a / 2, b / 2, i - 1);
      assert Bit(c, i) == Bit(c / 2, i - 1);
    }
  }

  lemma {:induction false} BitOfNot(w: nat, m: nat, i: nat)
    requires m < Pow2(w)
    ensures Bit(Not(w, m), i) <==> i < w && !Bit(m, i)
    decreases w
  {
    if w == 0 {
      BitOfZero(i);
    } else if i > 0 {
      assert Not(w, m) / 2 == Not(w - 1, m / 2);
      BitOfNot(w - 1, m / 2, i - 1);
    }
  }

  lemma {:induction false} BitOfZero(i: nat)
    ensures !Bit(0, i)
  {
    if i > 0 {
      BitOfZero(i - 1);
    }
  }

  /** A word is determined by its digits. */
  lemma {:induction false} SameBits(a: nat, b: nat)
    requires forall i: nat :: Bit(a, i) == Bit(b, i)
    ensures a == b
    decreases a + b
  {
    if a + b > 0 {
      assert Bit(a, 0) == Bit(b, 0);
      forall i: nat
        ensures Bit(a / 2, i) == Bit(b / 2, i)
      {
        assert Bit(a, i + 1) == Bit(b, i + 1);
      }
      SameBits(a / 2, b / 2);
    }
  }

  ghost predicate AndDigits(a: nat, b: nat, c: nat) {
    forall i: nat :: Bit(c, i) <==> Bit(a, i) && Bit(b, i)
  }

  /** `a & b` is the one word whose digits are set where those of both are. */
  lemma AndIsBitwise(a: nat, b: nat, c: nat)
    ensures c == And(a, b) <==> AndDigits(a, b, c)
  {
    hide And;
    if c == And(a, b) {
      forall i: nat
        ensures Bit(c, i) <==> Bit(a, i) && Bit(b, i)
      {
        BitOfAnd(a, b, i);
      }
    } else if AndDigits(a, b, c) {
      forall i: nat
        ensures Bit(c, i) == Bit(And(a, b), i)
      {
        BitOfAnd(a, b, i);
      }
      SameBits(c, And(a, b));
    }
  }

  ghost predicate OrDigits(a: nat, b: nat, c: nat) {
    forall i: nat :: Bit(c, i) <==> Bit(a, i) || Bit(b, i)
  }

  /** `a | b` is the one word whose digits are set where those of either are. */
  lemma OrIsBitwise(a: nat, b: nat, c: nat)
    ensures c == Or(a, b) <==> OrDigits(a, b, c)
  {
    hide Or;
    if c == Or(a, b) {
      forall i: nat
        ensures Bit(c, i) <==> Bit(a, i) || Bit(b, i)
      {
        BitOfOr(a, b, i);
      }
    } else if OrDigits(a, b, c) {
      forall i: nat
        ensures Bit(c, i) == Bit(Or(a, b), i)
      {
        BitOfOr(a, b, i);
      }
      SameBits(c, Or(a, b));
    }
  }

  ghost predicate NotDigits(w: nat, m: nat, c: nat) {
    forall i: nat :: Bit(c, i) <==> i < w && !Bit(m, i)
  }

  /** `~m` in a `w`-bit type is the one word whose digits below `w` are the opposite of
      those of `m`, and that has none above. */
  lemma NotIsBitwise(w: nat, m: nat, c: nat)
    requires m < Pow2(w)
    ensures c == Not(w, m) <==> NotDigits(w, m, c)
  {
    hide Not;
    if c == Not(w, m) {
      forall i: nat
        ensures Bit(c, i) <==> i < w && !Bit(m, i)
      {
        BitOfNot(w, m, i);
      }
    } else if NotDigits(w, m, c) {
      forall i: nat
        ensures Bit(c, i) == Bit(Not(w, m), i)
      {
        BitOfNot(w, m, i);
      }
      SameBits(c, Not(w, m));
    }
  }

  // ----- disjoint high and low parts

  /** The word with `hi` above digit `k` and the low `k` digits of `lo` below it. */
  function Cat(k: nat, hi: nat, lo: nat): nat {
    if k == 0 then hi else 2 * Cat(k - 1, hi, lo / 2) + lo % 2
  }

  lemma MulDouble(h: int, p: int)
    ensures h * (2 * p) == 2 * (h * p)
  {
  }

  lemma {:induction false} CatHigh(k: nat, hi: nat)
    ensures Cat(k, hi, 0) == hi * Pow2(k)
  {
    if k > 0 {
      CatHigh(k - 1, hi);
      MulDouble(hi, Pow2(k - 1));
    }
  }

  lemma {:induction false} CatLow(k: nat, lo: nat)
    requires lo < Pow2(k)
    ensures Cat(k, 0, lo) == lo
  {
    if k > 0 {
      CatLow(k - 1, lo / 2);
    }
  }

  lemma {:induction false} CatAdd(k: nat, hi: nat, lo: nat)
    ensures Cat(k, hi, lo) == Cat(k, hi, 0) + Cat(k, 0, lo)
  {
    if k > 0 {
      CatAdd(k - 1, hi, lo / 2);
    }
  }

  lemma CatIsSum(k: nat, hi: nat, lo: nat)
    requires lo < Pow2(k)
    ensures Cat(k, hi, lo) == hi * Pow2(k) + lo
  {
    CatAdd(k, hi, lo);
    CatHigh(k, hi);
    CatLow(k, lo);
  }

  lemma CatStep(k: nat, hi: nat, lo: nat)
    requires k > 0
    ensures Cat(k, hi, lo) / 2 == Cat(k - 1, hi, lo / 2) && Cat(k, hi, lo) % 2 == lo % 2
  {
  }

  lemma {:induction false} OrCat(k: nat, a1: nat, a0: nat, b1: nat, b0: nat)
    requires a0 < Pow2(k) && b0 < Pow2(k)
    ensures Or(Cat(k, a1, a0), Cat(k, b1, b0)) == Cat(k, Or(a1, b1), Or(a0, b0))
    ensures Or(a0, b0) < Pow2(k)
  {
    if k > 0 {
      var a, b, c := Cat(k, a1, a0), Cat(k, b1, b0), Or(a0, b0);
      OrCat(k - 1, a1, a0 / 2, b1, b0 / 2);
      OrStep(a, b);
      OrStep(a0, b0);
      CatStep(k, a1, a0);
      CatStep(k, b1, b0);
      CatStep(k, Or(a1, b1), c);
    }
  }

  lemma {:induction false} AndCat(k: nat, a1: nat, a0: nat, b1: nat, b0: nat)
    requires a0 < Pow2(k) && b0 < Pow2(k)
    ensures And(Cat(k, a1, a0), Cat(k, b1, b0)) == Cat(k, And(a1, b1), And(a0, b0))
    ensures And(a0, b0) < Pow2(k)
  {
    if k > 0 {
      var a, b, c := Cat(k, a1, a0), Cat(k, b1, b0), And(a0, b0);
      AndCat(k - 1, a1, a0 / 2, b1, b0 / 2);
      AndStep(a, b);
      AndStep(a0, b0);
      CatStep(k, a1, a0);
      CatStep(k, b1, b0);
      CatStep(k, And(a1, b1), c);
    }
  }

  /** `|` acts separately on the digits above and below position `k`. */
  lemma OrSplit(k: nat, a1: nat, a0: nat, b1: nat, b0: nat)
    requires a0 < Pow2(k) && b0 < Pow2(k)
    ensures Or(a1 * Pow2(k) + a0, b1 * Pow2(k) + b0) == Or(a1, b1) * Pow2(k) + Or(a0, b0)
    ensures Or(a0, b0) < Pow2(k)
  {
    OrCat(k, a1, a0, b1, b0);
    CatIsSum(k, a1, a0);
    CatIsSum(k, b1, b0);
    CatIsSum(k, Or(a1, b1), Or(a0, b0));
  }

  /** `&` acts separately on the digits above and below position `k`. */
  lemma AndSplit(k: nat, a1: nat, a0: nat, b1: nat, b0: nat)
    requires a0 < Pow2(k) && b0 < Pow2(k)
    ensures And(a1 * Pow2(k) + a0, b1 * Pow2(k) + b0) == And(a1, b1) * Pow2(k) + And(a0, b0)
    ensures And(a0, b0) < Pow2(k)
  {
    AndCat(k, a1, a0, b1, b0);
    CatIsSum(k, a1, a0);
    CatIsSum(k, b1, b0);
    CatIsSum(k, And(a1, b1), And(a0, b0));
  }

  lemma {:induction false} OrZero(a: nat)
    ensures Or(a, 0) == a && Or(0, a) == a
  {
    if a > 0 {
      OrZero(a / 2);
    }
  }

  lemma {:induction false} OrAssoc(a: nat, b: nat, c: nat)
    ensures Or(Or(a, b), c) == Or(a, Or(b, c))
    decreases a + b + c
  {
    if a + b + c > 0 {
      OrAssoc(a / 2, b / 2, c / 2);
      OrStep(a, b);
      OrStep(b, c);
      OrStep(Or(a, b), c);
      OrStep(a, Or(b, c));
    }
  }

  lemma {:induction false} AndZero(a: nat)
    ensures And(a, 0) == 0 && And(0, a) == 0
  {
    if a > 0 {
      AndZero(a / 2);
    }
  }

  lemma {:induction false} OrOnes(k: nat, a: nat)
    requires a < Pow2(k)
    ensures Or(a, Pow2(k) - 1) == Pow2(k) - 1 == Or(Pow2(k) - 1, a)
  {
    if k == 0 {
    } else {
      var ones: nat := Pow2(k) - 1;
      assert ones / 2 == Pow2(k - 1) - 1 && ones % 2 == 1;
      OrOnes(k - 1, a / 2);
      OrStep(a, ones);
      OrStep(ones, a);
    }
  }

  lemma {:induction false} AndOnes(k: nat, a: nat)
    requires a < Pow2(k)
    ensures And(a, Pow2(k) - 1) == a
  {
    if k == 0 {
    } else {
      var ones: nat := Pow2(k) - 1;
      assert ones / 2 == Pow2(k - 1) - 1 && ones % 2 == 1;
      AndOnes(k - 1, a / 2);
      AndStep(a, ones);
    }
  }

  lemma OrBound(k: nat, a: nat, b: nat)
    requires a < Pow2(k) && b < Pow2(k)
    ensures Or(a, b) < Pow2(k)
  {
    OrSplit(k, 0, a, 0, b);
  }

  /** Joining a high part and a low part with `|` is addition. */
  lemma OrJoin(k: nat, hi: nat, lo: nat)
    requires lo < Pow2(k)
    ensures Or(hi * Pow2(k), lo) == hi * Pow2(k) + lo == Or(lo, hi * Pow2(k))
  {
    OrCat(k, hi, 0, 0, lo);
    OrCat(k, 0, lo, hi, 0);
    OrZero(hi);
    OrZero(lo);
    CatHigh(k, hi);
    CatLow(k, lo);
    CatIsSum(k, hi, lo);
  }

  lemma MulMonotone(a: nat, b: nat, d: nat)
    requires a <= b
    ensures a * d <= b * d
  {
  }

  lemma DivMod(x: nat, d: nat) returns (q: nat, r: nat)
    requires d > 0
    ensures q == x / d && r == x % d
    ensures x == q * d + r && r < d
  {
    q, r := x / d, x % d;
  }

  lemma SmallMultiple(n: int, d: int)
    requires -d < n * d < d
    ensures n == 0
  {
  }

  /** Quotient and remainder of `q * d + r`. */
  lemma DivModUnique(d: nat, q: nat, r: nat)
    requires r < d
    ensures (q * d + r) / d == q && (q * d + r) % d == r
  {
    var q', r' := DivMod(q * d + r, d);
    assert (q' - q) * d == q' * d - q * d;
    SmallMultiple(q' - q, d);
  }

  lemma {:induction false} Pow2Add(a: nat, b: nat)
    ensures Pow2(a + b) == Pow2(a) * Pow2(b)
  {
    if a > 0 {
      Pow2Add(a - 1, b);
      assert Pow2(a) * Pow2(b) == 2 * (Pow2(a - 1) * Pow2(b));
    }
  }

  lemma Pow2Small()
    ensures Pow2(0) == 1 && Pow2(1) == 2 && Pow2(2) == 4 && Pow2(3) == 8 && Pow2(4) == 16 && Pow2(5) == 32
    ensures Pow2(8) == 0x100 && Pow2(10) == 0x400
  {
  }

  lemma Pow2Values()
    ensures Pow2(8) == 0x100 && Pow2(12) == 0x1000 && Pow2(16) == 0x1_0000 && Pow2(18) == 0x4_0000
    ensures Pow2(20) == 0x10_0000 && Pow2(24) == 0x100_0000 && Pow2(32) == 0x1_0000_0000
  {
    Pow2Small();
    Pow2Add(8, 4);
    Pow2Add(8, 8);
    Pow2Add(8, 10);
    Pow2Add(16, 4);
    Pow2Add(16, 8);
    Pow2Add(16, 16);
  }

  lemma Pow2Wide()
    ensures Pow2(40) == 0x100_0000_0000 && Pow2(48) == 0x1_0000_0000_0000
    ensures Pow2(64) == 0x1_0000_0000_0000_0000
  {
    Pow2Values();
    Pow2Add(32, 8);
    Pow2Add(32, 16);
    Pow2Add(32, 32);
  }

  lemma Parts(x: nat, k: nat)
    ensures x == Shr(x, k) * Pow2(k) + Low(x, k) && Low(x, k) < Pow2(k)
  {
    var q, r := DivMod(x, Pow2(k));
  }

  /** `|` works on the parts above and below any digit separately. */
  lemma OrParts(k: nat, a: nat, b: nat)
    ensures Shr(Or(a, b), k) == Or(Shr(a, k), Shr(b, k))
    ensures Low(Or(a, b), k) == Or(Low(a, k), Low(b, k))
  {
    var a1, a0, b1, b0 := Shr(a, k), Low(a, k), Shr(b, k), Low(b, k);
    Parts(a, k);
    Parts(b, k);
    OrSplit(k, a1, a0, b1, b0);
    DivModUnique(Pow2(k), Or(a1, b1), Or(a0, b0));
  }

  /** `x & (2^m - 1)` is the remainder. */
  lemma AndLow(x: nat, m: nat)
    ensures And(x, Pow2(m) - 1) == Low(x, m)
  {
    var hi, lo, ones: nat := Shr(x, m), Low(x, m), Pow2(m) - 1;
    Parts(x, m);
    CatIsSum(m, hi, lo);
    CatLow(m, ones);
    AndCat(m, hi, lo, 0, ones);
    AndZero(hi);
    AndOnes(m, lo);
    CatLow(m, lo);
  }

  /** `m` ones placed at digit `k`. */
  function Mask(k: nat, m: nat): nat {
    var ones: nat := Pow2(m) - 1;
    ones * Pow2(k)
  }

  /** Masking keeps the field under the ones and clears the rest. */
  lemma AndField(x: nat, k: nat, m: nat)
    ensures And(x, Mask(k, m)) == Low(Shr(x, k), m) * Pow2(k)
  {
    var ones: nat := Pow2(m) - 1;
    var hi, lo := Shr(x, k), Low(x, k);
    Parts(x, k);
    AndSplit(k, hi, lo, ones, 0);
    AndZero(lo);
    AndLow(hi, m);
  }

  /** The `m` digits of `x` from digit `k` up. */
  function Field(x: nat, k: nat, m: nat): nat {
    Low(Shr(x, k), m)
  }

  lemma OrField(a: nat, b: nat, k: nat, m: nat)
    ensures Field(Or(a, b), k, m) == Or(Field(a, k, m), Field(b, k, m))
  {
    OrParts(k, a, b);
    OrParts(m, Shr(a, k), Shr(b, k));
  }
}
