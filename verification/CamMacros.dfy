/** `CAM_ALIGN`, `CAM_ALIGN_MASK` and `CAM_ENDIAN_SWAP32` of ntocam.h. */
module CamMacros {
  import opened Bits
  import opened ByteOrder
  import opened Codec

  // ----- rounding up to a multiple

  /** `CAM_ALIGN_MASK` for an unsigned type of `w` bits. */
  function AlignMask(w: nat, val: nat, mask: nat): nat
    requires mask < Pow2(w)
  {
    And(Rem(val + mask, Pow2(w)), Not(w, mask))
  }

  /** `CAM_ALIGN` for an unsigned type of `w` bits; `_align - 1` wraps when `_align` is 0. */
  function Align(w: nat, val: nat, align: nat): nat {
    AlignMask(w, val, Rem(align + Pow2(w) - 1, Pow2(w)))
  }

  ghost predicate Multiple(m: nat, a: nat) {
    exists n: nat :: m == n * a
  }

  ghost predicate LeastMultiple(r: nat, a: nat, val: nat) {
    Multiple(r, a) && val <= r && forall m: nat :: Multiple(m, a) && val <= m ==> r <= m
  }

  lemma RemSmall(x: nat, d: nat)
    requires x < d
    ensures Rem(x, d) == x && Rem(x + d, d) == x
  {
    DivModUnique(d, 0, x);
    DivModUnique(d, 1, x);
  }

  lemma {:induction false} Pow2Monotone(k: nat, w: nat)
    requires k <= w
    ensures Pow2(k) <= Pow2(w)
  {
    if k < w {
      Pow2Monotone(k, w - 1);
    }
  }

  lemma Align1(w: nat, val: nat, align: nat)
    requires 1 <= align < Pow2(w)
    ensures Align(w, val, align) == AlignMask(w, val, align - 1)
  {
    hide Pow2, And, Not;
    RemSmall(align - 1, Pow2(w));
  }

  /** The complement of `2^k - 1` has ones exactly from digit `k` to digit `w - 1`. */
  lemma NotIsMask(w: nat, k: nat)
    requires k <= w
    ensures Pow2(k) - 1 < Pow2(w) && Not(w, Pow2(k) - 1) == Mask(k, w - k)
  {
    hide Pow2, Mask;
    Pow2Monotone(k, w);
    Pow2Add(w - k, k);
    MaskValue(k, w - k, Pow2(w - k), Pow2(k));
  }

  lemma MaskValue(k: nat, m: nat, p: nat, q: nat)
    requires p == Pow2(m) && q == Pow2(k)
    ensures Mask(k, m) == p * q - q
  {
    hide Pow2;
    MulLess(p, q);
  }

  lemma MulLess(a: int, b: int)
    ensures (a - 1) * b == a * b - b
  {
  }

  lemma ShrBound(x: nat, k: nat, w: nat)
    requires k <= w && x < Pow2(w)
    ensures Shr(x, k) < Pow2(w - k)
  {
    hide Pow2, Shr, Low;
    Parts(x, k);
    Pow2Add(w - k, k);
    if Shr(x, k) >= Pow2(w - k) {
      MulMonotone(Pow2(w - k), Shr(x, k), Pow2(k));
    }
  }

  /** Clearing the low `k` digits rounds down to a multiple of `2^k`. */
  lemma ClearLow(w: nat, k: nat, x: nat)
    requires k <= w && x < Pow2(w)
    ensures Pow2(k) - 1 < Pow2(w)
    ensures And(x, Not(w, Pow2(k) - 1)) == Shr(x, k) * Pow2(k)
  {
    hide Pow2, And, Shr, Not;
    NotIsMask(w, k);
    AndField(x, k, w - k);
    ShrBound(x, k, w);
    RemSmall(Shr(x, k), Pow2(w - k));
  }

  lemma NextMultiple(n: nat, q: nat, a: nat)
    requires n < q
    ensures n * a + a <= q * a
  {
    MulMonotone(n + 1, q, a);
  }

  lemma RoundUpIsLeast(val: nat, a: nat, q: nat, s: nat)
    requires val + a - 1 == q * a + s && s < a
    ensures LeastMultiple(q * a, a, val)
  {
    forall m: nat | Multiple(m, a) && val <= m
      ensures q * a <= m
    {
      var n: nat :| m == n * a;
      if n < q {
        NextMultiple(n, q, a);
      }
    }
  }

  /** The mask form in closed form: round up where the addition fits, and 0 where it wraps. */
  lemma AlignClosed(w: nat, k: nat, val: nat)
    requires k < w && val < Pow2(w)
    ensures Align(w, val, Pow2(k)) ==
      if val + Pow2(k) - 1 < Pow2(w) then Shr(val + Pow2(k) - 1, k) * Pow2(k) else 0
  {
    hide Pow2, And, Not, Shr;
    var a, x := Pow2(k), val + Pow2(k) - 1;
    Pow2Grows(k, w);
    Align1(w, val, a);
    if x < Pow2(w) {
      RemSmall(x, Pow2(w));
      ClearLow(w, k, x);
    } else {
      var y := x - Pow2(w);
      RemSmall(y, Pow2(w));
      ClearLow(w, k, y);
      ShrZero(y, k);
    }
  }

  lemma Pow2Grows(k: nat, w: nat)
    requires k < w
    ensures 1 <= Pow2(k) < Pow2(w)
  {
    Pow2Monotone(k, w - 1);
  }

  lemma ShrZero(y: nat, k: nat)
    requires y < Pow2(k)
    ensures Shr(y, k) == 0
  {
    hide Pow2;
    DivModUnique(Pow2(k), 0, y);
  }

  /** For a power-of-two alignment, `CAM_ALIGN` is the least multiple not below the value
      exactly when adding the mask does not overflow; otherwise it is 0. */
  lemma AlignIsLeastMultiple(w: nat, k: nat, val: nat)
    requires k < w && val < Pow2(w)
    ensures LeastMultiple(Align(w, val, Pow2(k)), Pow2(k), val) <==> val + Pow2(k) - 1 < Pow2(w)
    ensures val + Pow2(k) - 1 >= Pow2(w) ==> Align(w, val, Pow2(k)) == 0
  {
    hide Pow2, Align, Shr, Low;
    var x := val + Pow2(k) - 1;
    AlignClosed(w, k, val);
    Pow2Grows(k, w);
    if x < Pow2(w) {
      Parts(x, k);
      RoundUpIsLeast(val, Pow2(k), Shr(x, k), Low(x, k));
    }
  }

  /** Aligning keeps order and does nothing to an aligned value, as long as neither
      addition overflows. */
  lemma AlignMonotoneIdempotent(w: nat, k: nat, v: nat, v': nat)
    requires k < w && v <= v' && v' + Pow2(k) - 1 < Pow2(w)
    ensures Align(w, v, Pow2(k)) <= Align(w, v', Pow2(k))
    ensures Align(w, v, Pow2(k)) < Pow2(w)
    ensures Align(w, Align(w, v, Pow2(k)), Pow2(k)) == Align(w, v, Pow2(k))
  {
    hide Pow2, Align, Shr, Low;
    var a, x, r := Pow2(k), v + Pow2(k) - 1, Align(w, v, Pow2(k));
    Pow2Grows(k, w);
    AlignClosed(w, k, v);
    AlignIsLeastMultiple(w, k, v);
    AlignIsLeastMultiple(w, k, v');
    Parts(x, k);
    AlignClosed(w, k, r);
    AlignedFits(w, k, Shr(x, k));
    ShrUp(Shr(x, k), k);
  }

  /** A representable multiple of `2^k` has room for the mask. */
  lemma AlignedFits(w: nat, k: nat, q: nat)
    requires k < w && q * Pow2(k) < Pow2(w)
    ensures q * Pow2(k) + Pow2(k) - 1 < Pow2(w)
  {
    hide Pow2;
    Pow2Add(w - k, k);
    if q >= Pow2(w - k) {
      MulMonotone(Pow2(w - k), q, Pow2(k));
    } else {
      MulMonotone(q + 1, Pow2(w - k), Pow2(k));
      assert (q + 1) * Pow2(k) == q * Pow2(k) + Pow2(k);
    }
  }

  lemma ShrUp(q: nat, k: nat)
    ensures Shr(q * Pow2(k) + Pow2(k) - 1, k) == q
  {
    hide Pow2;
    DivModUnique(Pow2(k), q, Pow2(k) - 1);
  }

  // ----- any mask and any alignment

  /** `CAM_ALIGN_MASK` digit by digit, for any mask: the digits of the wrapped sum outside
      the mask. */
  lemma AlignMaskDigits(w: nat, val: nat, mask: nat, i: nat)
    requires mask < Pow2(w)
    ensures Bit(AlignMask(w, val, mask), i) <==>
      i < w && !Bit(mask, i) && Bit((val + mask) % Pow2(w), i)
  {
    hide Pow2, And, Not, Bit;
    BitOfAnd(Rem(val + mask, Pow2(w)), Not(w, mask), i);
    BitOfNot(w, mask, i);
  }

  /** `CAM_ALIGN` uses the mask one below the alignment, and the full mask for alignment 0,
      which gives 0. */
  lemma AlignMaskOf(w: nat, val: nat, align: nat)
    requires align < Pow2(w)
    ensures Align(w, val, align) == if align == 0 then 0 else AlignMask(w, val, align - 1)
  {
    hide Pow2, And, Not;
    if align == 0 {
      RemSmall(Pow2(w) - 1, Pow2(w));
      NotOnes(w);
      AndZero(Rem(val + Pow2(w) - 1, Pow2(w)));
    } else {
      Align1(w, val, align);
    }
  }

  lemma NotOnes(w: nat)
    ensures Not(w, Pow2(w) - 1) == 0
  {
  }

  // ----- alignments that are not powers of two

  /** The lowest set digit of `a`. */
  function LowBit(a: nat): nat
    requires a > 0
  {
    if a % 2 == 1 then 1 else 2 * LowBit(a / 2)
  }

  lemma {:induction false} AndNot(w: nat, x: nat)
    requires x < Pow2(w)
    ensures And(x, Not(w, x)) == 0
  {
    if w == 0 {
    } else {
      AndNot(w - 1, x / 2);
      AndStep(x, Not(w, x));
      assert Not(w, x) / 2 == Not(w - 1, x / 2) && (Not(w, x) % 2 == 1 <==> x % 2 == 0);
    }
  }

  /** `a & ~(a - 1)` is the lowest set digit of `a`. */
  lemma {:induction false} AndNotPred(w: nat, a: nat)
    requires 0 < a < Pow2(w)
    ensures And(a, Not(w, a - 1)) == LowBit(a)
  {
    if w == 0 {
    } else {
      var n := Not(w, a - 1);
      AndStep(a, n);
      if a % 2 == 1 {
        assert n / 2 == Not(w - 1, a / 2) && n % 2 == 1;
        AndNot(w - 1, a / 2);
      } else {
        assert n / 2 == Not(w - 1, a / 2 - 1) && n % 2 == 0;
        AndNotPred(w - 1, a / 2);
      }
    }
  }

  lemma {:induction false} LowBitOfPow2(k: nat)
    ensures LowBit(Pow2(k)) == Pow2(k)
  {
    if k > 0 {
      LowBitOfPow2(k - 1);
    }
  }

  lemma {:induction false} LowBitIsPow2(a: nat) returns (k: nat)
    requires a > 0
    ensures LowBit(a) == Pow2(k)
  {
    if a % 2 == 1 {
      k := 0;
    } else {
      k := LowBitIsPow2(a / 2);
      k := k + 1;
    }
  }

  ghost predicate PowerOfTwo(w: nat, a: nat) {
    exists k: nat :: k < w && a == Pow2(k)
  }

  /** `CAM_ALIGN` rounds up to the least multiple, for all values whose addition fits,
      exactly for the alignments that are powers of two. For any other alignment the value
      1 is already rounded wrongly. */
  lemma AlignWorksIffPow2(w: nat, a: nat)
    requires 1 <= a < Pow2(w)
    ensures (forall v: nat :: v + a - 1 < Pow2(w) ==> LeastMultiple(Align(w, v, a), a, v))
       <==> PowerOfTwo(w, a)
    ensures LeastMultiple(Align(w, 1, a), a, 1) <==> PowerOfTwo(w, a)
  {
    hide Pow2, Align, LeastMultiple;
    AlignOne(w, a);
    if PowerOfTwo(w, a) {
      var k: nat :| k < w && a == Pow2(k);
      forall v: nat | v + a - 1 < Pow2(w)
        ensures LeastMultiple(Align(w, v, a), a, v)
      {
        AlignIsLeastMultiple(w, k, v);
      }
      assert LeastMultiple(Align(w, 1, a), a, 1);
    } else {
      var k := LowBitIsPow2(a);
      if a == Pow2(k) {
        Pow2Below(k, w);
        assert false;
      }
      assert !LeastMultiple(Align(w, 1, a), a, 1);
    }
  }

  lemma Pow2Below(k: nat, w: nat)
    requires Pow2(k) < Pow2(w)
    ensures k < w
  {
    if w <= k {
      Pow2Monotone(w, k);
    }
  }

  lemma AlignOne(w: nat, a: nat)
    requires 1 <= a < Pow2(w)
    ensures Align(w, 1, a) == LowBit(a)
    ensures LeastMultiple(Align(w, 1, a), a, 1) ==> Align(w, 1, a) == a
  {
    hide Pow2, And, Not;
    Align1(w, 1, a);
    RemSmall(a, Pow2(w));
    AndNotPred(w, a);
    LeastAboveOne(Align(w, 1, a), a);
  }

  lemma LeastAboveOne(r: nat, a: nat)
    requires a > 0
    ensures LeastMultiple(r, a, 1) ==> r == a
  {
    if LeastMultiple(r, a, 1) {
      assert a == 1 * a;
      assert Multiple(a, a);
      var n: nat :| r == n * a;
      MulMonotone(1, n, a);
    }
  }

  // ----- the swap loop

  /** In-place reversal of the four bytes of a word. */
  function Swap32(x: U32): U32 {
    ValueBelow32(Reverse(LeBytes(x, 4)));
    LeValue(Reverse(LeBytes(x, 4)))
  }

  lemma ValueBelow32(bs: seq<Byte>)
    requires |bs| == 4
    ensures LeValue(bs) < 0x1_0000_0000
  {
    ValueOf4(bs);
  }

  lemma SwapInvolution(x: U32)
    ensures Swap32(Swap32(x)) == x
  {
    hide LeBytes, LeValue, ByteAt;
    BytesOfValue(Reverse(LeBytes(x, 4)));
    ReverseTwice(LeBytes(x, 4));
    WordOfBytes(x);
  }

  lemma Bytes4(x: U32)
    ensures LeBytes(x, 4) == [ByteAt(x, 0), ByteAt(x, 8), ByteAt(x, 16), ByteAt(x, 24)]
  {
    hide LeBytes, ByteAt;
    Bytes6(x);
    ShorterBytes(x, 5);
    ShorterBytes(x, 4);
  }

  lemma WordOfBytes(x: U32)
    ensures LeValue(LeBytes(x, 4)) == x
  {
    hide LeBytes, LeValue, ByteAt, Value4, Value6;
    Bytes4(x);
    ValueOf4(LeBytes(x, 4));
    LowParts(x);
  }

  /** The four bytes of `y` are those of `x` in the opposite order. */
  predicate Reversed(x: U32, y: U32) {
    && y % 0x100 == x / 0x100_0000
    && y / 0x100 % 0x100 == x / 0x1_0000 % 0x100
    && y / 0x1_0000 % 0x100 == x / 0x100 % 0x100
    && y / 0x100_0000 == x % 0x100
  }

  lemma TopByte(x: U32)
    ensures x / 0x100_0000 % 0x100 == x / 0x100_0000
  {
  }

  lemma SwapReverses(x: U32)
    ensures Reversed(x, Swap32(x))
  {
    hide LeBytes, LeValue, ByteAt;
    var y := Swap32(x);
    BytesOfValue(Reverse(LeBytes(x, 4)));
    Bytes4(x);
    Bytes4(y);
    var r := Reverse(LeBytes(x, 4));
    assert LeBytes(y, 4) == r;
    assert r[0] == ByteAt(x, 24) && r[1] == ByteAt(x, 16) && r[2] == ByteAt(x, 8) && r[3] == ByteAt(x, 0);
    ByteAtIs(x);
    ByteAtIs(y);
    TopByte(x);
    TopByte(y);
  }

  /** How often the loop body runs: the counter is decremented before it is tested. */
  function Count(c: U32): nat {
    if c == 0 then 0x1_0000_0000 else c
  }

  function SwapRange(s: seq<U32>, d: nat, n: nat): seq<U32>
    requires d + n <= |s|
  {
    seq(|s|, i requires 0 <= i < |s| => if d <= i < d + n then Swap32(s[i]) else s[i])
  }

  method EndianSwap32(a: array<U32>, d: nat, c: U32) returns (d': nat, c': U32)
    requires d + Count(c) <= a.Length
    modifies a
    ensures a[..] == SwapRange(old(a[..]), d, Count(c))
    ensures forall i :: 0 <= i < a.Length ==>
      if d <= i < d + Count(c) then Reversed(old(a[i]), a[i]) else a[i] == old(a[i])
    ensures d' == d + Count(c) && c' == 0
  {
    hide Swap32, Reversed;
    d', c' := d, c;
    while true
      invariant d <= d' && d' + Count(c') == d + Count(c)
      invariant forall i :: 0 <= i < a.Length ==> a[i] == if d <= i < d' then Swap32(old(a[i])) else old(a[i])
      decreases Count(c')
    {
      a[d'] := Swap32(a[d']);
      d' := d' + 1;
      c' := if c' == 0 then 0xFFFF_FFFF else c' - 1;
      if c' == 0 {
        break;
      }
    }
    forall i | d <= i < d'
      ensures Reversed(old(a[i]), a[i])
    {
      SwapReverses(old(a[i]));
    }
  }

  /** Two passes from the same start restore every word. */
  lemma SwapRangeTwice(s: seq<U32>, d: nat, n: nat)
    requires d + n <= |s|
    ensures SwapRange(SwapRange(s, d, n), d, n) == s
  {
    hide Swap32;
    forall i | 0 <= i < |s|
      ensures SwapRange(SwapRange(s, d, n), d, n)[i] == s[i]
    {
      SwapInvolution(s[i]);
    }
  }
}
