/** The 24- and 48-bit byte-order macros of ntoscsi.h.

    A value is an unsigned 64-bit word; a byte read from memory is promoted to a 32-bit
    two's-complement `int`, which decides what the 48-bit readers return. */
module ByteOrder {
  import opened Bits

  /** The number with the given bytes, least significant first. */
  function LeValue(bs: seq<Byte>): nat {
    if bs == [] then 0 else bs[0] + 0x100 * LeValue(bs[1..])
  }

  /** The `n` low bytes of `x`, least significant first. */
  function LeBytes(x: nat, n: nat): (bs: seq<Byte>)
    ensures |bs| == n
  {
    if n == 0 then [] else [x % 0x100] + LeBytes(x / 0x100, n - 1)
  }

  function Reverse(bs: seq<Byte>): (r: seq<Byte>)
    ensures |r| == |bs|
    ensures forall i :: 0 <= i < |bs| ==> r[i] == bs[|bs| - 1 - i]
  {
    if bs == [] then [] else Reverse(bs[1..]) + [bs[0]]
  }

  /** `(x >> k) & 0xff` */
  function ByteAt(x: nat, k: nat): Byte {
    ByteOfAt(x, k);
    And(Shr(x, k), 0xFF)
  }

  lemma ByteOfAt(x: nat, k: nat)
    ensures And(Shr(x, k), 0xFF) == Shr(x, k) % 0x100
  {
    Pow2Small();
    AndLow(Shr(x, k), 8);
  }

  // ----- C's integer conversions

  const INT_MODULUS := 0x1_0000_0000
  const U64_MODULUS := 0x1_0000_0000_0000_0000

  /** A 32-bit pattern read as `int`. */
  function ToInt(u: U32): int {
    if u < 0x8000_0000 then u else u - INT_MODULUS
  }

  /** Conversion of an `int` to `unsigned` and to `_Uint64t`. */
  function IntToU32(i: int): U32 {
    i % INT_MODULUS
  }

  function IntToU64(i: int): U64 {
    i % U64_MODULUS
  }

  /** `b << k` for a byte promoted to `int`. */
  function IntShl(b: Byte, k: nat): int {
    Pow2Values();
    ToInt(Shl(32, b, k))
  }

  /** `i | j` of two ints. */
  function IntOr(i: int, j: int): int {
    Pow2Values();
    OrBound(32, IntToU32(i), IntToU32(j));
    ToInt(Or(IntToU32(i), IntToU32(j)))
  }

  /** `x << k` for a byte cast to `_Uint64t`. */
  function U64Shl(b: Byte, k: nat): U64 {
    Pow2Wide();
    Shl(64, b, k)
  }

  function U64Or(x: U64, y: U64): U64 {
    Pow2Wide();
    OrBound(64, x, y);
    Or(x, y)
  }

  // ----- the macros that read bytes

  function Ret24Le(p: seq<Byte>): int
    requires |p| >= 3
  {
    IntOr(IntOr(p[0], IntShl(p[1], 8)), IntShl(p[2], 16))
  }

  function Ret24Be(p: seq<Byte>): int
    requires |p| >= 3
  {
    IntOr(IntOr(IntShl(p[0], 16), IntShl(p[1], 8)), p[2])
  }

  function Ret48Le(p: seq<Byte>): U64
    requires |p| >= 6
  {
    U64Or(U64Or(IntToU64(IntOr(IntOr(IntOr(p[0], IntShl(p[1], 8)), IntShl(p[2], 16)), IntShl(p[3], 24))),
                U64Shl(p[4], 32)),
          U64Shl(p[5], 40))
  }

  function Ret48Be(p: seq<Byte>): U64
    requires |p| >= 6
  {
    U64Or(U64Or(U64Or(U64Or(U64Or(U64Shl(p[0], 40), U64Shl(p[1], 32)), IntToU64(IntShl(p[2], 24))),
                      IntToU64(IntShl(p[3], 16))),
                IntToU64(IntShl(p[4], 8))),
          IntToU64(p[5]))
  }

  // ----- joining byte-aligned parts

  lemma Join8(hi: nat, lo: nat)
    requires lo < 0x100
    ensures Or(hi * 0x100, lo) == hi * 0x100 + lo == Or(lo, hi * 0x100)
  {
    hide Or, And;
    Pow2Small();
    OrJoin(8, hi, lo);
  }

  lemma Join16(hi: nat, lo: nat)
    requires lo < 0x1_0000
    ensures Or(hi * 0x1_0000, lo) == hi * 0x1_0000 + lo == Or(lo, hi * 0x1_0000)
  {
    hide Or, And;
    Pow2Values();
    OrJoin(16, hi, lo);
  }

  lemma Join24(hi: nat, lo: nat)
    requires lo < 0x100_0000
    ensures Or(hi * 0x100_0000, lo) == hi * 0x100_0000 + lo == Or(lo, hi * 0x100_0000)
  {
    hide Or, And;
    Pow2Values();
    OrJoin(24, hi, lo);
  }

  lemma Join32(hi: nat, lo: nat)
    requires lo < 0x1_0000_0000
    ensures Or(hi * 0x1_0000_0000, lo) == hi * 0x1_0000_0000 + lo == Or(lo, hi * 0x1_0000_0000)
  {
    hide Or, And;
    Pow2Values();
    OrJoin(32, hi, lo);
  }

  lemma Join40(hi: nat, lo: nat)
    requires lo < 0x100_0000_0000
    ensures Or(hi * 0x100_0000_0000, lo) == hi * 0x100_0000_0000 + lo == Or(lo, hi * 0x100_0000_0000)
  {
    hide Or, And;
    Pow2Wide();
    OrJoin(40, hi, lo);
  }

  /** A word with all of the upper 32 bits set absorbs anything put into them. */
  lemma SignAbsorbs(lo: U32, hi: U32)
    ensures Or(0xFFFF_FFFF_0000_0000 + lo, hi * 0x1_0000_0000) == 0xFFFF_FFFF_0000_0000 + lo
    ensures Or(hi * 0x1_0000_0000, 0xFFFF_FFFF_0000_0000 + lo) == 0xFFFF_FFFF_0000_0000 + lo
  {
    hide Or, And;
    Pow2Values();
    OrSplit(32, 0xFFFF_FFFF, lo, hi, 0);
    OrSplit(32, hi, 0, 0xFFFF_FFFF, lo);
    OrOnes(32, hi);
    OrZero(lo);
  }

  // ----- int shifts and ors

  lemma IntShlIs(b: Byte)
    ensures IntShl(b, 8) == b * 0x100 && IntShl(b, 16) == b * 0x1_0000
    ensures IntShl(b, 24) == ToInt(b * 0x100_0000)
  {
    hide Or, And;
    Pow2Values();
  }

  lemma U64ShlIs(b: Byte)
    ensures U64Shl(b, 32) == b * 0x1_0000_0000 && U64Shl(b, 40) == b * 0x100_0000_0000
  {
    hide Or, And, Pow2;
    Pow2Values();
    Pow2Wide();
  }

  lemma IntOrIs(u: U32, v: U32)
    ensures Or(u, v) < 0x1_0000_0000 && IntOr(ToInt(u), ToInt(v)) == ToInt(Or(u, v))
  {
    hide Or, And;
    Pow2Values();
    OrBound(32, u, v);
    assert IntToU32(ToInt(u)) == u && IntToU32(ToInt(v)) == v;
  }

  /** Sign extension: converting to 64 bits copies bit 31 into bits 63:32. */
  lemma SignExtends(u: U32)
    ensures IntToU64(ToInt(u)) == if u < 0x8000_0000 then u else 0xFFFF_FFFF_0000_0000 + u
  {
    hide Or, And;
  }

  // ----- what the readers return

  function Value4(a: Byte, b: Byte, c: Byte, d: Byte): U32 {
    a + 0x100 * b + 0x1_0000 * c + 0x100_0000 * d
  }

  function Value6(a: Byte, b: Byte, c: Byte, d: Byte, e: Byte, f: Byte): nat {
    Value4(a, b, c, d) + 0x1_0000_0000 * Value4(e, f, 0, 0)
  }

  lemma LowInt(a: Byte, b: Byte, c: Byte, d: Byte)
    ensures IntOr(IntOr(a, IntShl(b, 8)), IntShl(c, 16)) == Value4(a, b, c, 0)
    ensures IntOr(Value4(a, b, c, 0), IntShl(d, 24)) == ToInt(Value4(a, b, c, d))
    ensures IntOr(IntOr(IntShl(c, 16), IntShl(b, 8)), a) == Value4(a, b, c, 0)
  {
    hide Or, And;
    IntShlIs(b);
    IntShlIs(c);
    IntShlIs(d);
    Join8(b, a);
    IntOrIs(a, b * 0x100);
    Join16(c, a + 0x100 * b);
    IntOrIs(a + 0x100 * b, c * 0x1_0000);
    Join24(d, Value4(a, b, c, 0));
    IntOrIs(Value4(a, b, c, 0), d * 0x100_0000);
    Join16(c, b * 0x100);
    IntOrIs(c * 0x1_0000, b * 0x100);
    Join8(c * 0x100 + b, a);
    IntOrIs(c * 0x1_0000 + b * 0x100, a);
  }

  lemma Unfold(p: seq<Byte>)
    requires p != []
    ensures LeValue(p) == p[0] + 0x100 * LeValue(p[1..])
    ensures |p| == 1 ==> LeValue(p) == p[0]
  {
  }

  lemma ValueOf4(p: seq<Byte>)
    requires |p| == 4
    ensures LeValue(p) == Value4(p[0], p[1], p[2], p[3])
  {
    Unfold(p);
    Unfold(p[1..]);
    Unfold(p[1..][1..]);
    Unfold(p[1..][1..][1..]);
  }

  lemma ValueOf3(p: seq<Byte>)
    requires |p| == 3
    ensures LeValue(p) == Value4(p[0], p[1], p[2], 0)
  {
    Unfold(p);
    Unfold(p[1..]);
    Unfold(p[1..][1..]);
  }

  lemma ValueOf6(p: seq<Byte>)
    requires |p| == 6
    ensures LeValue(p) == Value6(p[0], p[1], p[2], p[3], p[4], p[5])
  {
    Unfold(p);
    Unfold(p[1..]);
    ValueOf4(p[1..][1..]);
  }

  /** The 24-bit readers return the value of the three bytes in their own byte order. */
  lemma Ret24IsValue(p: seq<Byte>)
    requires |p| == 3
    ensures Ret24Le(p) == LeValue(p)
    ensures Ret24Be(p) == LeValue(Reverse(p))
  {
    hide Or, And;
    LowInt(p[0], p[1], p[2], 0);
    LowInt(p[2], p[1], p[0], 0);
    ValueOf3(p);
    ValueOf3(Reverse(p));
  }

  /** What the 48-bit readers make of the bytes `a` (least significant) to `f`. */
  function Read48(a: Byte, b: Byte, c: Byte, d: Byte, e: Byte, f: Byte): nat {
    if d < 0x80 then Value6(a, b, c, d, e, f) else 0xFFFF_FFFF_0000_0000 + Value4(a, b, c, d)
  }

  lemma LowWord(a: Byte, b: Byte, c: Byte, d: Byte)
    ensures IntToU64(IntOr(IntOr(IntOr(a, IntShl(b, 8)), IntShl(c, 16)), IntShl(d, 24)))
         == if d < 0x80 then Value4(a, b, c, d) else 0xFFFF_FFFF_0000_0000 + Value4(a, b, c, d)
  {
    hide IntOr, IntShl, ToInt, IntToU64;
    LowInt(a, b, c, d);
    SignExtends(Value4(a, b, c, d));
  }

  /** Putting `h` above a sign-extended low word. */
  lemma AboveWord(u: U32, h: nat, g: U32)
    requires h <= 0xFF
    ensures u < 0x8000_0000 ==> Or(u, h * 0x1_0000_0000) == u + h * 0x1_0000_0000
    ensures u < 0x8000_0000 ==>
      Or(u + h * 0x1_0000_0000, g * 0x100_0000_0000) == u + h * 0x1_0000_0000 + g * 0x100_0000_0000
  {
    hide Or;
    Join32(h, u);
    Join40(g, u + h * 0x1_0000_0000);
  }

  lemma Ret48LeBytes(a: Byte, b: Byte, c: Byte, d: Byte, e: Byte, f: Byte)
    ensures Ret48Le([a, b, c, d, e, f]) == Read48(a, b, c, d, e, f)
  {
    hide Or, IntOr, IntShl, U64Shl, IntToU64;
    var u := Value4(a, b, c, d);
    LowWord(a, b, c, d);
    U64ShlIs(e);
    U64ShlIs(f);
    if d < 0x80 {
      AboveWord(u, e, f);
    } else {
      SignAbsorbs(u, e);
      SignAbsorbs(u, f * 0x100);
    }
  }

  /** The little-endian 48-bit reader returns the value of the six bytes unless the fourth
      byte has its top bit set; then the upper 32 bits of the result are all ones. */
  lemma Ret48LeIs(p: seq<Byte>)
    requires |p| == 6
    ensures Ret48Le(p) == if p[3] < 0x80 then LeValue(p) else 0xFFFF_FFFF_0000_0000 + LeValue(p[..4])
  {
    hide Or, U64Or, Ret48Le;
    Ret48LeBytes(p[0], p[1], p[2], p[3], p[4], p[5]);
    assert p == [p[0], p[1], p[2], p[3], p[4], p[5]];
    ValueOf6(p);
    ValueOf4(p[..4]);
  }

  /** The first two terms of the big-endian reader, and what the third makes of them. */
  lemma HighWord(f: Byte, e: Byte, d: Byte)
    ensures U64Or(U64Shl(f, 40), U64Shl(e, 32)) == Value4(e, f, 0, 0) * 0x1_0000_0000
    ensures U64Or(Value4(e, f, 0, 0) * 0x1_0000_0000, IntToU64(IntShl(d, 24)))
         == (if d < 0x80 then Value4(d, e, f, 0) else 0xFF_FFFF_FF00 + d) * 0x100_0000
  {
    hide Or, IntShl, U64Shl, IntToU64, ToInt;
    U64ShlIs(f);
    U64ShlIs(e);
    Join40(f, e * 0x1_0000_0000);
    IntShlIs(d);
    SignExtends(d * 0x100_0000);
    if d < 0x80 {
      Join32(Value4(e, f, 0, 0), d * 0x100_0000);
    } else {
      SignAbsorbs(d * 0x100_0000, Value4(e, f, 0, 0));
    }
  }

  lemma SmallInt(x: U32)
    requires x < 0x8000_0000
    ensures IntToU64(x) == x
  {
  }

  /** The last three terms of the big-endian reader. */
  lemma LowTerms(q: nat, c: Byte, b: Byte, a: Byte)
    requires q < 0x100_0000_0000
    ensures U64Or(U64Or(U64Or(q * 0x100_0000, IntToU64(IntShl(c, 16))), IntToU64(IntShl(b, 8))), IntToU64(a))
         == q * 0x100_0000 + Value4(a, b, c, 0)
  {
    hide Or, IntShl, IntToU64;
    IntShlIs(c);
    IntShlIs(b);
    SmallInt(c * 0x1_0000);
    SmallInt(b * 0x100);
    SmallInt(a);
    Join24(q, c * 0x1_0000);
    Join16(q * 0x100 + c, b * 0x100);
    Join8(q * 0x1_0000 + Value4(b, c, 0, 0), a);
  }

  lemma Ret48BeBytes(a: Byte, b: Byte, c: Byte, d: Byte, e: Byte, f: Byte)
    ensures Ret48Be([f, e, d, c, b, a]) == Read48(a, b, c, d, e, f)
  {
    hide Or, IntShl, U64Shl, IntToU64, U64Or;
    HighWord(f, e, d);
    LowTerms(if d < 0x80 then Value4(d, e, f, 0) else 0xFF_FFFF_FF00 + d, c, b, a);
  }

  /** The big-endian 48-bit reader returns the value of the six bytes unless the third byte
      has its top bit set; then the upper 32 bits of the result are all ones. */
  lemma Ret48BeIs(p: seq<Byte>)
    requires |p| == 6
    ensures Ret48Be(p) == if p[2] < 0x80 then LeValue(Reverse(p))
                          else 0xFFFF_FFFF_0000_0000 + LeValue(Reverse(p[2..]))
  {
    hide Or, U64Or, Ret48Be;
    Ret48BeBytes(p[5], p[4], p[3], p[2], p[1], p[0]);
    assert p == [p[0], p[1], p[2], p[3], p[4], p[5]];
    ValueOf6(Reverse(p));
    ValueOf4(Reverse(p[2..]));
  }
}
