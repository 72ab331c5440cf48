/** Storing and byte-reversing 24- and 48-bit values, and which values survive the trip
    through memory. */
module Codec {
  import opened Bits
  import opened ByteOrder

  // ----- the bytes of a value

  lemma BytesStep(x: nat, n: nat)
    requires n > 0
    ensures LeBytes(x, n) == [x % 0x100] + LeBytes(x / 0x100, n - 1)
  {
  }

  lemma ByteAtIs(x: nat)
    ensures ByteAt(x, 0) == x % 0x100 && ByteAt(x, 8) == x / 0x100 % 0x100
    ensures ByteAt(x, 16) == x / 0x1_0000 % 0x100 && ByteAt(x, 24) == x / 0x100_0000 % 0x100
    ensures ByteAt(x, 32) == x / 0x1_0000_0000 % 0x100 && ByteAt(x, 40) == x / 0x100_0000_0000 % 0x100
    ensures ByteAt(x, 48) == x / 0x1_0000_0000_0000 % 0x100
  {
    hide And;
    Pow2Small();
    Pow2Values();
    Pow2Wide();
    ByteOfAt(x, 0);
    ByteOfAt(x, 8);
    ByteOfAt(x, 16);
    ByteOfAt(x, 24);
    ByteOfAt(x, 32);
    ByteOfAt(x, 40);
    ByteOfAt(x, 48);
  }

  /** The byte `k` places up. */
  lemma Digit(x: nat, y: nat, d: nat)
    requires d > 0 && y == x / d
    ensures y / 0x100 == x / (d * 0x100) && y == 0x100 * (y / 0x100) + y % 0x100
  {
    DivDiv(x, d, 0x100);
  }

  lemma DivDiv(x: nat, d: nat, e: nat)
    requires d > 0 && e > 0
    ensures d * e > 0 && x / d / e == x / (d * e)
  {
    var q, r := DivMod(x, d);
    var q', r' := DivMod(q, e);
    Regroup(q', e, r', d, r);
    MixedDigit(r', e, r, d);
    DivModUnique(d * e, q', r' * d + r);
  }

  lemma Regroup(q: nat, e: nat, r': nat, d: nat, r: nat)
    ensures (q * e + r') * d + r == q * (d * e) + (r' * d + r)
  {
  }

  lemma MixedDigit(r': nat, e: nat, r: nat, d: nat)
    requires r' < e && r < d
    ensures 0 <= r' * d + r < d * e
  {
    MulMonotone(r' + 1, e, d);
  }

  /** `x` written in base 256. */
  lemma Base256(x: nat)
    ensures x == ByteAt(x, 0) + 0x100 * (x / 0x100)
    ensures x / 0x100 == ByteAt(x, 8) + 0x100 * (x / 0x1_0000)
    ensures x / 0x1_0000 == ByteAt(x, 16) + 0x100 * (x / 0x100_0000)
    ensures x / 0x100_0000 == ByteAt(x, 24) + 0x100 * (x / 0x1_0000_0000)
    ensures x / 0x1_0000_0000 == ByteAt(x, 32) + 0x100 * (x / 0x100_0000_0000)
    ensures x / 0x100_0000_0000 == ByteAt(x, 40) + 0x100 * (x / 0x1_0000_0000_0000)
  {
    hide ByteAt;
    ByteAtIs(x);
    Digit(x, x, 1);
    Digit(x, x / 0x100, 0x100);
    Digit(x, x / 0x1_0000, 0x1_0000);
    Digit(x, x / 0x100_0000, 0x100_0000);
    Digit(x, x / 0x1_0000_0000, 0x1_0000_0000);
    Digit(x, x / 0x100_0000_0000, 0x100_0000_0000);
  }

  lemma Bytes3(x: nat)
    ensures LeBytes(x, 3) == [ByteAt(x, 0), ByteAt(x, 8), ByteAt(x, 16)]
  {
    hide ByteAt;
    ByteAtIs(x);
    DivDiv(x, 0x100, 0x100);
    BytesStep(x, 3);
    BytesStep(x / 0x100, 2);
    BytesStep(x / 0x1_0000, 1);
  }

  lemma Bytes6(x: nat)
    ensures LeBytes(x, 6) == [ByteAt(x, 0), ByteAt(x, 8), ByteAt(x, 16), ByteAt(x, 24), ByteAt(x, 32), ByteAt(x, 40)]
  {
    hide ByteAt;
    ByteAtIs(x);
    DivDiv(x, 0x100, 0x100);
    DivDiv(x, 0x1_0000, 0x100);
    BytesStep(x, 6);
    BytesStep(x / 0x100, 5);
    BytesStep(x / 0x1_0000, 4);
    Bytes3(x / 0x100_0000);
    ByteAtIs(x / 0x100_0000);
    DivDiv(x, 0x100_0000, 0x100);
    DivDiv(x, 0x100_0000, 0x1_0000);
  }

  /** The bytes the little-endian 48-bit writer stores: its last one is byte 6 of the value,
      not byte 5. */
  function Stored48Le(x: U64): seq<Byte> {
    LeBytes(x, 5) + [x / 0x1_0000_0000_0000 % 0x100]
  }

  lemma Stored48(x: U64)
    ensures Stored48Le(x)
         == [ByteAt(x, 0), ByteAt(x, 8), ByteAt(x, 16), ByteAt(x, 24), ByteAt(x, 32), ByteAt(x, 48)]
  {
    hide ByteAt;
    ByteAtIs(x);
    Bytes6(x);
    ShorterBytes(x, 5);
    assert LeBytes(x, 5) == LeBytes(x, 6)[..5];
  }

  lemma {:induction false} ShorterBytes(x: nat, n: nat)
    ensures LeBytes(x, n) == LeBytes(x, n + 1)[..n]
  {
    if n > 0 {
      ShorterBytes(x / 0x100, n - 1);
    }
  }

  // ----- the macros that store bytes

  /** `s` with `bs` written over it from position `at` on. */
  function Patch(s: seq<Byte>, at: nat, bs: seq<Byte>): seq<Byte>
    requires at + |bs| <= |s|
  {
    s[..at] + bs + s[at + |bs|..]
  }

  /** Reading back what was written, and nothing else changed. */
  lemma PatchReads(s: seq<Byte>, at: nat, bs: seq<Byte>)
    requires at + |bs| <= |s|
    ensures |Patch(s, at, bs)| == |s| && Patch(s, at, bs)[at..at + |bs|] == bs
    ensures forall i :: 0 <= i < |s| && !(at <= i < at + |bs|) ==> Patch(s, at, bs)[i] == s[i]
  {
  }

  method Put24Le(a: array<Byte>, at: nat, x: U64)
    requires at + 3 <= a.Length
    modifies a
    ensures a[..] == Patch(old(a[..]), at, LeBytes(x, 3))
  {
    hide ByteAt, LeBytes;
    Bytes3(x);
    a[at], a[at + 1], a[at + 2] := ByteAt(x, 0), ByteAt(x, 8), ByteAt(x, 16);
  }

  method Put24Be(a: array<Byte>, at: nat, x: U64)
    requires at + 3 <= a.Length
    modifies a
    ensures a[..] == Patch(old(a[..]), at, Reverse(LeBytes(x, 3)))
  {
    hide ByteAt, LeBytes;
    Bytes3(x);
    a[at], a[at + 1], a[at + 2] := ByteAt(x, 16), ByteAt(x, 8), ByteAt(x, 0);
  }

  method Put48Le(a: array<Byte>, at: nat, x: U64)
    requires at + 6 <= a.Length
    modifies a
    ensures a[..] == Patch(old(a[..]), at, Stored48Le(x))
  {
    hide ByteAt, LeBytes;
    Stored48(x);
    a[at], a[at + 1], a[at + 2] := ByteAt(x, 0), ByteAt(x, 8), ByteAt(x, 16);
    a[at + 3], a[at + 4], a[at + 5] := ByteAt(x, 24), ByteAt(x, 32), ByteAt(x, 48);
  }

  method Put48Be(a: array<Byte>, at: nat, x: U64)
    requires at + 6 <= a.Length
    modifies a
    ensures a[..] == Patch(old(a[..]), at, Reverse(LeBytes(x, 6)))
  {
    hide ByteAt, LeBytes;
    Bytes6(x);
    a[at], a[at + 1], a[at + 2] := ByteAt(x, 40), ByteAt(x, 32), ByteAt(x, 24);
    a[at + 3], a[at + 4], a[at + 5] := ByteAt(x, 16), ByteAt(x, 8), ByteAt(x, 0);
  }

  // ----- byte reversal of a value

  function EndianRet24(x: nat): nat {
    Or(Or(And(Shr(x, 16), 0xFF), And(x, 0xFF00)), Shl(32, And(x, 0xFF), 16))
  }

  function EndianRet48(x: nat): nat {
    Or(Or(Or(Or(Or(And(Shr(x, 40), 0xFF), And(Shr(x, 24), 0xFF00)), And(Shr(x, 8), 0xFF_0000)),
             Shl(64, And(x, 0xFF_0000), 8)),
          Shl(64, And(x, 0xFF00), 24)),
       Shl(64, And(x, 0xFF), 40))
  }

  /** Masking with `0xff`, `0xff00` or `0xff0000` picks a byte and leaves it in place. */
  lemma MaskByte(x: nat)
    ensures And(x, 0xFF) == x % 0x100
    ensures And(x, 0xFF00) == x / 0x100 % 0x100 * 0x100
    ensures And(x, 0xFF_0000) == x / 0x1_0000 % 0x100 * 0x1_0000
  {
    hide And;
    Pow2Small();
    Pow2Values();
    AndLow(x, 8);
    assert Mask(8, 8) == 0xFF00 && Mask(16, 8) == 0xFF_0000;
    AndField(x, 8, 8);
    AndField(x, 16, 8);
  }

  lemma ShiftDown(x: nat)
    ensures Shr(x, 8) == x / 0x100 && Shr(x, 16) == x / 0x1_0000
    ensures Shr(x, 24) == x / 0x100_0000 && Shr(x, 40) == x / 0x100_0000_0000
  {
    Pow2Small();
    Pow2Values();
    Pow2Wide();
  }

  lemma ShiftUp(b: Byte)
    ensures Shl(32, b, 16) == b * 0x1_0000
    ensures Shl(64, b * 0x1_0000, 8) == b * 0x100_0000
    ensures Shl(64, b * 0x100, 24) == b * 0x1_0000_0000
    ensures Shl(64, b, 40) == b * 0x100_0000_0000
  {
    hide Pow2;
    Pow2Small();
    Pow2Values();
    Pow2Wide();
  }

  /** `ENDIAN_RET24` reverses the three low bytes. */
  lemma EndianRet24Reverses(x: nat)
    ensures EndianRet24(x) == LeValue(Reverse(LeBytes(x, 3)))
    ensures EndianRet24(x) < 0x100_0000
  {
    hide Or, ByteAt, LeBytes, EndianRet24;
    var a, b, c := ByteAt(x, 0), ByteAt(x, 8), ByteAt(x, 16);
    EndianTerms(x, a, b, c, ByteAt(x, 24), ByteAt(x, 32), ByteAt(x, 40));
    JoinThree(c, b, a);
    Bytes3(x);
    ValueOf3(Reverse(LeBytes(x, 3)));
  }

  lemma JoinThree(a: Byte, b: Byte, c: Byte)
    ensures Or(Or(a, b * 0x100), c * 0x1_0000) == Value4(a, b, c, 0) < 0x100_0000
  {
    hide Or;
    Join8(b, a);
    Join16(c, Value4(a, b, 0, 0));
  }

  lemma JoinSix(a: Byte, b: Byte, c: Byte, d: Byte, e: Byte, f: Byte)
    ensures Or(Or(Or(Or(Or(a, b * 0x100), c * 0x1_0000), d * 0x100_0000), e * 0x1_0000_0000), f * 0x100_0000_0000)
         == Value6(a, b, c, d, e, f) < 0x1_0000_0000_0000
  {
    hide Or;
    JoinThree(a, b, c);
    Join24(d, Value4(a, b, c, 0));
    Join32(e, Value4(a, b, c, d));
    Join40(f, Value6(a, b, c, d, e, 0));
  }

  /** `ENDIAN_RET48` reverses the six low bytes. */
  lemma EndianRet48Reverses(x: nat)
    ensures EndianRet48(x) == LeValue(Reverse(LeBytes(x, 6)))
    ensures EndianRet48(x) < 0x1_0000_0000_0000
  {
    hide Or, ByteAt, LeBytes, EndianRet48;
    var a, b, c := ByteAt(x, 0), ByteAt(x, 8), ByteAt(x, 16);
    var d, e, f := ByteAt(x, 24), ByteAt(x, 32), ByteAt(x, 40);
    EndianTerms(x, a, b, c, d, e, f);
    JoinSix(f, e, d, c, b, a);
    Bytes6(x);
    ValueOf6(Reverse(LeBytes(x, 6)));
  }

  lemma EndianTerms(x: nat, a: Byte, b: Byte, c: Byte, d: Byte, e: Byte, f: Byte)
    requires a == ByteAt(x, 0) && b == ByteAt(x, 8) && c == ByteAt(x, 16)
    requires d == ByteAt(x, 24) && e == ByteAt(x, 32) && f == ByteAt(x, 40)
    ensures EndianRet24(x) == Or(Or(c, b * 0x100), a * 0x1_0000)
    ensures EndianRet48(x)
         == Or(Or(Or(Or(Or(f, e * 0x100), d * 0x1_0000), c * 0x100_0000), b * 0x1_0000_0000), a * 0x100_0000_0000)
  {
    hide Or, And, Shr, Shl, ByteAt;
    Masked48(x);
    ShiftUp(a);
    ShiftUp(b);
    ShiftUp(c);
  }

  /** The six masked terms of `ENDIAN_RET48`. */
  lemma Masked48(x: nat)
    ensures And(Shr(x, 40), 0xFF) == ByteAt(x, 40)
    ensures And(Shr(x, 24), 0xFF00) == ByteAt(x, 32) * 0x100
    ensures And(Shr(x, 8), 0xFF_0000) == ByteAt(x, 24) * 0x1_0000
    ensures And(x, 0xFF_0000) == ByteAt(x, 16) * 0x1_0000
    ensures And(x, 0xFF00) == ByteAt(x, 8) * 0x100
    ensures And(x, 0xFF) == ByteAt(x, 0) && And(Shr(x, 16), 0xFF) == ByteAt(x, 16)
  {
    hide And, Shr, ByteAt;
    ByteAtIs(x);
    ShiftDown(x);
    MaskByte(x);
    MaskByte(x / 0x100);
    MaskByte(x / 0x1_0000);
    MaskByte(x / 0x100_0000);
    MaskByte(x / 0x100_0000_0000);
    DivDiv(x, 0x100, 0x1_0000);
    DivDiv(x, 0x100_0000, 0x100);
  }

  // ----- values that come back

  /** A byte sequence is determined by its value. */
  lemma {:induction false} BytesOfValue(bs: seq<Byte>)
    ensures LeBytes(LeValue(bs), |bs|) == bs
  {
    if bs != [] {
      hide LeBytes, LeValue;
      var x, rest := LeValue(bs), bs[1..];
      BytesOfValue(rest);
      Unfold(bs);
      LowByte(x, bs[0], LeValue(rest));
      BytesStep(x, |bs|);
      assert bs == [bs[0]] + rest;
    }
  }

  lemma LowByte(x: nat, b: Byte, y: nat)
    requires x == b + 0x100 * y
    ensures x % 0x100 == b && x / 0x100 == y
  {
  }

  lemma ReverseTwice(bs: seq<Byte>)
    ensures Reverse(Reverse(bs)) == bs
  {
  }

  lemma ValueOfBytes(x: nat)
    ensures LeValue(LeBytes(x, 3)) == x % 0x100_0000
    ensures LeValue(LeBytes(x, 6)) == x % 0x1_0000_0000_0000
  {
    hide ByteAt, LeBytes, LeValue;
    Base256(x);
    Bytes3(x);
    ValueOf3(LeBytes(x, 3));
    Bytes6(x);
    ValueOf6(LeBytes(x, 6));
    Remainder(x, 0x100_0000, Value4(ByteAt(x, 0), ByteAt(x, 8), ByteAt(x, 16), 0), x / 0x100_0000);
    Remainder(x, 0x1_0000_0000_0000, LeValue(LeBytes(x, 6)), x / 0x1_0000_0000_0000);
  }

  lemma Remainder(x: nat, d: nat, r: nat, q: nat)
    requires x == q * d + r && r < d
    ensures x % d == r && x / d == q
  {
    DivModUnique(d, q, r);
  }

  /** Reversing twice gives back the low 24 or 48 bits, so both macros are involutions on
      values of their own width. */
  lemma EndianInvolution(x: nat, y: nat)
    ensures EndianRet24(EndianRet24(x)) == x % 0x100_0000
    ensures EndianRet48(EndianRet48(y)) == y % 0x1_0000_0000_0000
  {
    hide EndianRet24, EndianRet48, LeBytes, LeValue;
    EndianRet24Reverses(x);
    EndianRet24Reverses(EndianRet24(x));
    BytesOfValue(Reverse(LeBytes(x, 3)));
    ReverseTwice(LeBytes(x, 3));
    EndianRet48Reverses(y);
    EndianRet48Reverses(EndianRet48(y));
    BytesOfValue(Reverse(LeBytes(y, 6)));
    ReverseTwice(LeBytes(y, 6));
    ValueOfBytes(x);
    ValueOfBytes(y);
  }

  /** What the 24-bit readers make of the bytes a 24-bit writer stores: the low 24 bits if
      both use the same byte order, those bits byte-reversed if not. */
  lemma BytesBack24(x: nat)
    ensures Ret24Le(LeBytes(x, 3)) == x % 0x100_0000
    ensures Ret24Be(Reverse(LeBytes(x, 3))) == x % 0x100_0000
    ensures Ret24Be(LeBytes(x, 3)) == EndianRet24(x)
    ensures Ret24Le(Reverse(LeBytes(x, 3))) == EndianRet24(x)
  {
    hide EndianRet24, LeBytes, LeValue, Ret24Le, Ret24Be;
    Ret24IsValue(LeBytes(x, 3));
    Ret24IsValue(Reverse(LeBytes(x, 3)));
    ReverseTwice(LeBytes(x, 3));
    ValueOfBytes(x);
    EndianRet24Reverses(x);
  }

  /** When the six bytes of `x`, plus anything above them, read back as `x`. */
  lemma ReadsBack(x: nat, a: Byte, b: Byte, c: Byte, d: Byte, e: Byte, f: Byte, q: nat)
    requires x == Value6(a, b, c, d, e, f) + 0x1_0000_0000_0000 * q && q < 0x1_0000
    ensures Read48(a, b, c, d, e, f) == x <==>
      if d < 0x80 then x < 0x1_0000_0000_0000 else x >= 0xFFFF_FFFF_0000_0000
  {
  }

  lemma TopBytes(f: Byte, g: Byte, h: Byte)
    ensures f + 0x100 * Value4(g, h, 0, 0) == g <==> f + 0x100 * Value4(g, h, 0, 0) == 0
  {
  }

  /** The same for the bytes the little-endian writer stores, with `g` above `f` in `x`. */
  lemma ReadsBackShifted(x: nat, a: Byte, b: Byte, c: Byte, d: Byte, e: Byte, f: Byte, g: Byte, h: Byte)
    requires x == Value6(a, b, c, d, e, f) + 0x1_0000_0000_0000 * Value4(g, h, 0, 0)
    ensures Read48(a, b, c, d, e, g) == x <==>
      if d < 0x80 then x < 0x100_0000_0000 else x >= 0xFFFF_FFFF_0000_0000
  {
    var low := Value6(a, b, c, d, e, 0);
    var high := f + 0x100 * Value4(g, h, 0, 0);
    assert low < 0x100_0000_0000;
    assert x == low + 0x100_0000_0000 * high;
    if d < 0x80 {
      assert Read48(a, b, c, d, e, g) == low + 0x100_0000_0000 * (g as nat);
      TopBytes(f, g, h);
    } else {
      ReadsBack(x, a, b, c, d, e, f, Value4(g, h, 0, 0));
      assert Read48(a, b, c, d, e, g) == Read48(a, b, c, d, e, f);
    }
  }

  lemma BitThirtyOne(x: nat, d: Byte, q: nat, low: nat)
    requires x == low + 0x100_0000 * d + 0x1_0000_0000 * q && low < 0x100_0000
    ensures d < 0x80 <==> x / 0x8000_0000 % 2 == 0
  {
    var lowBit := d / 0x80;
    Remainder(x, 0x8000_0000, low + 0x100_0000 * (d % 0x80), lowBit + 2 * q);
  }

  lemma Bytes64(x: nat)
    ensures x == Value6(ByteAt(x, 0), ByteAt(x, 8), ByteAt(x, 16), ByteAt(x, 24), ByteAt(x, 32), ByteAt(x, 40))
               + 0x1_0000_0000_0000 * (x / 0x1_0000_0000_0000)
    ensures ByteAt(x, 24) < 0x80 <==> x / 0x8000_0000 % 2 == 0
  {
    hide ByteAt;
    Base256(x);
    BitThirtyOne(x, ByteAt(x, 24), x / 0x1_0000_0000, Value4(ByteAt(x, 0), ByteAt(x, 8), ByteAt(x, 16), 0));
  }

  /** What the big-endian 48-bit reader makes of the writer's bytes: the low 48 bits, or,
      when bit 31 is set, the low 32 bits under all ones. */
  function Reread48Be(x: U64): nat {
    if x / 0x8000_0000 % 2 == 0 then x % 0x1_0000_0000_0000
    else 0xFFFF_FFFF_0000_0000 + x % 0x1_0000_0000
  }

  /** The same in little-endian order: with bit 31 clear, the low 40 bits with byte 6 of the
      value above them. */
  function Reread48Le(x: U64): nat {
    if x / 0x8000_0000 % 2 == 0
    then x % 0x100_0000_0000 + x / 0x1_0000_0000_0000 % 0x100 * 0x100_0000_0000
    else 0xFFFF_FFFF_0000_0000 + x % 0x1_0000_0000
  }

  /** The low 32, 40 and 48 bits in bytes. */
  lemma LowParts(x: nat)
    ensures x % 0x1_0000_0000 == Value4(ByteAt(x, 0), ByteAt(x, 8), ByteAt(x, 16), ByteAt(x, 24))
    ensures x % 0x100_0000_0000
         == Value6(ByteAt(x, 0), ByteAt(x, 8), ByteAt(x, 16), ByteAt(x, 24), ByteAt(x, 32), 0)
    ensures x % 0x1_0000_0000_0000
         == Value6(ByteAt(x, 0), ByteAt(x, 8), ByteAt(x, 16), ByteAt(x, 24), ByteAt(x, 32), ByteAt(x, 40))
  {
    hide ByteAt;
    var a, b, c := ByteAt(x, 0), ByteAt(x, 8), ByteAt(x, 16);
    var d, e, f := ByteAt(x, 24), ByteAt(x, 32), ByteAt(x, 40);
    Base256(x);
    Remainder(x, 0x1_0000_0000, Value4(a, b, c, d), x / 0x1_0000_0000);
    Remainder(x, 0x100_0000_0000, Value6(a, b, c, d, e, 0), x / 0x100_0000_0000);
    Remainder(x, 0x1_0000_0000_0000, Value6(a, b, c, d, e, f), x / 0x1_0000_0000_0000);
  }

  lemma BytesBack48Be(x: U64)
    ensures Ret48Be(Reverse(LeBytes(x, 6))) == Reread48Be(x)
    ensures Reread48Be(x) == x <==>
      if x / 0x8000_0000 % 2 == 0 then x < 0x1_0000_0000_0000 else x >= 0xFFFF_FFFF_0000_0000
  {
    hide ByteAt, LeBytes, Ret48Be, Value6, Value4;
    var a, b, c := ByteAt(x, 0), ByteAt(x, 8), ByteAt(x, 16);
    var d, e, f := ByteAt(x, 24), ByteAt(x, 32), ByteAt(x, 40);
    Bytes6(x);
    Bytes64(x);
    LowParts(x);
    Ret48BeBytes(a, b, c, d, e, f);
    assert Reverse(LeBytes(x, 6)) == [f, e, d, c, b, a];
    ReadsBack(x, a, b, c, d, e, f, x / 0x1_0000_0000_0000);
  }

  lemma BytesBack48Le(x: U64)
    ensures Ret48Le(Stored48Le(x)) == Reread48Le(x)
    ensures Reread48Le(x) == x <==>
      if x / 0x8000_0000 % 2 == 0 then x < 0x100_0000_0000 else x >= 0xFFFF_FFFF_0000_0000
  {
    hide ByteAt, LeBytes, Ret48Le, Stored48Le, Value6, Value4;
    var a, b, c := ByteAt(x, 0), ByteAt(x, 8), ByteAt(x, 16);
    var d, e, f, g := ByteAt(x, 24), ByteAt(x, 32), ByteAt(x, 40), ByteAt(x, 48);
    var top: nat := x / 0x1_0000_0000_0000;
    Bytes64(x);
    ByteAtIs(x);
    LowParts(x);
    Stored48(x);
    Ret48LeBytes(a, b, c, d, e, g);
    SixthByte(a, b, c, d, e, g);
    TwoBytes(top);
    ReadsBackShifted(x, a, b, c, d, e, f, g, top / 0x100);
  }

  lemma TwoBytes(x: nat)
    requires x < 0x1_0000
    ensures Value4(x % 0x100, x / 0x100, 0, 0) == x
  {
  }

  lemma SixthByte(a: Byte, b: Byte, c: Byte, d: Byte, e: Byte, f: Byte)
    ensures Value6(a, b, c, d, e, f) == Value6(a, b, c, d, e, 0) + 0x100_0000_0000 * f as nat
  {
  }

  // ----- writing to a buffer and reading back

  /** Nothing but the `n` bytes from `at` on differs. */
  ghost predicate SameOutside(before: seq<Byte>, after: seq<Byte>, at: nat, n: nat) {
    |after| == |before| && forall i :: 0 <= i < |before| && !(at <= i < at + n) ==> after[i] == before[i]
  }

  /** A 24-bit write anywhere in a buffer, then a read there: the low 24 bits come back if
      both use the same byte order, those bits byte-reversed if not. */
  lemma RoundTrip24(s: seq<Byte>, at: nat, x: U64)
    requires at + 3 <= |s|
    ensures var m := Patch(s, at, LeBytes(x, 3));
      && SameOutside(s, m, at, 3)
      && Ret24Le(m[at..at + 3]) == x % 0x100_0000
      && Ret24Be(m[at..at + 3]) == EndianRet24(x)
    ensures var m := Patch(s, at, Reverse(LeBytes(x, 3)));
      && SameOutside(s, m, at, 3)
      && Ret24Be(m[at..at + 3]) == x % 0x100_0000
      && Ret24Le(m[at..at + 3]) == EndianRet24(x)
  {
    hide LeBytes, Ret24Le, Ret24Be, EndianRet24, Reverse, Patch;
    PatchReads(s, at, LeBytes(x, 3));
    PatchReads(s, at, Reverse(LeBytes(x, 3)));
    BytesBack24(x);
  }

  /** A 64-bit value written anywhere in a buffer by the big-endian 48-bit writer is read
      back there exactly when bit 31 is clear and it has at most 48 bits, or bit 31 is set
      and so are all bits above it. */
  lemma RoundTrip48Be(s: seq<Byte>, at: nat, x: U64)
    requires at + 6 <= |s|
    ensures var m := Patch(s, at, Reverse(LeBytes(x, 6)));
      && SameOutside(s, m, at, 6)
      && Ret48Be(m[at..at + 6]) == Reread48Be(x)
      && (Ret48Be(m[at..at + 6]) == x <==>
            if x / 0x8000_0000 % 2 == 0 then x < 0x1_0000_0000_0000 else x >= 0xFFFF_FFFF_0000_0000)
      && (x < 0x1_0000_0000_0000 ==> (Ret48Be(m[at..at + 6]) == x <==> x / 0x8000_0000 % 2 == 0))
  {
    hide LeBytes, Ret48Be, Reverse, Patch, Reread48Be;
    PatchReads(s, at, Reverse(LeBytes(x, 6)));
    BytesBack48Be(x);
  }

  /** The same for the little-endian pair: exactly when bit 31 is clear and the value has at
      most 40 bits, or bit 31 is set and so are all bits above it. */
  lemma RoundTrip48Le(s: seq<Byte>, at: nat, x: U64)
    requires at + 6 <= |s|
    ensures |Stored48Le(x)| == 6
    ensures var m := Patch(s, at, Stored48Le(x));
      && SameOutside(s, m, at, 6)
      && Ret48Le(m[at..at + 6]) == Reread48Le(x)
      && (Ret48Le(m[at..at + 6]) == x <==>
            if x / 0x8000_0000 % 2 == 0 then x < 0x100_0000_0000 else x >= 0xFFFF_FFFF_0000_0000)
      && (x < 0x1_0000_0000_0000 ==>
            (Ret48Le(m[at..at + 6]) == x <==> x / 0x8000_0000 % 2 == 0 && x < 0x100_0000_0000))
  {
    hide LeBytes, Ret48Le, Patch, Reread48Le;
    PatchReads(s, at, Stored48Le(x));
    BytesBack48Le(x);
  }

  /** The bytes the four writers store. */
  lemma StoredBytes(x: U64)
    ensures LeBytes(x, 3) == [x % 0x100, x / 0x100 % 0x100, x / 0x1_0000 % 0x100]
    ensures Reverse(LeBytes(x, 3)) == [x / 0x1_0000 % 0x100, x / 0x100 % 0x100, x % 0x100]
    ensures Stored48Le(x) == [
      x % 0x100, x / 0x100 % 0x100, x / 0x1_0000 % 0x100,
      x / 0x100_0000 % 0x100, x / 0x1_0000_0000 % 0x100, x / 0x1_0000_0000_0000 % 0x100]
    ensures Reverse(LeBytes(x, 6)) == [
      x / 0x100_0000_0000 % 0x100, x / 0x1_0000_0000 % 0x100, x / 0x100_0000 % 0x100,
      x / 0x1_0000 % 0x100, x / 0x100 % 0x100, x % 0x100]
  {
    hide LeBytes, ByteAt, Stored48Le;
    ByteAtIs(x);
    Bytes3(x);
    Bytes6(x);
    Stored48(x);
  }

  /** The little-endian 24-bit writer, then both 24-bit readers, on one buffer. */
  method StoreLoad24Le(a: array<Byte>, at: nat, x: U64) returns (same: int, other: int)
    requires at + 3 <= a.Length
    modifies a
    ensures same == x % 0x100_0000 && other == EndianRet24(x)
    ensures a[at..at + 3] == [x % 0x100, x / 0x100 % 0x100, x / 0x1_0000 % 0x100]
    ensures SameOutside(old(a[..]), a[..], at, 3)
  {
    hide LeBytes, Ret24Le, Ret24Be, EndianRet24, Patch;
    StoredBytes(x);
    PatchReads(a[..], at, LeBytes(x, 3));
    RoundTrip24(a[..], at, x);
    Put24Le(a, at, x);
    assert a[..][at..at + 3] == a[at..at + 3];
    same, other := Ret24Le(a[at..at + 3]), Ret24Be(a[at..at + 3]);
  }

  /** The big-endian 24-bit writer, then both 24-bit readers, on one buffer. */
  method StoreLoad24Be(a: array<Byte>, at: nat, x: U64) returns (same: int, other: int)
    requires at + 3 <= a.Length
    modifies a
    ensures same == x % 0x100_0000 && other == EndianRet24(x)
    ensures a[at..at + 3] == [x / 0x1_0000 % 0x100, x / 0x100 % 0x100, x % 0x100]
    ensures SameOutside(old(a[..]), a[..], at, 3)
  {
    hide LeBytes, Ret24Le, Ret24Be, EndianRet24, Reverse, Patch;
    StoredBytes(x);
    PatchReads(a[..], at, Reverse(LeBytes(x, 3)));
    RoundTrip24(a[..], at, x);
    Put24Be(a, at, x);
    assert a[..][at..at + 3] == a[at..at + 3];
    same, other := Ret24Be(a[at..at + 3]), Ret24Le(a[at..at + 3]);
  }

  /** The little-endian 48-bit writer, then its reader, on one buffer. */
  method StoreLoad48Le(a: array<Byte>, at: nat, x: U64) returns (y: U64)
    requires at + 6 <= a.Length
    modifies a
    ensures y == Reread48Le(x)
    ensures y == x <==>
      if x / 0x8000_0000 % 2 == 0 then x < 0x100_0000_0000 else x >= 0xFFFF_FFFF_0000_0000
    ensures a[at..at + 6] == [
      x % 0x100, x / 0x100 % 0x100, x / 0x1_0000 % 0x100,
      x / 0x100_0000 % 0x100, x / 0x1_0000_0000 % 0x100, x / 0x1_0000_0000_0000 % 0x100]
    ensures SameOutside(old(a[..]), a[..], at, 6)
  {
    hide LeBytes, Ret48Le, Stored48Le, Patch, Reread48Le;
    StoredBytes(x);
    RoundTrip48Le(a[..], at, x);
    PatchReads(a[..], at, Stored48Le(x));
    Put48Le(a, at, x);
    assert a[..][at..at + 6] == a[at..at + 6];
    y := Ret48Le(a[at..at + 6]);
  }

  /** The big-endian 48-bit writer, then its reader, on one buffer. */
  method StoreLoad48Be(a: array<Byte>, at: nat, x: U64) returns (y: U64)
    requires at + 6 <= a.Length
    modifies a
    ensures y == Reread48Be(x)
    ensures y == x <==>
      if x / 0x8000_0000 % 2 == 0 then x < 0x1_0000_0000_0000 else x >= 0xFFFF_FFFF_0000_0000
    ensures a[at..at + 6] == [
      x / 0x100_0000_0000 % 0x100, x / 0x1_0000_0000 % 0x100, x / 0x100_0000 % 0x100,
      x / 0x1_0000 % 0x100, x / 0x100 % 0x100, x % 0x100]
    ensures SameOutside(old(a[..]), a[..], at, 6)
  {
    hide LeBytes, Ret48Be, Reverse, Patch, Reread48Be;
    StoredBytes(x);
    RoundTrip48Be(a[..], at, x);
    PatchReads(a[..], at, Reverse(LeBytes(x, 6)));
    Put48Be(a, at, x);
    assert a[..][at..at + 6] == a[at..at + 6];
    y := Ret48Be(a[at..at + 6]);
  }

  /** Two 48-bit values that do not come back: one with bit 31 set, which fails in both
      byte orders, and one with bit 40 set, which fails in little-endian order. */
  lemma LostValues()
    ensures Ret48Be(Reverse(LeBytes(0x8000_0000, 6))) != 0x8000_0000
    ensures Ret48Le(Stored48Le(0x8000_0000)) != 0x8000_0000
    ensures Ret48Le(Stored48Le(0x100_0000_0000)) != 0x100_0000_0000
  {
    hide LeBytes, Ret48Le, Ret48Be, Stored48Le;
    BytesBack48Be(0x8000_0000);
    BytesBack48Le(0x8000_0000);
    BytesBack48Le(0x100_0000_0000);
  }
}
