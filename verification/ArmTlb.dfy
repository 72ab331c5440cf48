/** The first-level translation table builder of arm_tlb.h.

    `ArmSetupTlb` is the builder, loop for loop. `Slot` says what each of the 4096 entries
    holds; the modules `TlbCursor` and `TlbMap` prove what that means for a table of
    regions and for address translation. */
module ArmTlb {
  import opened Bits

  const PAGE_SHIFT := 20
  const PAGE_SIZE: U32 := 0x10_0000      // 1 << PAGE_SHIFT
  const TLB_SIZE := 0x1000
  const SECTION: U32 := 2           // 2 << 0
  const DOMAIN_15: U32 := 0x1E0     // 15 << 5
  const AP_RW: U32 := 0xC00         // 3 << 10
  const B_ENA: U32 := 4             // 1 << 2
  const B_DIS: U32 := 0
  const C_ENA: U32 := 8             // 1 << 3
  const C_DIS: U32 := 0
  const BA_MASK: U32 := 0xFFF0_0000
  const SENTINEL: U32 := 0xFFFF_FFFF  // -1L converted to unsigned long

  datatype Region = Region(start: U32, len: U32, attr: U32)

  function Or32(a: U32, b: U32): (r: U32)
    ensures r == Or(a, b)
  {
    Pow2Values();
    OrBound(32, a, b);
    Or(a, b)
  }

  /** The entry written for a section no region covers. */
  function HoleEntry(offset: nat): U32 {
    Pow2Values();
    Or32(Or32(Or32(Or32(Or32(Shl(32, offset, PAGE_SHIFT), SECTION), AP_RW), DOMAIN_15), B_DIS), C_DIS)
  }

  /** The entry written for the section that contains address `base`. */
  function SectionEntry(base: U32, attr: U32): U32 {
    SectionBase(base);
    Or32(Or32(And(base, BA_MASK), attr), Or32(Or32(SECTION, AP_RW), DOMAIN_15))
  }

  lemma SectionBase(base: U32)
    ensures And(base, BA_MASK) == base / PAGE_SIZE * PAGE_SIZE
  {
    BaseMask();
    AndField(base, 20, 12);
    SectionDigits(base);
  }

  lemma BaseMask()
    ensures Mask(20, 12) == BA_MASK
  {
    Pow2Values();
  }

  lemma SectionDigits(base: U32)
    ensures Low(Shr(base, 20), 12) * Pow2(20) == base / PAGE_SIZE * PAGE_SIZE
  {
    Pow2Values();
  }

  /** The number of mapping steps a region of length `len` asks for. */
  function Sections(len: nat): nat {
    (len + PAGE_SIZE - 1) / PAGE_SIZE
  }

  /** The slot where the mapping loop starts when the cursor is `c` on entry to the region. */
  function MapStart(c: nat, r: Region): nat {
    if c < r.start / PAGE_SIZE then r.start / PAGE_SIZE else c
  }

  /** A cursor cut off at the table's size. */
  function Cap(n: nat): nat {
    if n < TLB_SIZE then n else TLB_SIZE
  }

  /** The cursor after a region. */
  function Next(c: nat, r: Region): nat {
    Cap(MapStart(c, r) + Sections(r.len))
  }

  /** The address mapped by step `j` of a region. */
  function StepAddress(r: Region, j: nat): nat {
    r.start + j * PAGE_SIZE
  }

  /** The entry the mapping loop leaves in slot `i` when the region is entered with cursor `c`. */
  function MapEntry(c: nat, r: Region, i: nat): nat
    requires MapStart(c, r) <= i < TLB_SIZE
  {
    StepInRange(c, r, i);
    SectionEntry(StepAddress(r, i - MapStart(c, r)), r.attr)
  }

  lemma StepInRange(c: nat, r: Region, i: nat)
    requires MapStart(c, r) <= i < TLB_SIZE
    ensures StepAddress(r, i - MapStart(c, r)) < 0x1_0000_0000
  {
  }

  /** The final content of slot `i`, given the cursor `c` and the regions still to come. */
  function Slot(rs: seq<Region>, c: nat, i: nat): nat
    decreases |rs|
  {
    if rs == [] then HoleEntry(i)
    else if i < MapStart(c, rs[0]) then HoleEntry(i)
    else if i < Next(c, rs[0]) then MapEntry(c, rs[0], i)
    else Slot(rs[1..], Next(c, rs[0]), i)
  }

  /** The regions before the sentinel. */
  function Active(table: seq<Region>): (rs: seq<Region>)
    ensures |rs| <= |table| && rs == table[..|rs|]
    ensures forall r :: r in rs ==> r.start != SENTINEL
    ensures |rs| < |table| ==> table[|rs|].start == SENTINEL
  {
    if table == [] || table[0].start == SENTINEL then []
    else [table[0]] + Active(table[1..])
  }

  /** Entry `n` is the first whose start is the largest 32-bit word. */
  ghost predicate StopsAt(table: seq<Region>, n: nat) {
    && n < |table| && table[n].start == 0xFFFF_FFFF
    && forall k :: 0 <= k < n ==> table[k].start < 0xFFFF_FFFF
  }

  /** The regions handled are all those before that entry, whatever else they are. */
  lemma {:induction false} ActiveStops(table: seq<Region>, n: nat)
    requires StopsAt(table, n)
    ensures Active(table) == table[..n]
    decreases n
  {
    if n > 0 {
      assert table[0].start != SENTINEL;
      ActiveStops(table[1..], n - 1);
      assert table[..n] == [table[0]] + table[1..][..n - 1];
    }
  }

  /** The first `n` entries are final. */
  ghost predicate Done(t: seq<U32>, rs: seq<Region>, n: nat) {
    n <= |t| && forall i :: 0 <= i < n ==> t[i] == Slot(rs, 0, i)
  }

  ghost predicate Finished(t: seq<U32>, rs: seq<Region>) {
    |t| == TLB_SIZE && Done(t, rs, TLB_SIZE)
  }

  /** The table is the one for all regions before the stop entry. */
  ghost predicate FinishedUpToStop(t: seq<U32>, table: seq<Region>) {
    forall n: nat :: StopsAt(table, n) ==> Finished(t, table[..n])
  }

  lemma FinishedAt(t: seq<U32>, table: seq<Region>)
    requires Finished(t, Active(table))
    ensures FinishedUpToStop(t, table)
  {
    hide Finished;
    forall n: nat | StopsAt(table, n)
      ensures Finished(t, table[..n])
    {
      ActiveStops(table, n);
    }
  }

  // ----- the cursor between regions

  /** The cursor when region `k` is reached. */
  function CursorAt(rs: seq<Region>, k: nat): nat
    requires k <= |rs|
  {
    if k == 0 then 0 else Next(CursorAt(rs, k - 1), rs[k - 1])
  }

  lemma CursorBound(rs: seq<Region>, k: nat)
    requires k <= |rs|
    ensures CursorAt(rs, k) <= TLB_SIZE
    ensures k < |rs| ==> MapStart(CursorAt(rs, k), rs[k]) <= TLB_SIZE
    ensures k < |rs| ==> CursorAt(rs, k) <= MapStart(CursorAt(rs, k), rs[k]) <= CursorAt(rs, k + 1)
  {
  }

  lemma SlotPast(rs: seq<Region>, c: nat, i: nat)
    requires rs != [] && c <= TLB_SIZE && Next(c, rs[0]) <= i
    ensures Slot(rs, c, i) == Slot(rs[1..], Next(c, rs[0]), i)
  {
  }

  /** The slots from the cursor on are decided by the regions still to come. */
  lemma {:induction false} SlotFrom(rs: seq<Region>, k: nat, i: nat)
    requires k <= |rs| && CursorAt(rs, k) <= i
    ensures Slot(rs, 0, i) == Slot(rs[k..], CursorAt(rs, k), i)
  {
    hide Or, And, SectionEntry, HoleEntry, Slot;
    if k == 0 {
      assert rs[0..] == rs;
    } else {
      CursorBound(rs, k - 1);
      SlotFrom(rs, k - 1, i);
      var tail := rs[k - 1..];
      assert tail[0] == rs[k - 1] && tail[1..] == rs[k..];
      SlotPast(tail, CursorAt(rs, k - 1), i);
    }
  }

  /** A slot between the cursor and the region's first section is a hole. */
  lemma HoleSlot(rs: seq<Region>, k: nat, i: nat)
    requires k < |rs| && CursorAt(rs, k) <= i < MapStart(CursorAt(rs, k), rs[k])
    ensures Slot(rs, 0, i) == HoleEntry(i)
  {
    SlotFrom(rs, k, i);
  }

  /** A slot between the region's first slot and the next cursor is the region's. */
  lemma MapSlot(rs: seq<Region>, k: nat, i: nat)
    requires k < |rs| && MapStart(CursorAt(rs, k), rs[k]) <= i < CursorAt(rs, k + 1)
    ensures i < TLB_SIZE && Slot(rs, 0, i) == MapEntry(CursorAt(rs, k), rs[k], i)
  {
    CursorBound(rs, k);
    CursorBound(rs, k + 1);
    SlotFrom(rs, k, i);
  }

  /** A slot no region reaches is a hole. */
  lemma RestSlot(rs: seq<Region>, i: nat)
    requires CursorAt(rs, |rs|) <= i
    ensures Slot(rs, 0, i) == HoleEntry(i)
  {
    SlotFrom(rs, |rs|, i);
  }

  /** The slots from `from` up to `upto` end up as holes. */
  ghost predicate Holes(rs: seq<Region>, from: nat, upto: nat) {
    forall i :: from <= i < upto ==> Slot(rs, 0, i) == HoleEntry(i)
  }

  lemma HoleSlots(rs: seq<Region>, k: nat)
    requires k < |rs|
    ensures Holes(rs, CursorAt(rs, k), rs[k].start / PAGE_SIZE)
  {
    forall i | CursorAt(rs, k) <= i < rs[k].start / PAGE_SIZE
      ensures Slot(rs, 0, i) == HoleEntry(i)
    {
      HoleSlot(rs, k, i);
    }
  }

  lemma HoleAt(rs: seq<Region>, from: nat, upto: nat, i: nat)
    requires Holes(rs, from, upto) && from <= i < upto
    ensures Slot(rs, 0, i) == HoleEntry(i)
  {
  }

  lemma RestSlots(rs: seq<Region>)
    ensures Holes(rs, CursorAt(rs, |rs|), TLB_SIZE)
  {
    forall i | CursorAt(rs, |rs|) <= i < TLB_SIZE
      ensures Slot(rs, 0, i) == HoleEntry(i)
    {
      RestSlot(rs, i);
    }
  }

  // ----- the mapping loop and 32-bit wrap-around

  /** Addition of `unsigned` values. */
  function Add32(a: U32, b: U32): U32 {
    (a + b) % 0x1_0000_0000
  }

  /** `base` after `j` steps of the mapping loop: each increment is modulo 2^32. */
  function StepBase(r: Region, j: nat): U32 {
    if j == 0 then r.start else Add32(StepBase(r, j - 1), PAGE_SIZE)
  }

  lemma {:induction false} StepBaseIsAddress(r: Region, j: nat)
    ensures StepBase(r, j) == StepAddress(r, j) % 0x1_0000_0000
  {
    if j > 0 {
      StepBaseIsAddress(r, j - 1);
      WrapTwice(StepAddress(r, j - 1), PAGE_SIZE);
    }
  }

  lemma WrapTwice(x: nat, y: nat)
    ensures (x % 0x1_0000_0000 + y) % 0x1_0000_0000 == (x + y) % 0x1_0000_0000
  {
  }

  /** The mapping loop's guard as the source evaluates it. */
  predicate MapGuard(r: Region, base: U32, offset: nat) {
    base >= r.start && r.len > base - r.start && offset < TLB_SIZE
  }

  /** Wrap-around never shows: whenever the table is not full, `base` is the true address,
      and the guard means "step `j` is one of the region's sections and the table is not
      full". */
  lemma {:induction false} WrapNeverBites(r: Region, c: nat, j: nat)
    requires MapStart(c, r) + j <= TLB_SIZE
    ensures MapStart(c, r) + j < TLB_SIZE ==> StepBase(r, j) == StepAddress(r, j)
    ensures MapGuard(r, StepBase(r, j), MapStart(c, r) + j)
       <==> j < Sections(r.len) && MapStart(c, r) + j < TLB_SIZE
  {
    StepBaseIsAddress(r, j);
    if MapStart(c, r) + j < TLB_SIZE {
      assert StepAddress(r, j) < 0x1_0000_0000 by {
        StepInRange(c, r, MapStart(c, r) + j);
      }
    }
  }

  /** When the guard lets step `j` of region `k` run, what the step writes is the final
      content of the slot it writes. */
  lemma GuardHolds(rs: seq<Region>, k: nat, j: nat, i: nat, base: U32)
    requires k < |rs| && i == MapStart(CursorAt(rs, k), rs[k]) + j && base == StepBase(rs[k], j)
    requires MapGuard(rs[k], base, i)
    ensures j < Sections(rs[k].len) && Slot(rs, 0, i) == SectionEntry(base, rs[k].attr)
  {
    WrapNeverBites(rs[k], CursorAt(rs, k), j);
    MapSlot(rs, k, i);
    MapEntryAt(CursorAt(rs, k), rs[k], i, base);
  }

  /** When the guard stops region `k`, the cursor is where the next region finds it. */
  lemma GuardFails(rs: seq<Region>, k: nat, j: nat, i: nat, base: U32)
    requires k < |rs| && i == MapStart(CursorAt(rs, k), rs[k]) + j <= TLB_SIZE && base == StepBase(rs[k], j)
    requires j <= Sections(rs[k].len) && !MapGuard(rs[k], base, i)
    ensures i == CursorAt(rs, k + 1)
  {
    WrapNeverBites(rs[k], CursorAt(rs, k), j);
  }

  lemma MapEntryAt(c: nat, r: Region, i: nat, base: U32)
    requires MapStart(c, r) <= i < TLB_SIZE && base == StepAddress(r, i - MapStart(c, r))
    ensures MapEntry(c, r, i) == SectionEntry(base, r.attr)
  {
  }

  /** The slots `0, 1, ..., n - 1` in that order. */
  ghost predicate InOrder(writes: seq<nat>, n: nat) {
    |writes| == n && forall k :: 0 <= k < n ==> writes[k] == k
  }

  /** The builder's state when the cursor is `n`: the slots below `n` are final, each was
      written once and in order, and everything from slot `n` on is as it was. */
  ghost predicate Progress(t: seq<U32>, before: seq<U32>, rs: seq<Region>, writes: seq<nat>, n: nat) {
    && n <= TLB_SIZE <= |t| == |before|
    && Done(t, rs, n)
    && t[n..] == before[n..]
    && InOrder(writes, n)
  }

  lemma Start(before: seq<U32>, rs: seq<Region>)
    requires |before| >= TLB_SIZE
    ensures Progress(before, before, rs, [], 0)
  {
  }

  lemma Complete(t: seq<U32>, before: seq<U32>, rs: seq<Region>, writes: seq<nat>)
    requires Progress(t, before, rs, writes, TLB_SIZE)
    ensures Finished(t[..TLB_SIZE], rs) && t[TLB_SIZE..] == before[TLB_SIZE..] && InOrder(writes, TLB_SIZE)
  {
  }

  lemma Write(t: seq<U32>, t': seq<U32>, before: seq<U32>, rs: seq<Region>, writes: seq<nat>, n: nat)
    requires Progress(t, before, rs, writes, n) && n < TLB_SIZE && |t'| == |t|
    requires (forall i :: 0 <= i < |t| && i != n ==> t'[i] == t[i]) && t'[n] == Slot(rs, 0, n)
    ensures Progress(t', before, rs, writes + [n], n + 1)
  {
    hide Slot;
    WriteRest(t, t', before, n);
  }

  lemma WriteRest(t: seq<U32>, t': seq<U32>, before: seq<U32>, n: nat)
    requires n < |t| == |t'| == |before| && t[n..] == before[n..]
    requires forall i :: 0 <= i < |t| && i != n ==> t'[i] == t[i]
    ensures t'[n + 1..] == before[n + 1..]
  {
    forall i | n + 1 <= i < |t|
      ensures t'[i] == before[i]
    {
      assert t[n..][i - n] == before[n..][i - n];
    }
  }

  // ----- the builder

  /** `writes` records the slots in the order they are written; `mapped` is the cursor
      after the last region. */
  method ArmSetupTlb(table: array?<Region>, tlb: array<U32>) returns (ghost writes: seq<nat>, ghost mapped: nat)
    requires table != null ==> exists n :: 0 <= n < table.Length && table[n].start == 0xFFFF_FFFF
    requires tlb.Length >= TLB_SIZE
    modifies tlb
    ensures Finished(tlb[..TLB_SIZE], if table == null then [] else Active(table[..]))
    ensures tlb[TLB_SIZE..] == old(tlb[TLB_SIZE..])
    ensures InOrder(writes, TLB_SIZE)
    ensures var rs := if table == null then [] else Active(table[..]); mapped == CursorAt(rs, |rs|)
    ensures table == null ==> Finished(tlb[..TLB_SIZE], [])
    ensures table != null ==> FinishedUpToStop(tlb[..TLB_SIZE], table[..])
  {
    hide Or, And, SectionEntry, HoleEntry, Slot, Progress, Finished, FinishedUpToStop, InOrder, Next, Sections;
    hide Active, Holes;
    ghost var rs := if table == null then [] else Active(table[..]);
    ghost var before, was := tlb[..], tlb[..];
    var base: U32;
    var offset: U32 := 0;
    var t := 0;
    writes := [];
    Start(before, rs);

    while table != null && table[t].start != SENTINEL
      invariant 0 <= t <= |rs| && (table != null ==> |rs| < table.Length)
      invariant offset == CursorAt(rs, t) <= TLB_SIZE
      invariant Progress(tlb[..], before, rs, writes, offset)
      decreases |rs| - t
    {
      ghost var r := rs[t];
      assert table[t] == r;
      CursorBound(rs, t);
      HoleSlots(rs, t);
      base := table[t].start;

      while offset < base / PAGE_SIZE
        invariant CursorAt(rs, t) <= offset <= MapStart(CursorAt(rs, t), r)
        invariant Progress(tlb[..], before, rs, writes, offset)
      {
        HoleAt(rs, CursorAt(rs, t), base / PAGE_SIZE, offset);
        was := tlb[..];
        tlb[offset] := HoleEntry(offset);
        Write(was, tlb[..], before, rs, writes, offset);
        writes := writes + [offset];
        offset := offset + 1;
      }

      ghost var j := 0;
      while base >= table[t].start && table[t].len > base - table[t].start && offset < TLB_SIZE
        invariant offset == MapStart(CursorAt(rs, t), r) + j <= TLB_SIZE && j <= Sections(r.len)
        invariant base == StepBase(r, j)
        invariant Progress(tlb[..], before, rs, writes, offset)
        decreases TLB_SIZE - offset
      {
        GuardHolds(rs, t, j, offset, base);
        was := tlb[..];
        tlb[offset] := SectionEntry(base, table[t].attr);
        Write(was, tlb[..], before, rs, writes, offset);
        writes := writes + [offset];
        offset := offset + 1;
        base := Add32(base, PAGE_SIZE);
        j := j + 1;
      }
      GuardFails(rs, t, j, offset, base);
      t := t + 1;
    }

    mapped := offset;
    CursorBound(rs, |rs|);
    RestSlots(rs);
    while offset < TLB_SIZE
      invariant CursorAt(rs, |rs|) <= offset <= TLB_SIZE
      invariant Progress(tlb[..], before, rs, writes, offset)
    {
      HoleAt(rs, CursorAt(rs, |rs|), TLB_SIZE, offset);
      was := tlb[..];
      tlb[offset] := HoleEntry(offset);
      Write(was, tlb[..], before, rs, writes, offset);
      writes := writes + [offset];
      offset := offset + 1;
    }
    Complete(tlb[..], before, rs, writes);
    if table != null {
      FinishedAt(tlb[..TLB_SIZE], table[..]);
    }
  }
}
