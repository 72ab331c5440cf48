/** What a caller's list of regions gets: which touched sections a region covers, when the
    whole table is the declared map, and that cutting a region in two changes nothing. */
module TlbRegions {
  import opened Bits
  import opened ArmTlb
  import opened TlbCursor
  import opened TlbMap

  // ----- the sections a region touches

  /** Section `i` and the region's addresses overlap. */
  predicate Touches(r: Region, i: nat) {
    r.len > 0 && r.start < (i + 1) * PAGE_SIZE && i * PAGE_SIZE < r.start + r.len
  }

  lemma TouchesHasAddress(r: Region, i: nat)
    ensures Touches(r, i) <==> exists a: nat :: r.start <= a < r.start + r.len && a / PAGE_SIZE == i
  {
    if Touches(r, i) {
      var a := if r.start < i * PAGE_SIZE then i * PAGE_SIZE else r.start;
      assert r.start <= a < r.start + r.len && a / PAGE_SIZE == i;
    }
  }

  /** The offsets of the first and the last byte within their sections add up to a carry. */
  predicate LastMissed(r: Region) {
    r.len > 0 && r.start % PAGE_SIZE + (r.len - 1) % PAGE_SIZE >= PAGE_SIZE
  }

  function LastSection(r: Region): int {
    (r.start + r.len - 1) / PAGE_SIZE
  }

  /** Which sections any region of any list writes. Of those it touches, it writes the ones
      not below the cursor, except that a region reached in step misses its last one when
      `LastMissed`. It writes sections it does not touch only when it is reached out of
      step, and then those after its last one, up to the number of sections asked for. */
  lemma Coverage(rs: seq<Region>, k: nat, i: nat)
    requires k < |rs| && i < TLB_SIZE
    ensures Touches(rs[k], i) ==>
      (Owns(rs, k, i) <==>
        CursorAt(rs, k) <= i
        && !(CursorAt(rs, k) <= rs[k].start / PAGE_SIZE && LastMissed(rs[k]) && i == LastSection(rs[k])))
    ensures !Touches(rs[k], i) ==>
      (Owns(rs, k, i) <==>
        rs[k].len > 0 && rs[k].start / PAGE_SIZE < CursorAt(rs, k) <= i < CursorAt(rs, k) + Sections(rs[k].len)
        && LastSection(rs[k]) < i)
  {
    var r := rs[k];
    var p, c := r.start / PAGE_SIZE, CursorAt(rs, k);
    CursorBound(rs, k);
    assert Owns(rs, k, i) <==> MapStart(c, r) <= i < MapStart(c, r) + Sections(r.len);
    SectionsTouched(r, i);
  }

  /** The region is reached in step, and if it misses its last section that is beyond the
      table. */
  predicate Covered(rs: seq<Region>, k: nat)
    requires k < |rs|
  {
    rs[k].len > 0 ==>
      && CursorAt(rs, k) <= rs[k].start / PAGE_SIZE
      && (LastMissed(rs[k]) ==> LastSection(rs[k]) >= TLB_SIZE)
  }

  /** A region writes exactly the sections it touches if and only if it is covered. */
  lemma CoveredExactly(rs: seq<Region>, k: nat)
    requires k < |rs|
    ensures (forall i: nat :: i < TLB_SIZE ==> (Owns(rs, k, i) <==> Touches(rs[k], i))) <==> Covered(rs, k)
  {
    var r := rs[k];
    if Covered(rs, k) {
      forall i: nat | i < TLB_SIZE
        ensures Owns(rs, k, i) <==> Touches(r, i)
      {
        Coverage(rs, k, i);
        SectionsTouched(r, i);
      }
    } else {
      var i: nat := if CursorAt(rs, k) > r.start / PAGE_SIZE then r.start / PAGE_SIZE else LastSection(r);
      SectionsTouched(r, i);
      Coverage(rs, k, i);
      assert Touches(r, i) && !Owns(rs, k, i);
    }
  }

  /** Every region is covered. */
  predicate Covers(rs: seq<Region>) {
    forall k :: 0 <= k < |rs| ==> Covered(rs, k)
  }

  /** Over the whole table: every region writes exactly the sections it touches if and only
      if every non-empty region is reached in step and misses no section of the table. */
  lemma CoversExactly(rs: seq<Region>)
    ensures (forall k: nat, i: nat :: k < |rs| && i < TLB_SIZE ==> (Owns(rs, k, i) <==> Touches(rs[k], i)))
       <==> Covers(rs)
  {
    if Covers(rs) {
      forall k: nat, i: nat | k < |rs| && i < TLB_SIZE
        ensures Owns(rs, k, i) <==> Touches(rs[k], i)
      {
        CoveredExactly(rs, k);
      }
    } else {
      var k :| 0 <= k < |rs| && !Covered(rs, k);
      CoveredExactly(rs, k);
    }
  }

  lemma SectionsTouched(r: Region, i: nat)
    ensures r.start / PAGE_SIZE <= i < r.start / PAGE_SIZE + Sections(r.len) <==>
      Touches(r, i) && !(LastMissed(r) && i == LastSection(r))
    ensures Touches(r, i) <==> r.len > 0 && r.start / PAGE_SIZE <= i <= LastSection(r)
    ensures r.len > 0 ==> LastSection(r) == r.start / PAGE_SIZE + Sections(r.len) - (if LastMissed(r) then 0 else 1)
  {
    if r.len > 0 {
      var p, a := r.start / PAGE_SIZE, r.start % PAGE_SIZE;
      var q, b := (r.len - 1) / PAGE_SIZE, (r.len - 1) % PAGE_SIZE;
      assert Sections(r.len) == q + 1;
      assert r.start + r.len - 1 == (p + q) * PAGE_SIZE + a + b;
      assert LastSection(r) == if a + b >= PAGE_SIZE then p + q + 1 else p + q;
      assert Touches(r, i) <==> p <= i <= LastSection(r);
    }
  }

  /** What the finished table holds in a section a region touches, for any region of any
      list: below the cursor, what the regions before made of it; in the last section of a
      region reached in step that misses it, what the regions after make of it; otherwise
      the region's attribute, with the address of the step that reached the slot. */
  lemma CoverageEntry(t: seq<U32>, rs: seq<Region>, k: nat, i: nat)
    requires Finished(t, rs) && k < |rs| && i < TLB_SIZE && Touches(rs[k], i)
    ensures var c, r := CursorAt(rs, k), rs[k];
      if i < c then t[i] == Slot(rs[..k], 0, i)
      else if c <= r.start / PAGE_SIZE && LastMissed(r) && i == LastSection(r)
      then CursorAt(rs, k + 1) <= i && t[i] == Slot(rs[k + 1..], CursorAt(rs, k + 1), i)
      else
        var address := StepAddress(r, i - MapStart(c, r));
        MapStart(c, r) <= i && address < 0x1_0000_0000 && t[i] == SectionEntry(address, r.attr)
  {
    hide Or, And, SectionEntry, HoleEntry;
    Coverage(rs, k, i);
    if i < CursorAt(rs, k) {
      SlotBefore(rs, k, i);
    } else if Owns(rs, k, i) {
      OwnedEntry(rs, k, i);
    } else {
      SectionsTouched(rs[k], i);
      SlotFrom(rs, k + 1, i);
    }
  }

  /** A cached region of one megabyte that starts in the middle of a section: the second
      section it touches is left uncached. */
  lemma UnalignedMiss(t: seq<U32>, rs: seq<Region>)
    requires rs == [Region(0x8_0000, 0x10_0000, C_ENA)] && Finished(t, rs)
    ensures Touches(rs[0], 1) && t[1] == HoleEntry(1)
  {
    hide Or, And;
    Coverage(rs, 0, 1);
    UnownedSlot(rs, 1);
  }

  /** Two regions in descending order: the address after the higher one is translated to
      address 0. */
  lemma UnsortedDisplaced(t: seq<U32>, rs: seq<Region>)
    requires rs == [Region(0x10_0000, 0x10_0000, 0), Region(0, 0x10_0000, 0)] && Finished(t, rs)
    ensures Walk(t, 0x20_0000) == 0
  {
    hide Or, And, Walk;
    assert CursorAt(rs, 0) == 0;
    assert CursorAt(rs, 1) == 2;
    assert Owns(rs, 1, 2);
    WalkExact(t, rs, 0x20_0000);
  }

  // ----- the declared map

  /** Regions on 1M boundaries, in ascending order and not overlapping. */
  predicate Orderly(rs: seq<Region>) {
    && (forall k :: 0 <= k < |rs| ==> rs[k].start % PAGE_SIZE == 0)
    && (forall j, k :: 0 <= j < k < |rs| ==> rs[j].start + rs[j].len <= rs[k].start)
  }

  /** The attribute declared for section `i`: that of the first region touching it, or
      neither cached nor buffered. */
  function Declared(rs: seq<Region>, i: nat): U32 {
    if rs == [] then 0 else if Touches(rs[0], i) then rs[0].attr else Declared(rs[1..], i)
  }

  lemma {:induction false} DeclaredIs(rs: seq<Region>, i: nat)
    ensures (exists k :: 0 <= k < |rs| && Touches(rs[k], i) && Declared(rs, i) == rs[k].attr)
         || ((forall k :: 0 <= k < |rs| ==> !Touches(rs[k], i)) && Declared(rs, i) == 0)
  {
    if rs != [] && !Touches(rs[0], i) {
      var rest := rs[1..];
      DeclaredIs(rest, i);
      if k :| 0 <= k < |rest| && Touches(rest[k], i) && Declared(rest, i) == rest[k].attr {
        assert rs[k + 1] == rest[k];
      } else {
        assert forall k :: 0 < k < |rs| ==> rs[k] == rest[k - 1];
      }
    }
  }

  lemma {:induction false} OrderlyCursor(rs: seq<Region>, n: nat, k: nat)
    requires Orderly(rs) && n <= k < |rs|
    ensures CursorAt(rs, n) <= rs[k].start / PAGE_SIZE
  {
    if n > 0 {
      OrderlyCursor(rs, n - 1, n - 1);
      EndSection(rs[n - 1], rs[k]);
    }
  }

  lemma EndSection(r: Region, r': Region)
    requires r.start % PAGE_SIZE == 0 && r'.start % PAGE_SIZE == 0 && r.start + r.len <= r'.start
    ensures r.start / PAGE_SIZE + Sections(r.len) <= r'.start / PAGE_SIZE
  {
  }

  /** Orderly lists are covered. */
  lemma OrderlyCovers(rs: seq<Region>)
    requires Orderly(rs)
    ensures Covers(rs)
  {
    forall k | 0 <= k < |rs|
      ensures Covered(rs, k)
    {
      OrderlyCursor(rs, k, k);
    }
  }

  /** In a covered list no section of the table is touched by two regions. */
  lemma TouchOnce(rs: seq<Region>, j: nat, k: nat, i: nat)
    requires Covers(rs) && j < |rs| && k < |rs| && i < TLB_SIZE && Touches(rs[j], i) && Touches(rs[k], i)
    ensures j == k
  {
    CoveredExactly(rs, j);
    CoveredExactly(rs, k);
    assert Owns(rs, j, i) && Owns(rs, k, i);
    OwnerUnique(rs, j, k, i);
  }

  /** A section entry depends only on the section its address lies in. */
  lemma SameSection(a: U32, b: U32, attr: U32)
    requires a / PAGE_SIZE == b / PAGE_SIZE
    ensures SectionEntry(a, attr) == SectionEntry(b, attr)
  {
    hide Or, And;
    SectionBase(a);
    SectionBase(b);
  }

  lemma CoveredSlot(rs: seq<Region>, k: nat, i: nat, base: U32)
    requires Covers(rs) && k < |rs| && i < TLB_SIZE && Touches(rs[k], i) && base == i * PAGE_SIZE
    ensures Slot(rs, 0, i) == SectionEntry(base, rs[k].attr)
  {
    hide Or, And, SectionEntry, Slot;
    CoveredExactly(rs, k);
    assert Owns(rs, k, i) && Covered(rs, k);
    OwnedEntry(rs, k, i);
    assert base / PAGE_SIZE == i == OwnedAddress(rs, k, i) / PAGE_SIZE;
    SameSection(OwnedAddress(rs, k, i), base, rs[k].attr);
  }

  lemma UncoveredSlot(rs: seq<Region>, i: nat)
    requires Covers(rs) && i < TLB_SIZE && forall k :: 0 <= k < |rs| ==> !Touches(rs[k], i)
    ensures Slot(rs, 0, i) == SectionEntry(i * PAGE_SIZE, 0)
  {
    hide Or, And, SectionEntry, HoleEntry, Slot;
    forall k: nat
      ensures !Owns(rs, k, i)
    {
      if k < |rs| {
        CoveredExactly(rs, k);
      }
    }
    UnownedSlot(rs, i);
    HoleIsPlainSection(i);
  }

  /** The finished table of a covered list is the declared map: every section's entry is the
      section's own base with the declared attribute. */
  lemma TableIsDeclaredMap(t: seq<U32>, rs: seq<Region>, i: nat)
    requires Finished(t, rs) && Covers(rs) && i < TLB_SIZE
    ensures t[i] == SectionEntry(i * PAGE_SIZE, Declared(rs, i))
  {
    hide Or, And, SectionEntry, Slot;
    DeclaredIs(rs, i);
    if k :| 0 <= k < |rs| && Touches(rs[k], i) && Declared(rs, i) == rs[k].attr {
      CoveredSlot(rs, k, i, i * PAGE_SIZE);
    } else {
      UncoveredSlot(rs, i);
    }
  }

  lemma WalkHome(t: seq<U32>, va: U32)
    requires |t| == TLB_SIZE && Decode(t[va / PAGE_SIZE]).base == va / PAGE_SIZE
    ensures Walk(t, va) == va
  {
  }

  /** End to end: with a covered list and cache attributes, every address is translated to
      itself and is cached and buffered exactly as the region containing its section says. */
  lemma TranslationIsDeclared(t: seq<U32>, rs: seq<Region>, va: U32)
    requires Finished(t, rs) && Covers(rs)
    requires forall r :: r in rs ==> CacheAttr(r.attr)
    ensures Walk(t, va) == va
    ensures Decode(t[va / PAGE_SIZE]) == CacheDescriptor(va / PAGE_SIZE, Declared(rs, va / PAGE_SIZE))
  {
    var i := va / PAGE_SIZE;
    var base: U32 := i * PAGE_SIZE;
    TableIsDeclaredMap(t, rs, i);
    DeclaredIs(rs, i);
    CacheFields(i, base, Declared(rs, i));
    WalkHome(t, va);
  }

  // ----- cutting a region in two

  predicate Unterminated(rs: seq<Region>) {
    forall k :: 0 <= k < |rs| ==> rs[k].start != SENTINEL
  }

  lemma ActiveFirst(r: Region, rest: seq<Region>)
    requires r.start != SENTINEL
    ensures Active([r] + rest) == [r] + Active(rest)
  {
    assert ([r] + rest)[1..] == rest;
  }

  lemma {:induction false} ActiveConcat(a: seq<Region>, b: seq<Region>)
    requires Unterminated(a)
    ensures Active(a + b) == a + Active(b)
  {
    if a == [] {
      assert a + b == b && a + Active(b) == Active(b);
    } else {
      var first, rest := a[0], a[1..];
      assert Unterminated(rest);
      ActiveConcat(rest, b);
      assert a + b == [first] + (rest + b);
      assert a + Active(b) == [first] + (rest + Active(b));
      ActiveFirst(first, rest + b);
    }
  }

  lemma ActiveAround(a: seq<Region>, x: seq<Region>, b: seq<Region>)
    requires Unterminated(a) && Unterminated(x)
    ensures Active(a + x + b) == a + (x + Active(b))
  {
    hide Active, Unterminated;
    assert a + x + b == a + (x + b);
    ActiveConcat(a, x + b);
    ActiveConcat(x, b);
  }

  /** The region cut `k` sections after its start. */
  function Cut(r: Region, k: nat): seq<Region>
    requires k * PAGE_SIZE <= r.len && r.start + k * PAGE_SIZE < SENTINEL
  {
    [Region(r.start, k * PAGE_SIZE, r.attr), Region(r.start + k * PAGE_SIZE, r.len - k * PAGE_SIZE, r.attr)]
  }

  lemma CutCursor(r: Region, k: nat, c: nat)
    requires k * PAGE_SIZE <= r.len && r.start + k * PAGE_SIZE < SENTINEL && c <= TLB_SIZE
    ensures var h := Cut(r, k);
      && MapStart(c, h[0]) == MapStart(c, r)
      && Next(c, h[0]) == Cap(MapStart(c, r) + k)
      && MapStart(Next(c, h[0]), h[1]) == Next(c, h[0])
      && Next(Next(c, h[0]), h[1]) == Next(c, r)
  {
    assert Sections(k * PAGE_SIZE) == k;
    assert Sections(r.len - k * PAGE_SIZE) == Sections(r.len) - k;
    assert (r.start + k * PAGE_SIZE) / PAGE_SIZE == r.start / PAGE_SIZE + k;
  }

  lemma CutSlot(r: Region, k: nat, b: seq<Region>, c: nat, i: nat)
    requires k * PAGE_SIZE <= r.len && r.start + k * PAGE_SIZE < SENTINEL && c <= TLB_SIZE && i < TLB_SIZE
    ensures Slot([r] + b, c, i) == Slot(Cut(r, k) + b, c, i)
  {
    var h := Cut(r, k);
    CutCursor(r, k, c);
    assert (h + b)[0] == h[0] && (h + b)[1..] == [h[1]] + b;
    assert ([h[1]] + b)[1..] == b && ([r] + b)[1..] == b;
    if MapStart(c, r) <= i < Next(c, r) {
      CutEntry(r, k, c, i);
    }
  }

  lemma CutEntry(r: Region, k: nat, c: nat, i: nat)
    requires k * PAGE_SIZE <= r.len && r.start + k * PAGE_SIZE < SENTINEL && c <= TLB_SIZE
    requires MapStart(c, r) <= i < Next(c, r)
    ensures var h := Cut(r, k);
      && MapStart(c, h[0]) == MapStart(c, r)
      && MapStart(Next(c, h[0]), h[1]) == Next(c, h[0])
      && (if i < Next(c, h[0]) then MapEntry(c, r, i) == MapEntry(c, h[0], i)
          else MapEntry(c, r, i) == MapEntry(Next(c, h[0]), h[1], i))
  {
    var h := Cut(r, k);
    CutCursor(r, k, c);
    StepInRange(c, r, i);
    var address := StepAddress(r, i - MapStart(c, r));
    MapEntryAt(c, r, i, address);
    if i < Next(c, h[0]) {
      MapEntryAt(c, h[0], i, address);
    } else {
      MapEntryAt(Next(c, h[0]), h[1], i, address);
    }
  }

  lemma {:induction false} SamePrefix(a: seq<Region>, x: seq<Region>, y: seq<Region>, c: nat, i: nat)
    requires c <= TLB_SIZE
    requires forall c' :: 0 <= c' <= TLB_SIZE ==> Slot(x, c', i) == Slot(y, c', i)
    ensures Slot(a + x, c, i) == Slot(a + y, c, i)
    decreases |a|
  {
    if a == [] {
      assert a + x == x && a + y == y;
    } else {
      assert (a + x)[1..] == a[1..] + x && (a + y)[1..] == a[1..] + y;
      SamePrefix(a[1..], x, y, Next(c, a[0]), i);
    }
  }

  lemma SplitSlot(a: seq<Region>, r: Region, k: nat, rest: seq<Region>, i: nat)
    requires k * PAGE_SIZE <= r.len && r.start + k * PAGE_SIZE < SENTINEL && i < TLB_SIZE
    ensures Slot(a + ([r] + rest), 0, i) == Slot(a + (Cut(r, k) + rest), 0, i)
  {
    forall c | 0 <= c <= TLB_SIZE
      ensures Slot([r] + rest, c, i) == Slot(Cut(r, k) + rest, c, i)
    {
      CutSlot(r, k, rest, c, i);
    }
    SamePrefix(a, [r] + rest, Cut(r, k) + rest, 0, i);
  }

  lemma SplitActive(a: seq<Region>, r: Region, k: nat, b: seq<Region>)
    requires Unterminated(a + [r]) && k * PAGE_SIZE <= r.len && r.start + k * PAGE_SIZE < SENTINEL
    ensures Active(a + [r] + b) == a + ([r] + Active(b))
    ensures Active(a + Cut(r, k) + b) == a + (Cut(r, k) + Active(b))
  {
    assert (a + [r])[|a|] == r;
    assert forall n :: 0 <= n < |a| ==> a[n] == (a + [r])[n];
    ActiveAround(a, [r], b);
    ActiveAround(a, Cut(r, k), b);
  }

  /** Cutting any region of any table in two leaves every entry of the finished table as it
      was, provided the second half's start is a 32-bit address other than the sentinel. */
  lemma SplitInvariance(a: seq<Region>, r: Region, k: nat, b: seq<Region>, t: seq<U32>, t': seq<U32>)
    requires Unterminated(a + [r])
    requires k * PAGE_SIZE <= r.len && r.start + k * PAGE_SIZE < SENTINEL
    requires Finished(t, Active(a + [r] + b)) && Finished(t', Active(a + Cut(r, k) + b))
    ensures t == t'
  {
    SplitActive(a, r, k, b);
    forall i | 0 <= i < TLB_SIZE
      ensures t[i] == t'[i]
    {
      SplitSlot(a, r, k, Active(b), i);
    }
  }
}
