/** What the finished translation table means. */
module TlbMap {
  import opened Bits
  import opened ArmTlb
  import opened TlbCursor

  // ----- section descriptors

  /** A first-level section descriptor taken apart. */
  datatype Descriptor = Descriptor(
    base: nat, kind: nat, bufferable: nat, cacheable: nat, domain: nat, access: nat, supersection: nat,
    others: seq<nat>)  // bits 4, 9, 17:12 and 19, which the header leaves unnamed

  function Decode(e: nat): Descriptor {
    Descriptor(Shr(e, 20), Field(e, 0, 2), Field(e, 2, 1), Field(e, 3, 1), Field(e, 5, 4), Field(e, 10, 2),
               Field(e, 18, 1), Others(e))
  }

  function Others(e: nat): seq<nat> {
    [Field(e, 4, 1), Field(e, 9, 1), Field(e, 12, 6), Field(e, 19, 1)]
  }

  lemma CommonBits()
    ensures Or(Or(SECTION, AP_RW), DOMAIN_15) == 0xDE2
  {
    Pow2Small();
    OrJoin(10, 3, 2);
    OrSplit(5, 96, 2, 15, 0);
    OrJoin(5, 3, 15);
    OrZero(2);
  }

  /** Exactly what a section entry decodes to, for any base and any attribute word. The
      domain and access fields always come out right; the others pick up whatever bits
      the attribute word has there. */
  lemma SectionFields(address: U32, attr: U32)
    ensures Decode(SectionEntry(address, attr)) == Descriptor(
      Or(address / PAGE_SIZE, attr / PAGE_SIZE), Or(Field(attr, 0, 2), 2), Field(attr, 2, 1), Field(attr, 3, 1),
      15, 3, Field(attr, 18, 1), Others(attr))
  {
    hide Or, And, SectionEntry, Field, Shr;
    EntryOthers(address, attr);
    EntryBase(address, attr);
    CommonFields();
    EntryField(address, attr, 0, 2);
    EntryField(address, attr, 2, 1);
    EntryField(address, attr, 3, 1);
    EntryField(address, attr, 5, 4);
    EntryField(address, attr, 10, 2);
    EntryField(address, attr, 18, 1);
    OrZero(Field(attr, 2, 1));
    OrZero(Field(attr, 3, 1));
    OrZero(Field(attr, 18, 1));
    FieldOnes(attr, 5, 4);
    FieldOnes(attr, 10, 2);
  }

  lemma EntryOthers(address: U32, attr: U32)
    ensures Others(SectionEntry(address, attr)) == Others(attr)
  {
    hide Or, And, SectionEntry, Field;
    CommonOthers();
    EntryField(address, attr, 4, 1);
    EntryField(address, attr, 9, 1);
    EntryField(address, attr, 12, 6);
    EntryField(address, attr, 19, 1);
    OrZero(Field(attr, 4, 1));
    OrZero(Field(attr, 9, 1));
    OrZero(Field(attr, 12, 6));
    OrZero(Field(attr, 19, 1));
  }

  lemma CommonOthers()
    ensures Field(0xDE2, 4, 1) == 0 && Field(0xDE2, 9, 1) == 0
    ensures Field(0xDE2, 12, 6) == 0 && Field(0xDE2, 19, 1) == 0
  {
    Pow2Small();
    Pow2Values();
    Pow2Add(8, 1);
    Pow2Add(4, 2);
    Pow2Add(18, 1);
  }

  lemma CommonFields()
    ensures Field(0xDE2, 0, 2) == 2 && Field(0xDE2, 2, 1) == 0 && Field(0xDE2, 3, 1) == 0
    ensures Field(0xDE2, 5, 4) == Pow2(4) - 1 == 15 && Field(0xDE2, 10, 2) == Pow2(2) - 1 == 3
    ensures Field(0xDE2, 18, 1) == 0 && Shr(0xDE2, 20) == 0
  {
    Pow2Small();
    Pow2Values();
  }

  lemma FieldOnes(x: nat, k: nat, m: nat)
    ensures Or(Field(x, k, m), Pow2(m) - 1) == Pow2(m) - 1
  {
    Parts(Shr(x, k), m);
    OrOnes(m, Field(x, k, m));
  }

  lemma SectionNumber(x: nat)
    ensures Shr(x, 20) == x / PAGE_SIZE
  {
    Pow2Values();
  }

  lemma EntryBase(address: U32, attr: U32)
    ensures Shr(SectionEntry(address, attr), 20) == Or(address / PAGE_SIZE, attr / PAGE_SIZE)
  {
    var b := And(address, BA_MASK);
    SectionBase(address);
    assert b / PAGE_SIZE == address / PAGE_SIZE;
    SectionNumber(b);
    SectionNumber(attr);
    ShrCommon(b, attr);
  }

  lemma ShrCommon(b: nat, attr: nat)
    ensures Shr(Or(Or(b, attr), Or(Or(SECTION, AP_RW), DOMAIN_15)), 20) == Or(Shr(b, 20), Shr(attr, 20))
  {
    CommonBits();
    CommonFields();
    OrParts(20, b, attr);
    OrParts(20, Or(b, attr), 0xDE2);
    OrZero(Or(Shr(b, 20), Shr(attr, 20)));
  }

  lemma EntryField(address: U32, attr: U32, k: nat, m: nat)
    requires k + m <= 20
    ensures Field(SectionEntry(address, attr), k, m) == Or(Field(attr, k, m), Field(0xDE2, k, m))
  {
    var b := And(address, BA_MASK);
    SectionBase(address);
    CommonBits();
    OrField(Or(b, attr), 0xDE2, k, m);
    OrField(b, attr, k, m);
    HighField(address / PAGE_SIZE, k, m);
    OrZero(Field(attr, k, m));
  }

  /** A multiple of 1M has no digits below 20. */
  lemma HighField(h: nat, k: nat, m: nat)
    requires k + m <= 20
    ensures Field(h * PAGE_SIZE, k, m) == 0
  {
    var r, p, q := Pow2(20 - k - m), Pow2(m), Pow2(k);
    assert PAGE_SIZE == r * (p * q) by {
      Pow2Add(20 - k - m, m + k);
      Pow2Add(m, k);
      Pow2Values();
    }
    Regroup(h, r, p, q);
    MultipleField(h * r, p, q);
  }

  lemma MultipleField(x: nat, p: nat, q: nat)
    requires p > 0 && q > 0
    ensures Rem(Quo(x * p * q, q), p) == 0
  {
    DivModUnique(q, x * p, 0);
    DivModUnique(p, x, 0);
  }

  lemma Regroup(h: nat, r: nat, p: nat, q: nat)
    ensures h * (r * (p * q)) == h * r * p * q
  {
  }

  lemma HoleIsPlainSection(i: nat)
    requires i < TLB_SIZE
    ensures HoleEntry(i) == SectionEntry(i * PAGE_SIZE, 0)
  {
    var s := i * PAGE_SIZE;
    ShiftedSection(i);
    SectionBase(s);
    assert s / PAGE_SIZE == i;
    RegroupHole(s);
  }

  lemma ShiftedSection(i: nat)
    requires i < TLB_SIZE
    ensures Shl(32, i, PAGE_SHIFT) == i * PAGE_SIZE
  {
    Pow2Values();
  }

  lemma RegroupHole(s: nat)
    ensures Or(Or(Or(Or(Or(s, SECTION), AP_RW), DOMAIN_15), B_DIS), C_DIS)
         == Or(Or(s, 0), Or(Or(SECTION, AP_RW), DOMAIN_15))
  {
    OrZero(s);
    OrAssoc(s, SECTION, AP_RW);
    OrAssoc(s, Or(SECTION, AP_RW), DOMAIN_15);
    OrZero(Or(Or(Or(s, SECTION), AP_RW), DOMAIN_15));
  }

  /** The attribute words the header offers: `B_ENA` and `C_ENA`, singly or together. */
  predicate CacheAttr(attr: U32) {
    attr == 0 || attr == B_ENA || attr == C_ENA || attr == B_ENA + C_ENA
  }

  /** They are the words that set no bit but 2 and 3. */
  lemma CacheAttrBits(attr: U32)
    ensures CacheAttr(attr) <==> attr == attr / 4 % 2 * 4 + attr / 8 % 2 * 8
  {
  }

  /** A section entry is a 1M section for its own address exactly when the attribute word
      leaves bits 0 and 18 clear and sets no base bit the address lacks. */
  lemma WellFormedIff(address: U32, attr: U32)
    ensures var d := Decode(SectionEntry(address, attr));
      (d.kind == 2 && d.supersection == 0 && d.base == address / PAGE_SIZE)
      <==> (Field(attr, 0, 1) == 0 && Field(attr, 18, 1) == 0
            && Or(address / PAGE_SIZE, attr / PAGE_SIZE) == address / PAGE_SIZE)
  {
    SectionFields(address, attr);
    LowTwoBits(attr);
  }

  lemma LowTwoBits(attr: nat)
    ensures Or(Field(attr, 0, 2), 2) == 2 <==> Field(attr, 0, 1) == 0
  {
    Pow2Small();
    Pow2Values();
    OrStep(Field(attr, 0, 2), 2);
    OrTop(Field(attr, 0, 2) / 2);
  }

  lemma OrTop(b: nat)
    requires b < 2
    ensures Or(b, 1) == 1
  {
    OrOnes(1, b);
  }

  lemma CacheAttrFields(attr: U32)
    requires CacheAttr(attr)
    ensures attr / PAGE_SIZE == 0 && Field(attr, 0, 2) == 0 && Field(attr, 18, 1) == 0
    ensures Field(attr, 2, 1) == attr / 4 % 2 && Field(attr, 3, 1) == attr / 8 % 2
    ensures Others(attr) == [0, 0, 0, 0]
  {
    Pow2Add(8, 1);
    Pow2Add(4, 2);
    Pow2Add(18, 1);
    Pow2Small();
    Pow2Values();
  }

  /** The descriptor of 1M section `i` with the given cache attributes. */
  function CacheDescriptor(i: nat, attr: U32): Descriptor {
    Descriptor(i, 2, attr / 4 % 2, attr / 8 % 2, 15, 3, 0, [0, 0, 0, 0])
  }

  lemma CacheFields(i: nat, address: U32, attr: U32)
    requires CacheAttr(attr) && address / PAGE_SIZE == i
    ensures Decode(SectionEntry(address, attr)) == CacheDescriptor(i, attr)
  {
    SectionFields(address, attr);
    CacheAttrFields(attr);
    OrZero(i);
    OrZero(2);
  }

  /** Each of the header's two choices sets its own bit only. */
  lemma CacheChoices(address: U32)
    ensures Decode(SectionEntry(address, B_ENA)) == Descriptor(
      address / PAGE_SIZE, 2, 1, 0, 15, 3, 0, [0, 0, 0, 0])
    ensures Decode(SectionEntry(address, C_ENA)) == Descriptor(
      address / PAGE_SIZE, 2, 0, 1, 15, 3, 0, [0, 0, 0, 0])
  {
    hide Or, And, SectionEntry, Decode;
    CacheFields(address / PAGE_SIZE, address, B_ENA);
    CacheFields(address / PAGE_SIZE, address, C_ENA);
  }

  lemma HoleFields(i: nat)
    requires i < TLB_SIZE
    ensures Decode(HoleEntry(i)) == CacheDescriptor(i, 0)
  {
    HoleIsPlainSection(i);
    CacheFields(i, i * PAGE_SIZE, 0);
  }

  /** For any list of regions with such attributes, every entry is a 1M section descriptor
      for domain 15 with read/write access, cached and buffered as its region says, or
      neither when no region wrote it. */
  lemma TableWellFormed(t: seq<U32>, rs: seq<Region>, i: nat)
    requires Finished(t, rs) && i < TLB_SIZE
    requires forall r :: r in rs ==> CacheAttr(r.attr)
    ensures forall k: nat :: Owns(rs, k, i) ==>
      Decode(t[i]) == CacheDescriptor(OwnedAddress(rs, k, i) / PAGE_SIZE, rs[k].attr)
    ensures (forall k: nat :: !Owns(rs, k, i)) ==> Decode(t[i]) == CacheDescriptor(i, 0)
  {
    SlotAccount(rs, i);
    HoleFields(i);
    forall k: nat | Owns(rs, k, i)
      ensures Decode(t[i]) == CacheDescriptor(OwnedAddress(rs, k, i) / PAGE_SIZE, rs[k].attr)
    {
      OwnedEntry(rs, k, i);
      CacheFields(OwnedAddress(rs, k, i) / PAGE_SIZE, OwnedAddress(rs, k, i), rs[k].attr);
    }
  }

  /** The address a region maps in a slot it owns. */
  function OwnedAddress(rs: seq<Region>, k: nat, i: nat): U32
    requires Owns(rs, k, i) && i < TLB_SIZE
  {
    StepInRange(CursorAt(rs, k), rs[k], i);
    StepAddress(rs[k], i - MapStart(CursorAt(rs, k), rs[k]))
  }

  lemma OwnedEntry(rs: seq<Region>, k: nat, i: nat)
    requires Owns(rs, k, i) && i < TLB_SIZE
    ensures Slot(rs, 0, i) == SectionEntry(OwnedAddress(rs, k, i), rs[k].attr)
    ensures OwnedAddress(rs, k, i) / PAGE_SIZE
         == i - (MapStart(CursorAt(rs, k), rs[k]) - rs[k].start / PAGE_SIZE)
  {
    MapSlot(rs, k, i);
    MapEntryAt(CursorAt(rs, k), rs[k], i, OwnedAddress(rs, k, i));
    StepSection(rs[k], i - MapStart(CursorAt(rs, k), rs[k]));
  }

  lemma StepSection(r: Region, j: nat)
    ensures StepAddress(r, j) / PAGE_SIZE == r.start / PAGE_SIZE + j
    ensures StepAddress(r, j) % PAGE_SIZE == r.start % PAGE_SIZE
  {
  }

  // ----- address translation

  /** The physical address of `va`: the base field of its section's entry, with the low 20
      bits of `va`. */
  function Walk(t: seq<U32>, va: U32): nat
    requires |t| == TLB_SIZE
  {
    Decode(t[va / PAGE_SIZE]).base * PAGE_SIZE + va % PAGE_SIZE
  }

  /** No non-empty region is reached with the cursor already past its first section. */
  predicate InStep(rs: seq<Region>) {
    forall k :: 0 <= k < |rs| && rs[k].len > 0 && CursorAt(rs, k) < TLB_SIZE ==>
      CursorAt(rs, k) <= rs[k].start / PAGE_SIZE
  }

  predicate NoBaseBits(rs: seq<Region>) {
    forall k :: 0 <= k < |rs| ==> rs[k].attr < PAGE_SIZE
  }

  /** The base field of any slot: its own number, less the distance by which the cursor had
      run past the owner's first section. */
  lemma SlotBase(rs: seq<Region>, i: nat)
    requires NoBaseBits(rs) && i < TLB_SIZE
    ensures forall k: nat :: Owns(rs, k, i) ==>
      Shr(Slot(rs, 0, i), 20) == i - (MapStart(CursorAt(rs, k), rs[k]) - rs[k].start / PAGE_SIZE)
    ensures (forall k: nat :: !Owns(rs, k, i)) ==> Shr(Slot(rs, 0, i), 20) == i
  {
    if forall k: nat :: !Owns(rs, k, i) {
      UnownedSlot(rs, i);
      HoleBase(i);
    }
    forall k: nat | Owns(rs, k, i)
      ensures Shr(Slot(rs, 0, i), 20) == i - (MapStart(CursorAt(rs, k), rs[k]) - rs[k].start / PAGE_SIZE)
    {
      OwnedBase(rs, k, i);
    }
  }

  lemma HoleBase(i: nat)
    requires i < TLB_SIZE
    ensures Shr(HoleEntry(i), 20) == i
  {
    HoleFields(i);
  }

  lemma OwnedBase(rs: seq<Region>, k: nat, i: nat)
    requires NoBaseBits(rs) && i < TLB_SIZE && Owns(rs, k, i)
    ensures Shr(Slot(rs, 0, i), 20) == i - (MapStart(CursorAt(rs, k), rs[k]) - rs[k].start / PAGE_SIZE)
  {
    OwnedEntry(rs, k, i);
    EntryBase(OwnedAddress(rs, k, i), rs[k].attr);
    OrZero(OwnedAddress(rs, k, i) / PAGE_SIZE);
  }

  lemma WalkBase(t: seq<U32>, rs: seq<Region>, va: U32)
    requires Finished(t, rs)
    ensures Walk(t, va) == Shr(Slot(rs, 0, va / PAGE_SIZE), 20) * PAGE_SIZE + va % PAGE_SIZE
  {
  }

  /** Displacement: an address whose section is owned by a region is translated down by
      exactly the distance the cursor had run past that region; any other address is
      translated to itself. */
  lemma WalkExact(t: seq<U32>, rs: seq<Region>, va: U32)
    requires Finished(t, rs) && NoBaseBits(rs)
    ensures forall k: nat :: Owns(rs, k, va / PAGE_SIZE) ==>
      Walk(t, va) == va - (MapStart(CursorAt(rs, k), rs[k]) - rs[k].start / PAGE_SIZE) * PAGE_SIZE
    ensures (forall k: nat :: !Owns(rs, k, va / PAGE_SIZE)) ==> Walk(t, va) == va
  {
    SlotBase(rs, va / PAGE_SIZE);
    WalkBase(t, rs, va);
  }

  /** The section number a region's step asks for in a slot it owns, with whatever base bits
      its attribute word adds. */
  function AskedBase(rs: seq<Region>, k: nat, i: nat): nat
    requires Owns(rs, k, i)
  {
    Or(rs[k].start / PAGE_SIZE + (i - MapStart(CursorAt(rs, k), rs[k])), rs[k].attr / PAGE_SIZE)
  }

  lemma OwnedBaseAny(rs: seq<Region>, k: nat, i: nat)
    requires Owns(rs, k, i) && i < TLB_SIZE
    ensures Shr(Slot(rs, 0, i), 20) == AskedBase(rs, k, i)
  {
    hide Or, And, SectionEntry;
    OwnedEntry(rs, k, i);
    EntryBase(OwnedAddress(rs, k, i), rs[k].attr);
  }

  /** For any list of regions and any attribute words: all 2^32 addresses are translated to
      themselves exactly when every slot a region owns gets that slot's own number. This
      reads the condition slot by slot; `IdentityIffInStep` is the form a caller can check
      on the regions, for attribute words without base bits. */
  lemma IdentityExact(t: seq<U32>, rs: seq<Region>)
    requires Finished(t, rs)
    ensures (forall va: U32 :: Walk(t, va) == va)
       <==> forall k: nat, i: nat :: Owns(rs, k, i) && i < TLB_SIZE ==> AskedBase(rs, k, i) == i
  {
    hide Or, And, Shr, Slot, Walk, AskedBase;
    if forall va: U32 :: Walk(t, va) == va {
      forall k: nat, i: nat | Owns(rs, k, i) && i < TLB_SIZE
        ensures AskedBase(rs, k, i) == i
      {
        var va: U32 := i * PAGE_SIZE;
        assert va / PAGE_SIZE == i;
        WalkBase(t, rs, va);
        OwnedBaseAny(rs, k, i);
        assert Walk(t, va) == va;
      }
    }
    if forall k: nat, i: nat :: Owns(rs, k, i) && i < TLB_SIZE ==> AskedBase(rs, k, i) == i {
      forall va: U32
        ensures Walk(t, va) == va
      {
        var i := va / PAGE_SIZE;
        WalkBase(t, rs, va);
        if k: nat :| Owns(rs, k, i) {
          OwnedBaseAny(rs, k, i);
        } else {
          UnownedSlot(rs, i);
          HoleBase(i);
        }
      }
    }
  }

  /** All 2^32 addresses are translated to themselves exactly when every non-empty region
      is reached with the cursor not past its first section. */
  lemma IdentityIffInStep(t: seq<U32>, rs: seq<Region>)
    requires Finished(t, rs) && NoBaseBits(rs)
    ensures (forall va: U32 :: Walk(t, va) == va) <==> InStep(rs)
  {
    if InStep(rs) {
      forall va: U32
        ensures Walk(t, va) == va
      {
        InStepWalk(t, rs, va);
      }
    }
    if !InStep(rs) {
      var k :| 0 <= k < |rs| && rs[k].len > 0 && CursorAt(rs, k) < TLB_SIZE
               && CursorAt(rs, k) > rs[k].start / PAGE_SIZE;
      var va: U32 := CursorAt(rs, k) * PAGE_SIZE;
      assert Owns(rs, k, CursorAt(rs, k));
      WalkExact(t, rs, va);
      assert Walk(t, va) != va;
    }
  }

  lemma InStepWalk(t: seq<U32>, rs: seq<Region>, va: U32)
    requires Finished(t, rs) && NoBaseBits(rs) && InStep(rs)
    ensures Walk(t, va) == va
  {
    var i := va / PAGE_SIZE;
    WalkExact(t, rs, va);
    if k: nat :| Owns(rs, k, i) {
      CursorBound(rs, k);
    }
  }
}
