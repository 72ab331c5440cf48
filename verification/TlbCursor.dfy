/** Which region, if any, decides each slot of the table, for any list of regions:
    unsorted, overlapping, unaligned or empty. */
module TlbCursor {
  import opened Bits
  import opened ArmTlb

  /** Slot `i` is written by the mapping loop of region `k`. */
  predicate Owns(rs: seq<Region>, k: nat, i: nat) {
    k < |rs| && MapStart(CursorAt(rs, k), rs[k]) <= i < CursorAt(rs, k + 1)
  }

  lemma {:induction false} CursorMonotone(rs: seq<Region>, j: nat, k: nat)
    requires j <= k <= |rs|
    ensures CursorAt(rs, j) <= CursorAt(rs, k)
    decreases k
  {
    if j < k {
      CursorMonotone(rs, j, k - 1);
      CursorBound(rs, k - 1);
    }
  }

  lemma {:induction false} CursorInterval(rs: seq<Region>, n: nat, i: nat) returns (k: nat)
    requires n <= |rs| && i < CursorAt(rs, n)
    ensures k < n && CursorAt(rs, k) <= i < CursorAt(rs, k + 1)
  {
    if CursorAt(rs, n - 1) <= i {
      k := n - 1;
    } else {
      k := CursorInterval(rs, n - 1, i);
    }
  }

  lemma UnownedSlot(rs: seq<Region>, i: nat)
    requires forall k: nat :: !Owns(rs, k, i)
    ensures Slot(rs, 0, i) == HoleEntry(i)
  {
    if CursorAt(rs, |rs|) <= i {
      RestSlot(rs, i);
    } else {
      var k := CursorInterval(rs, |rs|, i);
      assert !Owns(rs, k, i);
      HoleSlot(rs, k, i);
    }
  }

  lemma OwnerUnique(rs: seq<Region>, j: nat, k: nat, i: nat)
    requires Owns(rs, j, i) && Owns(rs, k, i)
    ensures j == k
  {
    CursorBound(rs, j);
    CursorBound(rs, k);
    if j < k {
      CursorMonotone(rs, j + 1, k);
    } else if k < j {
      CursorMonotone(rs, k + 1, j);
    }
  }

  /** Every slot is written by the one region that owns it, or is a hole. */
  lemma SlotAccount(rs: seq<Region>, i: nat)
    requires i < TLB_SIZE
    ensures forall k: nat :: Owns(rs, k, i) ==> Slot(rs, 0, i) == MapEntry(CursorAt(rs, k), rs[k], i)
    ensures forall j: nat, k: nat :: Owns(rs, j, i) && Owns(rs, k, i) ==> j == k
    ensures (forall k: nat :: !Owns(rs, k, i)) ==> Slot(rs, 0, i) == HoleEntry(i)
  {
    forall k: nat | Owns(rs, k, i)
      ensures Slot(rs, 0, i) == MapEntry(CursorAt(rs, k), rs[k], i)
    {
      MapSlot(rs, k, i);
    }
    forall j: nat, k: nat | Owns(rs, j, i) && Owns(rs, k, i)
      ensures j == k
    {
      OwnerUnique(rs, j, k, i);
    }
    if forall k: nat :: !Owns(rs, k, i) {
      UnownedSlot(rs, i);
    }
  }

  /** A slot below the cursor is as the regions before left it: later ones do not matter. */
  lemma SlotBefore(rs: seq<Region>, k: nat, i: nat)
    requires k <= |rs| && i < CursorAt(rs, k)
    ensures Slot(rs, 0, i) == Slot(rs[..k], 0, i)
  {
    var j := CursorInterval(rs, k, i);
    CursorOfPrefix(rs, k, k);
    CursorOfPrefix(rs, k, j);
    CursorOfPrefix(rs, k, j + 1);
    assert rs[..k][j] == rs[j];
    if i < MapStart(CursorAt(rs, j), rs[j]) {
      HoleSlot(rs, j, i);
      HoleSlot(rs[..k], j, i);
    } else {
      MapSlot(rs, j, i);
      MapSlot(rs[..k], j, i);
    }
  }

  lemma {:induction false} CursorOfPrefix(rs: seq<Region>, k: nat, j: nat)
    requires j <= k <= |rs|
    ensures CursorAt(rs[..k], j) == CursorAt(rs, j)
  {
    if j > 0 {
      CursorOfPrefix(rs, k, j - 1);
    }
  }

  // ----- the cursor in closed form

  /** The sections asked for by regions `j` up to, but not including, `k`. */
  function Total(rs: seq<Region>, j: nat, k: nat): nat
    requires j <= k <= |rs|
    decreases k
  {
    if j == k then 0 else Total(rs, j, k - 1) + Sections(rs[k - 1].len)
  }

  /** Where the cursor would be after region `k - 1` if it started at region `j`'s first
      section. */
  function Path(rs: seq<Region>, j: nat, k: nat): nat
    requires j < k <= |rs|
  {
    rs[j].start / PAGE_SIZE + Total(rs, j, k)
  }

  lemma PathStep(rs: seq<Region>, j: nat, k: nat)
    requires j < k < |rs|
    ensures Path(rs, j, k + 1) == Path(rs, j, k) + Sections(rs[k].len)
  {
  }

  lemma PathLast(rs: seq<Region>, k: nat)
    requires k < |rs|
    ensures Path(rs, k, k + 1) == rs[k].start / PAGE_SIZE + Sections(rs[k].len)
  {
    assert Total(rs, k, k) == 0;
  }

  lemma NextIsMax(c: nat, r: Region)
    requires c <= TLB_SIZE
    ensures Next(c, r) >= Cap(c + Sections(r.len)) && Next(c, r) >= Cap(r.start / PAGE_SIZE + Sections(r.len))
    ensures Next(c, r) == Cap(c + Sections(r.len)) || Next(c, r) == Cap(r.start / PAGE_SIZE + Sections(r.len))
  {
  }

  lemma {:induction false} CursorAtLeast(rs: seq<Region>, k: nat)
    requires k <= |rs|
    ensures Cap(Total(rs, 0, k)) <= CursorAt(rs, k)
    ensures forall j :: 0 <= j < k ==> Cap(Path(rs, j, k)) <= CursorAt(rs, k)
  {
    if k > 0 {
      CursorAtLeast(rs, k - 1);
      CursorBound(rs, k - 1);
      NextIsMax(CursorAt(rs, k - 1), rs[k - 1]);
      PathLast(rs, k - 1);
      forall j | 0 <= j < k
        ensures Cap(Path(rs, j, k)) <= CursorAt(rs, k)
      {
        if j < k - 1 {
          PathStep(rs, j, k - 1);
          assert Cap(Path(rs, j, k - 1)) <= CursorAt(rs, k - 1);
        }
      }
    }
  }

  /** The cursor at region `k` is `n` cut off at the table's size, where `n` is all sections
      asked for so far or those on a path from some earlier region. */
  ghost predicate Attains(rs: seq<Region>, k: nat, c: nat)
    requires k <= |rs|
  {
    c == Cap(Total(rs, 0, k)) || exists j :: 0 <= j < k && c == Cap(Path(rs, j, k))
  }

  lemma AttainsStep(rs: seq<Region>, k: nat, c: nat)
    requires k < |rs| && Attains(rs, k, c)
    ensures Attains(rs, k + 1, Cap(c + Sections(rs[k].len)))
  {
    if c != Cap(Total(rs, 0, k)) {
      var j :| 0 <= j < k && c == Cap(Path(rs, j, k));
      PathStep(rs, j, k);
      assert Cap(c + Sections(rs[k].len)) == Cap(Path(rs, j, k + 1));
    }
  }

  lemma {:induction false} CursorAttained(rs: seq<Region>, k: nat)
    requires k <= |rs|
    ensures Attains(rs, k, CursorAt(rs, k))
  {
    if k > 0 {
      CursorAttained(rs, k - 1);
      CursorBound(rs, k - 1);
      NextIsMax(CursorAt(rs, k - 1), rs[k - 1]);
      PathLast(rs, k - 1);
      if CursorAt(rs, k) == Cap(Path(rs, k - 1, k)) {
      } else {
        AttainsStep(rs, k - 1, CursorAt(rs, k - 1));
      }
    }
  }

  /** The cursor is the longest path through the table, cut off at the table's size: either
      all sections asked for so far, or those asked for from some region on, counted from
      that region's first section. */
  lemma CursorIsLongestPath(rs: seq<Region>, k: nat)
    requires k <= |rs|
    ensures Cap(Total(rs, 0, k)) <= CursorAt(rs, k)
    ensures forall j :: 0 <= j < k ==> Cap(Path(rs, j, k)) <= CursorAt(rs, k)
    ensures CursorAt(rs, k) == Cap(Total(rs, 0, k))
         || exists j :: 0 <= j < k && CursorAt(rs, k) == Cap(Path(rs, j, k))
  {
    CursorAtLeast(rs, k);
    CursorAttained(rs, k);
  }
}
