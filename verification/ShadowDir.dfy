/** Shadow memory: a three-level directory of tag cells, one per byte of the
    47-bit user address space. Second-level tables and pages are allocated on
    the first write that needs them; the ghost field `view` is the flat map the
    directory stands for. */
module ShadowDirectory {
  import opened TagTables

  const SPACE: nat := 0x8000_0000_0000
  const WORD: nat := 0x1_0000_0000_0000_0000

  const TOP_DIR_SZ: nat := 0x80_0000
  const PAGETABLE_SZ: nat := 0x1000
  const PAGE_SZ: nat := 0x1000

  // A machine address.
  type Addr = x: nat | x < WORD

  // Machine addition: addresses wrap around at 2^64.
  function Plus(a: Addr, i: nat): (r: nat)
    ensures i <= WORD ==> r < WORD
  {
    if a + i < WORD then a + i else a + i - WORD
  }

  predicate InSpace(a: nat) { a < SPACE }

  // ------------------------------------------------------------ geometry
  // Unsigned shifts are divisions and low masks are remainders by powers of 2.

  function TableIndex(a: nat): nat { a / 0x100_0000 }

  function PageIndex(a: nat): nat { a % 0x100_0000 / 0x1000 }

  function CellIndex(a: nat): nat { a % 0x1000 }

  function Address(t: nat, p: nat, o: nat): nat { t * 0x100_0000 + p * 0x1000 + o }

  ghost predicate InBounds(t: nat, p: nat, o: nat) {
    t < TOP_DIR_SZ && p < PAGETABLE_SZ && o < PAGE_SZ
  }

  /** Splitting is a bijection from the 47-bit space onto the in-bounds index
      triples; `Address` is its inverse. */
  lemma SplitIsBijective(a: nat, t: nat, p: nat, o: nat)
    ensures a < SPACE ==> InBounds(TableIndex(a), PageIndex(a), CellIndex(a))
    ensures Address(TableIndex(a), PageIndex(a), CellIndex(a)) == a
    ensures InBounds(t, p, o) ==> Address(t, p, o) < SPACE
    ensures InBounds(t, p, o) ==>
              TableIndex(Address(t, p, o)) == t && PageIndex(Address(t, p, o)) == p && CellIndex(Address(t, p, o)) == o
  {
    AddressOfSplit(a);
    if InBounds(t, p, o) {
      SplitOfAddress(t, p, o);
    }
  }

  /** The same on machine words, with the shifts and masks themselves. */
  lemma ShiftsAndMasks(a: bv64, t: bv64, p: bv64, o: bv64)
    ensures a <= 0x7fff_ffff_ffff ==> a >> 24 < 0x80_0000 && (a & 0xff_ffff) >> 12 < 0x1000 && a & 0xfff < 0x1000
    ensures ((a >> 24) << 24) | (((a & 0xff_ffff) >> 12) << 12) | (a & 0xfff) == a
    ensures t < 0x80_0000 && p < 0x1000 && o < 0x1000 ==>
              var b := (t << 24) | (p << 12) | o;
              b <= 0x7fff_ffff_ffff && b >> 24 == t && (b & 0xff_ffff) >> 12 == p && b & 0xfff == o
  {
  }

  lemma AddressOfSplit(a: nat)
    ensures a < SPACE ==> InBounds(TableIndex(a), PageIndex(a), CellIndex(a))
    ensures Address(TableIndex(a), PageIndex(a), CellIndex(a)) == a
  {
  }

  lemma SplitOfAddress(t: nat, p: nat, o: nat)
    requires InBounds(t, p, o)
    ensures Address(t, p, o) < SPACE
    ensures TableIndex(Address(t, p, o)) == t && PageIndex(Address(t, p, o)) == p && CellIndex(Address(t, p, o)) == o
  {
  }

  lemma TriplesInSpace()
    ensures forall t, p, o :: InBounds(t, p, o) ==> InSpace(Address(t, p, o))
  {
  }

  // The value the last write to `a` stored, or `initial` if there is none.
  ghost function LastWrite(writes: seq<(Addr, TagId)>, a: nat, initial: TagId): TagId {
    if writes == [] then initial
    else if writes[|writes| - 1].0 == a then writes[|writes| - 1].1
    else LastWrite(writes[..|writes| - 1], a, initial)
  }

  // The flat map with [lo, hi) cleared.
  ghost function ClearedBetween(view: imap<nat, TagId>, lo: nat, hi: nat): imap<nat, TagId> {
    imap a | a in view :: if lo <= a < hi then CLEARED else view[a]
  }

  lemma ClearedNothing(view: imap<nat, TagId>, lo: nat)
    ensures ClearedBetween(view, lo, lo) == view
  {
  }

  lemma ClearedStep(view: imap<nat, TagId>, lo: nat, i: nat)
    requires lo <= i && forall a :: a in view <==> InSpace(a)
    ensures ClearedBetween(view, lo, i + 1) ==
            if InSpace(i) then ClearedBetween(view, lo, i)[i := CLEARED] else ClearedBetween(view, lo, i)
  {
  }

  // ----------------------------------------------------------- directory

  class ShadowDir {
    const table: array<array?<array?<TagId>>>
    ghost var view: imap<nat, TagId>
    ghost var Repr: set<object>

    ghost predicate ValidTop()
      reads this, Repr
    {
      && this in Repr && table in Repr && table.Length == TOP_DIR_SZ
      && (forall t :: 0 <= t < TOP_DIR_SZ ==> ValidTable(t))
      && (forall t, u :: 0 <= t < u < TOP_DIR_SZ && table[t] != null ==> table[t] != table[u])
    }

    ghost predicate ValidTable(t: nat)
      requires table.Length == TOP_DIR_SZ && t < TOP_DIR_SZ && table in Repr
      reads this, Repr
    {
      table[t] != null ==> table[t] in Repr && table[t].Length == PAGETABLE_SZ
    }

    // The page at (t, p), or null while it is not allocated.
    ghost function Page(t: nat, p: nat): array?<TagId>
      requires ValidTop() && t < TOP_DIR_SZ && p < PAGETABLE_SZ
      reads this, Repr
    {
      assert ValidTable(t);
      if table[t] == null then null else table[t][p]
    }

    ghost predicate ValidPages()
      requires ValidTop()
      reads this, Repr
    {
      && (forall t, p :: 0 <= t < TOP_DIR_SZ && 0 <= p < PAGETABLE_SZ ==>
            Page(t, p) == null || (Page(t, p) in Repr && Page(t, p).Length == PAGE_SZ))
      && (forall t, p, u, q ::
            0 <= t < TOP_DIR_SZ && 0 <= p < PAGETABLE_SZ && 0 <= u < TOP_DIR_SZ && 0 <= q < PAGETABLE_SZ ==>
            Page(t, p) == null || Page(t, p) != Page(u, q) || (t == u && p == q))
    }

    ghost function Cell(t: nat, p: nat, o: nat): TagId
      requires ValidTop() && ValidPages() && InBounds(t, p, o)
      reads this, Repr
    {
      if Page(t, p) == null then CLEARED else Page(t, p)[o]
    }

    ghost predicate Valid()
      reads this, Repr
      ensures Valid() ==> this in Repr
    {
      && ValidTop() && ValidPages()
      && (forall a :: a in view <==> InSpace(a))
      && (forall t, p, o :: InBounds(t, p, o) ==>
            Address(t, p, o) in view && view[Address(t, p, o)] == Cell(t, p, o))
    }

    constructor ()
      ensures Valid() && fresh(Repr)
      ensures view == imap a: nat | InSpace(a) :: CLEARED
    {
      table := new array?<array?<TagId>>[TOP_DIR_SZ](_ => null);
      view := imap a: nat | InSpace(a) :: CLEARED;
      new;
      Repr := {this, table};
      hide Address, InSpace;
      TriplesInSpace();
    }

    lemma ViewIsTotal()
      requires Valid()
      ensures forall a :: a in view <==> InSpace(a)
    {
    }

    method AllocateTable(t: nat)
      requires Valid() && t < TOP_DIR_SZ
      modifies Repr
      ensures Valid() && fresh(Repr - old(Repr)) && view == old(view)
      ensures table[t] != null
    {
      hide Address, InSpace;
      if table[t] == null {
        var newTable := new array?<TagId>[PAGETABLE_SZ](_ => null);
        table[t] := newTable;
        Repr := Repr + {newTable};
        assert forall u :: 0 <= u < TOP_DIR_SZ ==> ValidTable(u);
        assert forall u, q :: 0 <= u < TOP_DIR_SZ && 0 <= q < PAGETABLE_SZ ==> Page(u, q) == old(Page(u, q));
      }
    }

    method AllocatePage(t: nat, p: nat)
      requires Valid() && t < TOP_DIR_SZ && p < PAGETABLE_SZ && table[t] != null
      modifies Repr
      ensures Valid() && fresh(Repr - old(Repr)) && view == old(view)
      ensures table[t] != null && Page(t, p) != null
    {
      hide Address, InSpace;
      assert ValidTable(t);
      if table[t][p] == null {
        var newPage := new TagId[PAGE_SZ](_ => CLEARED);
        table[t][p] := newPage;
        Repr := Repr + {newPage};
        forall u | 0 <= u < TOP_DIR_SZ ensures ValidTable(u) {
          assert old(ValidTable(u));
        }
        assert forall u, q :: 0 <= u < TOP_DIR_SZ && 0 <= q < PAGETABLE_SZ && (u != t || q != p) ==>
          Page(u, q) == old(Page(u, q));
        assert ValidPages();
      }
    }

    /** tag_dir_setb: an out-of-range write is dropped, any other one changes
        exactly its own cell. */
    method SetB(addr: Addr, tag: TagId)
      requires Valid()
      modifies Repr
      ensures Valid() && fresh(Repr - old(Repr))
      ensures view == if InSpace(addr) then old(view)[addr := tag] else old(view)
    {
      if addr > 0x7fff_ffff_ffff {
        return;
      }
      var t, p, o := TableIndex(addr), PageIndex(addr), CellIndex(addr);
      SplitIsBijective(addr, t, p, o);
      AllocateTable(t);
      AllocatePage(t, p);
      WriteCell(t, p, o, tag);
    }

    // The final store of tag_dir_setb, into an allocated page.
    method WriteCell(t: nat, p: nat, o: nat, tag: TagId)
      requires Valid() && InBounds(t, p, o) && Page(t, p) != null
      modifies Repr
      ensures Valid() && Repr == old(Repr)
      ensures view == old(view)[Address(t, p, o) := tag]
    {
      hide Address, InSpace;
      assert ValidTable(t);
      TriplesInSpace();
      ghost var page := Page(t, p);
      table[t][p][o] := tag;
      view := view[Address(t, p, o) := tag];
      forall u | 0 <= u < TOP_DIR_SZ ensures ValidTable(u) {
        assert old(ValidTable(u));
      }
      assert forall u, q :: 0 <= u < TOP_DIR_SZ && 0 <= q < PAGETABLE_SZ ==> Page(u, q) == old(Page(u, q));
      forall u, q, c | InBounds(u, q, c)
        ensures Address(u, q, c) in view && view[Address(u, q, c)] == Cell(u, q, c)
      {
        SplitIsBijective(0, u, q, c);
        SplitIsBijective(0, t, p, o);
      }
    }

    /** tag_dir_getb: the flat map's value; a cell never written is cleared. */
    function GetB(addr: Addr): (tag: TagId)
      requires Valid() && InSpace(addr)
      reads this, Repr
      ensures tag == view[addr]
    {
      var t, p, o := TableIndex(addr), PageIndex(addr), CellIndex(addr);
      SplitIsBijective(addr, t, p, o);
      assert ValidTable(t) && view[Address(t, p, o)] == Cell(t, p, o);
      if table[t] == null then CLEARED
      else if table[t][p] == null then CLEARED
      else
        assert Page(t, p) != null;
        table[t][p][o]
    }

    /** file_tagmap_clrn: clears exactly [addr, addr + n); when addr + n wraps
        around, the loop condition fails at once and nothing is cleared. */
    method ClearRange(addr: Addr, n: nat)
      requires Valid() && n < ID_LIMIT
      modifies Repr
      ensures Valid() && fresh(Repr - old(Repr))
      ensures view == if addr + n < WORD then ClearedBetween(old(view), addr, addr + n) else old(view)
    {
      hide ShadowDir.Valid, ClearedBetween;
      var i, end := addr, Plus(addr, n);
      ClearedNothing(view, addr);
      assert view == ClearedBetween(old(view), addr, i);
      ViewIsTotal();
      while i < end
        invariant addr <= i && (i <= end || i == addr)
        invariant Valid() && fresh(Repr - old(Repr))
        invariant view == ClearedBetween(old(view), addr, i)
      {
        ClearedStep(old(view), addr, i);
        SetB(i, CLEARED);
        i := i + 1;
      }
    }

    /** Any history of writes, then a read: the last in-range write wins. */
    method Replay(writes: seq<(Addr, TagId)>)
      requires Valid()
      modifies Repr
      ensures Valid() && fresh(Repr - old(Repr))
      ensures forall a: nat :: InSpace(a) ==> view[a] == LastWrite(writes, a, old(view)[a])
    {
      for k := 0 to |writes|
        invariant Valid() && fresh(Repr - old(Repr))
        invariant forall a: nat :: InSpace(a) ==> view[a] == LastWrite(writes[..k], a, old(view)[a])
      {
        SetB(writes[k].0, writes[k].1);
        assert writes[..k + 1][..k] == writes[..k];
      }
      assert writes[..|writes|] == writes;
    }
  }
}
