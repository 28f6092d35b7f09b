/** Queries over the shadow state: folds of tag_combine, their early-exit forms
    and the register taint mask. */
module Queries {
  import opened TagText
  import opened TagTables
  import opened ShadowDirectory
  import opened Cells
  import opened Engines

  // ------------------------------------------------------------------ folds

  // A way of combining tags: any order, any bracketing, any repetition.
  datatype Bracketing = Leaf(id: TagId) | Node(left: Bracketing, right: Bracketing)

  ghost predicate IdsIn(t: Bracketing, n: nat) {
    match t
    case Leaf(id) => id < n
    case Node(l, r) => IdsIn(l, n) && IdsIn(r, n)
  }

  // The union of the leaves.
  ghost function LeafUnion(t: Bracketing, sets: seq<set<Label>>): set<Label>
    requires IdsIn(t, |sets|)
  {
    match t
    case Leaf(id) => sets[id]
    case Node(l, r) => LeafUnion(l, sets) + LeafUnion(r, sets)
  }

  lemma {:induction false} LeafUnionGrows(t: Bracketing, sets: seq<set<Label>>, more: seq<set<Label>>)
    requires IdsIn(t, |sets|) && sets <= more
    ensures IdsIn(t, |more|) && LeafUnion(t, more) == LeafUnion(t, sets)
  {
    match t
    case Leaf(_) =>
    case Node(l, r) =>
      LeafUnionGrows(l, sets, more);
      LeafUnionGrows(r, sets, more);
  }

  method Fold(tags: TagTable, t: Bracketing) returns (id: TagId)
    requires tags.Valid() && IdsIn(t, |tags.sets|)
    modifies tags
    ensures tags.Valid() && old(tags.sets) <= tags.sets && id < |tags.sets|
    ensures tags.Live() ==> tags.sets[id] == LeafUnion(t, old(tags.sets))
    decreases t
  {
    hide TagTable.Valid;
    match t
    case Leaf(i) => id := i;
    case Node(l, r) =>
      var a := Fold(tags, l);
      LeafUnionGrows(r, old(tags.sets), tags.sets);
      var b := Fold(tags, r);
      id := tags.Combine(a, b);
  }

  /** Two folds give the same id exactly when their leaves have the same union,
      whatever the order and the bracketing. */
  method FoldTwice(tags: TagTable, s: Bracketing, t: Bracketing) returns (a: TagId, b: TagId)
    requires tags.Valid() && IdsIn(s, |tags.sets|) && IdsIn(t, |tags.sets|)
    modifies tags
    ensures tags.Live() ==> (a == b <==> LeafUnion(s, old(tags.sets)) == LeafUnion(t, old(tags.sets)))
  {
    a := Fold(tags, s);
    LeafUnionGrows(t, old(tags.sets), tags.sets);
    b := Fold(tags, t);
    if tags.Live() {
      ClearedIsEmpty(tags.sets, tags.intern, tags.memo);
      IdsAreCanonical(tags.sets, a, b);
    }
  }

  // ----------------------------------------------------------- range queries

  /** get_mem_tag_range, and arg_pointed_tag on a non-null pointer. */
  method GetMemTagRange(e: Engine, addr: Addr, n: nat) returns (u: TagId)
    requires e.Valid() && Source(M(addr), n)
    modifies e.tags
    ensures e.Valid() && e.Grows() && e.Meaning() == old(e.Meaning())
    ensures u < |e.tags.sets|
    ensures e.Live() ==> e.tags.sets[u] == Union(Bytes(e.Meaning(), M(addr), n))
  {
    hide Engine.Valid, Engine.Meaning, Bytes, Union;
    e.ClearedTag();
    u := e.FoldMem(CLEARED, addr, n);
  }

  /** get_reg_tag_range */
  method GetRegTagRange(e: Engine, row: nat, start: nat, n: nat) returns (u: TagId)
    requires e.Valid() && Source(R(row, start), n)
    modifies e.tags
    ensures e.Valid() && e.Grows() && e.Meaning() == old(e.Meaning())
    ensures u < |e.tags.sets|
    ensures e.Live() ==> e.tags.sets[u] == Union(Bytes(e.Meaning(), R(row, start), n))
  {
    hide Engine.Valid, Engine.Meaning, Bytes, Union;
    e.ClearedTag();
    u := e.FoldReg(CLEARED, row, start, n);
  }

  // In a live table an id is cleared exactly when its set is empty.
  lemma NonEmptyId(e: Engine, id: TagId)
    requires e.Valid() && e.Live() && id < |e.tags.sets|
    ensures id != CLEARED <==> e.tags.sets[id] != {}
  {
  }

  /** arg_pointed_is_tainted: the early exit agrees with the union. */
  method PointedIsTainted(e: Engine, p: Addr, n: nat) returns (tainted: bool)
    requires e.Valid() && e.Live() && (p != 0 ==> Source(M(p), n))
    ensures e.Valid()
    ensures tainted <==> p != 0 && Union(Bytes(e.Meaning(), M(p), n)) != {}
  {
    hide Engine.Valid, Engine.Meaning, Engine.Live, Engine.GetMem, Union;
    if n == 0 {
      assert Bytes(e.Meaning(), M(p), 0) == [];
      UnionIsEmpty(Bytes(e.Meaning(), M(p), 0));
      return false;
    }
    if p == 0 {
      return false;
    }
    ghost var m := e.Meaning();
    ghost var vals := Bytes(m, M(p), n);
    for i := 0 to n
      invariant e.Valid() && e.Live() && e.Meaning() == m
      invariant forall j :: 0 <= j < i ==> vals[j] == {}
    {
      var b := e.GetMem(p + i);
      NonEmptyId(e, b);
      BytesAt(m, M(p), n, i);
      if b != CLEARED {
        UnionIsEmpty(vals);
        assert vals[i] != {};
        return true;
      }
    }
    UnionIsEmpty(vals);
    tainted := false;
  }

  lemma UnionIsEmpty<T>(vals: seq<set<T>>)
    ensures Union(vals) == {} <==> forall i :: 0 <= i < |vals| ==> vals[i] == {}
  {
  }

  // -------------------------------------------------------- operand queries

  /** has_tainted_operand */
  method HasTaintedOperand(tags: TagTable, ids: seq<TagId>) returns (tainted: bool)
    requires tags.Valid() && tags.Live() && forall i :: 0 <= i < |ids| ==> ids[i] < |tags.sets|
    ensures tainted <==> Union(tags.SetsOf(ids)) != {}
  {
    ClearedIsEmpty(tags.sets, tags.intern, tags.memo);
    hide TagTable.Valid, Union, Consistent;
    UnionIsEmpty(tags.SetsOf(ids));
    for i := 0 to |ids|
      invariant forall j :: 0 <= j < i ==> tags.sets[ids[j]] == {}
    {
      IdsAreCanonical(tags.sets, ids[i], CLEARED);
      if ids[i] != CLEARED {
        assert tags.SetsOf(ids)[i] != {};
        return true;
      }
    }
    tainted := false;
  }

  /** operand_union */
  method OperandUnion(tags: TagTable, ids: seq<TagId>) returns (u: TagId)
    requires tags.Valid() && forall i :: 0 <= i < |ids| ==> ids[i] < |tags.sets|
    modifies tags
    ensures tags.Valid() && old(tags.sets) <= tags.sets && u < |tags.sets|
    ensures tags.Live() ==> tags.sets[u] == Union(old(tags.SetsOf(ids)))
  {
    ghost var vals := tags.SetsOf(ids);
    u := CLEARED;
    for i := 0 to |ids|
      invariant tags.Valid() && old(tags.sets) <= tags.sets && u < |tags.sets|
      invariant tags.Live() ==> tags.sets[u] == Union(vals[..i])
    {
      hide TagTable.Valid;
      UnionStep(vals, i);
      u := tags.Combine(u, ids[i]);
    }
    assert vals[..|ids|] == vals;
  }

  // ---------------------------------------------------------- register mask

  predicate Bit(mask: bv32, row: bv6)
    requires row < 32
  {
    mask & (1 << row) != 0
  }

  lemma SetBit(mask: bv32, row: bv6, q: bv6)
    requires row < 32 && q < 32
    ensures Bit(mask | (1 << row), q) <==> Bit(mask, q) || q == row
  {
  }

  // One of the row's low 8 bytes is tainted.
  ghost predicate RowTainted(e: Engine, row: nat)
    requires e.Valid() && row <= GRP_NUM
    reads e, e.dir, e.Footprint()
  {
    exists b :: 0 <= b < 8 && e.gpr[row, b] != CLEARED
  }

  /** In terms of the sets: one of the row's bytes 0 to 7 holds a label. */
  lemma RowTaintedMeans(e: Engine, row: nat)
    requires e.Valid() && e.Live() && row <= GRP_NUM
    ensures RowTainted(e, row) <==> exists b :: 0 <= b <= 7 && e.Meaning()[Reg(row, b)] != {}
  {
    hide Engine.Meaning;
    forall b | 0 <= b <= 7 ensures e.gpr[row, b] != CLEARED <==> e.Meaning()[Reg(row, b)] != {} {
      RegIsTainted(e, row, b);
    }
  }

  lemma RegIsTainted(e: Engine, row: nat, b: nat)
    requires e.Valid() && e.Live() && row <= GRP_NUM && b < TAGS_PER_GPR
    ensures e.gpr[row, b] != CLEARED <==> e.Meaning()[Reg(row, b)] != {}
  {
  }

  /** libdft_compute_gpr_mask: the bit of a row in 3..18 is set exactly when one
      of its low 8 bytes is tainted; the other bits are clear. */
  method ComputeGprMask(e: Engine) returns (mask: bv32)
    requires e.Valid()
    ensures e.Valid()
    ensures forall row: bv6 :: row < 32 ==>
              (Bit(mask, row) <==> 3 <= row <= 18 && row as nat <= GRP_NUM && RowTainted(e, row as nat))
  {
    mask := 0;
    var row: bv6 := 3;
    while row <= 18
      invariant 3 <= row <= 19
      invariant forall q: bv6 :: q < 32 ==>
                  (Bit(mask, q) <==> 3 <= q < row && q as nat <= GRP_NUM && RowTainted(e, q as nat))
      decreases 19 - row
    {
      ghost var before := mask;
      SmallRow(row);
      var r := row as nat;
      for b := 0 to 8
        invariant mask == before
        invariant forall j :: 0 <= j < b ==> e.gpr[r, j] == CLEARED
      {
        if e.gpr[r, b] != CLEARED {
          mask := mask | (1 << row);
          break;
        }
      }
      forall q: bv6 | q < 32
        ensures Bit(mask, q) <==> 3 <= q < row + 1 && q as nat <= GRP_NUM && RowTainted(e, q as nat)
      {
        SetBit(before, row, q);
      }
      row := row + 1;
    }
  }

  lemma SmallRow(row: bv6)
    requires row <= 18
    ensures row as nat <= 18
  {
  }
}
