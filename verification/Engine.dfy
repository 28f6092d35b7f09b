/** The taint engine: the register file's tag ids, the shadow directory and the
    interned-set table, updated in place by the propagation handlers. Each
    handler is proved to do to the label sets what the reference engine does,
    for as long as the 32-bit id space has not run out (`Live`). */
module Engines {
  import opened TagText
  import opened TagTables
  import opened ShadowDirectory
  import opened Cells
  import opened Ops
  import opened LoopSteps

  type Labels = Shadow<Label>

  class Engine {
    const gpr: array2<TagId>
    const dir: ShadowDir
    const tags: TagTable

    ghost function Footprint(): set<object>
      reads dir
    {
      {gpr, tags} + dir.Repr
    }

    ghost predicate Valid()
      reads this, dir, Footprint()
    {
      && gpr.Length0 == GRP_NUM + 1 && gpr.Length1 == TAGS_PER_GPR
      && dir in dir.Repr && gpr !in dir.Repr && tags !in dir.Repr
      && dir.Valid() && tags.Valid()
      && (forall r, b :: 0 <= r <= GRP_NUM && 0 <= b < TAGS_PER_GPR ==> gpr[r, b] < |tags.sets|)
      && (forall a :: a in dir.view ==> dir.view[a] < |tags.sets|)
    }

    ghost predicate Live()
      reads tags
    {
      tags.Live()
    }

    // The label set a cell's id stands for; a cell that does not exist is clear.
    ghost function LabelsAt(c: Cell): set<Label>
      requires Valid()
      reads this, dir, Footprint()
    {
      match c
      case Reg(r, b) => if r <= GRP_NUM && b < TAGS_PER_GPR then tags.sets[gpr[r, b]] else {}
      case Mem(a) => if InSpace(a) then tags.sets[dir.view[a]] else {}
    }

    ghost function Meaning(): Labels
      requires Valid()
      reads this, dir, Footprint()
    {
      imap c: Cell :: LabelsAt(c)
    }

    // What every handler guarantees about the parts it grows: the table is
    // append-only and the directory acquires only new objects.
    twostate predicate Grows()
      reads tags, dir
    {
      old(tags.sets) <= tags.sets && fresh(dir.Repr - old(dir.Repr))
    }

    constructor ()
      ensures Valid() && Live() && fresh(Footprint())
      ensures Meaning() == AllClear<Label>()
    {
      gpr := new TagId[GRP_NUM + 1, TAGS_PER_GPR]((_, _) => CLEARED);
      dir := new ShadowDir();
      tags := new TagTable();
      new;
      hide TagTable.Valid, ShadowDir.Valid;
      assert Valid();
      assert forall c: Cell :: LabelsAt(c) == NoLabels(c);
    }

    // ------------------------------------------------------ cell primitives

    lemma ClearedTag()
      requires Valid()
      ensures CLEARED < |tags.sets| && tags.sets[CLEARED] == {}
    {
    }

    function GetReg(row: nat, byte: nat): (t: TagId)
      requires Valid() && row <= GRP_NUM && byte < TAGS_PER_GPR
      reads this, dir, Footprint()
      ensures t < |tags.sets| && tags.sets[t] == Meaning()[Reg(row, byte)]
    {
      gpr[row, byte]
    }

    method SetReg(row: nat, byte: nat, t: TagId)
      requires Valid() && row <= GRP_NUM && byte < TAGS_PER_GPR && t < |tags.sets|
      modifies gpr
      ensures Valid()
      ensures Meaning() == Put(old(Meaning()), Reg(row, byte), tags.sets[t])
    {
      gpr[row, byte] := t;
    }

    function GetMem(a: Addr): (t: TagId)
      requires Valid() && InSpace(a)
      reads this, dir, Footprint()
      ensures t < |tags.sets| && tags.sets[t] == Meaning()[Mem(a)]
    {
      dir.GetB(a)
    }

    method SetMem(a: Addr, t: TagId)
      requires Valid() && t < |tags.sets|
      modifies dir.Repr
      ensures Valid() && fresh(dir.Repr - old(dir.Repr)) && tags.sets == old(tags.sets)
      ensures Meaning() == if InSpace(a) then Put(old(Meaning()), Mem(a), tags.sets[t]) else old(Meaning())
    {
      dir.SetB(a, t);
    }

    // tag_combine may grow the table, which changes no cell's meaning.
    method Combine(l: TagId, r: TagId) returns (id: TagId)
      requires Valid() && l < |tags.sets| && r < |tags.sets|
      modifies tags
      ensures Valid() && old(tags.sets) <= tags.sets
      ensures Meaning() == old(Meaning())
      ensures id < |tags.sets|
      ensures Live() ==> tags.sets[id] == old(tags.sets)[l] + old(tags.sets)[r]
    {
      id := tags.Combine(l, r);
    }

    // dft_label::set
    method Singleton(offset: int) returns (id: TagId)
      requires Valid()
      modifies tags
      ensures Valid() && old(tags.sets) <= tags.sets
      ensures Meaning() == old(Meaning())
      ensures id < |tags.sets|
      ensures Live() ==> tags.sets[id] == {offset % ID_LIMIT}
    {
      id := tags.SetLabel(offset);
    }

    // -------------------------------------------------------------- moves

    method R2RXfer(dRow: nat, dStart: nat, sRow: nat, sStart: nat, n: nat)
      requires Valid() && Target(R(dRow, dStart), n) && Source(R(sRow, sStart), n)
      modifies gpr
      ensures Valid()
      ensures Meaning() == Move(old(Meaning()), R(dRow, dStart), R(sRow, sStart), n)
    {
      hide Put, Engine.Valid, Engine.Meaning, Engine.GetReg, Engine.GetMem, Copied, Write;
      ghost var m, d, s := Meaning(), R(dRow, dStart), R(sRow, sStart);
      ghost var vals := Copied(m, d, s, n);
      WriteNothing(m, d);
      for i := 0 to n
        invariant Valid() && Meaning() == Write(m, d, vals[..i])
      {
        CopyReads(m, d, s, n, i);
        WriteStep(m, d, vals, i);
        var t := GetReg(sRow, sStart + i);
        SetReg(dRow, dStart + i, t);
      }
      assert vals[..n] == vals;
    }

    method MovM2R(row: nat, start: nat, addr: Addr, n: nat)
      requires Valid() && Target(R(row, start), n) && Source(M(addr), n)
      modifies gpr
      ensures Valid()
      ensures Meaning() == Move(old(Meaning()), R(row, start), M(addr), n)
    {
      hide Put, Engine.Valid, Engine.Meaning, Engine.GetReg, Engine.GetMem, Copied, Write;
      ghost var m, d, s := Meaning(), R(row, start), M(addr);
      ghost var vals := Copied(m, d, s, n);
      WriteNothing(m, d);
      for i := 0 to n
        invariant Valid() && Meaning() == Write(m, d, vals[..i])
      {
        CopyReads(m, d, s, n, i);
        WriteStep(m, d, vals, i);
        var t := GetMem(addr + i);
        SetReg(row, start + i, t);
      }
      assert vals[..n] == vals;
    }

    method MovR2M(addr: Addr, row: nat, start: nat, n: nat)
      requires Valid() && Source(R(row, start), n)
      modifies dir.Repr
      ensures Valid() && Grows()
      ensures Meaning() == Move(old(Meaning()), M(addr), R(row, start), n)
    {
      hide Put, Engine.Valid, Engine.Meaning, Engine.GetReg, Engine.GetMem, Copied, Write;
      ghost var m, d, s := Meaning(), M(addr), R(row, start);
      ghost var vals := Copied(m, d, s, n);
      WriteNothing(m, d);
      for i := 0 to n
        invariant Valid() && Grows() && Meaning() == Write(m, d, vals[..i])
      {
        CopyReads(m, d, s, n, i);
        WriteStep(m, d, vals, i);
        var t := GetReg(row, start + i);
        SetMem(Plus(addr, i), t);
      }
      assert vals[..n] == vals;
    }

    method M2MXfer(dst: Addr, src: Addr, n: nat)
      requires Valid() && Source(M(src), n)
      modifies dir.Repr
      ensures Valid() && Grows()
      ensures Meaning() == Move(old(Meaning()), M(dst), M(src), n)
    {
      hide Put, Engine.Valid, Engine.Meaning, Engine.GetReg, Engine.GetMem, Copied, Write;
      ghost var m, d, s := Meaning(), M(dst), M(src);
      ghost var vals := Copied(m, d, s, n);
      WriteNothing(m, d);
      for i := 0 to n
        invariant Valid() && Grows() && Meaning() == Write(m, d, vals[..i])
      {
        CopyReads(m, d, s, n, i);
        WriteStep(m, d, vals, i);
        var t := GetMem(src + i);
        SetMem(Plus(dst, i), t);
      }
      assert vals[..n] == vals;
    }

    method RClr(row: nat, start: nat, n: nat)
      requires Valid() && Target(R(row, start), n)
      modifies gpr
      ensures Valid()
      ensures Meaning() == Blank(old(Meaning()), R(row, start), n)
    {
      hide Put, Engine.Valid, Engine.Meaning, Write;
      ghost var m, d, vals := Meaning(), R(row, start), Repeat<Label>(n, {});
      WriteNothing(m, d);
      for i := 0 to n
        invariant Valid() && Meaning() == Write(m, d, vals[..i])
      {
        WriteStep(m, d, vals, i);
        ClearedTag();
        SetReg(row, start + i, CLEARED);
      }
      assert vals[..n] == vals;
    }

    // MOV [mem],imm: file_tagmap_clrn.
    method MovClrMem(addr: Addr, n: nat)
      requires Valid() && n < ID_LIMIT
      modifies dir.Repr
      ensures Valid() && Grows()
      ensures Meaning() == if addr + n < WORD then Blank(old(Meaning()), M(addr), n) else old(Meaning())
    {
      hide ShadowDir.Valid, TagTable.Valid, Write;
      ghost var w := if addr + n < WORD then Blank(Meaning(), M(addr), n) else Meaning();
      ClearedTag();
      dir.ViewIsTotal();
      dir.ClearRange(addr, n);
      forall c ensures LabelsAt(c) == w[c] {
        BlankAt(old(Meaning()), addr, n, c);
      }
    }

    // The per-byte clearing loop of the read and munmap hooks.
    method ClearBytes(buf: Addr, n: nat)
      requires Valid() && n < WORD
      modifies dir.Repr
      ensures Valid() && Grows()
      ensures Meaning() == Blank(old(Meaning()), M(buf), n)
    {
      hide Put, Engine.Valid, Engine.Meaning, Write;
      ghost var m, d, vals := Meaning(), M(buf), Repeat<Label>(n, {});
      WriteNothing(m, d);
      for i := 0 to n
        invariant Valid() && Grows() && Meaning() == Write(m, d, vals[..i])
      {
        WriteStep(m, d, vals, i);
        ClearedTag();
        SetMem(Plus(buf, i), CLEARED);
      }
      assert vals[..n] == vals;
    }

    // ------------------------------------------------- folds and fills

    // acc combined with n register bytes, in order.
    method FoldReg(acc: TagId, row: nat, start: nat, n: nat) returns (u: TagId)
      requires Valid() && Source(R(row, start), n) && acc < |tags.sets|
      modifies tags
      ensures Valid() && Grows() && Meaning() == old(Meaning())
      ensures u < |tags.sets|
      ensures Live() ==> tags.sets[u] == old(tags.sets)[acc] + Union(Bytes(old(Meaning()), R(row, start), n))
    {
      hide Put, Engine.Valid, Engine.Meaning, Engine.GetReg, Engine.GetMem, Bytes;
      ghost var m, s := Meaning(), R(row, start);
      ghost var vals := Bytes(m, s, n);
      u := acc;
      for i := 0 to n
        invariant Valid() && Grows() && Meaning() == m && u < |tags.sets|
        invariant Live() ==> tags.sets[u] == old(tags.sets)[acc] + Union(vals[..i])
      {
        UnionStep(vals, i);
        BytesAt(m, s, n, i);
        var t := GetReg(row, start + i);
        u := Combine(u, t);
      }
      assert vals[..n] == vals;
    }

    // acc combined with n memory bytes, in order.
    method FoldMem(acc: TagId, addr: Addr, n: nat) returns (u: TagId)
      requires Valid() && Source(M(addr), n) && acc < |tags.sets|
      modifies tags
      ensures Valid() && Grows() && Meaning() == old(Meaning())
      ensures u < |tags.sets|
      ensures Live() ==> tags.sets[u] == old(tags.sets)[acc] + Union(Bytes(old(Meaning()), M(addr), n))
    {
      hide Put, Engine.Valid, Engine.Meaning, Engine.GetReg, Engine.GetMem, Bytes;
      ghost var m, s := Meaning(), M(addr);
      ghost var vals := Bytes(m, s, n);
      u := acc;
      for i := 0 to n
        invariant Valid() && Grows() && Meaning() == m && u < |tags.sets|
        invariant Live() ==> tags.sets[u] == old(tags.sets)[acc] + Union(vals[..i])
      {
        UnionStep(vals, i);
        BytesAt(m, s, n, i);
        var t := GetMem(addr + i);
        u := Combine(u, t);
      }
      assert vals[..n] == vals;
    }

    // n register bytes set to one tag.
    method FillReg(row: nat, start: nat, n: nat, t: TagId)
      requires Valid() && Target(R(row, start), n) && t < |tags.sets|
      modifies gpr
      ensures Valid()
      ensures Meaning() == Write(old(Meaning()), R(row, start), Repeat(n, tags.sets[t]))
    {
      hide Put, Engine.Valid, Engine.Meaning, Write;
      ghost var m, d, vals := Meaning(), R(row, start), Repeat(n, tags.sets[t]);
      WriteNothing(m, d);
      for i := 0 to n
        invariant Valid() && Meaning() == Write(m, d, vals[..i])
      {
        WriteStep(m, d, vals, i);
        SetReg(row, start + i, t);
      }
      assert vals[..n] == vals;
    }

    // n memory bytes set to one tag.
    method FillMem(addr: Addr, n: nat, t: TagId)
      requires Valid() && n < WORD && t < |tags.sets|
      modifies dir.Repr
      ensures Valid() && Grows()
      ensures Meaning() == Write(old(Meaning()), M(addr), Repeat(n, tags.sets[t]))
    {
      hide Put, Engine.Valid, Engine.Meaning, Write;
      ghost var m, d, vals := Meaning(), M(addr), Repeat(n, tags.sets[t]);
      WriteNothing(m, d);
      for i := 0 to n
        invariant Valid() && Grows() && Meaning() == Write(m, d, vals[..i])
      {
        WriteStep(m, d, vals, i);
        SetMem(Plus(addr, i), t);
      }
      assert vals[..n] == vals;
    }

    // ------------------------------------------------------------- binary

    method BinaryR2R(dRow: nat, dStart: nat, sRow: nat, sStart: nat, n: nat)
      requires Valid() && Target(R(dRow, dStart), n) && Source(R(sRow, sStart), n)
      requires Aligned(R(dRow, dStart), R(sRow, sStart), n)
      modifies gpr, tags
      ensures Valid() && Grows()
      ensures Live() ==> Meaning() == Merge(old(Meaning()), R(dRow, dStart), R(sRow, sStart), n)
    {
      hide Put, Engine.Valid, Engine.Meaning, Engine.GetReg, Engine.GetMem, Bytes, Or, Write;
      ghost var m, d, s := Meaning(), R(dRow, dStart), R(sRow, sStart);
      ghost var vals := Or(Bytes(m, d, n), Bytes(m, s, n));
      WriteNothing(m, d);
      for i := 0 to n
        invariant Valid() && Grows()
        invariant Live() ==> Meaning() == Write(m, d, vals[..i])
      {
        MergeStep(m, d, s, n, i);
        var x := GetReg(dRow, dStart + i);
        var y := GetReg(sRow, sStart + i);
        var u := Combine(x, y);
        SetReg(dRow, dStart + i, u);
      }
      assert vals[..n] == vals;
    }

    method BinaryM2R(dRow: nat, dStart: nat, addr: Addr, n: nat)
      requires Valid() && Target(R(dRow, dStart), n) && Source(M(addr), n)
      modifies gpr, tags
      ensures Valid() && Grows()
      ensures Live() ==> Meaning() == Merge(old(Meaning()), R(dRow, dStart), M(addr), n)
    {
      hide Put, Engine.Valid, Engine.Meaning, Engine.GetReg, Engine.GetMem, Bytes, Or, Write;
      ghost var m, d, s := Meaning(), R(dRow, dStart), M(addr);
      ghost var vals := Or(Bytes(m, d, n), Bytes(m, s, n));
      WriteNothing(m, d);
      for i := 0 to n
        invariant Valid() && Grows()
        invariant Live() ==> Meaning() == Write(m, d, vals[..i])
      {
        MergeStep(m, d, s, n, i);
        var y := GetMem(addr + i);
        var x := GetReg(dRow, dStart + i);
        var u := Combine(x, y);
        SetReg(dRow, dStart + i, u);
      }
      assert vals[..n] == vals;
    }

    method BinaryR2M(addr: Addr, sRow: nat, sStart: nat, n: nat)
      requires Valid() && Source(M(addr), n) && Source(R(sRow, sStart), n)
      modifies tags, dir.Repr
      ensures Valid() && Grows()
      ensures Live() ==> Meaning() == Merge(old(Meaning()), M(addr), R(sRow, sStart), n)
    {
      hide Put, Engine.Valid, Engine.Meaning, Engine.GetReg, Engine.GetMem, Bytes, Or, Write;
      ghost var m, d, s := Meaning(), M(addr), R(sRow, sStart);
      ghost var vals := Or(Bytes(m, d, n), Bytes(m, s, n));
      WriteNothing(m, d);
      for i := 0 to n
        invariant Valid() && Grows()
        invariant Live() ==> Meaning() == Write(m, d, vals[..i])
      {
        MergeStep(m, d, s, n, i);
        var x := GetMem(addr + i);
        var y := GetReg(sRow, sStart + i);
        var u := Combine(x, y);
        SetMem(addr + i, u);
      }
      assert vals[..n] == vals;
    }

    // ----------------------------------------------------------- exchange

    method XchgR2R(aRow: nat, aStart: nat, bRow: nat, bStart: nat, n: nat)
      requires Valid() && Target(R(aRow, aStart), n) && Target(R(bRow, bStart), n)
      requires Aligned(R(aRow, aStart), R(bRow, bStart), n)
      modifies gpr
      ensures Valid()
      ensures Meaning() == Swap(old(Meaning()), R(aRow, aStart), R(bRow, bStart), n)
    {
      hide Put, Engine.Valid, Engine.Meaning, Engine.GetReg, Engine.GetMem, Bytes, Write;
      ghost var m, a, b := Meaning(), R(aRow, aStart), R(bRow, bStart);
      ghost var av, bv := Bytes(m, a, n), Bytes(m, b, n);
      WriteNothing(m, a);
      WriteNothing(m, b);
      for i := 0 to n
        invariant Valid() && Meaning() == Write(Write(m, a, bv[..i]), b, av[..i])
      {
        SwapStep(m, a, b, n, i);
        var t := GetReg(aRow, aStart + i);
        var u := GetReg(bRow, bStart + i);
        SetReg(aRow, aStart + i, u);
        SetReg(bRow, bStart + i, t);
      }
      assert av[..n] == av && bv[..n] == bv;
    }

    method XchgM2R(addr: Addr, row: nat, start: nat, n: nat)
      requires Valid() && Source(M(addr), n) && Target(R(row, start), n)
      modifies gpr, dir.Repr
      ensures Valid() && Grows()
      ensures Meaning() == Swap(old(Meaning()), M(addr), R(row, start), n)
    {
      hide Put, Engine.Valid, Engine.Meaning, Engine.GetReg, Engine.GetMem, Bytes, Write;
      ghost var m, a, b := Meaning(), M(addr), R(row, start);
      ghost var av, bv := Bytes(m, a, n), Bytes(m, b, n);
      WriteNothing(m, a);
      WriteNothing(m, b);
      for i := 0 to n
        invariant Valid() && Grows() && Meaning() == Write(Write(m, a, bv[..i]), b, av[..i])
      {
        SwapStep(m, a, b, n, i);
        var r := GetReg(row, start + i);
        var t := GetMem(addr + i);
        PutCommutes(Meaning(), Mem(addr + i), tags.sets[r], Reg(row, start + i), tags.sets[t]);
        SetReg(row, start + i, t);
        SetMem(addr + i, r);
      }
      assert av[..n] == av && bv[..n] == bv;
    }

    // ------------------------------------------------- conditional moves

    method CmovR2R(taken: bool, dRow: nat, dStart: nat, sRow: nat, sStart: nat, n: nat)
      requires Valid() && Target(R(dRow, dStart), n) && (taken ==> Source(R(sRow, sStart), n))
      modifies gpr
      ensures Valid()
      ensures Meaning() ==
        if taken then Move(old(Meaning()), R(dRow, dStart), R(sRow, sStart), n) else old(Meaning())
    {
      if !taken {
        return;
      }
      R2RXfer(dRow, dStart, sRow, sStart, n);
    }

    method CmovM2R(taken: bool, dRow: nat, dStart: nat, addr: Addr, n: nat)
      requires Valid() && Target(R(dRow, dStart), n) && (taken ==> Source(M(addr), n))
      modifies gpr
      ensures Valid()
      ensures Meaning() == if taken then Move(old(Meaning()), R(dRow, dStart), M(addr), n) else old(Meaning())
    {
      if !taken {
        return;
      }
      MovM2R(dRow, dStart, addr, n);
    }

    // ---------------------------------------------------------- extension

    method MovzxR2R(dRow: nat, sRow: nat, sStart: nat, srcn: nat, dstn: nat)
      requires Valid() && Target(R(dRow, 0), srcn) && Target(R(dRow, 0), dstn) && Source(R(sRow, sStart), srcn)
      modifies gpr
      ensures Valid()
      ensures Meaning() == Widen(old(Meaning()), false, dRow, R(sRow, sStart), srcn, dstn)
    {
      hide Put, Engine.Valid, Engine.Meaning, Write, Bytes, Repeat;
      WidenStep(Meaning(), false, dRow, R(sRow, sStart), srcn, dstn);
      ClearedTag();
      R2RXfer(dRow, 0, sRow, sStart, srcn);
      FillReg(dRow, srcn, if srcn <= dstn then dstn - srcn else 0, CLEARED);
    }

    method MovzxM2R(dRow: nat, addr: Addr, srcn: nat, dstn: nat)
      requires Valid() && Target(R(dRow, 0), srcn) && Target(R(dRow, 0), dstn) && Source(M(addr), srcn)
      modifies gpr
      ensures Valid()
      ensures Meaning() == Widen(old(Meaning()), false, dRow, M(addr), srcn, dstn)
    {
      hide Put, Engine.Valid, Engine.Meaning, Write, Bytes, Repeat;
      WidenStep(Meaning(), false, dRow, M(addr), srcn, dstn);
      ClearedTag();
      MovM2R(dRow, 0, addr, srcn);
      FillReg(dRow, srcn, if srcn <= dstn then dstn - srcn else 0, CLEARED);
    }

    // The sign byte is read after the copy, from the source row.
    method MovsxR2R(dRow: nat, sRow: nat, sStart: nat, srcn: nat, dstn: nat)
      requires Valid() && Target(R(dRow, 0), srcn) && Target(R(dRow, 0), dstn) && Source(R(sRow, sStart), srcn)
      modifies gpr
      ensures Valid()
      ensures Meaning() == Widen(old(Meaning()), true, dRow, R(sRow, sStart), srcn, dstn)
    {
      hide Put, Engine.Valid, Engine.Meaning, Write, Bytes, Repeat;
      if srcn == 0 {
        return;
      }
      WidenStep(Meaning(), true, dRow, R(sRow, sStart), srcn, dstn);
      R2RXfer(dRow, 0, sRow, sStart, srcn);
      var sign := GetReg(sRow, sStart + srcn - 1);
      FillReg(dRow, srcn, if srcn <= dstn then dstn - srcn else 0, sign);
    }

    method MovsxM2R(dRow: nat, addr: Addr, srcn: nat, dstn: nat)
      requires Valid() && Target(R(dRow, 0), srcn) && Target(R(dRow, 0), dstn) && Source(M(addr), srcn)
      modifies gpr
      ensures Valid()
      ensures Meaning() == Widen(old(Meaning()), true, dRow, M(addr), srcn, dstn)
    {
      hide Put, Engine.Valid, Engine.Meaning, Write, Bytes, Repeat;
      if srcn == 0 {
        return;
      }
      WidenStep(Meaning(), true, dRow, M(addr), srcn, dstn);
      MovM2R(dRow, 0, addr, srcn);
      var sign := GetMem(addr + srcn - 1);
      FillReg(dRow, srcn, if srcn <= dstn then dstn - srcn else 0, sign);
    }

    // ---------------------------------------------------------------- LEA

    method LeaProp(dRow: nat, bRow: nat, bStart: nat, xRow: nat, xStart: nat, n: nat)
      requires Valid() && Target(R(dRow, 0), n) && Source(R(bRow, bStart), n) && Source(R(xRow, xStart), n)
      modifies gpr, tags
      ensures Valid() && Grows()
      ensures Live() ==> Meaning() == AddressOf(old(Meaning()), dRow, R(bRow, bStart), R(xRow, xStart), n)
    {
      hide Put, Engine.Valid, Engine.Meaning, Engine.GetReg, Engine.GetMem, Bytes, Or, Write;
      ghost var m, d, b, x := Meaning(), R(dRow, 0), R(bRow, bStart), R(xRow, xStart);
      ghost var vals := Or(Bytes(m, b, n), Bytes(m, x, n));
      WriteNothing(m, d);
      for i := 0 to n
        invariant Valid() && Grows()
        invariant Live() ==> Meaning() == Write(m, d, vals[..i])
      {
        LeaStep(m, dRow, b, x, n, i);
        var t := GetReg(bRow, bStart + i);
        var u := GetReg(xRow, xStart + i);
        var v := Combine(t, u);
        SetReg(dRow, i, v);
      }
      assert vals[..n] == vals;
    }

    // ------------------------------------------------------------- shifts

    method ShiftR(row: nat, start: nat, n: nat)
      requires Valid() && Target(R(row, start), n)
      modifies gpr, tags
      ensures Valid() && Grows()
      ensures Live() ==> Meaning() == Smear(old(Meaning()), R(row, start), n)
    {
      hide Put, Engine.Valid, Engine.Meaning, Engine.GetReg, Engine.GetMem, Bytes, Write, Repeat, Union;
      if n == 0 {
        WriteNothing(Meaning(), R(row, start));
        return;
      }
      FoldFirst(Meaning(), R(row, start), R(row, start + 1), n);
      var u := GetReg(row, start);
      u := FoldReg(u, row, start + 1, n - 1);
      FillReg(row, start, n, u);
    }

    method ShiftM(addr: Addr, n: nat)
      requires Valid() && Source(M(addr), n)
      modifies tags, dir.Repr
      ensures Valid() && Grows()
      ensures Live() ==> Meaning() == Smear(old(Meaning()), M(addr), n)
    {
      hide Put, Engine.Valid, Engine.Meaning, Engine.GetReg, Engine.GetMem, Bytes, Write, Repeat, Union;
      if n == 0 {
        WriteNothing(Meaning(), M(addr));
        return;
      }
      FoldFirst(Meaning(), M(addr), M(addr + 1), n);
      var u := GetMem(addr);
      u := FoldMem(u, addr + 1, n - 1);
      FillMem(addr, n, u);
    }

    method ShldR2R(dRow: nat, dStart: nat, sRow: nat, sStart: nat, n: nat)
      requires Valid() && Target(R(dRow, dStart), n) && Source(R(sRow, sStart), n)
      modifies gpr, tags
      ensures Valid() && Grows()
      ensures Live() ==> Meaning() == Funnel(old(Meaning()), R(dRow, dStart), R(sRow, sStart), n)
    {
      hide Put, Engine.Valid, Engine.Meaning, Engine.GetReg, Engine.GetMem, Bytes, Write, Repeat, Union;
      if n == 0 {
        WriteNothing(Meaning(), R(dRow, dStart));
        return;
      }
      FoldFirst(Meaning(), R(dRow, dStart), R(dRow, dStart + 1), n);
      var u := GetReg(dRow, dStart);
      u := FoldReg(u, dRow, dStart + 1, n - 1);
      u := FoldReg(u, sRow, sStart, n);
      FillReg(dRow, dStart, n, u);
    }

    // --------------------------------------------------------- byte order

    method BswapReg(row: nat, start: nat, n: nat)
      requires Valid() && Target(R(row, start), n)
      modifies gpr
      ensures Valid()
      ensures Meaning() == Flip(old(Meaning()), R(row, start), R(row, start), n)
    {
      hide Put, Engine.Valid, Engine.Meaning, Engine.GetReg, Engine.GetMem, Bytes, Write, Reverse;
      ghost var m, d := Meaning(), R(row, start);
      HalfFlipEnds(Bytes(m, d, n));
      WriteBytes(m, d, n);
      if n < 2 {
        return;
      }
      for i := 0 to n / 2
        invariant Valid() && Meaning() == Write(m, d, HalfFlip(Bytes(m, d, n), i))
      {
        HalfFlipStep(m, d, n, i);
        var tmp := GetReg(row, start + i);
        var t := GetReg(row, start + n - 1 - i);
        SetReg(row, start + i, t);
        SetReg(row, start + n - 1 - i, tmp);
      }
    }

    method MovbeM2R(dRow: nat, dStart: nat, addr: Addr, n: nat)
      requires Valid() && Target(R(dRow, dStart), n) && Source(M(addr), n)
      modifies gpr
      ensures Valid()
      ensures Meaning() == Flip(old(Meaning()), R(dRow, dStart), M(addr), n)
    {
      hide Put, Engine.Valid, Engine.Meaning, Engine.GetReg, Engine.GetMem, Bytes, Write, Reverse;
      ghost var m, d, s := Meaning(), R(dRow, dStart), M(addr);
      ghost var vals := Reverse(Bytes(m, s, n));
      WriteNothing(m, d);
      for i := 0 to n
        invariant Valid() && Meaning() == Write(m, d, vals[..i])
      {
        FlipStep(m, d, s, n, i);
        var t := GetMem(addr + n - 1 - i);
        SetReg(dRow, dStart + i, t);
      }
      assert vals[..n] == vals;
    }

    method MovbeR2M(addr: Addr, sRow: nat, sStart: nat, n: nat)
      requires Valid() && Source(R(sRow, sStart), n)
      modifies dir.Repr
      ensures Valid() && Grows()
      ensures Meaning() == Flip(old(Meaning()), M(addr), R(sRow, sStart), n)
    {
      hide Put, Engine.Valid, Engine.Meaning, Engine.GetReg, Engine.GetMem, Bytes, Write, Reverse;
      ghost var m, d, s := Meaning(), M(addr), R(sRow, sStart);
      ghost var vals := Reverse(Bytes(m, s, n));
      WriteNothing(m, d);
      for i := 0 to n
        invariant Valid() && Grows() && Meaning() == Write(m, d, vals[..i])
      {
        FlipStep(m, d, s, n, i);
        var t := GetReg(sRow, sStart + n - 1 - i);
        SetMem(Plus(addr, i), t);
      }
      assert vals[..n] == vals;
    }

    // --------------------------------------------------- read-modify-write

    // One byte of CMPXCHG on memory.
    method ExchangeMemByte(a: Addr, sRow: nat, sByte: nat, aRow: nat, aByte: nat)
      requires Valid() && InSpace(a)
      requires sRow <= GRP_NUM && sByte < TAGS_PER_GPR && aRow <= GRP_NUM && aByte < TAGS_PER_GPR
      modifies gpr, tags, dir.Repr
      ensures Valid() && Grows()
      ensures var m := old(Meaning());
              var v := m[Mem(a)] + m[Reg(sRow, sByte)] + m[Reg(aRow, aByte)];
              Live() ==> Meaning() == Put(Put(m, Mem(a), v), Reg(aRow, aByte), v)
    {
      hide Put, Engine.Valid, Engine.Meaning, Engine.GetReg, Engine.GetMem;
      var z := GetReg(aRow, aByte);
      var u := Combine(GetMem(a), GetReg(sRow, sByte));
      u := Combine(u, z);
      SetMem(a, u);
      SetReg(aRow, aByte, u);
    }

    // One byte of CMPXCHG on a register.
    method ExchangeRegByte(dRow: nat, dByte: nat, sRow: nat, sByte: nat, aRow: nat, aByte: nat)
      requires Valid() && dRow <= GRP_NUM && dByte < TAGS_PER_GPR
      requires sRow <= GRP_NUM && sByte < TAGS_PER_GPR && aRow <= GRP_NUM && aByte < TAGS_PER_GPR
      modifies gpr, tags
      ensures Valid() && Grows()
      ensures var m := old(Meaning());
              var v := m[Reg(dRow, dByte)] + m[Reg(sRow, sByte)] + m[Reg(aRow, aByte)];
              Live() ==> Meaning() == Put(Put(m, Reg(dRow, dByte), v), Reg(aRow, aByte), v)
    {
      hide Put, Engine.Valid, Engine.Meaning, Engine.GetReg, Engine.GetMem;
      var z := GetReg(aRow, aByte);
      var u := Combine(GetReg(dRow, dByte), GetReg(sRow, sByte));
      u := Combine(u, z);
      SetReg(dRow, dByte, u);
      SetReg(aRow, aByte, u);
    }

    // One byte of XADD on a register.
    method SpreadRegByte(dRow: nat, dByte: nat, sRow: nat, sByte: nat)
      requires Valid() && dRow <= GRP_NUM && dByte < TAGS_PER_GPR && sRow <= GRP_NUM && sByte < TAGS_PER_GPR
      modifies gpr, tags
      ensures Valid() && Grows()
      ensures var m := old(Meaning());
              var v := m[Reg(dRow, dByte)] + m[Reg(sRow, sByte)];
              Live() ==> Meaning() == Put(Put(m, Reg(dRow, dByte), v), Reg(sRow, sByte), v)
    {
      hide Put, Engine.Valid, Engine.Meaning, Engine.GetReg, Engine.GetMem;
      var u := Combine(GetReg(dRow, dByte), GetReg(sRow, sByte));
      SetReg(dRow, dByte, u);
      SetReg(sRow, sByte, u);
    }

    // One byte of XADD on memory.
    method SpreadMemByte(a: Addr, sRow: nat, sByte: nat)
      requires Valid() && InSpace(a) && sRow <= GRP_NUM && sByte < TAGS_PER_GPR
      modifies gpr, tags, dir.Repr
      ensures Valid() && Grows()
      ensures var m := old(Meaning());
              var v := m[Mem(a)] + m[Reg(sRow, sByte)];
              Live() ==> Meaning() == Put(Put(m, Mem(a), v), Reg(sRow, sByte), v)
    {
      hide Put, Engine.Valid, Engine.Meaning, Engine.GetReg, Engine.GetMem;
      var u := Combine(GetMem(a), GetReg(sRow, sByte));
      SetMem(a, u);
      SetReg(sRow, sByte, u);
    }

    method CmpxchgMem(addr: Addr, sRow: nat, sStart: nat, aRow: nat, aStart: nat, n: nat)
      requires Valid() && Source(M(addr), n) && Source(R(sRow, sStart), n) && Target(R(aRow, aStart), n)
      requires Aligned(R(sRow, sStart), R(aRow, aStart), n)
      modifies gpr, tags, dir.Repr
      ensures Valid() && Grows()
      ensures Live() ==> Meaning() == Exchange(old(Meaning()), M(addr), R(sRow, sStart), R(aRow, aStart), n)
    {
      hide Put, Engine.Valid, Engine.Meaning, Engine.GetReg, Engine.GetMem, Bytes, Or, Write;
      ghost var m, d, s, acc := Meaning(), M(addr), R(sRow, sStart), R(aRow, aStart);
      ghost var vals := Or(Or(Bytes(m, d, n), Bytes(m, s, n)), Bytes(m, acc, n));
      WriteNothing(m, d);
      WriteNothing(m, acc);
      for i := 0 to n
        invariant Valid() && Grows()
        invariant Live() ==> Meaning() == Write(Write(m, d, vals[..i]), acc, vals[..i])
      {
        ExchangeStep(m, d, s, acc, n, i);
        ExchangeMemByte(addr + i, sRow, sStart + i, aRow, aStart + i);
      }
      assert vals[..n] == vals;
    }

    method CmpxchgReg(dRow: nat, dStart: nat, sRow: nat, sStart: nat, aRow: nat, aStart: nat, n: nat)
      requires Valid() && Target(R(dRow, dStart), n) && Source(R(sRow, sStart), n) && Target(R(aRow, aStart), n)
      requires Aligned(R(dRow, dStart), R(sRow, sStart), n)
      requires Aligned(R(dRow, dStart), R(aRow, aStart), n) && Aligned(R(sRow, sStart), R(aRow, aStart), n)
      modifies gpr, tags
      ensures Valid() && Grows()
      ensures Live() ==>
        Meaning() == Exchange(old(Meaning()), R(dRow, dStart), R(sRow, sStart), R(aRow, aStart), n)
    {
      hide Put, Engine.Valid, Engine.Meaning, Engine.GetReg, Engine.GetMem, Bytes, Or, Write;
      ghost var m, d, s, acc := Meaning(), R(dRow, dStart), R(sRow, sStart), R(aRow, aStart);
      ghost var vals := Or(Or(Bytes(m, d, n), Bytes(m, s, n)), Bytes(m, acc, n));
      WriteNothing(m, d);
      WriteNothing(m, acc);
      for i := 0 to n
        invariant Valid() && Grows()
        invariant Live() ==> Meaning() == Write(Write(m, d, vals[..i]), acc, vals[..i])
      {
        ExchangeStep(m, d, s, acc, n, i);
        ExchangeRegByte(dRow, dStart + i, sRow, sStart + i, aRow, aStart + i);
      }
      assert vals[..n] == vals;
    }

    method XaddR2R(dRow: nat, dStart: nat, sRow: nat, sStart: nat, n: nat)
      requires Valid() && Target(R(dRow, dStart), n) && Target(R(sRow, sStart), n)
      requires Aligned(R(dRow, dStart), R(sRow, sStart), n)
      modifies gpr, tags
      ensures Valid() && Grows()
      ensures Live() ==> Meaning() == Spread(old(Meaning()), R(dRow, dStart), R(sRow, sStart), n)
    {
      hide Put, Engine.Valid, Engine.Meaning, Engine.GetReg, Engine.GetMem, Bytes, Or, Write;
      ghost var m, d, s := Meaning(), R(dRow, dStart), R(sRow, sStart);
      ghost var vals := Or(Bytes(m, d, n), Bytes(m, s, n));
      WriteNothing(m, d);
      WriteNothing(m, s);
      for i := 0 to n
        invariant Valid() && Grows()
        invariant Live() ==> Meaning() == Write(Write(m, d, vals[..i]), s, vals[..i])
      {
        SpreadStep(m, d, s, n, i);
        SpreadRegByte(dRow, dStart + i, sRow, sStart + i);
      }
      assert vals[..n] == vals;
    }

    method XaddM2R(addr: Addr, sRow: nat, sStart: nat, n: nat)
      requires Valid() && Source(M(addr), n) && Target(R(sRow, sStart), n)
      modifies gpr, tags, dir.Repr
      ensures Valid() && Grows()
      ensures Live() ==> Meaning() == Spread(old(Meaning()), M(addr), R(sRow, sStart), n)
    {
      hide Put, Engine.Valid, Engine.Meaning, Engine.GetReg, Engine.GetMem, Bytes, Or, Write;
      ghost var m, d, s := Meaning(), M(addr), R(sRow, sStart);
      ghost var vals := Or(Bytes(m, d, n), Bytes(m, s, n));
      WriteNothing(m, d);
      WriteNothing(m, s);
      for i := 0 to n
        invariant Valid() && Grows()
        invariant Live() ==> Meaning() == Write(Write(m, d, vals[..i]), s, vals[..i])
      {
        SpreadStep(m, d, s, n, i);
        SpreadMemByte(addr + i, sRow, sStart + i);
      }
      assert vals[..n] == vals;
    }

    // ------------------------------------------------------ multiplication

    // The same tag combined into two register bytes.
    method AccumulateBoth(p: nat, i: nat, q: nat, j: nat, t: TagId)
      requires Valid() && p <= GRP_NUM && i < TAGS_PER_GPR && q <= GRP_NUM && j < TAGS_PER_GPR
      requires t < |tags.sets| && Reg(p, i) != Reg(q, j)
      modifies gpr, tags
      ensures Valid() && Grows()
      ensures var m, v := old(Meaning()), old(tags.sets[t]);
              Live() ==> Meaning() == Put(Put(m, Reg(p, i), m[Reg(p, i)] + v), Reg(q, j), m[Reg(q, j)] + v)
    {
      hide Put, Engine.Valid, Engine.Meaning, Engine.GetReg;
      ghost var m := Meaning();
      var u := Combine(GetReg(p, i), t);
      SetReg(p, i, u);
      PutAside(m, Reg(p, i), tags.sets[u], Reg(q, j));
      u := Combine(GetReg(q, j), t);
      SetReg(q, j, u);
    }

    method TernaryCombine(src: seq<TagId>)
      requires Valid() && |src| <= 8
      requires forall i :: 0 <= i < |src| ==> src[i] < |tags.sets|
      modifies gpr, tags
      ensures Valid() && Grows()
      ensures Live() ==> Meaning() == Multiply(old(Meaning()), old(tags.SetsOf(src)))
    {
      hide Put, Engine.Valid, Engine.Meaning, Bytes, Or, Write, Repeat;
      var n := |src|;
      ghost var m, vals := Meaning(), tags.SetsOf(src);
      if n == 1 {
        MultiplyByte(m, vals[0]);
        assert vals == [vals[0]];
        AccumulateBoth(RAX, 0, RAX, 1, src[0]);
        return;
      }
      ghost var dx, ax := Or(Bytes(m, R(RDX, 0), n), vals), Or(Bytes(m, R(RAX, 0), n), vals);
      WriteNothing(m, R(RDX, 0));
      WriteNothing(m, R(RAX, 0));
      MultiplyWide(m, vals);
      for i := 0 to n
        invariant Valid() && Grows()
        invariant Live() ==> Meaning() == Write(Write(m, R(RDX, 0), dx[..i]), R(RAX, 0), ax[..i])
      {
        MultiplyStep(m, vals, i);
        assert vals[i] == tags.sets[src[i]];
        AccumulateBoth(RDX, i, RAX, i, src[i]);
      }
      assert dx[..n] == dx && ax[..n] == ax;
    }

    method TernaryR2R(sRow: nat, sStart: nat, n: nat)
      requires Valid() && Source(R(sRow, sStart), n) && n <= 8
      modifies gpr, tags
      ensures Valid() && Grows()
      ensures Live() ==> Meaning() == Multiply(old(Meaning()), Bytes(old(Meaning()), R(sRow, sStart), n))
    {
      hide Engine.Valid, Engine.Meaning, Engine.GetReg, Multiply;
      var src: seq<TagId> := [];
      for i := 0 to n
        invariant |src| == i && forall j :: 0 <= j < i ==>
                    src[j] < |tags.sets| && tags.sets[src[j]] == Meaning()[Reg(sRow, sStart + j)]
      {
        src := src + [GetReg(sRow, sStart + i)];
      }
      assert tags.SetsOf(src) == Bytes(Meaning(), R(sRow, sStart), n);
      TernaryCombine(src);
    }

    method TernaryM2R(addr: Addr, n: nat)
      requires Valid() && Source(M(addr), n) && n <= 8
      modifies gpr, tags
      ensures Valid() && Grows()
      ensures Live() ==> Meaning() == Multiply(old(Meaning()), Bytes(old(Meaning()), M(addr), n))
    {
      hide Engine.Valid, Engine.Meaning, Engine.GetMem, Multiply;
      var src: seq<TagId> := [];
      for i := 0 to n
        invariant |src| == i && forall j :: 0 <= j < i ==>
                    src[j] < |tags.sets| && tags.sets[src[j]] == Meaning()[Mem(addr + j)]
      {
        src := src + [GetMem(addr + i)];
      }
      assert tags.SetsOf(src) == Bytes(Meaning(), M(addr), n);
      TernaryCombine(src);
    }

    // -------------------------------------------------- function summaries

    // clobber_caller_saved
    method ClobberCallerSaved()
      requires Valid()
      modifies gpr
      ensures Valid() && Meaning() == Clobber(old(Meaning()))
    {
      hide Engine.Valid, Engine.Meaning, Write, Repeat, ClearedRows, Clobber;
      var regs := CALLER_SAVED;
      ghost var m := Meaning();
      ClearedRowsEnds(m);
      for k := 0 to |regs|
        invariant Valid() && Meaning() == ClearedRows(m, regs[..k])
      {
        ClearedRowsStep(m, regs, k);
        ClearedTag();
        FillReg(regs[k], 0, TAGS_PER_GPR, CLEARED);
      }
      assert regs[..|regs|] == regs;
    }

    // safe_strlen
    method SafeStrlen(app: map<nat, nat>, p: Addr) returns (n: nat)
      ensures n == if p == 0 then 0 else StrLen(app, p)
    {
      if p == 0 {
        return 0;
      }
      n := 0;
      while n < MAX_PROP_BYTES
        invariant n <= MAX_PROP_BYTES && StrLen(app, p) == StrLen(app, p, n)
      {
        if Plus(p, n) !in app { break; }
        if app[Plus(p, n)] == 0 { break; }
        n := n + 1;
      }
    }

    // safe_wcslen_bytes
    method SafeWcslenBytes(app: map<nat, nat>, p: Addr) returns (bytes: nat)
      ensures bytes == if p == 0 then 0 else 4 * WideLen(app, p)
    {
      if p == 0 {
        return 0;
      }
      hide Plus;
      var n := 0;
      while n < MAX_WIDE_CHARS
        invariant n <= MAX_WIDE_CHARS && WideLen(app, p) == WideLen(app, p, n)
      {
        assert WideLen(app, p, n) == if NonNulWideAt(app, p, n) then WideLen(app, p, n + 1) else n;
        if !WideReadable(app, p, n) { break; }
        if app[Plus(p, 4 * n)] == 0 && app[Plus(p, 4 * n + 1)] == 0
           && app[Plus(p, 4 * n + 2)] == 0 && app[Plus(p, 4 * n + 3)] == 0 { break; }
        n := n + 1;
      }
      bytes := 4 * n;
    }

    // resolve_len and the clamp that follows every use of it
    method ResolveLen(len: Ref, site: CallSite, p: Addr) returns (n: nat)
      requires Valid() && |site.args| == 6
      ensures Valid() && Meaning() == old(Meaning())
      ensures n == PropLen(len, site, p)
    {
      match len {
        case ArgRef(v) => n := if 0 <= v <= 5 then site.args[v] else 0;
        case LiteralRef(v) => n := if v < 0 then v + WORD else v;
        case StrlenRef => n := SafeStrlen(site.app, p);
        case WcslenRef => n := SafeWcslenBytes(site.app, p);
        case _ => n := 0;
      }
      if n > MAX_PROP_BYTES {
        n := MAX_PROP_BYTES;
      }
    }

    method HandlePropPtr2Ptr(sum: Summary, site: CallSite)
      requires Valid() && |site.args| == 6 && sum.shape.PropPtr2Ptr? && CallReadable(sum, site)
      modifies gpr, dir.Repr
      ensures Valid() && Grows()
      ensures Meaning() == Summarise(old(Meaning()), sum, site)
    {
      hide Engine.Valid, Engine.Meaning, Engine.GetMem, Write, Copied, Clobber, Repeat, CopyCall, StrLen, WideLen;
      if sum.src == [] {
        ClobberCallerSaved();
        return;
      }
      var src := site.args[sum.src[0]];
      var dst := PropDst(sum.dst, site);
      var n := ResolveLen(sum.len, site, src);
      CopyThenClobber(dst, src, n);
    }

    // The copy, the first write to RAX, the clobber and the second write.
    method CopyThenClobber(dst: Addr, src: Addr, n: nat)
      requires Valid() && n <= MAX_PROP_BYTES && CopyReadable(dst, src, n)
      modifies gpr, dir.Repr
      ensures Valid() && Grows()
      ensures Meaning() == CopyCall(old(Meaning()), dst, src, n)
    {
      hide Engine.Valid, Engine.Meaning, Engine.GetMem, Write, Copied, Clobber, Repeat;
      if dst != 0 && src != 0 {
        M2MXfer(dst, src, n);
      }
      ghost var copied := Meaning();
      if dst != 0 && src != 0 && n > 0 {
        var t := GetMem(dst);
        RaxSetAll(t);
        ClobberForgetsRax(copied, tags.sets[t]);
      }
      ClobberCallerSaved();
      if dst != 0 && n > 0 {
        ClobberKeepsMem(copied, dst);
        var t := GetMem(dst);
        RaxSetAll(t);
      }
    }

    method RaxSetAll(t: TagId)
      requires Valid() && t < |tags.sets|
      modifies gpr
      ensures Valid() && Meaning() == SetRax(old(Meaning()), tags.sets[t])
    {
      hide Engine.Valid, Engine.Meaning, Write, Repeat;
      FillReg(RAX, 0, 8, t);
    }

    method HandlePropPtr2Val(sum: Summary, site: CallSite)
      requires Valid() && |site.args| == 6 && sum.shape.PropPtr2Val? && CallReadable(sum, site)
      modifies gpr, tags
      ensures Valid() && Grows()
      ensures Live() ==> Meaning() == Summarise(old(Meaning()), sum, site)
    {
      hide Engine.Valid, Engine.Meaning, StrLen, WideLen, SetRax, Clobber, Bytes, Union;
      ghost var m := Meaning();
      ClearedTag();
      var accum: TagId := CLEARED;
      for k := 0 to |sum.src|
        invariant Valid() && Grows() && Meaning() == m && accum < |tags.sets|
        invariant Live() ==> tags.sets[accum] == PointedUnion(m, sum, site, k)
      {
        var idx := sum.src[k];
        assert PointedReadable(sum, site, idx);
        if idx < 0 || idx > 5 { continue; }
        var p := site.args[idx];
        if p == 0 { continue; }
        var n := ResolveLen(sum.len, site, p);
        accum := FoldMem(accum, p, n);
      }
      ClobberCallerSaved();
      RaxSetAll(accum);
    }

    method HandlePropScalar(sum: Summary, site: CallSite)
      requires Valid() && |site.args| == 6 && sum.shape.PropScalar? && CallReadable(sum, site)
      modifies gpr, tags
      ensures Valid() && Grows()
      ensures Live() ==> Meaning() == Summarise(old(Meaning()), sum, site)
    {
      hide Engine.Valid, Engine.Meaning, SetRax, Clobber, Bytes, Union;
      ghost var m := Meaning();
      ClearedTag();
      var accum: TagId := CLEARED;
      for k := 0 to |sum.args|
        invariant Valid() && Grows() && Meaning() == m && accum < |tags.sets|
        invariant Live() ==> tags.sets[accum] == ScalarUnion(m, sum.args, k)
      {
        var reg := ArgRow(sum.args[k]);
        if reg < 0 { continue; }
        accum := FoldReg(accum, reg, 0, 8);
      }
      ClobberCallerSaved();
      RaxSetAll(accum);
    }

    // The dispatch on the summary's shape; an invalid shape does nothing.
    method Dispatch(sum: Summary, site: CallSite)
      requires Valid() && |site.args| == 6 && CallReadable(sum, site)
      modifies gpr, tags, dir.Repr
      ensures Valid() && Grows()
      ensures Live() ==> Meaning() == Summarise(old(Meaning()), sum, site)
    {
      hide Engine.Valid, Engine.Meaning, SetRax, Clobber, CopyCall, PointedUnion, ScalarUnion;
      match sum.shape
      case SourceBuffer => ClobberCallerSaved();
      case SourceRetPtr => ClobberCallerSaved();
      case ClobberOnly => ClobberCallerSaved();
      case PropPtr2Ptr => HandlePropPtr2Ptr(sum, site);
      case PropPtr2Val => HandlePropPtr2Val(sum, site);
      case PropScalar => HandlePropScalar(sum, site);
      case Invalid =>
    }

    // -------------------------------------------------------------- source

    // The painting loop of the read hooks.
    method PaintBytes(buf: Addr, n: nat, offset: int)
      requires Valid() && Source(M(buf), n)
      modifies tags, dir.Repr
      ensures Valid() && Grows()
      ensures Live() ==> Meaning() == Painted(old(Meaning()), buf, n, offset, Itself)
    {
      hide Put, Engine.Valid, Engine.Meaning, Write;
      ghost var m, d, vals := Meaning(), M(buf), PaintOf(n, offset, Itself);
      WriteNothing(m, d);
      for i := 0 to n
        invariant Valid() && Grows()
        invariant Live() ==> Meaning() == Write(m, d, vals[..i])
      {
        WriteStep(m, d, vals, i);
        assert vals[i] == Itself((offset + i) % ID_LIMIT);
        var t := Singleton(offset + i);
        SetMem(buf + i, t);
      }
      assert vals[..n] == vals;
    }

    // ------------------------------------------------------------- running

    /** One step: the handler the step names, on the handler's arguments. */
    method Exec(op: Op)
      requires Valid() && WellFormed(op)
      modifies gpr, tags, dir.Repr
      ensures Valid() && Grows()
      ensures Live() ==> Meaning() == Apply(old(Meaning()), op, Itself)
    {
      hide Engine.Valid, Engine.Meaning, Move, Blank, Merge, Swap, Multiply, Widen, AddressOf, Smear, Funnel;
      hide Flip, Exchange, Spread, Painted, Summarise, CallReadable;
      match op {
        case Xfer(R(dr, ds), R(sr, ss), n) => R2RXfer(dr, ds, sr, ss, n);
        case Xfer(R(dr, ds), M(a), n) => MovM2R(dr, ds, a, n);
        case Xfer(M(a), R(sr, ss), n) => MovR2M(a, sr, ss, n);
        case Xfer(M(d), M(s), n) => M2MXfer(d, s, n);
        case Clear(R(dr, ds), n) => RClr(dr, ds, n);
        case Clear(M(a), n) => ClearBytes(a, n);
        case ClearRange(a, n) => MovClrMem(a, n);
        case Mul(R(sr, ss), n) => TernaryR2R(sr, ss, n);
        case Mul(M(a), n) => TernaryM2R(a, n);
        case Xchg(R(dr, ds), s, n) => XchgR2R(dr, ds, s.row, s.start, n);
        case Xchg(M(a), s, n) => XchgM2R(a, s.row, s.start, n);
        case Cmov(taken, d, R(sr, ss), n) => CmovR2R(taken, d.row, d.start, sr, ss, n);
        case Cmov(taken, d, M(a), n) => CmovM2R(taken, d.row, d.start, a, n);
        case Bin(R(dr, ds), R(sr, ss), n) => BinaryR2R(dr, ds, sr, ss, n);
        case Bin(R(dr, ds), M(a), n) => BinaryM2R(dr, ds, a, n);
        case Bin(M(a), s, n) => BinaryR2M(a, s.row, s.start, n);
        case Extend(false, row, R(sr, ss), srcn, dstn) => MovzxR2R(row, sr, ss, srcn, dstn);
        case Extend(false, row, M(a), srcn, dstn) => MovzxM2R(row, a, srcn, dstn);
        case Extend(true, row, R(sr, ss), srcn, dstn) => MovsxR2R(row, sr, ss, srcn, dstn);
        case Extend(true, row, M(a), srcn, dstn) => MovsxM2R(row, a, srcn, dstn);
        case Lea(row, b, x, n) => LeaProp(row, b.row, b.start, x.row, x.start, n);
        case ShiftBits(R(dr, ds), n) => ShiftR(dr, ds, n);
        case ShiftBits(M(a), n) => ShiftM(a, n);
        case Shld(d, s, n) => ShldR2R(d.row, d.start, s.row, s.start, n);
        case Bswap(d, n) => BswapReg(d.row, d.start, n);
        case Movbe(R(dr, ds), s, n) => MovbeM2R(dr, ds, s.base, n);
        case Movbe(M(a), s, n) => MovbeR2M(a, s.row, s.start, n);
        case Cmpxchg(M(a), s, acc, n) => CmpxchgMem(a, s.row, s.start, acc.row, acc.start, n);
        case Cmpxchg(R(dr, ds), s, acc, n) => CmpxchgReg(dr, ds, s.row, s.start, acc.row, acc.start, n);
        case Xadd(R(dr, ds), s, n) => XaddR2R(dr, ds, s.row, s.start, n);
        case Xadd(M(a), s, n) => XaddM2R(a, s.row, s.start, n);
        case Call(sum, site) => Dispatch(sum, site);
        case Paint(buf, n, offset) => PaintBytes(buf, n, offset);
      }
    }

    /** Whole-run refinement: after any sequence of steps, mapping every cell's
        id through the table gives the reference engine's state. */
    method RunAll(ops: seq<Op>)
      requires Valid() && AllWellFormed(ops)
      modifies gpr, tags, dir.Repr
      ensures Valid() && Grows()
      ensures Live() ==> Meaning() == Run(old(Meaning()), ops, Itself)
    {
      hide Engine.Valid, Engine.Meaning, Apply, WellFormed;
      for k := 0 to |ops|
        invariant Valid() && Grows()
        invariant Live() ==> Meaning() == Run(old(Meaning()), ops[..k], Itself)
      {
        assert ops[..k + 1][..k] == ops[..k];
        Exec(ops[k]);
      }
      assert ops[..|ops|] == ops;
    }
  }
}
