/** What each step does, byte by byte: every law speaks about the state after
    the step, the cells of the operands and the state before, and about nothing
    the step's definition is made of. `i` is any byte of the operands and `c` any
    cell. */
module StepLaws {
  import opened TagText
  import opened ShadowDirectory
  import opened Cells
  import opened Ops

  // ------------------------------------------------------------------ places

  /** The bytes of an operand: consecutive bytes of a register row, or
      consecutive addresses modulo 2^64. A write reaches those that have a
      cell. */
  lemma PlaceBytes(p: Place, n: nat, i: nat, c: Cell)
    requires i < n < WORD
    ensures At(p, i) == match p case R(row, start) => Reg(row, start + i) case M(base) => Mem((base + i) % WORD)
    ensures In(c, p, n) <==> exists j :: 0 <= j < n && c == At(p, j) && (c.Mem? ==> c.addr <= 0x7fff_ffff_ffff)
  {
    if In(c, p, n) {
      assert c == At(p, Idx(c, p));
    }
  }

  // Byte i of p has a cell.
  predicate Exists(p: Place, i: nat) { p.M? ==> InSpace(At(p, i).addr) }

  lemma WrittenAt<T>(m: Shadow<T>, p: Place, vals: seq<set<T>>, i: nat)
    requires i < |vals| && Target(p, |vals|) && Exists(p, i)
    ensures Write(m, p, vals)[At(p, i)] == vals[i]
  {
  }

  // -------------------------------------------------------------- the steps

  /** A copy: a destination byte receives its source byte. When the destination
      starts inside the source, the first bytes of the source repeat. */
  lemma XferLaw<T>(m: Shadow<T>, d: Place, s: Place, n: nat, p: Label -> set<T>, i: nat, c: Cell)
    requires WellFormed(Xfer(d, s, n))
    ensures var w := Apply(m, Xfer(d, s, n), p);
            && (i < n && Exists(d, i) ==>
                  w[At(d, i)] ==
                  m[At(s, if d.R? && s.R? && d.row == s.row && s.start < d.start then i % (d.start - s.start)
                          else if d.M? && s.M? && s.base < d.base then i % (d.base - s.base)
                          else i)])
            && (!In(c, d, n) ==> w[c] == m[c])
  {
    hide Bytes, Exists;
    if i < n && Exists(d, i) {
      WrittenAt(m, d, Copied(m, d, s, n), i);
    }
  }

  lemma CmovLaw<T>(m: Shadow<T>, taken: bool, d: Place, s: Place, n: nat, p: Label -> set<T>)
    requires WellFormed(Cmov(taken, d, s, n))
    ensures taken ==> Apply(m, Cmov(taken, d, s, n), p) == Apply(m, Xfer(d, s, n), p)
    ensures !taken ==> Apply(m, Cmov(taken, d, s, n), p) == m
  {
  }

  lemma ClearLaw<T>(m: Shadow<T>, d: Place, n: nat, p: Label -> set<T>, c: Cell)
    requires WellFormed(Clear(d, n))
    ensures Apply(m, Clear(d, n), p)[c] == if In(c, d, n) then {} else m[c]
  {
  }

  lemma ClearRangeLaw<T>(m: Shadow<T>, addr: Addr, n: nat, p: Label -> set<T>, c: Cell)
    requires WellFormed(ClearRange(addr, n))
    ensures Apply(m, ClearRange(addr, n), p)[c] ==
            if addr + n < WORD && c.Mem? && InSpace(c.addr) && addr <= c.addr < addr + n then {} else m[c]
  {
  }

  /** Multiplication and division: the operand joins RDX (row 8) and RAX (row
      10) byte by byte, or both AL and AH if it is a single byte. */
  lemma MulLaw<T>(m: Shadow<T>, s: Place, n: nat, p: Label -> set<T>, c: Cell)
    requires WellFormed(Mul(s, n))
    ensures Apply(m, Mul(s, n), p)[c] ==
            if n == 1 && c.Reg? && c.row == 10 && c.byte < 2 then m[c] + m[At(s, 0)]
            else if n != 1 && c.Reg? && (c.row == 8 || c.row == 10) && c.byte < n then m[c] + m[At(s, c.byte)]
            else m[c]
  {
    hide At;
    var vals := Bytes(m, s, n);
    if n == 1 {
      assert Apply(m, Mul(s, n), p) == Accumulate(m, R(RAX, 0), Repeat(2, vals[0]));
      AccumulateLaw(m, RAX, Repeat(2, vals[0]), c);
    } else {
      AccumulateLaw(m, RDX, vals, c);
      AccumulateLaw(Accumulate(m, R(RDX, 0), vals), RAX, vals, c);
    }
  }

  lemma AccumulateLaw<T>(m: Shadow<T>, row: nat, vals: seq<set<T>>, c: Cell)
    ensures Accumulate(m, R(row, 0), vals)[c] ==
            if c.Reg? && c.row == row && c.byte < |vals| then m[c] + vals[c.byte] else m[c]
  {
  }

  lemma BinLaw<T>(m: Shadow<T>, d: Place, s: Place, n: nat, p: Label -> set<T>, i: nat, c: Cell)
    requires WellFormed(Bin(d, s, n))
    ensures var w := Apply(m, Bin(d, s, n), p);
            && (i < n ==> w[At(d, i)] == m[At(d, i)] + m[At(s, i)])
            && (!In(c, d, n) ==> w[c] == m[c])
  {
    if i < n {
      WrittenAt(m, d, Or(Bytes(m, d, n), Bytes(m, s, n)), i);
    }
  }

  lemma XchgLaw<T>(m: Shadow<T>, d: Place, s: Place, n: nat, p: Label -> set<T>, i: nat, c: Cell)
    requires WellFormed(Xchg(d, s, n))
    ensures var w := Apply(m, Xchg(d, s, n), p);
            && (i < n ==> w[At(d, i)] == m[At(s, i)] && w[At(s, i)] == m[At(d, i)])
            && (!In(c, d, n) && !In(c, s, n) ==> w[c] == m[c])
  {
    TwoWrites(m, d, s, Bytes(m, s, n), Bytes(m, d, n), i, c);
  }

  // Two aligned operands written one after the other.
  lemma TwoWrites<T>(m: Shadow<T>, d: Place, s: Place, a: seq<set<T>>, b: seq<set<T>>, i: nat, c: Cell)
    requires |a| == |b| && Target(d, |a|) && Source(d, |a|) && s.R? && Target(s, |a|) && Aligned(d, s, |a|)
    requires d == s ==> a == b
    ensures var w := Write(Write(m, d, a), s, b);
            && (i < |a| ==> w[At(d, i)] == a[i] && w[At(s, i)] == b[i])
            && (!In(c, d, |a|) && !In(c, s, |a|) ==> w[c] == m[c])
  {
    if i < |a| {
      WrittenAt(m, d, a, i);
      WrittenAt(Write(m, d, a), s, b, i);
    }
  }

  /** Zero extension clears the added bytes, sign extension gives them the top
      source byte's set. */
  lemma ExtendLaw<T>(m: Shadow<T>, signed: bool, row: nat, s: Place, srcn: nat, dstn: nat, p: Label -> set<T>, c: Cell)
    requires WellFormed(Extend(signed, row, s, srcn, dstn))
    ensures Apply(m, Extend(signed, row, s, srcn, dstn), p)[c] ==
            if c.Reg? && c.row == row && c.byte < srcn then m[At(s, c.byte)]
            else if c.Reg? && c.row == row && c.byte < dstn && !signed then {}
            else if c.Reg? && c.row == row && c.byte < dstn && srcn > 0 then m[At(s, srcn - 1)]
            else m[c]
  {
    hide At;
  }

  lemma LeaLaw<T>(m: Shadow<T>, row: nat, base: Place, index: Place, n: nat, p: Label -> set<T>, c: Cell)
    requires WellFormed(Lea(row, base, index, n))
    ensures Apply(m, Lea(row, base, index, n), p)[c] ==
            if c.Reg? && c.row == row && c.byte < n then m[At(base, c.byte)] + m[At(index, c.byte)] else m[c]
  {
    hide At;
  }

  // One of the n bytes of p holds x.
  ghost predicate Somewhere<T(!new)>(m: Shadow<T>, p: Place, n: nat, x: T) {
    exists j :: 0 <= j < n && x in m[At(p, j)]
  }

  lemma SomewhereIsUnion<T(!new)>(m: Shadow<T>, p: Place, n: nat, x: T)
    ensures Somewhere(m, p, n, x) <==> x in Union(Bytes(m, p, n))
  {
    hide At, Union;
    var vals := Bytes(m, p, n);
    UnionElement(vals, x);
    assert forall j :: 0 <= j < n ==> vals[j] == m[At(p, j)];
  }

  /** A shift spreads every set over the whole operand. */
  lemma ShiftLaw<T(!new)>(m: Shadow<T>, d: Place, n: nat, p: Label -> set<T>, i: nat, c: Cell, x: T)
    requires WellFormed(ShiftBits(d, n))
    ensures var w := Apply(m, ShiftBits(d, n), p);
            && (i < n ==> (x in w[At(d, i)] <==> Somewhere(m, d, n, x)))
            && (!In(c, d, n) ==> w[c] == m[c])
  {
    hide Somewhere, Union, Bytes;
    SomewhereIsUnion(m, d, n, x);
    if i < n {
      WrittenAt(m, d, Repeat(n, Union(Bytes(m, d, n))), i);
    }
  }

  lemma ShldLaw<T(!new)>(m: Shadow<T>, d: Place, s: Place, n: nat, p: Label -> set<T>, i: nat, c: Cell, x: T)
    requires WellFormed(Shld(d, s, n))
    ensures var w := Apply(m, Shld(d, s, n), p);
            && (i < n ==> (x in w[At(d, i)] <==> Somewhere(m, d, n, x) || Somewhere(m, s, n, x)))
            && (!In(c, d, n) ==> w[c] == m[c])
  {
    hide Somewhere, Union, Bytes;
    SomewhereIsUnion(m, d, n, x);
    SomewhereIsUnion(m, s, n, x);
    if i < n {
      WrittenAt(m, d, Repeat(n, Union(Bytes(m, d, n)) + Union(Bytes(m, s, n))), i);
    }
  }

  lemma BswapLaw<T>(m: Shadow<T>, d: Place, n: nat, p: Label -> set<T>, i: nat, c: Cell)
    requires WellFormed(Bswap(d, n))
    ensures var w := Apply(m, Bswap(d, n), p);
            && (i < n ==> w[At(d, i)] == m[At(d, n - 1 - i)])
            && (!In(c, d, n) ==> w[c] == m[c])
  {
    if i < n {
      hide Bytes, Reverse;
      var vals := Bytes(m, d, n);
      WrittenAt(m, d, Reverse(vals), i);
      ReverseAt(vals, i);
      BytesAt(m, d, n, n - 1 - i);
    }
  }

  lemma MovbeLaw<T>(m: Shadow<T>, d: Place, s: Place, n: nat, p: Label -> set<T>, i: nat, c: Cell)
    requires WellFormed(Movbe(d, s, n))
    ensures var w := Apply(m, Movbe(d, s, n), p);
            && (i < n && Exists(d, i) ==> w[At(d, i)] == m[At(s, n - 1 - i)])
            && (!In(c, d, n) ==> w[c] == m[c])
  {
    if i < n && Exists(d, i) {
      WrittenAt(m, d, Reverse(Bytes(m, s, n)), i);
    }
  }

  /** Compare-exchange: destination and accumulator receive all three sets. */
  lemma CmpxchgLaw<T>(m: Shadow<T>, d: Place, s: Place, acc: Place, n: nat, p: Label -> set<T>, i: nat, c: Cell)
    requires WellFormed(Cmpxchg(d, s, acc, n))
    ensures var w := Apply(m, Cmpxchg(d, s, acc, n), p);
            && (i < n ==> w[At(d, i)] == w[At(acc, i)] == m[At(d, i)] + m[At(s, i)] + m[At(acc, i)])
            && (!In(c, d, n) && !In(c, acc, n) ==> w[c] == m[c])
  {
    var u := Or(Or(Bytes(m, d, n), Bytes(m, s, n)), Bytes(m, acc, n));
    TwoWrites(m, d, acc, u, u, i, c);
  }

  lemma XaddLaw<T>(m: Shadow<T>, d: Place, s: Place, n: nat, p: Label -> set<T>, i: nat, c: Cell)
    requires WellFormed(Xadd(d, s, n))
    ensures var w := Apply(m, Xadd(d, s, n), p);
            && (i < n ==> w[At(d, i)] == w[At(s, i)] == m[At(d, i)] + m[At(s, i)])
            && (!In(c, d, n) && !In(c, s, n) ==> w[c] == m[c])
  {
    var u := Or(Bytes(m, d, n), Bytes(m, s, n));
    TwoWrites(m, d, s, u, u, i, c);
  }

  /** Painting: buffer byte i receives the label offset + i modulo 2^32. */
  lemma PaintLaw<T>(m: Shadow<T>, buf: Addr, n: nat, offset: int, p: Label -> set<T>, c: Cell)
    requires WellFormed(Paint(buf, n, offset))
    ensures Apply(m, Paint(buf, n, offset), p)[c] ==
            if c.Mem? && buf <= c.addr < buf + n then p((offset + (c.addr - buf)) % 0x1_0000_0000) else m[c]
  {
  }

  // -------------------------------------------------------------------- runs

  /** Steps are performed in order. */
  lemma {:induction false} RunInOrder<T>(m: Shadow<T>, ops: seq<Op>, more: seq<Op>, p: Label -> set<T>)
    requires AllWellFormed(ops) && AllWellFormed(more)
    ensures AllWellFormed(ops + more) && Run(m, ops + more, p) == Run(Run(m, ops, p), more, p)
  {
    hide Apply, WellFormed;
    if more == [] {
      assert ops + more == ops;
    } else {
      var k := |more| - 1;
      RunInOrder(m, ops, more[..k], p);
      assert (ops + more)[..|ops + more| - 1] == ops + more[..k];
    }
  }

  /** One step, and two. */
  lemma RunShort<T>(m: Shadow<T>, a: Op, b: Op, p: Label -> set<T>)
    requires WellFormed(a) && WellFormed(b)
    ensures Run(m, [], p) == m && Run(m, [a], p) == Apply(m, a, p) && Run(m, [a, b], p) == Apply(Apply(m, a, p), b, p)
  {
    hide Apply, WellFormed;
    assert [a][..0] == [] && [a, b][..1] == [a];
    assert Run(m, [a], p) == Apply(Run(m, [], p), a, p);
  }
}
