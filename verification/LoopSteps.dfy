/** How a handler's loop advances. Each lemma says that iteration i still reads
    what the state before the step held, and that its writes turn the effect on
    i bytes into the effect on i + 1 bytes. */
module LoopSteps {
  import opened ShadowDirectory
  import opened Cells
  import opened Ops

  lemma MergeStep<T>(m: Shadow<T>, d: Place, s: Place, n: nat, i: nat)
    requires i < n && Target(d, n) && Source(d, n) && Aligned(d, s, n)
    ensures var vals := Or(Bytes(m, d, n), Bytes(m, s, n));
            var w := Write(m, d, vals[..i]);
            Write(m, d, vals[..i + 1]) == Put(w, At(d, i), w[At(d, i)] + w[At(s, i)])
  {
    hide Write, Or, Bytes, Aligned, Target;
    var vals := Or(Bytes(m, d, n), Bytes(m, s, n));
    ReadsAhead(m, d, vals, i);
    ReadsAside(m, d, vals, s, i);
    OrAt(Bytes(m, d, n), Bytes(m, s, n), i);
    WriteStep(m, d, vals, i);
  }

  lemma SwapStep<T>(m: Shadow<T>, a: Place, b: Place, n: nat, i: nat)
    requires i < n && Target(a, n) && Source(a, n) && Target(b, n) && b.R? && Aligned(a, b, n)
    ensures var w := Write(Write(m, a, Bytes(m, b, n)[..i]), b, Bytes(m, a, n)[..i]);
            Write(Write(m, a, Bytes(m, b, n)[..i + 1]), b, Bytes(m, a, n)[..i + 1]) ==
            Put(Put(w, At(a, i), w[At(b, i)]), At(b, i), w[At(a, i)])
  {
    hide Write, Bytes, Aligned, Target;
    var av, bv := Bytes(m, a, n), Bytes(m, b, n);
    AlignedSymmetric(a, b, n);
    ReadsBeside(m, a, b, bv, av, a, i);
    ReadsBeside(m, a, b, bv, av, b, i);
    WriteBothStep(m, a, b, bv, av, i);
  }

  lemma PutCommutes<T>(m: Shadow<T>, a: Cell, x: set<T>, b: Cell, y: set<T>)
    requires a != b
    ensures Put(Put(m, a, x), b, y) == Put(Put(m, b, y), a, x)
  {
  }

  lemma BlankAt<T>(m: Shadow<T>, addr: Addr, n: nat, c: Cell)
    ensures addr + n < WORD ==>
              Blank(m, M(addr), n)[c] ==
              if c.Mem? && InSpace(c.addr) && addr <= c.addr < addr + n then {} else m[c]
  {
  }

  lemma AlignedSymmetric(p: Place, q: Place, n: nat)
    ensures Aligned(p, q, n) == Aligned(q, p, n)
  {
  }

  lemma SpreadStep<T>(m: Shadow<T>, d: Place, s: Place, n: nat, i: nat)
    requires i < n && Target(d, n) && Source(d, n) && Target(s, n) && s.R? && Aligned(d, s, n)
    ensures var u := Or(Bytes(m, d, n), Bytes(m, s, n));
            var w := Write(Write(m, d, u[..i]), s, u[..i]);
            var v := w[At(d, i)] + w[At(s, i)];
            Write(Write(m, d, u[..i + 1]), s, u[..i + 1]) == Put(Put(w, At(d, i), v), At(s, i), v)
  {
    hide Write, Or, Bytes, Aligned, Target;
    var u := Or(Bytes(m, d, n), Bytes(m, s, n));
    AlignedSymmetric(d, s, n);
    ReadsBeside(m, d, s, u, u, d, i);
    ReadsBeside(m, d, s, u, u, s, i);
    OrAt(Bytes(m, d, n), Bytes(m, s, n), i);
    WriteBothStep(m, d, s, u, u, i);
  }

  lemma ExchangeStep<T>(m: Shadow<T>, d: Place, s: Place, acc: Place, n: nat, i: nat)
    requires i < n && Target(d, n) && Source(d, n) && Target(acc, n) && acc.R?
    requires Aligned(d, s, n) && Aligned(d, acc, n) && Aligned(s, acc, n)
    ensures var u := Or(Or(Bytes(m, d, n), Bytes(m, s, n)), Bytes(m, acc, n));
            var w := Write(Write(m, d, u[..i]), acc, u[..i]);
            var v := w[At(d, i)] + w[At(s, i)] + w[At(acc, i)];
            Write(Write(m, d, u[..i + 1]), acc, u[..i + 1]) == Put(Put(w, At(d, i), v), At(acc, i), v)
  {
    hide Write, Or, Bytes, Aligned, Target;
    var ds := Or(Bytes(m, d, n), Bytes(m, s, n));
    var u := Or(ds, Bytes(m, acc, n));
    AlignedSymmetric(d, acc, n);
    AlignedSymmetric(s, acc, n);
    ReadsBeside(m, d, acc, u, u, d, i);
    ReadsBeside(m, d, acc, u, u, s, i);
    ReadsBeside(m, d, acc, u, u, acc, i);
    OrAt(Bytes(m, d, n), Bytes(m, s, n), i);
    OrAt(ds, Bytes(m, acc, n), i);
    WriteBothStep(m, d, acc, u, u, i);
  }

  /** The destination starts at byte 0 of its row, so writing byte i never
      touches a byte a later iteration reads. */
  lemma LeaStep<T>(m: Shadow<T>, row: nat, b: Place, x: Place, n: nat, i: nat)
    requires i < n && Target(R(row, 0), n) && b.R? && x.R?
    ensures var vals := Or(Bytes(m, b, n), Bytes(m, x, n));
            var w := Write(m, R(row, 0), vals[..i]);
            Write(m, R(row, 0), vals[..i + 1]) == Put(w, At(R(row, 0), i), w[At(b, i)] + w[At(x, i)])
  {
    hide Write, Or, Bytes, Target;
    var vals := Or(Bytes(m, b, n), Bytes(m, x, n));
    ReadsLater(m, row, vals, b, i);
    ReadsLater(m, row, vals, x, i);
    OrAt(Bytes(m, b, n), Bytes(m, x, n), i);
    WriteStep(m, R(row, 0), vals, i);
  }

  lemma ReadsLater<T>(m: Shadow<T>, row: nat, vals: seq<set<T>>, s: Place, i: nat)
    requires i < |vals| && s.R?
    ensures Write(m, R(row, 0), vals[..i])[At(s, i)] == m[At(s, i)] == Bytes(m, s, |vals|)[i]
  {
  }

  /** Copy, then fill: the sign byte still has its original tag after the copy,
      even when source and destination rows coincide. */
  lemma WidenStep<T>(m: Shadow<T>, signed: bool, row: nat, s: Place, srcn: nat, dstn: nat)
    requires Target(R(row, 0), srcn) && Source(s, srcn) && (signed ==> srcn > 0)
    ensures var w := Move(m, R(row, 0), s, srcn);
            var fill := if signed then w[At(s, srcn - 1)] else {};
            Widen(m, signed, row, s, srcn, dstn) ==
            Write(w, R(row, srcn), Repeat(if srcn <= dstn then dstn - srcn else 0, fill))
  {
    hide Write, Repeat, Bytes, Copied;
    CopyWithoutOverlap(m, R(row, 0), s, srcn);
    if signed {
      SignByte(m, row, s, srcn);
    }
    var fill := if signed then m[At(s, srcn - 1)] else {};
    WriteAdjacent(m, row, Bytes(m, s, srcn), Repeat(if srcn <= dstn then dstn - srcn else 0, fill));
  }

  lemma SignByte<T>(m: Shadow<T>, row: nat, s: Place, srcn: nat)
    requires srcn > 0
    ensures Write(m, R(row, 0), Bytes(m, s, srcn))[At(s, srcn - 1)] == m[At(s, srcn - 1)]
  {
  }

  lemma FoldFirst<T>(m: Shadow<T>, p: Place, next: Place, n: nat)
    requires n > 0 && Source(p, n)
    requires (p.R? && next == R(p.row, p.start + 1)) || (p.M? && p.base + 1 < WORD && next == M(p.base + 1))
    ensures Union(Bytes(m, p, n)) == m[At(p, 0)] + Union(Bytes(m, next, n - 1))
  {
    UnionFirst(Bytes(m, p, n));
    assert Bytes(m, p, n)[1..] == Bytes(m, next, n - 1);
  }

  lemma FlipStep<T>(m: Shadow<T>, d: Place, s: Place, n: nat, i: nat)
    requires i < n && Target(d, n) && d.R? != s.R?
    ensures var vals := Reverse(Bytes(m, s, n));
            var w := Write(m, d, vals[..i]);
            Write(m, d, vals[..i + 1]) ==
            if d.M? && !InSpace(At(d, i).addr) then w else Put(w, At(d, i), w[At(s, n - 1 - i)])
  {
    hide Reverse;
    var vals := Reverse(Bytes(m, s, n));
    ReverseAt(Bytes(m, s, n), i);
    WriteStep(m, d, vals, i);
  }

  // The bytes after i iterations of the in-place swap loop.
  ghost function HalfFlip<T>(a: seq<set<T>>, i: nat): (vals: seq<set<T>>)
    ensures |vals| == |a|
  {
    seq(|a|, j requires 0 <= j < |a| => if j < i || j >= |a| - i then a[|a| - 1 - j] else a[j])
  }

  lemma HalfFlipEnds<T>(a: seq<set<T>>)
    ensures HalfFlip(a, 0) == a && HalfFlip(a, |a| / 2) == Reverse(a)
  {
  }

  lemma HalfFlipNext<T>(a: seq<set<T>>, i: nat)
    requires i < |a| / 2
    ensures HalfFlip(a, i + 1) == HalfFlip(a, i)[i := a[|a| - 1 - i]][|a| - 1 - i := a[i]]
    ensures HalfFlip(a, i)[i] == a[i] && HalfFlip(a, i)[|a| - 1 - i] == a[|a| - 1 - i]
  {
  }

  // Overwriting one byte of a register vector.
  lemma WriteUpdate<T>(m: Shadow<T>, d: Place, vals: seq<set<T>>, i: nat, v: set<T>)
    requires d.R? && i < |vals|
    ensures Write(m, d, vals[i := v]) == Put(Write(m, d, vals), At(d, i), v)
    ensures Write(m, d, vals)[At(d, i)] == vals[i]
  {
  }

  lemma HalfFlipStep<T>(m: Shadow<T>, d: Place, n: nat, i: nat)
    requires d.R? && i < n / 2
    ensures var w := Write(m, d, HalfFlip(Bytes(m, d, n), i));
            Write(m, d, HalfFlip(Bytes(m, d, n), i + 1)) ==
            Put(Put(w, At(d, i), w[At(d, n - 1 - i)]), At(d, n - 1 - i), w[At(d, i)])
  {
    hide Write, HalfFlip, Bytes, Put;
    var a := Bytes(m, d, n);
    var h := HalfFlip(a, i);
    HalfFlipNext(a, i);
    WriteUpdate(m, d, h, i, a[n - 1 - i]);
    WriteUpdate(m, d, h, n - 1 - i, a[i]);
    WriteUpdate(m, d, h[i := a[n - 1 - i]], n - 1 - i, a[i]);
  }

  lemma PutAside<T>(m: Shadow<T>, a: Cell, x: set<T>, b: Cell)
    requires a != b
    ensures Put(m, a, x)[b] == m[b]
  {
  }

  // --------------------------------------------------------- multiplication

  lemma MultiplyByte<T>(m: Shadow<T>, v: set<T>)
    ensures Multiply(m, [v]) == Put(Put(m, Reg(RAX, 0), m[Reg(RAX, 0)] + v), Reg(RAX, 1), m[Reg(RAX, 1)] + v)
  {
  }

  lemma MultiplyWide<T>(m: Shadow<T>, vals: seq<set<T>>)
    requires |vals| != 1
    ensures Multiply(m, vals) ==
            Write(Write(m, R(RDX, 0), Or(Bytes(m, R(RDX, 0), |vals|), vals)),
                  R(RAX, 0), Or(Bytes(m, R(RAX, 0), |vals|), vals))
  {
  }

  lemma MultiplyStep<T>(m: Shadow<T>, vals: seq<set<T>>, i: nat)
    requires i < |vals| <= 8
    ensures var dx, ax := Or(Bytes(m, R(RDX, 0), |vals|), vals), Or(Bytes(m, R(RAX, 0), |vals|), vals);
            var w := Write(Write(m, R(RDX, 0), dx[..i]), R(RAX, 0), ax[..i]);
            Write(Write(m, R(RDX, 0), dx[..i + 1]), R(RAX, 0), ax[..i + 1]) ==
            Put(Put(w, Reg(RDX, i), w[Reg(RDX, i)] + vals[i]), Reg(RAX, i), w[Reg(RAX, i)] + vals[i])
  {
    hide Write, Or, Bytes;
    var d, a, n := R(RDX, 0), R(RAX, 0), |vals|;
    var dx, ax := Or(Bytes(m, d, n), vals), Or(Bytes(m, a, n), vals);
    ReadsBeside(m, d, a, dx, ax, d, i);
    ReadsBeside(m, d, a, dx, ax, a, i);
    OrAt(Bytes(m, d, n), vals, i);
    OrAt(Bytes(m, a, n), vals, i);
    WriteBothStep(m, d, a, dx, ax, i);
  }

  // ----------------------------------------------------------------- calls

  ghost function ClearedRows<T>(m: Shadow<T>, rows: seq<nat>): Shadow<T> {
    imap c: Cell :: if c.Reg? && c.row in rows && c.byte < TAGS_PER_GPR then {} else m[c]
  }

  lemma ClearedRowsEnds<T>(m: Shadow<T>)
    ensures ClearedRows(m, []) == m && ClearedRows(m, CALLER_SAVED) == Clobber(m)
  {
  }

  lemma ClearedRowsStep<T>(m: Shadow<T>, rows: seq<nat>, k: nat)
    requires k < |rows|
    ensures ClearedRows(m, rows[..k + 1]) ==
            Write(ClearedRows(m, rows[..k]), R(rows[k], 0), Repeat(TAGS_PER_GPR, {}))
  {
  }

  lemma ClobberForgetsRax<T>(m: Shadow<T>, v: set<T>)
    ensures Clobber(SetRax(m, v)) == Clobber(m)
  {
  }

  lemma ClobberKeepsMem<T>(m: Shadow<T>, a: nat)
    ensures Clobber(m)[Mem(a)] == m[Mem(a)]
  {
  }
}
