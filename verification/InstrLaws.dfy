/** What each decoded instruction does to the shadow state, in terms of its
    operands' bytes: w is the state after the handler calls its inserter emits.
    `i` is any byte of the operands and `c` any cell. */
module InstrLaws {
  import opened TagText
  import opened ShadowDirectory
  import opened Cells
  import opened Ops
  import opened Options
  import opened Registers
  import opened StepLaws

  // ---------------------------------------------------------------- operands

  // The shadow byte i of an operand.
  function Byte(o: Operand, i: nat): Cell {
    match o
    case InReg(Low(row, _)) => Reg(row, i)
    case InReg(High(row)) => Reg(row, 1 + i)
    case InMem(addr, _) => Mem(addr + i)
  }

  function Size(o: Operand): nat {
    match o
    case InReg(Low(_, width)) => width
    case InReg(High(_)) => 1
    case InMem(_, size) => size
  }

  function Row(g: Gpr): nat { match g case Low(row, _) => row case High(row) => row }

  // The bytes two operands have in common: a register decides over memory, the
  // smaller of two registers, the destination of two memory operands.
  function Common(d: Operand, s: Operand): nat {
    if d.InReg? && s.InReg? then (if Size(d) < Size(s) then Size(d) else Size(s))
    else if s.InReg? then Size(s)
    else Size(d)
  }

  // c is none of the first n bytes of o.
  predicate Outside(o: Operand, n: nat, c: Cell) {
    forall i :: 0 <= i < n ==> c != Byte(o, i)
  }

  lemma OperandBytes(o: Operand, n: nat, i: nat, c: Cell)
    requires OperandOk(o) && n <= 8
    ensures At(PlaceOf(o), i) == Byte(o, i) || (o.InMem? && i > 8)
    ensures i < n ==> Exists(PlaceOf(o), i)
    ensures In(c, PlaceOf(o), n) ==> !Outside(o, n, c)
    ensures WidthOf(o) == Size(o) <= 8
  {
    if In(c, PlaceOf(o), n) {
      assert c == Byte(o, Idx(c, PlaceOf(o)));
    }
  }

  lemma PairBytes(d: Operand, s: Operand)
    requires OperandOk(d) && OperandOk(s)
    ensures PairWidth(d, s) == Common(d, s) <= 8
  {
  }

  // An instruction with at most one handler call.
  lemma OneCall<T>(m: Shadow<T>, i: Instr, p: Label -> set<T>)
    requires Decoded(i) && |Lower(i)| <= 1
    ensures AllWellFormed(Lower(i))
    ensures Run(m, Lower(i), p) == if Lower(i) == [] then m else Apply(m, Lower(i)[0], p)
  {
    hide Apply, WellFormed, Lower, Decoded;
    LoweredIsWellFormed(i);
    var ops := Lower(i);
    if ops != [] {
      assert ops == [ops[0]];
      RunShort(m, ops[0], ops[0], p);
    }
  }

  // The state after an instruction.
  ghost function After<T>(m: Shadow<T>, i: Instr, p: Label -> set<T>): Shadow<T>
    requires Decoded(i)
  {
    LoweredIsWellFormed(i);
    Run(m, Lower(i), p)
  }

  // ------------------------------------------------------------------- moves

  /** MOV, and with it BSF, BSR, MOVS, STOS and LODS. */
  lemma MovLaw<T>(m: Shadow<T>, d: Operand, s: Operand, p: Label -> set<T>, i: nat, c: Cell)
    requires Decoded(Mov(d, s))
    ensures var w, n := After(m, Mov(d, s), p), Common(d, s);
            && (i < n && !(d.InMem? && s.InMem? && s.addr < d.addr) ==> w[Byte(d, i)] == m[Byte(s, i)])
            && (i < n && d.InMem? && s.InMem? && s.addr < d.addr ==>
                  w[Byte(d, i)] == m[Byte(s, i % (d.addr - s.addr))])
            && (Outside(d, n, c) ==> w[c] == m[c])
  {
    hide Apply, Run, At, In, Exists, Outside, OperandOk, Source, Target;
    OneCall(m, Mov(d, s), p);
    PairBytes(d, s);
    OperandBytes(d, Common(d, s), i, c);
    XferLaw(m, PlaceOf(d), PlaceOf(s), Common(d, s), p, i, c);
    if i < Common(d, s) {
      MoveSource(d, s, i);
    }
  }

  lemma MoveSource(d: Operand, s: Operand, i: nat)
    requires OperandOk(d) && OperandOk(s) && i < Common(d, s)
    ensures var a, b := PlaceOf(d), PlaceOf(s);
            At(b, if a.R? && b.R? && a.row == b.row && b.start < a.start then i % (a.start - b.start)
                  else if a.M? && b.M? && b.base < a.base then i % (a.base - b.base)
                  else i) ==
            Byte(s, if d.InMem? && s.InMem? && s.addr < d.addr then i % (d.addr - s.addr) else i)
  {
    PairBytes(d, s);
    if d.InMem? && s.InMem? && s.addr < d.addr {
      OperandBytes(s, 8, i % (d.addr - s.addr), Byte(s, 0));
      ModAtMost(i, d.addr - s.addr);
    } else {
      OperandBytes(s, 8, i, Byte(s, 0));
    }
  }

  lemma ModAtMost(i: nat, d: nat)
    requires d > 0
    ensures i % d <= i
  {
  }

  /** Moving an immediate clears the destination. */
  lemma MovImmLaw<T>(m: Shadow<T>, d: Operand, p: Label -> set<T>, i: nat, c: Cell)
    requires Decoded(MovImm(d))
    ensures var w := After(m, MovImm(d), p);
            && (i < Size(d) ==> w[Byte(d, i)] == {})
            && (Outside(d, Size(d), c) ==> w[c] == m[c])
  {
    OneCall(m, MovImm(d), p);
    if d.InReg? {
      ClearedOperand(m, d, p, i, c);
    } else if Size(d) > 0 {
      ClearedSlot(m, d.addr, d.size, p, i, c);
    }
  }

  lemma ClearedOperand<T>(m: Shadow<T>, d: Operand, p: Label -> set<T>, i: nat, c: Cell)
    requires OperandOk(d) && d.InReg?
    ensures WellFormed(Clear(PlaceOf(d), Size(d)))
    ensures var w := Apply(m, Clear(PlaceOf(d), Size(d)), p);
            && (i < Size(d) ==> w[Byte(d, i)] == {})
            && (Outside(d, Size(d), c) ==> w[c] == m[c])
  {
    hide Apply, Outside;
    OperandBytes(d, Size(d), i, c);
    ClearLaw(m, PlaceOf(d), Size(d), p, c);
    ClearLaw(m, PlaceOf(d), Size(d), p, Byte(d, i));
  }

  lemma ClearedSlot<T>(m: Shadow<T>, addr: Addr, size: nat, p: Label -> set<T>, i: nat, c: Cell)
    requires OperandOk(InMem(addr, size))
    ensures WellFormed(ClearRange(addr, size))
    ensures var w, slot := Apply(m, ClearRange(addr, size), p), InMem(addr, size);
            && (i < size ==> w[Byte(slot, i)] == {})
            && (Outside(slot, size, c) ==> w[c] == m[c])
  {
    hide Apply;
    ClearRangeLaw(m, addr, size, p, c);
    ClearRangeLaw(m, addr, size, p, Mem(addr + i));
    if c.Mem? && addr <= c.addr < addr + size {
      assert c == Byte(InMem(addr, size), c.addr - addr);
    }
  }

  /** CMOV moves if its condition holds; a register moved to itself is not
      looked at. */
  lemma CondMovLaw<T>(m: Shadow<T>, taken: bool, g: Gpr, s: Operand, p: Label -> set<T>)
    requires Decoded(CondMov(taken, g, s))
    ensures After(m, CondMov(taken, g, s), p) ==
            if taken && s != InReg(g) then After(m, Mov(InReg(g), s), p) else m
  {
    hide Apply, Run;
    OneCall(m, CondMov(taken, g, s), p);
    OneCall(m, Mov(InReg(g), s), p);
    if s != InReg(g) {
      CmovLaw(m, taken, SpanStart(g), PlaceOf(s), PairWidth(InReg(g), s), p);
    }
  }

  /** PUSH writes the slot; pushing the stack pointer does nothing. */
  lemma PushLaw<T>(m: Shadow<T>, slot: Addr, size: nat, pushed: Option<Operand>, p: Label -> set<T>)
    requires Decoded(Push(slot, size, pushed))
    ensures After(m, Push(slot, size, pushed), p) ==
            match pushed
            case None => After(m, MovImm(InMem(slot, size)), p)
            case Some(s) => if IsStackPointer(s) then m else After(m, Mov(InMem(slot, size), s), p)
  {
    hide Apply, Run;
    OneCall(m, Push(slot, size, pushed), p);
    OneCall(m, MovImm(InMem(slot, size)), p);
    if pushed.Some? {
      OneCall(m, Mov(InMem(slot, size), pushed.value), p);
    }
  }

  /** POP reads it; popping into the stack pointer does nothing. */
  lemma PopLaw<T>(m: Shadow<T>, d: Operand, slot: Addr, p: Label -> set<T>)
    requires Decoded(Pop(d, slot))
    ensures After(m, Pop(d, slot), p) == if IsStackPointer(d) then m else After(m, Mov(d, InMem(slot, Size(d))), p)
  {
    hide Apply, Run;
    OneCall(m, Pop(d, slot), p);
    OneCall(m, Mov(d, InMem(slot, Size(d))), p);
  }

  /** The stack pointer is row 6, at any width but one byte. */
  lemma StackPointerIs(o: Operand)
    ensures IsStackPointer(o) <==> exists w :: 2 <= w && o == InReg(Low(6, w))
  {
    if IsStackPointer(o) {
      assert o == InReg(Low(6, o.g.width));
    }
  }

  /** LEAVE: RSP (row 6) receives RBP (row 5), then RBP receives the slot. */
  lemma LeaveLaw<T>(m: Shadow<T>, slot: Addr, p: Label -> set<T>, c: Cell)
    requires Decoded(Leave(slot))
    ensures After(m, Leave(slot), p)[c] ==
            if c.Reg? && c.row == 6 && c.byte < 8 then m[Reg(5, c.byte)]
            else if c.Reg? && c.row == 5 && c.byte < 8 then m[Mem(slot + c.byte)]
            else m[c]
  {
    hide Apply, Run;
    LoweredIsWellFormed(Leave(slot));
    var a, b := Xfer(R(RSP, 0), R(RBP, 0), 8), Xfer(R(RBP, 0), M(slot), 8);
    RunShort(m, a, b, p);
    var k := if c.Reg? then c.byte else 0;
    XferLaw(m, R(RSP, 0), R(RBP, 0), 8, p, k, c);
    XferLaw(Apply(m, a, p), R(RBP, 0), M(slot), 8, p, k, c);
    XferLaw(m, R(RSP, 0), R(RBP, 0), 8, p, k, Mem(slot + k));
  }

  // -------------------------------------------------------------- arithmetic

  /** ADD, SUB, AND, OR, XOR, SBB and the two-operand IMUL: unite, except that
      the zeroing idiom clears. */
  lemma BinaryLaw<T>(m: Shadow<T>, zeroing: bool, d: Operand, s: Operand, p: Label -> set<T>, i: nat, c: Cell)
    requires Decoded(Binary(zeroing, d, s))
    ensures var w, n := After(m, Binary(zeroing, d, s), p), Common(d, s);
            if d.InMem? && s.InMem? then w == m
            else
              && (i < n ==> w[Byte(d, i)] == if zeroing && d == s then {} else m[Byte(d, i)] + m[Byte(s, i)])
              && (Outside(d, n, c) ==> w[c] == m[c])
  {
    hide Apply, Run, At, In, Exists, Outside, OperandOk, Source, Target, Aligned;
    OneCall(m, Binary(zeroing, d, s), p);
    PairBytes(d, s);
    OperandBytes(d, Common(d, s), i, c);
    OperandBytes(s, Common(d, s), i, c);
    if zeroing && d.InReg? && d == s {
      ClearedOperand(m, d, p, i, c);
    } else if d.InReg? || s.InReg? {
      BinLaw(m, PlaceOf(d), PlaceOf(s), Common(d, s), p, i, c);
    }
  }

  lemma BinaryImmLaw<T>(m: Shadow<T>, d: Operand, p: Label -> set<T>)
    requires Decoded(BinaryImm(d))
    ensures After(m, BinaryImm(d), p) == m
  {
  }

  /** MOVZX, MOVSX and MOVSXD. */
  lemma WideningLaw<T>(m: Shadow<T>, signed: bool, g: Gpr, s: Operand, p: Label -> set<T>, c: Cell)
    requires Decoded(Widening(signed, g, s))
    ensures After(m, Widening(signed, g, s), p)[c] ==
            if Size(s) == 0 || !c.Reg? || c.row != Row(g) then m[c]
            else if c.byte < Size(s) then m[Byte(s, c.byte)]
            else if c.byte < Size(InReg(g)) then (if signed then m[Byte(s, Size(s) - 1)] else {})
            else m[c]
  {
    hide Apply, Run, At;
    OneCall(m, Widening(signed, g, s), p);
    var k := if c.Reg? && c.byte < Size(s) then c.byte else 0;
    OperandBytes(s, Size(s), k, c);
    if Size(s) > 0 {
      OperandBytes(s, Size(s), Size(s) - 1, c);
      ExtendLaw(m, signed, Row(g), PlaceOf(s), Size(s), Size(InReg(g)), p, c);
    }
  }

  // Byte i of an address register; a missing one is the spare row 43.
  function AddressByte(g: Option<Gpr>, i: nat): Cell {
    if g.None? then Reg(43, i) else Byte(InReg(g.value), i)
  }

  lemma LoadAddressLaw<T>(m: Shadow<T>, g: Gpr, base: Option<Gpr>, index: Option<Gpr>, p: Label -> set<T>, c: Cell)
    requires Decoded(LoadAddress(g, base, index))
    ensures After(m, LoadAddress(g, base, index), p)[c] ==
            if c.Reg? && c.row == Row(g) && c.byte < Size(InReg(g))
            then m[AddressByte(base, c.byte)] + m[AddressByte(index, c.byte)] else m[c]
  {
    hide Apply, Run;
    OneCall(m, LoadAddress(g, base, index), p);
    LeaLaw(m, Row(g), AddressSpan(base), AddressSpan(index), Size(InReg(g)), p, c);
  }

  /** MUL, DIV, IDIV and the one-operand IMUL; an operand in RAX or RDX is not
      looked at. */
  lemma MultiplyingLaw<T>(m: Shadow<T>, s: Operand, p: Label -> set<T>, c: Cell)
    requires Decoded(Multiplying(s))
    ensures After(m, Multiplying(s), p)[c] ==
            if Size(s) == 0 || (s.InReg? && (Row(s.g) == 8 || Row(s.g) == 10)) || !c.Reg? then m[c]
            else if Size(s) == 1 && c.row == 10 && c.byte < 2 then m[c] + m[Byte(s, 0)]
            else if Size(s) != 1 && (c.row == 8 || c.row == 10) && c.byte < Size(s) then m[c] + m[Byte(s, c.byte)]
            else m[c]
  {
    hide Apply, Run, At;
    OneCall(m, Multiplying(s), p);
    var k := if c.Reg? && c.byte < Size(s) then c.byte else 0;
    OperandBytes(s, Size(s), k, c);
    OperandBytes(s, Size(s), 0, c);
    if Lower(Multiplying(s)) != [] {
      MulLaw(m, PlaceOf(s), Size(s), p, c);
    }
  }

  /** CBW, CWDE, CDQE: the lower half of the accumulator goes to its upper half. */
  lemma SignExtendAccLaw<T>(m: Shadow<T>, size: nat, p: Label -> set<T>, c: Cell)
    requires Decoded(SignExtendAcc(size))
    ensures After(m, SignExtendAcc(size), p)[c] ==
            var half := size / 2;
            if c.Reg? && c.row == 10 && half <= c.byte < half + half then m[Reg(10, c.byte - half)] else m[c]
  {
    hide Apply, Run;
    OneCall(m, SignExtendAcc(size), p);
    if size >= 2 {
      var half := size / 2;
      var k := if c.Reg? && half <= c.byte < half + half then c.byte - half else 0;
      assert k % half == k;
      XferLaw(m, R(RAX, half), R(RAX, 0), half, p, k, c);
    }
  }

  /** CWD, CDQ, CQO: RDX receives the accumulator. */
  lemma SignIntoRdxLaw<T>(m: Shadow<T>, size: nat, p: Label -> set<T>, c: Cell)
    requires Decoded(SignIntoRdx(size))
    ensures After(m, SignIntoRdx(size), p)[c] ==
            if c.Reg? && c.row == 8 && c.byte < size then m[Reg(10, c.byte)] else m[c]
  {
    hide Apply, Run;
    OneCall(m, SignIntoRdx(size), p);
    if size > 0 {
      XferLaw(m, R(RDX, 0), R(RAX, 0), size, p, if c.Reg? then c.byte else 0, c);
    }
  }

  // One of the first n bytes of o holds x.
  ghost predicate Holds<T(!new)>(m: Shadow<T>, o: Operand, n: nat, x: T) {
    exists j :: 0 <= j < n && x in m[Byte(o, j)]
  }

  lemma HoldsSomewhere<T(!new)>(m: Shadow<T>, o: Operand, n: nat, x: T)
    requires OperandOk(o) && n <= 8
    ensures Holds(m, o, n, x) <==> Somewhere(m, PlaceOf(o), n, x)
  {
    hide At, Byte;
    forall j | 0 <= j < n ensures At(PlaceOf(o), j) == Byte(o, j) {
      OperandBytes(o, n, j, At(PlaceOf(o), j));
    }
  }

  /** Shifts and rotates; SHLD and SHRD by a count without a source register. */
  lemma ShiftingLaw<T(!new)>(m: Shadow<T>, d: Operand, p: Label -> set<T>, i: nat, c: Cell, x: T)
    requires Decoded(Shifting(d))
    ensures var w := After(m, Shifting(d), p);
            && (i < Size(d) ==> (x in w[Byte(d, i)] <==> Holds(m, d, Size(d), x)))
            && (Outside(d, Size(d), c) ==> w[c] == m[c])
    ensures d.InReg? ==> After(m, Funnelling(d.g, None), p) == After(m, Shifting(d), p)
  {
    hide Apply, Run, Holds, Somewhere, At, In, Outside, Exists;
    OneCall(m, Shifting(d), p);
    OperandBytes(d, Size(d), i, c);
    HoldsSomewhere(m, d, Size(d), x);
    ShiftLaw(m, PlaceOf(d), Size(d), p, i, c, x);
    if d.InReg? {
      OneCall(m, Funnelling(d.g, None), p);
    }
  }

  lemma FunnellingLaw<T(!new)>(m: Shadow<T>, g: Gpr, other: Gpr, p: Label -> set<T>, i: nat, c: Cell, x: T)
    requires Decoded(Funnelling(g, Some(other)))
    ensures var w, d, s := After(m, Funnelling(g, Some(other)), p), InReg(g), InReg(other);
            var n := Common(d, s);
            && (i < n ==> (x in w[Byte(d, i)] <==> Holds(m, d, n, x) || Holds(m, s, n, x)))
            && (Outside(d, n, c) ==> w[c] == m[c])
  {
    hide Apply, Run, Holds, Somewhere, At, In, Outside, Exists;
    var d, s := InReg(g), InReg(other);
    OneCall(m, Funnelling(g, Some(other)), p);
    PairBytes(d, s);
    OperandBytes(d, Common(d, s), i, c);
    HoldsSomewhere(m, d, Common(d, s), x);
    HoldsSomewhere(m, s, Common(d, s), x);
    ShldLaw(m, PlaceOf(d), PlaceOf(s), Common(d, s), p, i, c, x);
  }

  // ------------------------------------------------------ bytes and exchanges

  lemma ByteSwapLaw<T>(m: Shadow<T>, g: Gpr, p: Label -> set<T>, i: nat, c: Cell)
    requires Decoded(ByteSwap(g))
    ensures var w, d := After(m, ByteSwap(g), p), InReg(g);
            && (i < Size(d) ==> w[Byte(d, i)] == m[Byte(d, Size(d) - 1 - i)])
            && (Outside(d, Size(d), c) ==> w[c] == m[c])
  {
    hide Apply, Run, At, In, Outside, Exists;
    var d := InReg(g);
    OneCall(m, ByteSwap(g), p);
    OperandBytes(d, Size(d), i, c);
    if i < Size(d) {
      OperandBytes(d, Size(d), Size(d) - 1 - i, c);
    }
    if Size(d) >= 2 {
      BswapLaw(m, PlaceOf(d), Size(d), p, i, c);
    }
  }

  lemma MovBigEndianLaw<T>(m: Shadow<T>, d: Operand, s: Operand, p: Label -> set<T>, i: nat, c: Cell)
    requires Decoded(MovBigEndian(d, s))
    ensures var w, n := After(m, MovBigEndian(d, s), p), Common(d, s);
            if d.InReg? == s.InReg? then w == m
            else (i < n ==> w[Byte(d, i)] == m[Byte(s, n - 1 - i)]) && (Outside(d, n, c) ==> w[c] == m[c])
  {
    hide Apply, Run, At, In, Outside, Exists;
    OneCall(m, MovBigEndian(d, s), p);
    PairBytes(d, s);
    var n := Common(d, s);
    OperandBytes(d, n, i, c);
    if i < n {
      OperandBytes(s, n, n - 1 - i, c);
    }
    if d.InReg? != s.InReg? {
      MovbeLaw(m, PlaceOf(d), PlaceOf(s), n, p, i, c);
    }
  }

  lemma ExchangingLaw<T>(m: Shadow<T>, d: Operand, g: Gpr, p: Label -> set<T>, i: nat, c: Cell)
    requires Decoded(Exchanging(d, g))
    ensures var w, s, n := After(m, Exchanging(d, g), p), InReg(g), Common(d, InReg(g));
            && (i < n ==> w[Byte(d, i)] == m[Byte(s, i)] && w[Byte(s, i)] == m[Byte(d, i)])
            && (Outside(d, n, c) && Outside(s, n, c) ==> w[c] == m[c])
  {
    hide Apply, Run, At, In, Outside, Exists;
    var s := InReg(g);
    OneCall(m, Exchanging(d, g), p);
    PairBytes(d, s);
    OperandBytes(d, Common(d, s), i, c);
    OperandBytes(s, Common(d, s), i, c);
    XchgLaw(m, PlaceOf(d), PlaceOf(s), Common(d, s), p, i, c);
  }

  lemma ExchangeAddLaw<T>(m: Shadow<T>, d: Operand, g: Gpr, p: Label -> set<T>, i: nat, c: Cell)
    requires Decoded(ExchangeAdd(d, g))
    ensures var w, s, n := After(m, ExchangeAdd(d, g), p), InReg(g), Common(d, InReg(g));
            && (i < n ==> w[Byte(d, i)] == w[Byte(s, i)] == m[Byte(d, i)] + m[Byte(s, i)])
            && (Outside(d, n, c) && Outside(s, n, c) ==> w[c] == m[c])
  {
    hide Apply, Run, At, In, Outside, Exists;
    var s := InReg(g);
    OneCall(m, ExchangeAdd(d, g), p);
    PairBytes(d, s);
    OperandBytes(d, Common(d, s), i, c);
    OperandBytes(s, Common(d, s), i, c);
    XaddLaw(m, PlaceOf(d), PlaceOf(s), Common(d, s), p, i, c);
  }

  // The accumulator is the destination if that is in RAX (row 10), and the low
  // bytes of RAX otherwise.
  function AccumulatorOf(d: Operand): Operand {
    if d.InReg? && Row(d.g) == 10 then d else InReg(Low(10, 8))
  }

  /** CMPXCHG; a source register in RAX, or the destination itself, is not
      taken for the source. */
  lemma CompareExchangeLaw<T>(m: Shadow<T>, d: Operand, g: Gpr, p: Label -> set<T>, i: nat, c: Cell)
    requires Decoded(CompareExchange(d, g))
    ensures var w, s, acc, n := After(m, CompareExchange(d, g), p), InReg(g), AccumulatorOf(d), Size(d);
            if Row(g) == 10 || d == s then w == m
            else
              && (i < n ==> w[Byte(d, i)] == w[Byte(acc, i)] == m[Byte(d, i)] + m[Byte(s, i)] + m[Byte(acc, i)])
              && (Outside(d, n, c) && Outside(acc, n, c) ==> w[c] == m[c])
  {
    hide Apply, Run, At, In, Outside, Exists;
    var s, acc, n := InReg(g), AccumulatorOf(d), Size(d);
    OneCall(m, CompareExchange(d, g), p);
    OperandBytes(d, n, i, c);
    OperandBytes(s, n, i, c);
    OperandBytes(acc, n, i, c);
    if Lower(CompareExchange(d, g)) != [] {
      CmpxchgLaw(m, PlaceOf(d), PlaceOf(s), PlaceOf(acc), n, p, i, c);
    }
  }
}
