/** From instruction operands to handler arguments: the shadow span of a
    general-purpose register, and the handler call each inserter emits. Any two
    register spans, cut to the same width, are the same bytes or disjoint, so
    every emitted step meets its handler's demands. */
module Registers {
  import opened ShadowDirectory
  import opened Cells
  import opened Ops
  import opened Options

  // A general-purpose register: the low 1, 2, 4 or 8 bytes of a row, or one of
  // the legacy second bytes AH, BH, CH, DH.
  datatype Gpr = Low(row: nat, width: nat) | High(row: nat)

  predicate IsGpr(g: Gpr) {
    match g
    case Low(row, width) => RDI <= row <= R15 && (width == 1 || width == 2 || width == 4 || width == 8)
    case High(row) => row == RAX || row == RBX || row == RCX || row == RDX
  }

  /** The rows: RDI to R15 are 3 to 18, and those with a second byte are RBX, RDX,
      RCX and RAX. */
  lemma GprRows(row: nat, width: nat)
    ensures IsGpr(Low(row, width)) <==> 3 <= row <= 18 && width in {1, 2, 4, 8}
    ensures IsGpr(High(row)) <==> 7 <= row <= 10
  {
  }

  // reg_shadow_span
  function SpanStart(g: Gpr): Place {
    match g
    case Low(row, _) => R(row, 0)
    case High(row) => R(row, 1)
  }

  function SpanWidth(g: Gpr): nat {
    match g
    case Low(_, width) => width
    case High(_) => 1
  }

  function Min(a: nat, b: nat): nat { if a < b then a else b }

  /** Register spans never overlap partially: AH is byte 1 of a row whose other
      one-byte span is byte 0. */
  lemma SpansAligned(a: Gpr, b: Gpr)
    requires IsGpr(a) && IsGpr(b)
    ensures var n := Min(SpanWidth(a), SpanWidth(b));
            Target(SpanStart(a), n) && Target(SpanStart(b), n) && Aligned(SpanStart(a), SpanStart(b), n)
  {
  }

  datatype Operand = InReg(g: Gpr) | InMem(addr: Addr, size: nat)

  // addr_reg_span: a missing address register is the spare row.
  function AddressSpan(g: Option<Gpr>): Place {
    match g
    case None => R(GRP_NUM, 0)
    case Some(r) => SpanStart(r)
  }

  datatype Instr =
    | Mov(d: Operand, s: Operand)
    | MovImm(d: Operand)
    | Binary(zeroing: bool, d: Operand, s: Operand)
    | BinaryImm(d: Operand)
    | Widening(signed: bool, reg: Gpr, s: Operand)
    | LoadAddress(reg: Gpr, base: Option<Gpr>, index: Option<Gpr>)
    | CondMov(taken: bool, reg: Gpr, s: Operand)
    | Exchanging(d: Operand, src: Gpr)
    | Shifting(d: Operand)
    | Funnelling(reg: Gpr, other: Option<Gpr>)
    | ByteSwap(reg: Gpr)
    | MovBigEndian(d: Operand, s: Operand)
    | CompareExchange(d: Operand, src: Gpr)
    | ExchangeAdd(d: Operand, src: Gpr)
    | Multiplying(s: Operand)
    | SignExtendAcc(size: nat)
    | SignIntoRdx(size: nat)
    | Leave(slot: Addr)
    | Push(slot: Addr, size: nat, pushed: Option<Operand>)
    | Pop(d: Operand, slot: Addr)

  function PlaceOf(o: Operand): Place {
    match o
    case InReg(g) => SpanStart(g)
    case InMem(addr, _) => M(addr)
  }

  // The byte count an inserter passes: the common width of two registers, or
  // the register's width when the other operand is in memory.
  function PairWidth(d: Operand, s: Operand): nat {
    match (d, s)
    case (InReg(a), InReg(b)) => Min(SpanWidth(a), SpanWidth(b))
    case (InReg(a), InMem(_, _)) => SpanWidth(a)
    case (InMem(_, _), InReg(b)) => SpanWidth(b)
    case (InMem(_, size), InMem(_, _)) => size
  }

  function WidthOf(o: Operand): nat {
    match o
    case InReg(g) => SpanWidth(g)
    case InMem(_, size) => size
  }

  // CMPXCHG's accumulator: the first source of the RAX family, which is the
  // destination itself when that is one (AH included), and AL to RAX otherwise.
  function Accumulator(d: Operand): Place {
    if d.InReg? && SpanStart(d.g).row == RAX then SpanStart(d.g) else R(RAX, 0)
  }

  // PUSH and POP pass over the stack pointer itself.
  predicate IsStackPointer(o: Operand) { o.InReg? && o.g.Low? && o.g.row == RSP && o.g.width >= 2 }

  // The handler calls the inserter emits for an instruction. MOVS, STOS and
  // LODS emit those of a move, and so do BSF and BSR.
  function Lower(i: Instr): seq<Op> {
    match i
    case Mov(d, s) => [Xfer(PlaceOf(d), PlaceOf(s), PairWidth(d, s))]
    case MovImm(InReg(g)) => [Clear(SpanStart(g), SpanWidth(g))]
    case MovImm(InMem(addr, size)) => if size == 0 then [] else [ClearRange(addr, size)]
    case Binary(zeroing, d, s) =>
      if zeroing && d.InReg? && d == s then [Clear(PlaceOf(d), WidthOf(d))]
      else if d.InMem? && s.InMem? then []
      else [Bin(PlaceOf(d), PlaceOf(s), PairWidth(d, s))]
    case BinaryImm(_) => []
    case Widening(signed, d, s) =>
      if WidthOf(s) == 0 then []
      else [Extend(signed, SpanStart(d).row, PlaceOf(s), WidthOf(s), SpanWidth(d))]
    case LoadAddress(d, base, index) =>
      [Lea(SpanStart(d).row, AddressSpan(base), AddressSpan(index), SpanWidth(d))]
    case CondMov(taken, d, s) =>
      if s == InReg(d) then [] else [Cmov(taken, SpanStart(d), PlaceOf(s), PairWidth(InReg(d), s))]
    case Exchanging(d, s) => [Xchg(PlaceOf(d), SpanStart(s), PairWidth(d, InReg(s)))]
    case Shifting(d) => [ShiftBits(PlaceOf(d), WidthOf(d))]
    case Funnelling(d, None) => [ShiftBits(SpanStart(d), SpanWidth(d))]
    case Funnelling(d, Some(s)) => [Shld(SpanStart(d), SpanStart(s), Min(SpanWidth(d), SpanWidth(s)))]
    case ByteSwap(d) => if SpanWidth(d) < 2 then [] else [Bswap(SpanStart(d), SpanWidth(d))]
    case MovBigEndian(d, s) =>
      if d.InReg? == s.InReg? then [] else [Movbe(PlaceOf(d), PlaceOf(s), PairWidth(d, s))]
    case CompareExchange(d, s) =>
      if SpanStart(s).row == RAX || d == InReg(s) then []
      else [Cmpxchg(PlaceOf(d), SpanStart(s), Accumulator(d), WidthOf(d))]
    case ExchangeAdd(d, s) => [Xadd(PlaceOf(d), SpanStart(s), PairWidth(d, InReg(s)))]
    case Multiplying(s) =>
      if WidthOf(s) == 0 then []
      else if s.InReg? && (SpanStart(s.g).row == RAX || SpanStart(s.g).row == RDX) then []
      else [Mul(PlaceOf(s), WidthOf(s))]
    case SignExtendAcc(size) => if size < 2 then [] else [Xfer(R(RAX, size / 2), R(RAX, 0), size / 2)]
    case SignIntoRdx(size) => if size == 0 then [] else [Xfer(R(RDX, 0), R(RAX, 0), size)]
    case Leave(slot) => [Xfer(R(RSP, 0), R(RBP, 0), 8), Xfer(R(RBP, 0), M(slot), 8)]
    case Push(slot, size, None) => if size == 0 then [] else [ClearRange(slot, size)]
    case Push(slot, size, Some(s)) =>
      if IsStackPointer(s) then [] else [Xfer(M(slot), PlaceOf(s), PairWidth(InMem(slot, size), s))]
    case Pop(d, slot) => if IsStackPointer(d) then [] else [Xfer(PlaceOf(d), M(slot), WidthOf(d))]
  }

  predicate OperandOk(o: Operand) {
    match o
    case InReg(g) => IsGpr(g)
    case InMem(addr, size) => size <= 8 && addr + 8 <= SPACE
  }

  predicate AddressOk(g: Option<Gpr>) { g.Some? ==> IsGpr(g.value) }

  // What the instruction decoder guarantees: registers are general-purpose,
  // memory operands lie in the user address space, and the instructions whose
  // operands have one common width do have it.
  predicate Decoded(i: Instr) {
    match i
    case Mov(d, s) => OperandOk(d) && OperandOk(s)
    case MovImm(d) => OperandOk(d)
    case Binary(_, d, s) => OperandOk(d) && OperandOk(s)
    case BinaryImm(d) => OperandOk(d)
    case Widening(_, d, s) => IsGpr(d) && OperandOk(s)
    case LoadAddress(d, base, index) => IsGpr(d) && AddressOk(base) && AddressOk(index)
    case CondMov(_, d, s) => IsGpr(d) && OperandOk(s)
    case Exchanging(d, s) => OperandOk(d) && IsGpr(s)
    case Shifting(d) => OperandOk(d)
    case Funnelling(d, s) => IsGpr(d) && AddressOk(s)
    case ByteSwap(d) => IsGpr(d)
    case MovBigEndian(d, s) => OperandOk(d) && OperandOk(s)
    case CompareExchange(d, s) => OperandOk(d) && IsGpr(s) && WidthOf(d) == SpanWidth(s)
    case ExchangeAdd(d, s) => OperandOk(d) && IsGpr(s)
    case Multiplying(s) => OperandOk(s)
    case SignExtendAcc(size) => size <= 8
    case SignIntoRdx(size) => size <= 8
    case Leave(slot) => slot + 8 <= SPACE
    case Push(slot, size, s) => OperandOk(InMem(slot, size)) && (s.Some? ==> OperandOk(s.value))
    case Pop(d, slot) => OperandOk(d) && slot + 8 <= SPACE
  }

  lemma PairIsAligned(d: Operand, s: Operand)
    requires OperandOk(d) && OperandOk(s)
    ensures var n := PairWidth(d, s);
            && Target(PlaceOf(d), n) && Source(PlaceOf(d), n) && Target(PlaceOf(s), n) && Source(PlaceOf(s), n)
            && (d.InReg? || s.InReg? ==> Aligned(PlaceOf(d), PlaceOf(s), n))
  {
  }

  lemma CompareExchangeIsWellFormed(d: Operand, s: Gpr)
    requires Decoded(CompareExchange(d, s))
    ensures AllWellFormed(Lower(CompareExchange(d, s)))
  {
  }

  lemma PairsAreWellFormed(i: Instr)
    requires Decoded(i)
    requires i.Mov? || i.Binary? || i.CondMov? || i.Exchanging? || i.Funnelling? || i.MovBigEndian? || i.ExchangeAdd?
    ensures AllWellFormed(Lower(i))
  {
    hide Target, Source, Aligned, IsGpr, WidthOf;
    match i {
      case Mov(d, s) => PairIsAligned(d, s);
      case Binary(_, d, s) =>
        PairIsAligned(d, s);
        assert d == s && d.InReg? ==> PairWidth(d, s) == WidthOf(d) by { PairOfOne(d, s); }
      case CondMov(_, d, s) => PairIsAligned(InReg(d), s);
      case Exchanging(d, s) => PairIsAligned(d, InReg(s));
      case Funnelling(d, None) => PairIsAligned(InReg(d), InReg(d));
      case Funnelling(d, Some(s)) => PairIsAligned(InReg(d), InReg(s));
      case MovBigEndian(d, s) => PairIsAligned(d, s);
      case ExchangeAdd(d, s) => PairIsAligned(d, InReg(s));
    }
  }

  lemma StackIsWellFormed(i: Instr)
    requires Decoded(i) && (i.Push? || i.Pop?)
    ensures AllWellFormed(Lower(i))
  {
    hide Target, Source;
    match i {
      case Push(slot, size, Some(s)) => PairIsAligned(InMem(slot, size), s);
      case Push(_, _, None) =>
      case Pop(d, slot) => PairIsAligned(d, InMem(slot, WidthOf(d)));
    }
  }

  lemma PairOfOne(d: Operand, s: Operand)
    ensures d == s && d.InReg? ==> PairWidth(d, s) == WidthOf(d)
  {
  }

  /** Every handler call an inserter emits meets the handler's demands: rows and
      bytes are inside the register file, no destination is the spare row, and
      in-place loops never see partially overlapping operands. */
  lemma LoweredIsWellFormed(i: Instr)
    requires Decoded(i)
    ensures AllWellFormed(Lower(i))
  {
    match i {
      case Mov(_, _) => PairsAreWellFormed(i);
      case Binary(_, _, _) => PairsAreWellFormed(i);
      case CondMov(_, _, _) => PairsAreWellFormed(i);
      case Exchanging(_, _) => PairsAreWellFormed(i);
      case Funnelling(_, _) => PairsAreWellFormed(i);
      case MovBigEndian(_, _) => PairsAreWellFormed(i);
      case ExchangeAdd(_, _) => PairsAreWellFormed(i);
      case CompareExchange(d, s) => CompareExchangeIsWellFormed(d, s);
      case Push(_, _, _) => StackIsWellFormed(i);
      case Pop(_, _) => StackIsWellFormed(i);
      case _ =>
    }
  }
}
