/** The step alphabet: propagation handlers, function summaries and source
    hooks, with the handlers' own arguments. `Apply` gives each step its meaning
    on a plain set per byte: whole byte vectors are read from the state before
    the step and written back, with no loops and no intermediate states. */
module Ops {
  import opened TagText
  import opened TagTables
  import opened ShadowDirectory
  import opened Cells

  // ------------------------------------------------------ function summaries

  const MAX_PROP_BYTES: nat := 262144
  const MAX_WIDE_CHARS: nat := 65536  // MAX_PROP_BYTES / sizeof(wchar_t)

  type Int32 = x: int | -0x8000_0000 <= x < 0x8000_0000

  datatype Ref = NoRef | ArgRef(value: Int32) | LiteralRef(value: Int32) | RetRef | StrlenRef | WcslenRef

  datatype Shape = Invalid | SourceBuffer | SourceRetPtr | PropPtr2Ptr | PropPtr2Val | PropScalar | ClobberOnly

  datatype Summary = Summary(shape: Shape, dst: Ref, src: seq<int>, len: Ref, args: seq<int>)

  // The six integer argument registers' values at the call, and the readable
  // bytes of application memory.
  datatype CallSite = CallSite(args: seq<Addr>, app: map<nat, nat>)

  function ArgRow(i: int): int {
    if i == 0 then RDI else if i == 1 then RSI else if i == 2 then RDX
    else if i == 3 then RCX else if i == 4 then R8 else if i == 5 then R9 else -1
  }

  predicate NonNulAt(app: map<nat, nat>, p: Addr, n: nat)
    requires n <= WORD
  {
    Plus(p, n) in app && app[Plus(p, n)] != 0
  }

  // The number of leading readable non-NUL bytes at p, capped.
  function StrLen(app: map<nat, nat>, p: Addr, from: nat := 0): (n: nat)
    requires from <= MAX_PROP_BYTES
    ensures from <= n <= MAX_PROP_BYTES
    ensures forall k :: from <= k < n ==> NonNulAt(app, p, k)
    ensures n < MAX_PROP_BYTES ==> !NonNulAt(app, p, n)
    decreases MAX_PROP_BYTES - from
  {
    if from < MAX_PROP_BYTES && NonNulAt(app, p, from) then StrLen(app, p, from + 1) else from
  }

  predicate WideReadable(app: map<nat, nat>, p: Addr, n: nat)
    requires 4 * n + 3 <= WORD
  {
    Plus(p, 4 * n) in app && Plus(p, 4 * n + 1) in app && Plus(p, 4 * n + 2) in app && Plus(p, 4 * n + 3) in app
  }

  predicate NonNulWideAt(app: map<nat, nat>, p: Addr, n: nat)
    requires 4 * n + 3 <= WORD
  {
    && WideReadable(app, p, n)
    && !(app[Plus(p, 4 * n)] == 0 && app[Plus(p, 4 * n + 1)] == 0
         && app[Plus(p, 4 * n + 2)] == 0 && app[Plus(p, 4 * n + 3)] == 0)
  }

  // The number of leading readable non-NUL 4-byte characters at p, capped.
  function WideLen(app: map<nat, nat>, p: Addr, from: nat := 0): (n: nat)
    requires from <= MAX_WIDE_CHARS
    ensures from <= n <= MAX_WIDE_CHARS
    ensures forall k :: from <= k < n ==> NonNulWideAt(app, p, k)
    ensures n < MAX_WIDE_CHARS ==> !NonNulWideAt(app, p, n)
    decreases MAX_WIDE_CHARS - from
  {
    if from < MAX_WIDE_CHARS && NonNulWideAt(app, p, from) then WideLen(app, p, from + 1) else from
  }

  // resolve_len followed by the clamp to MAX_PROP_BYTES; a negative literal
  // becomes a huge unsigned number and is clamped.
  function PropLen(len: Ref, site: CallSite, p: Addr): (n: nat)
    requires |site.args| == 6
    ensures n <= MAX_PROP_BYTES
  {
    var raw :=
      match len
      case ArgRef(v) => if 0 <= v <= 5 then site.args[v] else 0
      case LiteralRef(v) => if v < 0 then MAX_PROP_BYTES else v
      case StrlenRef => if p == 0 then 0 else StrLen(site.app, p)
      case WcslenRef => if p == 0 then 0 else 4 * WideLen(site.app, p)
      case _ => 0;
    if raw > MAX_PROP_BYTES then MAX_PROP_BYTES else raw
  }

  function PropDst(dst: Ref, site: CallSite): Addr
    requires |site.args| == 6
  {
    if dst.ArgRef? && 0 <= dst.value <= 5 then site.args[dst.value] else 0
  }

  const CALLER_SAVED: seq<nat> := [RAX, RCX, RDX, RSI, RDI, R8, R9, R10, R11]

  predicate Clobbered(c: Cell) { c.Reg? && c.row in CALLER_SAVED && c.byte < TAGS_PER_GPR }

  ghost function Clobber<T>(m: Shadow<T>): Shadow<T> {
    imap c: Cell :: if Clobbered(c) then {} else m[c]
  }

  // Every byte of RAX receives the same set.
  ghost function SetRax<T>(m: Shadow<T>, v: set<T>): Shadow<T> { Write(m, R(RAX, 0), Repeat(8, v)) }

  // The union over the buffers the first k `src` arguments point to.
  ghost function PointedUnion<T>(m: Shadow<T>, sum: Summary, site: CallSite, k: nat): set<T>
    requires |site.args| == 6 && k <= |sum.src|
  {
    if k == 0 then {}
    else PointedUnion(m, sum, site, k - 1) + Pointed(m, sum, site, sum.src[k - 1])
  }

  ghost function Pointed<T>(m: Shadow<T>, sum: Summary, site: CallSite, idx: int): set<T>
    requires |site.args| == 6
  {
    if 0 <= idx <= 5 && site.args[idx] != 0
    then Union(Bytes(m, M(site.args[idx]), PropLen(sum.len, site, site.args[idx])))
    else {}
  }

  // The union over the low 8 bytes of the first k named argument registers.
  ghost function ScalarUnion<T>(m: Shadow<T>, args: seq<int>, k: nat): set<T>
    requires k <= |args|
  {
    if k == 0 then {} else ScalarUnion(m, args, k - 1) + Scalar(m, ArgRow(args[k - 1]))
  }

  ghost function Scalar<T>(m: Shadow<T>, row: int): set<T> {
    if row >= 0 then Union(Bytes(m, R(row, 0), 8)) else {}
  }

  // A copying call: the buffer is copied, the caller-saved rows are cleared,
  // and RAX receives what the first destination byte then holds.
  ghost function CopyCall<T>(m: Shadow<T>, dst: Addr, src: Addr, n: nat): Shadow<T> {
    var copied := if dst != 0 && src != 0 then Move(m, M(dst), M(src), n) else m;
    if dst != 0 && n > 0 then SetRax(Clobber(copied), copied[Mem(dst)]) else Clobber(copied)
  }

  ghost function Summarise<T>(m: Shadow<T>, sum: Summary, site: CallSite): Shadow<T>
    requires |site.args| == 6 && CallReadable(sum, site)
  {
    match sum.shape
    case Invalid => m
    case PropPtr2Ptr =>
      if sum.src == [] then Clobber(m)
      else
        var src := site.args[sum.src[0]];
        CopyCall(m, PropDst(sum.dst, site), src, PropLen(sum.len, site, src))
    case PropPtr2Val => SetRax(Clobber(m), PointedUnion(m, sum, site, |sum.src|))
    case PropScalar => SetRax(Clobber(m), ScalarUnion(m, sum.args, |sum.args|))
    case _ => Clobber(m)
  }

  predicate CallReadable(sum: Summary, site: CallSite)
    requires |site.args| == 6
  {
    match sum.shape
    case PropPtr2Ptr =>
      sum.src != [] ==>
        && 0 <= sum.src[0] <= 5
        && CopyReadable(PropDst(sum.dst, site), site.args[sum.src[0]], PropLen(sum.len, site, site.args[sum.src[0]]))
    case PropPtr2Val =>
      forall k :: 0 <= k < |sum.src| ==> PointedReadable(sum, site, sum.src[k])
    case _ => true
  }

  predicate CopyReadable(dst: Addr, src: Addr, n: nat) {
    && (dst != 0 && src != 0 ==> Source(M(src), n))
    && (dst != 0 && n > 0 ==> InSpace(dst))
  }

  predicate PointedReadable(sum: Summary, site: CallSite, idx: int)
    requires |site.args| == 6
  {
    0 <= idx <= 5 && site.args[idx] != 0 ==>
      Source(M(site.args[idx]), PropLen(sum.len, site, site.args[idx]))
  }

  // ---------------------------------------------------------- byte-wise steps

  // dst <- src
  ghost function Move<T>(m: Shadow<T>, d: Place, s: Place, n: nat): Shadow<T> {
    Write(m, d, Copied(m, d, s, n))
  }

  ghost function Blank<T>(m: Shadow<T>, d: Place, n: nat): Shadow<T> { Write(m, d, Repeat(n, {})) }

  // dst <- dst | src
  ghost function Merge<T>(m: Shadow<T>, d: Place, s: Place, n: nat): Shadow<T> {
    Accumulate(m, d, Bytes(m, s, n))
  }

  ghost function Swap<T>(m: Shadow<T>, a: Place, b: Place, n: nat): Shadow<T> {
    Write(Write(m, a, Bytes(m, b, n)), b, Bytes(m, a, n))
  }

  // RDX:RAX receive the operand's bytes; a one-byte operand goes to AL and AH.
  ghost function Multiply<T>(m: Shadow<T>, vals: seq<set<T>>): Shadow<T> {
    if |vals| == 1 then Accumulate(m, R(RAX, 0), Repeat(2, vals[0]))
    else Accumulate(Accumulate(m, R(RDX, 0), vals), R(RAX, 0), vals)
  }

  ghost function Accumulate<T>(m: Shadow<T>, d: Place, vals: seq<set<T>>): Shadow<T> {
    Write(m, d, Or(Bytes(m, d, |vals|), vals))
  }

  // Zero or sign extension of srcn bytes to dstn bytes.
  ghost function Widen<T>(m: Shadow<T>, signed: bool, row: nat, s: Place, srcn: nat, dstn: nat): Shadow<T> {
    if signed && srcn == 0 then m
    else
      var fill := if signed then m[At(s, srcn - 1)] else {};
      Write(m, R(row, 0), Bytes(m, s, srcn) + Repeat(if srcn <= dstn then dstn - srcn else 0, fill))
  }

  ghost function AddressOf<T>(m: Shadow<T>, row: nat, base: Place, index: Place, n: nat): Shadow<T> {
    Write(m, R(row, 0), Or(Bytes(m, base, n), Bytes(m, index, n)))
  }

  // Shifts: every byte receives the union of all of them.
  ghost function Smear<T>(m: Shadow<T>, d: Place, n: nat): Shadow<T> {
    Write(m, d, Repeat(n, Union(Bytes(m, d, n))))
  }

  ghost function Funnel<T>(m: Shadow<T>, d: Place, s: Place, n: nat): Shadow<T> {
    Write(m, d, Repeat(n, Union(Bytes(m, d, n)) + Union(Bytes(m, s, n))))
  }

  // dst <- src with the bytes reversed
  ghost function Flip<T>(m: Shadow<T>, d: Place, s: Place, n: nat): Shadow<T> {
    Write(m, d, Reverse(Bytes(m, s, n)))
  }

  ghost function Exchange<T>(m: Shadow<T>, d: Place, s: Place, acc: Place, n: nat): Shadow<T> {
    var u := Or(Or(Bytes(m, d, n), Bytes(m, s, n)), Bytes(m, acc, n));
    Write(Write(m, d, u), acc, u)
  }

  ghost function Spread<T>(m: Shadow<T>, d: Place, s: Place, n: nat): Shadow<T> {
    var u := Or(Bytes(m, d, n), Bytes(m, s, n));
    Write(Write(m, d, u), s, u)
  }

  // Source bytes: buffer byte i is painted with the label offset + i, which is
  // cut to 32 bits.
  ghost function Painted<T>(m: Shadow<T>, buf: Addr, n: nat, offset: int, paint: Label -> set<T>): Shadow<T> {
    Write(m, M(buf), PaintOf(n, offset, paint))
  }

  ghost function PaintOf<T>(n: nat, offset: int, paint: Label -> set<T>): (vals: seq<set<T>>)
    ensures |vals| == n
  {
    seq(n, i => paint((offset + i) % ID_LIMIT))
  }

  // ------------------------------------------------------------ the alphabet

  datatype Op =
    | Xfer(d: Place, s: Place, n: nat)
    | Clear(d: Place, n: nat)
    | ClearRange(addr: Addr, n: nat)
    | Mul(s: Place, n: nat)
    | Xchg(d: Place, s: Place, n: nat)
    | Cmov(taken: bool, d: Place, s: Place, n: nat)
    | Bin(d: Place, s: Place, n: nat)
    | Extend(signed: bool, row: nat, s: Place, srcn: nat, dstn: nat)
    | Lea(row: nat, base: Place, index: Place, n: nat)
    | ShiftBits(d: Place, n: nat)
    | Shld(d: Place, s: Place, n: nat)
    | Bswap(d: Place, n: nat)
    | Movbe(d: Place, s: Place, n: nat)
    | Cmpxchg(d: Place, s: Place, acc: Place, n: nat)
    | Xadd(d: Place, s: Place, n: nat)
    | Call(sum: Summary, site: CallSite)
    | Paint(buf: Addr, n: nat, offset: int)

  // What a handler's caller provides: operands inside the register file,
  // destinations in real rows, and a shadow cell for every byte read.
  predicate WellFormed(op: Op) {
    match op
    case Xfer(d, s, n) => Target(d, n) && Source(s, n)
    case Clear(d, n) => Target(d, n)
    case ClearRange(addr, n) => n < ID_LIMIT
    case Mul(s, n) => Source(s, n) && n <= 8
    case Xchg(d, s, n) => Target(d, n) && Source(d, n) && Target(s, n) && s.R? && Aligned(d, s, n)
    case Cmov(taken, d, s, n) => Target(d, n) && d.R? && (taken ==> Source(s, n))
    case Bin(d, s, n) => Target(d, n) && Source(d, n) && Source(s, n) && Aligned(d, s, n)
    case Extend(signed, row, s, srcn, dstn) =>
      Target(R(row, 0), srcn) && Target(R(row, 0), dstn) && Source(s, srcn)
    case Lea(row, base, index, n) =>
      Target(R(row, 0), n) && base.R? && Source(base, n) && index.R? && Source(index, n)
    case ShiftBits(d, n) => Target(d, n) && Source(d, n)
    case Shld(d, s, n) => Target(d, n) && d.R? && s.R? && Source(s, n)
    case Bswap(d, n) => Target(d, n) && d.R?
    case Movbe(d, s, n) => Target(d, n) && Source(s, n) && d.R? != s.R?
    case Cmpxchg(d, s, acc, n) =>
      && Target(d, n) && Source(d, n) && s.R? && Source(s, n) && acc.R? && Target(acc, n)
      && Aligned(d, s, n) && Aligned(d, acc, n) && Aligned(s, acc, n)
    case Xadd(d, s, n) => Target(d, n) && Source(d, n) && s.R? && Target(s, n) && Aligned(d, s, n)
    case Call(sum, site) => |site.args| == 6 && CallReadable(sum, site)
    case Paint(buf, n, offset) => Source(M(buf), n) && n < ID_LIMIT
  }

  ghost function Apply<T>(m: Shadow<T>, op: Op, paint: Label -> set<T>): Shadow<T>
    requires WellFormed(op)
  {
    match op
    case Xfer(d, s, n) => Move(m, d, s, n)
    case Clear(d, n) => Blank(m, d, n)
    case ClearRange(addr, n) => if addr + n < WORD then Blank(m, M(addr), n) else m
    case Mul(s, n) => Multiply(m, Bytes(m, s, n))
    case Xchg(d, s, n) => Swap(m, d, s, n)
    case Cmov(taken, d, s, n) => if taken then Move(m, d, s, n) else m
    case Bin(d, s, n) => Merge(m, d, s, n)
    case Extend(signed, row, s, srcn, dstn) => Widen(m, signed, row, s, srcn, dstn)
    case Lea(row, base, index, n) => AddressOf(m, row, base, index, n)
    case ShiftBits(d, n) => Smear(m, d, n)
    case Shld(d, s, n) => Funnel(m, d, s, n)
    case Bswap(d, n) => Flip(m, d, d, n)
    case Movbe(d, s, n) => Flip(m, d, s, n)
    case Cmpxchg(d, s, acc, n) => Exchange(m, d, s, acc, n)
    case Xadd(d, s, n) => Spread(m, d, s, n)
    case Call(sum, site) => Summarise(m, sum, site)
    case Paint(buf, n, offset) => Painted(m, buf, n, offset, paint)
  }

  predicate AllWellFormed(ops: seq<Op>) { forall i :: 0 <= i < |ops| ==> WellFormed(ops[i]) }

  // The reference engine: a run is the composition of its steps.
  ghost function Run<T>(m: Shadow<T>, ops: seq<Op>, paint: Label -> set<T>): Shadow<T>
    requires AllWellFormed(ops)
  {
    if ops == [] then m else Apply(Run(m, ops[..|ops| - 1], paint), ops[|ops| - 1], paint)
  }

  // The engine proper paints a label with itself.
  ghost function Itself(l: Label): set<Label> { {l} }
}
