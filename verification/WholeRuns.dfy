/** The laws of the reference engine, carried over to the engine itself: what a
    fresh engine's ids mean after any run. */
module WholeRuns {
  import opened TagText
  import opened TagTables
  import opened ShadowDirectory
  import opened Cells
  import opened Ops
  import opened RunLaws
  import opened Registers
  import opened StepLaws
  import opened InstrLaws
  import opened Engines

  lemma NothingMarked(l: Label)
    ensures Marked(AllClear<Label>(), l) == AllClear<Mark>()
  {
    forall c ensures Marked(AllClear<Label>(), l)[c] == NoLabels<Mark>(c) {
      MarkedAt(AllClear<Label>(), l, c);
      assert forall x :: x in Marked(AllClear<Label>(), l)[c] ==> x == Tainted;
    }
  }

  /** From a fresh engine, for every sequence of steps: the ids denote the
      reference run's sets; each label is where a one-bit engine for that label
      puts its mark; every label was painted by a step; and the spare row is
      still clear. */
  method RunFresh(ops: seq<Op>) returns (e: Engine)
    requires AllWellFormed(ops)
    ensures fresh(e) && e.Valid()
    ensures e.Live() ==> e.Meaning() == Run(AllClear<Label>(), ops, Itself)
    ensures e.Live() ==> forall l, c :: l in e.Meaning()[c] <==> Tainted in Run(AllClear<Mark>(), ops, Only(l))[c]
    ensures e.Live() ==> forall l, c :: l in e.Meaning()[c] ==> exists k :: 0 <= k < |ops| && Paints(ops[k], l)
    ensures e.Live() ==> forall b: nat :: e.Meaning()[Reg(GRP_NUM, b)] == {}
  {
    hide Run, WellFormed, Engine.Valid, Engine.Meaning, Paints, Only, Marked;
    e := new Engine();
    e.RunAll(ops);
    ghost var w := Run(AllClear<Label>(), ops, Itself);
    forall l, c ensures l in w[c] <==> Tainted in Run(AllClear<Mark>(), ops, Only(l))[c] {
      LabelIndependence(AllClear<Label>(), ops, l, c);
      NothingMarked(l);
    }
    forall l, c | l in w[c] ensures exists k :: 0 <= k < |ops| && Paints(ops[k], l) {
      NoFabricatedTaint(AllClear<Label>(), ops, l, c);
    }
    forall b: nat ensures w[Reg(GRP_NUM, b)] == {} {
      SpareRowStaysClear(AllClear<Label>(), ops, b);
    }
  }

  // The cells that exist: the register file's and the 47-bit space's.
  predicate IsCell(c: Cell) {
    match c
    case Reg(r, b) => r <= GRP_NUM && b < TAGS_PER_GPR
    case Mem(a) => InSpace(a)
  }

  ghost function IdAt(e: Engine, c: Cell): TagId
    requires e.Valid() && IsCell(c)
    reads e, e.dir, e.Footprint()
  {
    match c
    case Reg(r, b) => e.gpr[r, b]
    case Mem(a) => e.dir.view[a]
  }

  /** Ids are canonical in the cells: while the table is live, any two cells, in
      registers or in memory, hold the same id exactly when they hold the same
      labels, and an id is non-zero exactly when its cell is tainted. */
  lemma CellIdsAreCanonical(e: Engine, c: Cell, d: Cell)
    requires e.Valid() && e.Live() && IsCell(c) && IsCell(d)
    ensures IdAt(e, c) == IdAt(e, d) <==> e.Meaning()[c] == e.Meaning()[d]
    ensures IdAt(e, c) != CLEARED <==> e.Meaning()[c] != {}
  {
  }

  // The handler calls of a program, in order.
  function LowerAll(program: seq<Instr>): seq<Op> {
    if program == [] then [] else LowerAll(program[..|program| - 1]) + Lower(program[|program| - 1])
  }

  lemma {:induction false} ProgramIsWellFormed(program: seq<Instr>)
    requires forall i :: 0 <= i < |program| ==> Decoded(program[i])
    ensures AllWellFormed(LowerAll(program))
  {
    hide WellFormed, Lower, Decoded;
    if program != [] {
      ProgramIsWellFormed(program[..|program| - 1]);
      LoweredIsWellFormed(program[|program| - 1]);
    }
  }

  /** A program's instructions are performed in order. */
  lemma ProgramInOrder<T>(m: Shadow<T>, program: seq<Instr>, i: Instr, p: Label -> set<T>)
    requires Decoded(i) && forall k :: 0 <= k < |program| ==> Decoded(program[k])
    ensures AllWellFormed(LowerAll(program)) && AllWellFormed(LowerAll(program + [i]))
    ensures LowerAll([]) == []
    ensures Run(m, LowerAll(program + [i]), p) == After(Run(m, LowerAll(program), p), i, p)
  {
    hide Run, WellFormed, Lower, Decoded;
    ProgramIsWellFormed(program);
    LoweredIsWellFormed(i);
    assert (program + [i])[..|program|] == program;
    RunInOrder(m, LowerAll(program), Lower(i), p);
  }

  /** Any program of decoded instructions can be run from any state, with no
      further demands on its operands. */
  method RunProgram(e: Engine, program: seq<Instr>)
    requires e.Valid() && forall i :: 0 <= i < |program| ==> Decoded(program[i])
    modifies e.gpr, e.tags, e.dir.Repr
    ensures e.Valid() && e.Grows() && AllWellFormed(LowerAll(program))
    ensures e.Live() ==> e.Meaning() == Run(old(e.Meaning()), LowerAll(program), Itself)
  {
    hide Run, WellFormed, LowerAll, Engine.Valid, Engine.Meaning;
    ProgramIsWellFormed(program);
    e.RunAll(LowerAll(program));
  }
}
