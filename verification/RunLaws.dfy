/** Laws of whole runs, for every state, every sequence of steps and every
    cell; all of them are instances of naturality. */
module RunLaws {
  import opened TagText
  import opened TagTables
  import opened Cells
  import opened Ops
  import opened Dataflow

  lemma BindSingleton<T(!new), U>(f: T -> set<U>, t: T)
    ensures Bind(f, {t}) == f(t)
  {
  }

  // ------------------------------------------------------ label independence

  // A one-bit taint engine: a cell holds the mark or it does not.
  datatype Mark = Tainted

  ghost function Only(l: Label): Label -> set<Mark> { (x: Label) => if x == l then {Tainted} else {} }

  // The state in which exactly the cells that hold l are marked.
  ghost function Marked(m: Shadow<Label>, l: Label): Shadow<Mark> { MapShadow(Only(l), m) }

  lemma MarkedAt(m: Shadow<Label>, l: Label, c: Cell)
    ensures Tainted in Marked(m, l)[c] <==> l in m[c]
  {
    if l in m[c] {
      assert Tainted in Only(l)(l);
    }
  }

  /** Whether a label reaches a cell does not depend on the other labels: it is
      decided by a one-bit engine that paints this label only. */
  lemma LabelIndependence(m: Shadow<Label>, ops: seq<Op>, l: Label, c: Cell)
    requires AllWellFormed(ops)
    ensures l in Run(m, ops, Itself)[c] <==> Tainted in Run(Marked(m, l), ops, Only(l))[c]
  {
    hide WellFormed, Apply;
    forall x ensures Only(l)(x) == Bind(Only(l), Itself(x)) {
      BindSingleton(Only(l), x);
    }
    RunNatural(Only(l), m, ops, Itself, Only(l));
    MarkedAt(Run(m, ops, Itself), l, c);
  }

  // ------------------------------------------------------------- provenance

  // Where an element of a final cell comes from: a cell of the first state, or
  // a label painted during the run.
  datatype Origin = Initially(cell: Cell) | FromSource(lab: Label)

  ghost function Here(c: Cell): set<Origin> { {Initially(c)} }

  ghost function Symbolic(): Shadow<Origin> { imap c: Cell :: Here(c) }

  ghost function AsSource(l: Label): set<Origin> { {FromSource(l)} }

  // What an origin contributes when the run starts from m.
  ghost function Contribution(m: Shadow<Label>): Origin -> set<Label> {
    (o: Origin) => match o case Initially(c) => m[c] case FromSource(l) => {l}
  }

  // The origins of each final cell; independent of the state the run starts in.
  ghost function Origins(ops: seq<Op>): Shadow<Origin>
    requires AllWellFormed(ops)
  {
    Run(Symbolic(), ops, AsSource)
  }

  /** One symbolic run summarises the steps for every starting state: a final
      cell holds exactly what its origins contribute. */
  lemma Provenance(m: Shadow<Label>, ops: seq<Op>)
    requires AllWellFormed(ops)
    ensures Run(m, ops, Itself) == MapShadow(Contribution(m), Origins(ops))
  {
    hide WellFormed, Apply, Run, Bind;
    var f := Contribution(m);
    forall l ensures Itself(l) == Bind(f, AsSource(l)) {
      BindSingleton(f, FromSource(l));
    }
    forall c ensures MapShadow(f, Symbolic())[c] == m[c] {
      BindSingleton(f, Initially(c));
    }
    assert MapShadow(f, Symbolic()) == m;
    RunNatural(f, Symbolic(), ops, AsSource, Itself);
  }

  // ---------------------------------------------------------------- linearity

  ghost function Both<T>(a: Shadow<T>, b: Shadow<T>): Shadow<T> { imap c: Cell :: a[c] + b[c] }

  /** A run from a pointwise union of states ends in the union of the runs. */
  lemma RunDistributes(a: Shadow<Label>, b: Shadow<Label>, ops: seq<Op>)
    requires AllWellFormed(ops)
    ensures Run(Both(a, b), ops, Itself) == Both(Run(a, ops, Itself), Run(b, ops, Itself))
  {
    hide WellFormed, Apply, Run;
    Provenance(a, ops);
    Provenance(b, ops);
    Provenance(Both(a, b), ops);
    var o := Origins(ops);
    forall c ensures MapShadow(Contribution(Both(a, b)), o)[c] == Both(Run(a, ops, Itself), Run(b, ops, Itself))[c] {
      ContributionOfBoth(a, b, o[c]);
    }
  }

  lemma ContributionOfBoth(a: Shadow<Label>, b: Shadow<Label>, s: set<Origin>)
    ensures Bind(Contribution(Both(a, b)), s) == Bind(Contribution(a), s) + Bind(Contribution(b), s)
  {
    var f, g, h := Contribution(Both(a, b)), Contribution(a), Contribution(b);
    assert forall o :: f(o) == g(o) + h(o);
    forall l | l in Bind(g, s) + Bind(h, s) ensures l in Bind(f, s) {
      if l in Bind(g, s) {
        var o :| o in s && l in g(o);
        assert l in f(o);
      } else {
        var o :| o in s && l in h(o);
        assert l in f(o);
      }
    }
  }

  // ------------------------------------------------------ no fabricated taint

  ghost predicate Paints(op: Op, l: Label) {
    op.Paint? && exists i :: 0 <= i < op.n && l == PaintLabel(op.offset, i)
  }

  function PaintLabel(offset: int, i: nat): Label { (offset + i) % ID_LIMIT }

  // A step paints through its own labels only.
  lemma PaintIsLocal<T>(m: Shadow<T>, op: Op, p: Label -> set<T>, q: Label -> set<T>)
    requires WellFormed(op) && forall l :: Paints(op, l) ==> p(l) == q(l)
    ensures Apply(m, op, p) == Apply(m, op, q)
  {
    if op.Paint? {
      hide Write;
      forall i | 0 <= i < op.n ensures PaintOf(op.n, op.offset, p)[i] == PaintOf(op.n, op.offset, q)[i] {
        assert Paints(op, PaintLabel(op.offset, i));
      }
      assert PaintOf(op.n, op.offset, p) == PaintOf(op.n, op.offset, q);
    }
  }

  lemma MapNothing<T(!new)>(f: T -> set<T>, m: Shadow<T>)
    requires forall x :: f(x) == {}
    ensures MapShadow(f, m) == AllClear<T>()
  {
    forall c ensures MapShadow(f, m)[c] == NoLabels<T>(c) {
      assert forall x :: x in Bind(f, m[c]) ==> false;
    }
  }

  /** The all-clear state is closed under every step that paints nothing. */
  lemma ClearStaysClear<T(!new)>(op: Op, p: Label -> set<T>)
    requires WellFormed(op) && forall l :: Paints(op, l) ==> p(l) == {}
    ensures Apply<T>(AllClear<T>(), op, p) == AllClear<T>()
  {
    hide WellFormed, Apply;
    var nothing: T -> set<T> := _ => {};
    var none: Label -> set<T> := _ => {};
    PaintIsLocal(AllClear<T>(), op, p, none);
    ApplyNatural(nothing, AllClear<T>(), op, none, none);
    MapNothing(nothing, AllClear<T>());
    MapNothing(nothing, Apply(AllClear<T>(), op, none));
  }

  lemma {:induction false} ClearRunStaysClear<T(!new)>(ops: seq<Op>, p: Label -> set<T>)
    requires AllWellFormed(ops)
    requires forall k, l :: 0 <= k < |ops| && Paints(ops[k], l) ==> p(l) == {}
    ensures Run<T>(AllClear<T>(), ops, p) == AllClear<T>()
  {
    hide WellFormed, Apply;
    if ops != [] {
      ClearRunStaysClear(ops[..|ops| - 1], p);
      ClearStaysClear(ops[|ops| - 1], p);
    }
  }

  /** Every label in a final cell was in the first state or was painted by a
      step of the run. */
  lemma NoFabricatedTaint(m: Shadow<Label>, ops: seq<Op>, l: Label, c: Cell)
    requires AllWellFormed(ops) && l in Run(m, ops, Itself)[c]
    ensures (exists c' :: l in m[c']) || (exists k :: 0 <= k < |ops| && Paints(ops[k], l))
  {
    hide WellFormed, Apply, Run, Paints;
    if !(exists c' :: l in m[c']) && !(exists k :: 0 <= k < |ops| && Paints(ops[k], l)) {
      forall c' ensures Marked(m, l)[c'] == {} {
        MarkedAt(m, l, c');
        assert forall x :: x in Marked(m, l)[c'] ==> x == Tainted;
      }
      assert Marked(m, l) == AllClear<Mark>();
      ClearRunStaysClear(ops, Only(l));
      LabelIndependence(m, ops, l, c);
      assert false;
    }
  }

  // -------------------------------------------------------------- spare row

  // No step writes the row that stands for a missing register.
  lemma SpareRowUntouched<T>(m: Shadow<T>, op: Op, p: Label -> set<T>, b: nat)
    requires WellFormed(op)
    ensures Apply(m, op, p)[Reg(GRP_NUM, b)] == m[Reg(GRP_NUM, b)]
  {
    hide CallReadable, PropLen, Bytes, Copied, Or, Reverse, Repeat, Union, PointedUnion, ScalarUnion, PaintOf;
    match op
    case Call(sum, site) => assert GRP_NUM !in CALLER_SAVED;
    case _ =>
  }

  lemma {:induction false} SpareRowStaysClear(m: Shadow<Label>, ops: seq<Op>, b: nat)
    requires AllWellFormed(ops) && m[Reg(GRP_NUM, b)] == {}
    ensures Run(m, ops, Itself)[Reg(GRP_NUM, b)] == {}
  {
    hide WellFormed, Apply;
    if ops != [] {
      SpareRowStaysClear(m, ops[..|ops| - 1], b);
      SpareRowUntouched(Run(m, ops[..|ops| - 1], Itself), ops[|ops| - 1], Itself, b);
    }
  }

  lemma OrEmpty<T>(a: seq<set<T>>, b: seq<set<T>>)
    requires |a| == |b| && forall i :: 0 <= i < |a| ==> a[i] == {}
    ensures Or(a, b) == b && Or(b, a) == b
  {
    forall i | 0 <= i < |a| ensures Or(a, b)[i] == b[i] == Or(b, a)[i] {
      assert {} + b[i] == b[i] == b[i] + {};
    }
  }

  /** After any run from a clear spare row, LEA without a base (or without an
      index) copies exactly the other register's bytes, even when the
      destination is that register. */
  lemma LeaWithoutBase(m: Shadow<Label>, ops: seq<Op>, row: nat, x: Place, n: nat)
    requires AllWellFormed(ops) && forall b: nat :: m[Reg(GRP_NUM, b)] == {}
    requires WellFormed(Lea(row, R(GRP_NUM, 0), x, n)) && WellFormed(Lea(row, x, R(GRP_NUM, 0), n))
    ensures var w := Run(m, ops, Itself);
            Apply(w, Lea(row, R(GRP_NUM, 0), x, n), Itself) == Write(w, R(row, 0), Bytes(w, x, n))
    ensures var w := Run(m, ops, Itself);
            Apply(w, Lea(row, x, R(GRP_NUM, 0), n), Itself) == Write(w, R(row, 0), Bytes(w, x, n))
  {
    hide Write, Run;
    var w := Run(m, ops, Itself);
    forall i | 0 <= i < n ensures Bytes(w, R(GRP_NUM, 0), n)[i] == {} {
      SpareRowStaysClear(m, ops, i);
    }
    OrEmpty(Bytes(w, R(GRP_NUM, 0), n), Bytes(w, x, n));
  }
}
