/** Abstract taint states: every shadow byte holds a set, with no ids, no table
    and no directory. The element type is a parameter, so that the same
    definitions serve label sets, one-bit taint and symbolic provenance. */
module Cells {
  import opened TagText
  import opened ShadowDirectory

  const GRP_NUM: nat := 43
  const TAGS_PER_GPR: nat := 16

  // Rows of the register file.
  const RDI: nat := 3
  const RSI: nat := 4
  const RBP: nat := 5
  const RSP: nat := 6
  const RBX: nat := 7
  const RDX: nat := 8
  const RCX: nat := 9
  const RAX: nat := 10
  const R8: nat := 11
  const R9: nat := 12
  const R10: nat := 13
  const R11: nat := 14
  const R15: nat := 18

  datatype Cell = Reg(row: nat, byte: nat) | Mem(addr: nat)

  // Every cell has a set.
  type Shadow<!T> = m: imap<Cell, set<T>> | forall c :: c in m
    ghost witness AllClear()

  ghost function NoLabels<T>(c: Cell): set<T> { {} }

  ghost function AllClear<T>(): imap<Cell, set<T>> { imap c: Cell :: NoLabels(c) }

  ghost function Put<T>(m: Shadow<T>, c: Cell, v: set<T>): Shadow<T> { m[c := v] }

  // Where an operand's shadow bytes begin: in a register row or in memory.
  datatype Place = R(row: nat, start: nat) | M(base: Addr)

  // The operand's byte i; memory addresses wrap around at 2^64.
  function At(p: Place, i: nat): Cell {
    match p
    case R(row, start) => Reg(row, start + i)
    case M(base) => Mem(Plus(base, i))
  }

  // Cell c is one of the first n bytes of p that can be written; a memory byte
  // beyond the 47-bit space has no cell and a write to it is dropped.
  predicate In(c: Cell, p: Place, n: nat) {
    match (c, p)
    case (Reg(r, b), R(row, start)) => r == row && start <= b < start + n
    case (Mem(a), M(base)) => InSpace(a) && Off(base, a) < n
    case _ => false
  }

  // How far `a` lies after `base`, going round the 64-bit address ring.
  function Off(base: Addr, a: nat): nat {
    if base <= a then a - base else a + WORD - base
  }

  // The index of a cell of p.
  function Idx(c: Cell, p: Place): nat {
    match (c, p)
    case (Reg(_, b), R(_, start)) => if start <= b then b - start else 0
    case (Mem(a), M(base)) => Off(base, a)
    case _ => 0
  }

  // ----------------------------------------------------------- byte vectors

  ghost function Bytes<T>(m: Shadow<T>, p: Place, n: nat): (vals: seq<set<T>>)
    ensures |vals| == n
  {
    seq(n, i requires 0 <= i < n => m[At(p, i)])
  }

  // Overwriting the bytes of p, in order, with the given sets.
  ghost function Write<T>(m: Shadow<T>, p: Place, vals: seq<set<T>>): Shadow<T> {
    imap c: Cell :: if In(c, p, |vals|) then vals[Idx(c, p)] else m[c]
  }

  ghost function Or<T>(a: seq<set<T>>, b: seq<set<T>>): (vals: seq<set<T>>)
    requires |a| == |b|
    ensures |vals| == |a|
  {
    seq(|a|, i requires 0 <= i < |a| => a[i] + b[i])
  }

  ghost function Reverse<T>(a: seq<set<T>>): (vals: seq<set<T>>)
    ensures |vals| == |a|
  {
    seq(|a|, i requires 0 <= i < |a| => a[|a| - 1 - i])
  }

  ghost function Repeat<T>(n: nat, v: set<T>): (vals: seq<set<T>>)
    ensures |vals| == n
  {
    seq(n, _ => v)
  }

  ghost function Union<T>(a: seq<set<T>>): set<T> {
    if a == [] then {} else Union(a[..|a| - 1]) + a[|a| - 1]
  }

  // The source index a forward byte-by-byte copy delivers to index i: when the
  // destination starts k bytes inside the source, the first k source bytes
  // repeat with period k.
  function CopyIndex(d: Place, s: Place, i: nat): nat {
    var k := Lead(d, s);
    if k > 0 then i % k else i
  }

  // How far the destination starts after the source, or 0.
  function Lead(d: Place, s: Place): nat {
    match (d, s)
    case (R(dr, ds), R(sr, ss)) => if dr == sr && ss < ds then ds - ss else 0
    case (M(da), M(sa)) => if sa < da then da - sa else 0
    case _ => 0
  }

  // The sets a forward copy of n bytes delivers.
  ghost function Copied<T>(m: Shadow<T>, d: Place, s: Place, n: nat): (vals: seq<set<T>>)
    ensures |vals| == n
  {
    seq(n, i requires 0 <= i < n => m[At(s, CopyIndex(d, s, i))])
  }

  // ------------------------------------------------------------- conditions

  // All n bytes can be read.
  predicate Source(p: Place, n: nat) {
    match p
    case R(row, start) => row <= GRP_NUM && start + n <= TAGS_PER_GPR
    case M(base) => n == 0 || base + n <= SPACE
  }

  // All n bytes can be written to. The spare row, which stands for a missing
  // register, is never a destination.
  predicate Target(p: Place, n: nat) {
    match p
    case R(row, start) => row < GRP_NUM && start + n <= TAGS_PER_GPR
    case M(base) => n < WORD
  }

  // Two n-byte operands, not both in memory, are the same bytes or share none.
  predicate Aligned(p: Place, q: Place, n: nat) {
    match (p, q)
    case (R(pr, ps), R(qr, qs)) => pr != qr || ps == qs || ps + n <= qs || qs + n <= ps
    case (M(_), M(_)) => false
    case _ => true
  }

  // ----------------------------------------------------------------- lemmas

  lemma WriteNothing<T>(m: Shadow<T>, p: Place)
    ensures Write(m, p, []) == m
  {
  }

  lemma WriteBytes<T>(m: Shadow<T>, p: Place, n: nat)
    requires Target(p, n) && (p.M? ==> Source(p, n))
    ensures Write(m, p, Bytes(m, p, n)) == m
  {
  }

  /** Writing one more byte. */
  lemma WriteStep<T>(m: Shadow<T>, p: Place, vals: seq<set<T>>, i: nat)
    requires i < |vals| && Target(p, |vals|)
    ensures Write(m, p, vals[..i + 1]) ==
            if p.M? && !InSpace(At(p, i).addr) then Write(m, p, vals[..i])
            else Put(Write(m, p, vals[..i]), At(p, i), vals[i])
  {
  }

  /** Two operands written byte by byte in turn. */
  lemma WriteBothStep<T>(m: Shadow<T>, p: Place, q: Place, ps: seq<set<T>>, qs: seq<set<T>>, i: nat)
    requires i < |ps| == |qs| && Target(p, |ps|) && Target(q, |ps|) && q.R? && Aligned(p, q, |ps|)
    requires p.M? ==> InSpace(At(p, i).addr)
    ensures Write(Write(m, p, ps[..i + 1]), q, qs[..i + 1]) ==
            Put(Put(Write(Write(m, p, ps[..i]), q, qs[..i]), At(p, i), ps[i]), At(q, i), qs[i])
  {
    hide Aligned, Target, InSpace;
    AlignedMeans(p, q, |ps|, i);
    WriteStep(m, p, ps, i);
    WriteStep(Write(m, p, ps[..i + 1]), q, qs, i);
  }

  // A byte of p at index i is not among the first i bytes of q.
  lemma AlignedMeans(p: Place, q: Place, n: nat, i: nat)
    requires Aligned(p, q, n) && i < n
    ensures !In(At(p, i), q, i) && !In(At(q, i), p, i)
  {
  }

  /** While d is being overwritten, an aligned operand still reads as before. */
  lemma ReadsAside<T>(m: Shadow<T>, d: Place, vals: seq<set<T>>, s: Place, i: nat)
    requires i < |vals| && Aligned(d, s, |vals|)
    ensures Write(m, d, vals[..i])[At(s, i)] == m[At(s, i)] == Bytes(m, s, |vals|)[i]
  {
  }

  /** While d is being overwritten, its own next byte still reads as before. */
  lemma ReadsAhead<T>(m: Shadow<T>, d: Place, vals: seq<set<T>>, i: nat)
    requires i < |vals| && Target(d, |vals|)
    ensures Write(m, d, vals[..i])[At(d, i)] == m[At(d, i)] == Bytes(m, d, |vals|)[i]
  {
  }

  /** While p and q are being overwritten in turn, an operand aligned with both
      still reads as before. */
  lemma ReadsBeside<T>(m: Shadow<T>, p: Place, q: Place, ps: seq<set<T>>, qs: seq<set<T>>, x: Place, i: nat)
    requires i < |ps| == |qs| && Target(p, |ps|) && Target(q, |ps|)
    requires (x == p || Aligned(p, x, |ps|)) && (x == q || Aligned(q, x, |ps|))
    ensures Write(Write(m, p, ps[..i]), q, qs[..i])[At(x, i)] == m[At(x, i)] == Bytes(m, x, |ps|)[i]
  {
  }

  /** Two adjacent writes to a register row are one. */
  lemma WriteAdjacent<T>(m: Shadow<T>, row: nat, a: seq<set<T>>, b: seq<set<T>>)
    ensures Write(Write(m, R(row, 0), a), R(row, |a|), b) == Write(m, R(row, 0), a + b)
  {
  }

  lemma ReverseAt<T>(a: seq<set<T>>, i: nat)
    requires i < |a|
    ensures Reverse(a)[i] == a[|a| - 1 - i]
  {
  }

  lemma BytesAt<T>(m: Shadow<T>, p: Place, n: nat, i: nat)
    requires i < n
    ensures Bytes(m, p, n)[i] == m[At(p, i)]
  {
  }

  lemma OrAt<T>(a: seq<set<T>>, b: seq<set<T>>, i: nat)
    requires i < |a| == |b|
    ensures Or(a, b)[i] == a[i] + b[i]
  {
  }

  lemma {:induction false} UnionElement<T>(vals: seq<set<T>>, x: T)
    ensures x in Union(vals) <==> exists i :: 0 <= i < |vals| && x in vals[i]
  {
    if vals != [] {
      var k := |vals| - 1;
      UnionElement(vals[..k], x);
      if exists i :: 0 <= i < |vals| && x in vals[i] {
        var i :| 0 <= i < |vals| && x in vals[i];
        assert i < k ==> vals[..k][i] == vals[i];
      }
    }
  }

  lemma UnionStep<T>(vals: seq<set<T>>, i: nat)
    requires i < |vals|
    ensures Union(vals[..i + 1]) == Union(vals[..i]) + vals[i]
  {
    assert vals[..i + 1][..i] == vals[..i];
  }

  lemma {:induction false} UnionFirst<T>(vals: seq<set<T>>)
    requires vals != []
    ensures Union(vals) == vals[0] + Union(vals[1..])
  {
    var k := |vals| - 1;
    if k > 0 {
      UnionFirst(vals[..k]);
      assert vals[..k][1..] == vals[1..][..k - 1];
    }
  }

  // ------------------------------------------------------- overlapping copy

  lemma ModShift(x: nat, d: nat)
    requires d > 0
    ensures (x + d) % d == x % d
  {
    var q := (x + d) / d;
    assert d * q + (x + d) % d == d * (x / d + 1) + x % d;
    MulMono(d, q + 1, x / d + 1);
    MulMono(d, x / d + 2, q);
  }

  lemma CopyIndexStep(d: Place, s: Place, i: nat)
    ensures Lead(d, s) == 0 || i < Lead(d, s) ==> CopyIndex(d, s, i) == i
    ensures 0 < Lead(d, s) <= i ==> CopyIndex(d, s, i) == CopyIndex(d, s, i - Lead(d, s))
  {
    hide Lead;
    if 0 < Lead(d, s) <= i {
      ModShift(i - Lead(d, s), Lead(d, s));
    }
  }

  /** What iteration i of a forward copy reads. */
  lemma CopyReads<T>(m: Shadow<T>, d: Place, s: Place, n: nat, i: nat)
    requires i < n && Target(d, n) && Source(s, n)
    ensures Write(m, d, Copied(m, d, s, n)[..i])[At(s, i)] == Copied(m, d, s, n)[i]
  {
    hide CopyIndex;
    CopyIndexStep(d, s, i);
    var c := At(s, i);
    if In(c, d, i) {
      assert 0 < Lead(d, s) <= i && Idx(c, d) == i - Lead(d, s);
    } else {
      assert Lead(d, s) == 0 || i < Lead(d, s);
    }
  }

  /** Without forward overlap, a forward copy is a simultaneous one. */
  lemma CopyWithoutOverlap<T>(m: Shadow<T>, d: Place, s: Place, n: nat)
    requires Lead(d, s) == 0 || n <= Lead(d, s)
    ensures Copied(m, d, s, n) == Bytes(m, s, n)
  {
    forall i | 0 <= i < n ensures CopyIndex(d, s, i) == i {
      CopyIndexStep(d, s, i);
    }
  }
}
