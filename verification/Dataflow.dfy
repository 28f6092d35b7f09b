/** Structure of taint propagation. Every step moves and unites whole sets, so
    it commutes with replacing each element by a set of elements
    (`ApplyNatural`). The laws about whole runs are instances: labels propagate
    independently, a run is summarised by one symbolic run, runs distribute over
    unions of states, and no label appears from nowhere. */
module Dataflow {
  import opened TagText
  import opened ShadowDirectory
  import opened Cells
  import opened Ops

  // ------------------------------------------------------------ substitution

  ghost function Bind<T(!new), U>(f: T -> set<U>, s: set<T>): set<U> {
    set t, u | t in s && u in f(t) :: u
  }

  ghost function MapShadow<T(!new), U>(f: T -> set<U>, m: Shadow<T>): Shadow<U> {
    imap c: Cell :: Bind(f, m[c])
  }

  ghost function MapSeq<T(!new), U>(f: T -> set<U>, vals: seq<set<T>>): (r: seq<set<U>>)
    ensures |r| == |vals|
  {
    seq(|vals|, i requires 0 <= i < |vals| => Bind(f, vals[i]))
  }

  lemma BindUnion<T(!new), U>(f: T -> set<U>, a: set<T>, b: set<T>)
    ensures Bind(f, a + b) == Bind(f, a) + Bind(f, b)
  {
  }

  lemma MapWrite<T(!new), U>(f: T -> set<U>, m: Shadow<T>, p: Place, vals: seq<set<T>>)
    ensures MapShadow(f, Write(m, p, vals)) == Write(MapShadow(f, m), p, MapSeq(f, vals))
  {
  }

  lemma MapBytes<T(!new), U>(f: T -> set<U>, m: Shadow<T>, p: Place, n: nat)
    ensures MapSeq(f, Bytes(m, p, n)) == Bytes(MapShadow(f, m), p, n)
  {
  }

  lemma MapOr<T(!new), U>(f: T -> set<U>, a: seq<set<T>>, b: seq<set<T>>)
    requires |a| == |b|
    ensures MapSeq(f, Or(a, b)) == Or(MapSeq(f, a), MapSeq(f, b))
  {
    hide Bind;
    forall i | 0 <= i < |a| ensures MapSeq(f, Or(a, b))[i] == Or(MapSeq(f, a), MapSeq(f, b))[i] {
      BindUnion(f, a[i], b[i]);
    }
  }

  lemma MapRepeat<T(!new), U>(f: T -> set<U>, n: nat, v: set<T>)
    ensures MapSeq(f, Repeat(n, v)) == Repeat(n, Bind(f, v))
  {
  }

  lemma {:induction false} MapUnion<T(!new), U>(f: T -> set<U>, vals: seq<set<T>>)
    ensures Bind(f, Union(vals)) == Union(MapSeq(f, vals))
  {
    if vals != [] {
      var k := |vals| - 1;
      MapUnion(f, vals[..k]);
      BindUnion(f, Union(vals[..k]), vals[k]);
      assert MapSeq(f, vals)[..k] == MapSeq(f, vals[..k]);
    }
  }

  // --------------------------------------------------------------- the steps

  lemma MapMove<T(!new), U>(f: T -> set<U>, m: Shadow<T>, d: Place, s: Place, n: nat)
    ensures MapShadow(f, Move(m, d, s, n)) == Move(MapShadow(f, m), d, s, n)
  {
  }

  lemma MapBlank<T(!new), U>(f: T -> set<U>, m: Shadow<T>, d: Place, n: nat)
    ensures MapShadow(f, Blank(m, d, n)) == Blank(MapShadow(f, m), d, n)
  {
    hide MapShadow, MapSeq, Write, Repeat;
    MapWrite(f, m, d, Repeat(n, {}));
    MapRepeat(f, n, {});
    assert Bind(f, {}) == {};
  }

  lemma MapAccumulate<T(!new), U>(f: T -> set<U>, m: Shadow<T>, d: Place, vals: seq<set<T>>)
    ensures MapShadow(f, Accumulate(m, d, vals)) == Accumulate(MapShadow(f, m), d, MapSeq(f, vals))
  {
    hide MapShadow, MapSeq, Write, Or, Bytes;
    MapWrite(f, m, d, Or(Bytes(m, d, |vals|), vals));
    MapOr(f, Bytes(m, d, |vals|), vals);
    MapBytes(f, m, d, |vals|);
  }

  lemma MapMultiply<T(!new), U>(f: T -> set<U>, m: Shadow<T>, vals: seq<set<T>>)
    ensures MapShadow(f, Multiply(m, vals)) == Multiply(MapShadow(f, m), MapSeq(f, vals))
  {
    hide MapShadow, Accumulate, Repeat;
    if |vals| == 1 {
      MapAccumulate(f, m, R(RAX, 0), Repeat(2, vals[0]));
      MapRepeat(f, 2, vals[0]);
    } else {
      MapAccumulate(f, m, R(RDX, 0), vals);
      MapAccumulate(f, Accumulate(m, R(RDX, 0), vals), R(RAX, 0), vals);
    }
  }

  lemma MapSwap<T(!new), U>(f: T -> set<U>, m: Shadow<T>, a: Place, b: Place, n: nat)
    ensures MapShadow(f, Swap(m, a, b, n)) == Swap(MapShadow(f, m), a, b, n)
  {
    hide MapShadow, MapSeq, Write, Bytes;
    MapWrite(f, m, a, Bytes(m, b, n));
    MapWrite(f, Write(m, a, Bytes(m, b, n)), b, Bytes(m, a, n));
    MapBytes(f, m, a, n);
    MapBytes(f, m, b, n);
  }

  lemma MapWiden<T(!new), U>(f: T -> set<U>, m: Shadow<T>, signed: bool, row: nat, s: Place, srcn: nat, dstn: nat)
    ensures MapShadow(f, Widen(m, signed, row, s, srcn, dstn)) == Widen(MapShadow(f, m), signed, row, s, srcn, dstn)
  {
    hide Bind, Write, Repeat, Bytes;
    if !(signed && srcn == 0) {
      var fill := if signed then m[At(s, srcn - 1)] else {};
      var k := if srcn <= dstn then dstn - srcn else 0;
      BindEmpty(f);
      MapWrite(f, m, R(row, 0), Bytes(m, s, srcn) + Repeat(k, fill));
      MapConcat(f, Bytes(m, s, srcn), Repeat(k, fill));
      MapBytes(f, m, s, srcn);
      MapRepeat(f, k, fill);
    }
  }

  lemma BindEmpty<T(!new), U>(f: T -> set<U>)
    ensures Bind(f, {}) == {}
  {
  }

  lemma MapConcat<T(!new), U>(f: T -> set<U>, a: seq<set<T>>, b: seq<set<T>>)
    ensures MapSeq(f, a + b) == MapSeq(f, a) + MapSeq(f, b)
  {
  }

  lemma MapAddressOf<T(!new), U>(f: T -> set<U>, m: Shadow<T>, row: nat, b: Place, x: Place, n: nat)
    ensures MapShadow(f, AddressOf(m, row, b, x, n)) == AddressOf(MapShadow(f, m), row, b, x, n)
  {
    hide MapShadow, MapSeq, Write, Or, Bytes;
    MapWrite(f, m, R(row, 0), Or(Bytes(m, b, n), Bytes(m, x, n)));
    MapOr(f, Bytes(m, b, n), Bytes(m, x, n));
    MapBytes(f, m, b, n);
    MapBytes(f, m, x, n);
  }

  lemma MapFunnel<T(!new), U>(f: T -> set<U>, m: Shadow<T>, d: Place, s: Place, n: nat)
    ensures MapShadow(f, Smear(m, d, n)) == Smear(MapShadow(f, m), d, n)
    ensures MapShadow(f, Funnel(m, d, s, n)) == Funnel(MapShadow(f, m), d, s, n)
  {
    hide Bind, MapShadow, MapSeq, Write, Repeat, Bytes, Union;
    var u, v := Union(Bytes(m, d, n)), Union(Bytes(m, s, n));
    MapWrite(f, m, d, Repeat(n, u));
    MapWrite(f, m, d, Repeat(n, u + v));
    MapRepeat(f, n, u);
    MapRepeat(f, n, u + v);
    BindUnion(f, u, v);
    MapUnion(f, Bytes(m, d, n));
    MapUnion(f, Bytes(m, s, n));
    MapBytes(f, m, d, n);
    MapBytes(f, m, s, n);
  }

  lemma MapFlip<T(!new), U>(f: T -> set<U>, m: Shadow<T>, d: Place, s: Place, n: nat)
    ensures MapShadow(f, Flip(m, d, s, n)) == Flip(MapShadow(f, m), d, s, n)
  {
  }

  lemma MapExchange<T(!new), U>(f: T -> set<U>, m: Shadow<T>, d: Place, s: Place, acc: Place, n: nat)
    ensures MapShadow(f, Exchange(m, d, s, acc, n)) == Exchange(MapShadow(f, m), d, s, acc, n)
    ensures MapShadow(f, Spread(m, d, s, n)) == Spread(MapShadow(f, m), d, s, n)
  {
    hide MapShadow, MapSeq, Write, Or, Bytes;
    var ds := Or(Bytes(m, d, n), Bytes(m, s, n));
    var u := Or(ds, Bytes(m, acc, n));
    MapWrite(f, m, d, ds);
    MapWrite(f, Write(m, d, ds), s, ds);
    MapWrite(f, m, d, u);
    MapWrite(f, Write(m, d, u), acc, u);
    MapOr(f, ds, Bytes(m, acc, n));
    MapOr(f, Bytes(m, d, n), Bytes(m, s, n));
    MapBytes(f, m, d, n);
    MapBytes(f, m, s, n);
    MapBytes(f, m, acc, n);
  }

  lemma MapPainted<T(!new), U>(f: T -> set<U>, m: Shadow<T>, buf: Addr, n: nat, offset: int,
                               p: Label -> set<T>, q: Label -> set<U>)
    requires forall l :: q(l) == Bind(f, p(l))
    ensures MapShadow(f, Painted(m, buf, n, offset, p)) == Painted(MapShadow(f, m), buf, n, offset, q)
  {
  }

  // ------------------------------------------------------------------- calls

  lemma MapClobber<T(!new), U>(f: T -> set<U>, m: Shadow<T>)
    ensures MapShadow(f, Clobber(m)) == Clobber(MapShadow(f, m))
  {
    hide Bind;
    BindEmpty(f);
  }

  lemma MapSetRax<T(!new), U>(f: T -> set<U>, m: Shadow<T>, v: set<T>)
    ensures MapShadow(f, SetRax(Clobber(m), v)) == SetRax(Clobber(MapShadow(f, m)), Bind(f, v))
  {
    hide Bind, MapShadow, MapSeq, Write, Repeat, Clobber;
    MapClobber(f, m);
    MapWrite(f, Clobber(m), R(RAX, 0), Repeat(8, v));
    MapRepeat(f, 8, v);
  }

  lemma MapCopyCall<T(!new), U>(f: T -> set<U>, m: Shadow<T>, dst: Addr, src: Addr, n: nat)
    ensures MapShadow(f, CopyCall(m, dst, src, n)) == CopyCall(MapShadow(f, m), dst, src, n)
  {
    hide Bind, Move, SetRax, Clobber;
    var copied := if dst != 0 && src != 0 then Move(m, M(dst), M(src), n) else m;
    MapMove(f, m, M(dst), M(src), n);
    MapClobber(f, copied);
    MapSetRax(f, copied, copied[Mem(dst)]);
    assert MapShadow(f, copied)[Mem(dst)] == Bind(f, copied[Mem(dst)]);
  }

  lemma {:induction false} MapPointed<T(!new), U>(f: T -> set<U>, m: Shadow<T>, sum: Summary, site: CallSite, k: nat)
    requires |site.args| == 6 && k <= |sum.src|
    ensures Bind(f, PointedUnion(m, sum, site, k)) == PointedUnion(MapShadow(f, m), sum, site, k)
  {
    hide Bind, MapShadow, MapSeq, Bytes, Union, PropLen;
    BindEmpty(f);
    if k > 0 {
      MapPointed(f, m, sum, site, k - 1);
      var idx := sum.src[k - 1];
      if 0 <= idx <= 5 {
        var n := PropLen(sum.len, site, site.args[idx]);
        MapUnion(f, Bytes(m, M(site.args[idx]), n));
        MapBytes(f, m, M(site.args[idx]), n);
      }
      BindUnion(f, PointedUnion(m, sum, site, k - 1), Pointed(m, sum, site, idx));
    }
  }

  lemma {:induction false} MapScalar<T(!new), U>(f: T -> set<U>, m: Shadow<T>, args: seq<int>, k: nat)
    requires k <= |args|
    ensures Bind(f, ScalarUnion(m, args, k)) == ScalarUnion(MapShadow(f, m), args, k)
  {
    hide Bind, MapShadow, MapSeq, Bytes, Union;
    BindEmpty(f);
    if k > 0 {
      MapScalar(f, m, args, k - 1);
      var row := ArgRow(args[k - 1]);
      if row >= 0 {
        MapUnion(f, Bytes(m, R(row, 0), 8));
        MapBytes(f, m, R(row, 0), 8);
      }
      BindUnion(f, ScalarUnion(m, args, k - 1), Scalar(m, row));
    }
  }

  lemma MapSummarise<T(!new), U>(f: T -> set<U>, m: Shadow<T>, sum: Summary, site: CallSite)
    requires |site.args| == 6 && CallReadable(sum, site)
    ensures MapShadow(f, Summarise(m, sum, site)) == Summarise(MapShadow(f, m), sum, site)
  {
    hide Bind, MapShadow, SetRax, Clobber, CopyCall, PropLen;
    MapClobber(f, m);
    match sum.shape {
      case PropPtr2Ptr =>
        if sum.src != [] {
          var src := site.args[sum.src[0]];
          MapCopyCall(f, m, PropDst(sum.dst, site), src, PropLen(sum.len, site, src));
        }
      case PropPtr2Val =>
        MapPointed(f, m, sum, site, |sum.src|);
        MapSetRax(f, m, PointedUnion(m, sum, site, |sum.src|));
      case PropScalar =>
        MapScalar(f, m, sum.args, |sum.args|);
        MapSetRax(f, m, ScalarUnion(m, sum.args, |sum.args|));
      case _ =>
    }
  }

  // ------------------------------------------------------------- naturality

  /** Every step commutes with every substitution of sets for elements. */
  lemma ApplyNatural<T(!new), U>(f: T -> set<U>, m: Shadow<T>, op: Op, p: Label -> set<T>, q: Label -> set<U>)
    requires WellFormed(op) && forall l :: q(l) == Bind(f, p(l))
    ensures MapShadow(f, Apply(m, op, p)) == Apply(MapShadow(f, m), op, q)
  {
    hide Bind, MapShadow, Move, Blank, Multiply, Swap, Widen, AddressOf, Smear, Funnel, Flip;
    hide Exchange, Spread, Summarise, Painted, Accumulate;
    match op {
      case Xfer(d, s, n) => MapMove(f, m, d, s, n);
      case Clear(d, n) => MapBlank(f, m, d, n);
      case ClearRange(addr, n) => MapBlank(f, m, M(addr), n);
      case Mul(s, n) => MapMultiply(f, m, Bytes(m, s, n)); MapBytes(f, m, s, n);
      case Xchg(d, s, n) => MapSwap(f, m, d, s, n);
      case Cmov(_, d, s, n) => MapMove(f, m, d, s, n);
      case Bin(d, s, n) => MapAccumulate(f, m, d, Bytes(m, s, n)); MapBytes(f, m, s, n);
      case Extend(signed, row, s, srcn, dstn) => MapWiden(f, m, signed, row, s, srcn, dstn);
      case Lea(row, b, x, n) => MapAddressOf(f, m, row, b, x, n);
      case ShiftBits(d, n) => MapFunnel(f, m, d, d, n);
      case Shld(d, s, n) => MapFunnel(f, m, d, s, n);
      case Bswap(d, n) => MapFlip(f, m, d, d, n);
      case Movbe(d, s, n) => MapFlip(f, m, d, s, n);
      case Cmpxchg(d, s, acc, n) => MapExchange(f, m, d, s, acc, n);
      case Xadd(d, s, n) => MapExchange(f, m, d, s, s, n);
      case Call(sum, site) => MapSummarise(f, m, sum, site);
      case Paint(buf, n, offset) => MapPainted(f, m, buf, n, offset, p, q);
    }
  }

  /** ... and so does every run. */
  lemma {:induction false} RunNatural<T(!new), U>(f: T -> set<U>, m: Shadow<T>, ops: seq<Op>,
                                                 p: Label -> set<T>, q: Label -> set<U>)
    requires AllWellFormed(ops) && forall l :: q(l) == Bind(f, p(l))
    ensures MapShadow(f, Run(m, ops, p)) == Run(MapShadow(f, m), ops, q)
  {
    hide Bind, MapShadow, Apply, WellFormed;
    if ops != [] {
      var k := |ops| - 1;
      RunNatural(f, m, ops[..k], p, q);
      ApplyNatural(f, Run(m, ops[..k], p), ops[k], p, q);
    }
  }
}
