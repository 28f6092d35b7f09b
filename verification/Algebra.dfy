/** Consequences of the reference semantics for single instructions and calls,
    stated about the bytes themselves. */
module Algebra {
  import opened TagText
  import opened ShadowDirectory
  import opened Cells
  import opened Ops

  // ------------------------------------------------------------ forward copy

  /** A forward byte-by-byte copy delivers to destination byte i, if it has a
      cell, the source byte i; when the destination starts inside the source, it
      delivers the first dst - src source bytes over and over. */
  lemma ForwardCopy<T>(m: Shadow<T>, dst: Addr, src: Addr, n: nat, i: nat)
    requires i < n && Source(M(src), n) && InSpace(At(M(dst), i).addr)
    ensures Move(m, M(dst), M(src), n)[At(M(dst), i)] ==
            if dst <= src || src + n <= dst then m[Mem(src + i)] else m[Mem(src + i % (dst - src))]
  {
    hide CopyIndex, Lead;
    CopyIndexStep(M(dst), M(src), i);
    LeadOfMemory(dst, src);
    if dst > src {
      CopyIndexIsPeriodic(M(dst), M(src), i);
    }
  }

  lemma LeadOfMemory(dst: Addr, src: Addr)
    ensures Lead(M(dst), M(src)) == if src < dst then dst - src else 0
  {
  }

  lemma CopyIndexIsPeriodic(d: Place, s: Place, i: nat)
    requires Lead(d, s) > 0
    ensures CopyIndex(d, s, i) == i % Lead(d, s)
  {
  }

  // -------------------------------------------------------------- byte order

  lemma ReverseReverse<T>(a: seq<set<T>>)
    ensures Reverse(Reverse(a)) == a
  {
  }

  lemma BytesOfWrite<T>(m: Shadow<T>, p: Place, vals: seq<set<T>>)
    requires Target(p, |vals|) && (p.M? ==> Source(p, |vals|))
    ensures Bytes(Write(m, p, vals), p, |vals|) == vals
  {
  }

  lemma WriteWrite<T>(m: Shadow<T>, p: Place, a: seq<set<T>>, b: seq<set<T>>)
    requires |a| == |b|
    ensures Write(Write(m, p, a), p, b) == Write(m, p, b)
  {
  }

  /** BSWAP twice is the identity. */
  lemma BswapInvolution<T>(m: Shadow<T>, d: Place, n: nat)
    requires d.R? && Target(d, n)
    ensures Flip(Flip(m, d, d, n), d, d, n) == m
  {
  }

  /** A MOVBE load is a plain load followed by BSWAP. */
  lemma MovbeIsMovThenBswap<T>(m: Shadow<T>, d: Place, addr: Addr, n: nat)
    requires d.R? && Target(d, n)
    ensures Flip(m, d, M(addr), n) == Flip(Move(m, d, M(addr), n), d, d, n)
  {
  }

  /** Storing back with MOVBE what MOVBE loaded leaves memory as it was. */
  lemma MovbeRoundTrip<T>(m: Shadow<T>, d: Place, addr: Addr, n: nat)
    requires d.R? && Target(d, n) && Source(M(addr), n)
    ensures Flip(Flip(m, d, M(addr), n), M(addr), d, n) == Flip(m, d, M(addr), n)
  {
    hide Write, Reverse, Bytes;
    var v := Bytes(m, M(addr), n);
    var w := Flip(m, d, M(addr), n);
    BytesOfWrite(m, d, Reverse(v));
    ReverseReverse(v);
    LoadKeepsMemory(m, d, Reverse(v), addr, n);
    WriteBytes(w, M(addr), n);
  }

  lemma LoadKeepsMemory<T>(m: Shadow<T>, d: Place, vals: seq<set<T>>, addr: Addr, n: nat)
    requires d.R?
    ensures Bytes(Write(m, d, vals), M(addr), n) == Bytes(m, M(addr), n)
  {
  }

  // ---------------------------------------------------------------- exchange

  /** After XCHG each operand holds the other's bytes. */
  lemma XchgSwaps<T>(m: Shadow<T>, a: Place, b: Place, n: nat)
    requires Target(a, n) && (a.M? ==> Source(a, n)) && b.R? && Target(b, n) && Aligned(a, b, n)
    ensures Bytes(Swap(m, a, b, n), a, n) == Bytes(m, b, n)
    ensures Bytes(Swap(m, a, b, n), b, n) == Bytes(m, a, n)
  {
    hide Write, Bytes, Aligned, Target;
    var av, bv := Bytes(m, a, n), Bytes(m, b, n);
    BytesOfWrite(m, a, bv);
    BytesOfWrite(Write(m, a, bv), b, av);
    if a != b {
      DisjointBytes(Write(m, a, bv), b, av, a);
    }
  }

  lemma DisjointBytes<T>(m: Shadow<T>, p: Place, vals: seq<set<T>>, q: Place)
    requires p != q && p.R? && Aligned(q, p, |vals|)
    ensures Bytes(Write(m, p, vals), q, |vals|) == Bytes(m, q, |vals|)
  {
  }

  lemma DisjointWrites<T>(m: Shadow<T>, p: Place, ps: seq<set<T>>, q: Place, qs: seq<set<T>>)
    requires p != q && q.R? && |ps| == |qs| && Aligned(p, q, |ps|)
    ensures Write(Write(m, p, ps), q, qs) == Write(Write(m, q, qs), p, ps)
  {
  }

  /** XCHG twice is the identity, and once it permutes the tags of its operands:
      nothing is lost and nothing is duplicated. */
  lemma XchgInvolution<T>(m: Shadow<T>, a: Place, b: Place, n: nat)
    requires Target(a, n) && (a.M? ==> Source(a, n)) && b.R? && Target(b, n) && Aligned(a, b, n)
    ensures Swap(Swap(m, a, b, n), a, b, n) == m
    ensures var w := Swap(m, a, b, n);
            multiset(Bytes(w, a, n) + Bytes(w, b, n)) == multiset(Bytes(m, a, n) + Bytes(m, b, n))
  {
    hide Write, Bytes, Aligned, Target;
    var av, bv := Bytes(m, a, n), Bytes(m, b, n);
    XchgSwaps(m, a, b, n);
    if a == b {
      WriteBytes(m, a, n);
    } else {
      DisjointWrites(m, a, bv, b, av);
      WriteWrite(Write(m, b, av), a, bv, av);
      DisjointWrites(m, a, av, b, av);
      WriteWrite(Write(m, a, av), b, av, bv);
      WriteBytes(m, a, n);
      WriteBytes(m, b, n);
    }
  }

  // ------------------------------------------------------- function summaries

  // RAX is row 10; its low 8 bytes are set by calls.
  predicate RaxByte(c: Cell) { c.Reg? && c.row == 10 && c.byte < 8 }

  // The rows a call clears, all 16 bytes of them: RDI (3), RSI (4), RDX (8), RCX
  // (9), RAX (10) and R8 to R11 (11 to 14).
  predicate CallerSavedByte(c: Cell) {
    c.Reg? && c.byte < 16 && (c.row == 3 || c.row == 4 || 8 <= c.row <= 14)
  }

  /** The clobber, row by row. In particular RBP, RSP, RBX (rows 5 to 7), R12 to
      R15 (15 to 18), every other row and all of memory keep their sets. */
  lemma ClobberedRows<T>(m: Shadow<T>, c: Cell)
    ensures Clobber(m)[c] == if CallerSavedByte(c) then {} else m[c]
    ensures c.Mem? || 5 <= c.row <= 7 || 15 <= c.row ==> Clobber(m)[c] == m[c]
  {
  }

  /** A copying call, cell by cell and from the state before the call: RAX gets
      the tag the first copied byte had, the other caller-saved bytes are
      cleared, the destination is a forward copy, and the rest is unchanged. */
  lemma CopyCallSpec<T>(m: Shadow<T>, dst: Addr, src: Addr, n: nat, c: Cell)
    requires CopyReadable(dst, src, n) && n <= MAX_PROP_BYTES
    ensures CopyCall(m, dst, src, n)[c] ==
            if RaxByte(c) then
              (if dst == 0 || n == 0 then {} else if src == 0 then m[Mem(dst)] else m[Mem(src)])
            else if CallerSavedByte(c) then {}
            else if dst != 0 && src != 0 then Move(m, M(dst), M(src), n)[c]
            else m[c]
  {
  }

  /** The union calls, cell by cell. */
  lemma UnionCallSpec<T>(m: Shadow<T>, v: set<T>, c: Cell)
    ensures SetRax(Clobber(m), v)[c] == if RaxByte(c) then v else if CallerSavedByte(c) then {} else m[c]
  {
  }

  /** The argument registers: RDI, RSI, RDX, RCX, R8, R9. */
  lemma ArgumentRows(i: int)
    ensures ArgRow(i) == if 0 <= i <= 5 then [3, 4, 8, 9, 11, 12][i] else -1
  {
  }

  // The application's byte at p + k, or -1 if it cannot be read.
  function AppByte(site: CallSite, p: Addr, k: nat): int {
    var a := (p + k) % WORD;
    if a in site.app then site.app[a] else -1
  }

  // The four bytes at p + 4k can be read and are not all NUL.
  predicate NonNulWide(site: CallSite, p: Addr, k: nat) {
    var a, b := AppByte(site, p, 4 * k), AppByte(site, p, 4 * k + 1);
    var c, d := AppByte(site, p, 4 * k + 2), AppByte(site, p, 4 * k + 3);
    a >= 0 && b >= 0 && c >= 0 && d >= 0 && a + b + c + d > 0
  }

  /** The length a summary names, by kind: an argument's value, a literal (a
      negative one is huge) or the string at p, never above 262144; no length
      and the return value count as 0. */
  lemma LengthOf(site: CallSite, p: Addr, v: Int32)
    requires |site.args| == 6
    ensures PropLen(NoRef, site, p) == PropLen(RetRef, site, p) == 0
    ensures PropLen(ArgRef(v), site, p) == if 0 <= v <= 5 then AtMost(site.args[v], 262144) else 0
    ensures PropLen(LiteralRef(v), site, p) == if 0 <= v then AtMost(v, 262144) else 262144
    ensures PropLen(StrlenRef, site, 0) == PropLen(WcslenRef, site, 0) == 0
  {
  }

  function AtMost(a: nat, b: nat): nat { if a <= b then a else b }

  /** strlen: the bytes before the length are readable and not NUL, and the one
      at it is not, unless the cap was reached. */
  lemma StringLength(site: CallSite, p: Addr, k: nat)
    requires |site.args| == 6 && p != 0
    ensures var n := PropLen(StrlenRef, site, p);
            && n <= 262144 && (k < n ==> AppByte(site, p, k) > 0) && (n < 262144 ==> AppByte(site, p, n) <= 0)
  {
    hide StrLen;
    var n := PropLen(StrlenRef, site, p);
    assert n == StrLen(site.app, p);
    if k < n {
      assert NonNulAt(site.app, p, k);
      AppByteIs(site, p, k);
    }
    AppByteIs(site, p, n);
  }

  lemma AppByteIs(site: CallSite, p: Addr, k: nat)
    requires k <= WORD
    ensures AppByte(site, p, k) == if Plus(p, k) in site.app then site.app[Plus(p, k)] else -1
  {
  }

  /** wcslen: the same in characters of four bytes. */
  lemma WideStringLength(site: CallSite, p: Addr, k: nat)
    requires |site.args| == 6 && p != 0
    ensures var n := PropLen(WcslenRef, site, p);
            && n % 4 == 0 && n <= 262144
            && (k < n / 4 ==> NonNulWide(site, p, k)) && (n < 262144 ==> !NonNulWide(site, p, n / 4))
  {
    hide WideLen, NonNulWide, NonNulWideAt;
    var chars := WideLen(site.app, p);
    assert PropLen(WcslenRef, site, p) == 4 * chars;
    if k < chars {
      WideIs(site, p, k);
      assert NonNulWideAt(site.app, p, k);
    }
    if chars < MAX_WIDE_CHARS {
      WideIs(site, p, chars);
    }
  }

  lemma WideIs(site: CallSite, p: Addr, k: nat)
    requires 4 * k + 3 <= WORD
    ensures NonNulWide(site, p, k) <==> NonNulWideAt(site.app, p, k)
  {
    hide Plus, AppByte;
    AppByteIs(site, p, 4 * k);
    AppByteIs(site, p, 4 * k + 1);
    AppByteIs(site, p, 4 * k + 2);
    AppByteIs(site, p, 4 * k + 3);
  }

  // Some byte of the buffer that argument idx points to holds x.
  ghost predicate BufferHolds<T(!new)>(m: Shadow<T>, sum: Summary, site: CallSite, idx: int, x: T)
    requires |site.args| == 6
  {
    && 0 <= idx <= 5 && site.args[idx] != 0
    && exists i :: 0 <= i < PropLen(sum.len, site, site.args[idx]) && x in m[At(M(site.args[idx]), i)]
  }

  lemma PointedHolds<T(!new)>(m: Shadow<T>, sum: Summary, site: CallSite, idx: int, x: T)
    requires |site.args| == 6
    ensures x in Pointed(m, sum, site, idx) <==> BufferHolds(m, sum, site, idx, x)
  {
    hide Union, At, PropLen;
    if 0 <= idx <= 5 {
      var p := site.args[idx];
      var vals := Bytes(m, M(p), PropLen(sum.len, site, p));
      UnionElement(vals, x);
      assert forall i :: 0 <= i < |vals| ==> vals[i] == m[At(M(p), i)];
    }
  }

  /** What PROP_PTR2VAL puts into RAX: exactly the elements held by some byte of
      some buffer that a non-null `src` argument points to. */
  lemma {:induction false} PointedElement<T(!new)>(m: Shadow<T>, sum: Summary, site: CallSite, k: nat, x: T)
    requires |site.args| == 6 && k <= |sum.src|
    ensures x in PointedUnion(m, sum, site, k) <==> exists j :: 0 <= j < k && BufferHolds(m, sum, site, sum.src[j], x)
  {
    hide Pointed, BufferHolds;
    if k > 0 {
      PointedElement(m, sum, site, k - 1, x);
      PointedHolds(m, sum, site, sum.src[k - 1], x);
    }
  }

  // Some low byte of argument register idx holds x.
  ghost predicate ArgumentHolds<T(!new)>(m: Shadow<T>, idx: int, x: T) {
    0 <= idx <= 5 && exists i :: 0 <= i < 8 && x in m[Reg(ArgRow(idx), i)]
  }

  lemma ScalarHolds<T(!new)>(m: Shadow<T>, idx: int, x: T)
    ensures x in Scalar(m, ArgRow(idx)) <==> ArgumentHolds(m, idx, x)
  {
    hide Union;
    if 0 <= idx <= 5 {
      var vals := Bytes(m, R(ArgRow(idx), 0), 8);
      UnionElement(vals, x);
      assert forall i :: 0 <= i < |vals| ==> vals[i] == m[Reg(ArgRow(idx), i)];
    }
  }

  /** What PROP_SCALAR puts into RAX: exactly the elements held by some low byte
      of some named argument register. */
  lemma {:induction false} ScalarElement<T(!new)>(m: Shadow<T>, args: seq<int>, k: nat, x: T)
    requires k <= |args|
    ensures x in ScalarUnion(m, args, k) <==> exists j :: 0 <= j < k && ArgumentHolds(m, args[j], x)
  {
    hide Scalar, ArgumentHolds;
    if k > 0 {
      ScalarElement(m, args, k - 1, x);
      ScalarHolds(m, args[k - 1], x);
    }
  }

  /** A summarised call, cell by cell, by the shape of its summary. */
  lemma CallLaw<T(!new)>(m: Shadow<T>, sum: Summary, site: CallSite, p: Label -> set<T>, c: Cell, x: T)
    requires WellFormed(Call(sum, site))
    ensures var w := Apply(m, Call(sum, site), p);
            match sum.shape
            case Invalid => w[c] == m[c]
            case PropPtr2Ptr =>
              if sum.src == [] then w[c] == if CallerSavedByte(c) then {} else m[c]
              else
                var src := site.args[sum.src[0]];
                var dst := if sum.dst.ArgRef? && 0 <= sum.dst.value <= 5 then site.args[sum.dst.value] else 0;
                var n := PropLen(sum.len, site, src);
                && (dst != 0 && src != 0 ==> WellFormed(Xfer(M(dst), M(src), n)))
                && w[c] ==
                   if RaxByte(c) then
                     (if dst == 0 || n == 0 then {} else if src == 0 then m[Mem(dst)] else m[Mem(src)])
                   else if CallerSavedByte(c) then {}
                   else if dst != 0 && src != 0 then Apply(m, Xfer(M(dst), M(src), n), p)[c]
                   else m[c]
            case PropPtr2Val =>
              if RaxByte(c)
              then x in w[c] <==> exists j :: 0 <= j < |sum.src| && BufferHolds(m, sum, site, sum.src[j], x)
              else w[c] == if CallerSavedByte(c) then {} else m[c]
            case PropScalar =>
              if RaxByte(c)
              then x in w[c] <==> exists j :: 0 <= j < |sum.args| && ArgumentHolds(m, sum.args[j], x)
              else w[c] == if CallerSavedByte(c) then {} else m[c]
            case _ => w[c] == if CallerSavedByte(c) then {} else m[c]
  {
    hide CopyCall, PointedUnion, ScalarUnion, BufferHolds, ArgumentHolds, SetRax, Clobber, PropLen;
    ClobberedRows(m, c);
    if sum.shape.PropPtr2Ptr? && sum.src != [] {
      var src := site.args[sum.src[0]];
      CopyCallSpec(m, PropDst(sum.dst, site), src, PropLen(sum.len, site, src), c);
    } else if sum.shape.PropPtr2Val? {
      UnionCallSpec(m, PointedUnion(m, sum, site, |sum.src|), c);
      PointedElement(m, sum, site, |sum.src|, x);
    } else if sum.shape.PropScalar? {
      UnionCallSpec(m, ScalarUnion(m, sum.args, |sum.args|), c);
      ScalarElement(m, sum.args, |sum.args|, x);
    }
  }

  /** The conservative default summary has no length, so it reads no byte: it
      clears RAX instead of tainting it. */
  lemma ConservativeDefaultClears<T>(m: Shadow<T>, site: CallSite)
    requires |site.args| == 6
    ensures var sum := Summary(PropPtr2Val, NoRef, [0, 1, 2, 3, 4, 5], NoRef, []);
            CallReadable(sum, site) && Summarise(m, sum, site) == SetRax(Clobber(m), {})
  {
    hide SetRax, Clobber;
    var sum := Summary(PropPtr2Val, NoRef, [0, 1, 2, 3, 4, 5], NoRef, []);
    NothingPointed(m, sum, site, 6);
  }

  lemma {:induction false} NothingPointed<T>(m: Shadow<T>, sum: Summary, site: CallSite, k: nat)
    requires |site.args| == 6 && k <= |sum.src| && sum.len == NoRef
    ensures PointedUnion(m, sum, site, k) == {}
  {
    if k > 0 {
      NothingPointed(m, sum, site, k - 1);
    }
  }
}
