/** Source painting: the read hooks paint each byte read from a tracked
    descriptor with its file offset and clear the buffer of any other read. The
    traces below interleave system calls with propagation steps. */
module Tracers {
  import opened TagText
  import opened TagTables
  import opened ShadowDirectory
  import opened Cells
  import opened Ops
  import opened StepLaws
  import opened RunLaws
  import opened Descriptors
  import opened Engines

  // The byte count a hook uses is a 32-bit number.
  function Count(ret: int): nat { ret % ID_LIMIT }

  // The steps the hooks perform for an event; `pos` is what lseek reports.
  function OpsOf(fdset: set<int>, e: Event, pos: int): seq<Op> {
    match e
    case Read(fd, buf, ret) =>
      if ret <= 0 then []
      else if fd in fdset then [Paint(buf, Count(ret), pos - Count(ret))]
      else [Clear(M(buf), Count(ret))]
    case Pread(fd, buf, ret, offset) =>
      if ret < 0 then []
      else if fd in fdset then [Paint(buf, Count(ret), offset)]
      else [Clear(M(buf), Count(ret))]
    case Munmap(addr, len, ret) => if ret < 0 then [] else [Clear(M(addr), len)]
    case Propagate(op) => [op]
    case _ => []
  }

  // The bytes a hook reports as painted.
  function PaintedBytes(fdset: set<int>, e: Event): nat {
    match e
    case Read(fd, _, ret) => if ret > 0 && fd in fdset then Count(ret) else 0
    case Pread(fd, _, ret, _) => if ret >= 0 && fd in fdset then Count(ret) else 0
    case _ => 0
  }

  function SourceEvents(fdset: set<int>, e: Event): nat {
    match e
    case Read(fd, _, ret) => if ret > 0 && fd in fdset then 1 else 0
    case Pread(fd, _, ret, _) => if ret >= 0 && fd in fdset then 1 else 0
    case _ => 0
  }

  // The descriptor whose cursor a hook asks for.
  function Position(k: Kernel, e: Event): int { if e.Read? then Tell(k, e.fd) else 0 }

  // The steps event k of a trace induces.
  function EventOps(events: seq<Event>, k: nat): seq<Op>
    requires k < |events|
  {
    OpsOf(TrackedAfter(events[..k]), events[k], Position(KernelAfter(events[..k + 1]), events[k]))
  }

  function TraceOps(events: seq<Event>): seq<Op> {
    if events == [] then [] else TraceOps(events[..|events| - 1]) + EventOps(events, |events| - 1)
  }

  function TraceBytes(events: seq<Event>): nat {
    if events == [] then 0
    else
      var init := events[..|events| - 1];
      TraceBytes(init) + PaintedBytes(TrackedAfter(init), events[|events| - 1])
  }

  lemma RunOneMore(m: Labels, ops: seq<Op>, more: seq<Op>)
    requires |more| <= 1 && AllWellFormed(ops) && AllWellFormed(more)
    ensures AllWellFormed(ops + more)
    ensures Run(m, ops + more, Itself) ==
            if more == [] then Run(m, ops, Itself) else Apply(Run(m, ops, Itself), more[0], Itself)
  {
    hide Apply, WellFormed;
    if more == [] {
      assert ops + more == ops;
    } else {
      assert (ops + more)[..|ops|] == ops && (ops + more)[|ops|] == more[0];
    }
  }

  class Tracer {
    const engine: Engine
    var fdset: set<int>
    var flag: int
    var srcEvents: nat
    var srcBytes: nat

    ghost predicate Valid()
      reads this, engine, engine.dir, engine.Footprint()
    {
      this !in engine.Footprint() && engine.Valid()
    }

    constructor ()
      ensures Valid() && fresh(engine) && fresh(engine.Footprint())
      ensures fdset == {} && flag == 0 && srcEvents == 0 && srcBytes == 0
      ensures engine.Live() && engine.Meaning() == AllClear<Label>()
    {
      engine := new Engine();
      fdset, flag, srcEvents, srcBytes := {}, 0, 0, 0;
    }

    method PostOpen(ret: int, matching: bool, errorMatches: bool)
      requires Valid()
      modifies this`fdset, this`flag
      ensures Valid() && fdset == Track(old(fdset), Open(ret, matching, errorMatches))
      ensures fdset == old(fdset) + if (if ret >= 0 then matching else errorMatches) then {ret} else {}
      ensures flag == if (if ret >= 0 then matching else errorMatches) then 1 else old(flag)
    {
      var tracked := if ret >= 0 then matching else errorMatches;
      if tracked {
        fdset := fdset + {ret};
        flag := 1;
      }
    }

    method PostDup(src: int, ret: int)
      requires Valid()
      modifies this`fdset
      ensures Valid() && fdset == Track(old(fdset), Dup(src, ret))
      ensures fdset == old(fdset) + if src in old(fdset) && ret != -1 then {ret} else {}
    {
      if src in fdset && ret != -1 {
        fdset := fdset + {ret};
      }
    }

    method PostDup2(src: int, dst: int, ret: int)
      requires Valid()
      modifies this`fdset
      ensures Valid() && fdset == Track(old(fdset), Dup2(src, dst, ret))
      ensures fdset == old(fdset) + if src in old(fdset) then {dst} else {}
    {
      if src in fdset {
        fdset := fdset + {dst};
      }
    }

    method PostClose(fd: int, ret: int, ghost released: bool)
      requires Valid()
      modifies this`fdset
      ensures Valid() && fdset == Track(old(fdset), Close(fd, ret, released))
      ensures fdset == old(fdset) - if ret < 0 then {} else {fd}
    {
      if ret < 0 {
        return;
      }
      fdset := fdset - {fd};
    }

    method PostRead(fd: int, buf: Addr, ret: int, pos: int)
      requires Valid() && AllWellFormed(OpsOf(fdset, Read(fd, buf, ret), pos))
      modifies this`srcEvents, this`srcBytes, engine.tags, engine.dir.Repr
      ensures Valid() && engine.Grows()
      ensures Performed(old(engine.Meaning()), OpsOf(fdset, Read(fd, buf, ret), pos))
      ensures srcBytes == old(srcBytes) + PaintedBytes(fdset, Read(fd, buf, ret))
      ensures srcEvents == old(srcEvents) + SourceEvents(fdset, Read(fd, buf, ret))
    {
      hide Engine.Valid, Engine.Meaning, Blank, Painted;
      if ret <= 0 {
        return;
      }
      var n := Count(ret);
      assert WellFormed(OpsOf(fdset, Read(fd, buf, ret), pos)[0]);
      if fd in fdset {
        srcEvents, srcBytes := srcEvents + 1, srcBytes + n;
        engine.PaintBytes(buf, n, pos - n);
      } else {
        engine.ClearBytes(buf, n);
      }
    }

    method PostPread64(fd: int, buf: Addr, ret: int, offset: nat)
      requires Valid() && AllWellFormed(OpsOf(fdset, Pread(fd, buf, ret, offset), 0))
      modifies this`srcEvents, this`srcBytes, engine.tags, engine.dir.Repr
      ensures Valid() && engine.Grows()
      ensures Performed(old(engine.Meaning()), OpsOf(fdset, Pread(fd, buf, ret, offset), 0))
      ensures srcBytes == old(srcBytes) + PaintedBytes(fdset, Pread(fd, buf, ret, offset))
      ensures srcEvents == old(srcEvents) + SourceEvents(fdset, Pread(fd, buf, ret, offset))
    {
      hide Engine.Valid, Engine.Meaning, Blank, Painted;
      if ret < 0 {
        return;
      }
      var n := Count(ret);
      assert WellFormed(OpsOf(fdset, Pread(fd, buf, ret, offset), 0)[0]);
      if fd in fdset {
        srcEvents, srcBytes := srcEvents + 1, srcBytes + n;
        engine.PaintBytes(buf, n, offset);
      } else {
        engine.ClearBytes(buf, n);
      }
    }

    method PostMunmap(addr: Addr, len: nat, ret: int)
      requires Valid() && AllWellFormed(OpsOf(fdset, Munmap(addr, len, ret), 0))
      modifies engine.dir.Repr
      ensures Valid() && engine.Grows()
      ensures Performed(old(engine.Meaning()), OpsOf(fdset, Munmap(addr, len, ret), 0))
    {
      hide Engine.Valid, Engine.Meaning, Blank;
      if ret < 0 {
        return;
      }
      assert WellFormed(OpsOf(fdset, Munmap(addr, len, ret), 0)[0]);
      engine.ClearBytes(addr, len);
    }

    // The engine now holds what the (at most one) step makes of the state m.
    ghost predicate Performed(m: Labels, ops: seq<Op>)
      requires Valid() && AllWellFormed(ops) && |ops| <= 1
      reads this, engine, engine.dir, engine.Footprint()
    {
      engine.Live() ==> engine.Meaning() == if ops == [] then m else Apply(m, ops[0], Itself)
    }

    // The hook an event triggers; the kernel has already performed the call.
    method Handle(e: Event, pos: int)
      requires Valid() && AllWellFormed(OpsOf(fdset, e, pos))
      modifies this, engine.gpr, engine.tags, engine.dir.Repr
      ensures Valid() && engine.Grows()
      ensures fdset == Track(old(fdset), e)
      ensures Performed(old(engine.Meaning()), OpsOf(old(fdset), e, pos))
      ensures srcBytes == old(srcBytes) + PaintedBytes(old(fdset), e)
    {
      hide Engine.Valid, Engine.Meaning, Apply, Run;
      match e {
        case Open(ret, matching, errorMatches) => PostOpen(ret, matching, errorMatches);
        case Dup(src, ret) => PostDup(src, ret);
        case Dup2(src, dst, ret) => PostDup2(src, dst, ret);
        case Close(fd, ret, released) => PostClose(fd, ret, released);
        case Read(fd, buf, ret) => PostRead(fd, buf, ret, pos);
        case Pread(fd, buf, ret, offset) => PostPread64(fd, buf, ret, offset);
        case Lseek(_, _) =>
        case Munmap(addr, len, ret) => PostMunmap(addr, len, ret);
        case Propagate(op) =>
          assert WellFormed(OpsOf(fdset, e, pos)[0]);
          engine.Exec(op);
      }
    }
  }

  ghost predicate TraceOk(events: seq<Event>) {
    forall k :: 0 <= k < |events| ==> AllWellFormed(EventOps(events, k))
  }

  lemma EventOpsOfPrefix(events: seq<Event>, n: nat, k: nat)
    requires k < n <= |events|
    ensures EventOps(events[..n], k) == EventOps(events, k)
  {
    assert events[..n][..k] == events[..k] && events[..n][..k + 1] == events[..k + 1];
  }

  lemma {:induction false} TraceIsWellFormed(events: seq<Event>)
    requires TraceOk(events)
    ensures AllWellFormed(TraceOps(events))
  {
    hide WellFormed, EventOps;
    if events != [] {
      var n := |events| - 1;
      forall k | 0 <= k < n ensures AllWellFormed(EventOps(events[..n], k)) {
        EventOpsOfPrefix(events, n, k);
      }
      TraceIsWellFormed(events[..n]);
    }
  }

  /** A whole trace, against the kernel's descriptor table and cursors: the
      shadow state is the reference run of the steps the trace induces, the
      tracked descriptors are those of the pure model, and the byte counter
      counts exactly the painted bytes. */
  method RunTrace(events: seq<Event>) returns (t: Tracer)
    requires TraceOk(events)
    ensures fresh(t) && t.Valid() && AllWellFormed(TraceOps(events))
    ensures t.fdset == TrackedAfter(events) && t.srcBytes == TraceBytes(events)
    ensures t.engine.Live() ==> t.engine.Meaning() == Run(AllClear<Label>(), TraceOps(events), Itself)
  {
    t := new Tracer();
    var kernel := EMPTY;
    for k := 0 to |events|
      invariant fresh(t) && fresh(t.engine) && fresh(t.engine.Footprint())
      invariant t.Valid() && InSync(t, kernel, events[..k])
    {
      hide Tracer.Valid, InSync, KernelAfter, TrackedAfter, TraceOps, TraceBytes, TraceOk;
      kernel := Advance(t, kernel, events, k);
    }
    assert events[..|events|] == events;
  }

  // The tracer and the kernel are where the events so far lead.
  ghost predicate InSync(t: Tracer, kernel: Kernel, events: seq<Event>)
    requires t.Valid()
    reads t, t.engine, t.engine.dir, t.engine.Footprint()
  {
    && kernel == KernelAfter(events)
    && t.fdset == TrackedAfter(events) && t.srcBytes == TraceBytes(events)
    && AllWellFormed(TraceOps(events))
    && (t.engine.Live() ==> t.engine.Meaning() == Run(AllClear<Label>(), TraceOps(events), Itself))
  }

  // The kernel performs event k, then the hook runs.
  method Advance(t: Tracer, kernel: Kernel, events: seq<Event>, k: nat) returns (kernel': Kernel)
    requires TraceOk(events) && k < |events| && t.Valid() && InSync(t, kernel, events[..k])
    modifies t, t.engine.gpr, t.engine.tags, t.engine.dir.Repr
    ensures t.Valid() && t.engine.Grows() && InSync(t, kernel', events[..k + 1])
  {
    hide Tracer.Valid, Engine.Valid, Engine.Meaning, Apply, Run, WellFormed, OpsOf, Position;
    hide PaintedBytes, Next, Track, EventOps, KernelAfter, TrackedAfter, TraceOps, TraceBytes, TraceOk;
    TraceStep(events, k);
    kernel' := Next(kernel, events[k]);
    var pos := Position(kernel', events[k]);
    RunOneMore(AllClear<Label>(), TraceOps(events[..k]), OpsOf(t.fdset, events[k], pos));
    t.Handle(events[k], pos);
  }

  lemma TraceStep(events: seq<Event>, k: nat)
    requires k < |events| && TraceOk(events)
    ensures KernelAfter(events[..k + 1]) == Next(KernelAfter(events[..k]), events[k])
    ensures TrackedAfter(events[..k + 1]) == Track(TrackedAfter(events[..k]), events[k])
    ensures TraceBytes(events[..k + 1]) ==
            TraceBytes(events[..k]) + PaintedBytes(TrackedAfter(events[..k]), events[k])
    ensures var pos := Position(KernelAfter(events[..k + 1]), events[k]);
            var more := OpsOf(TrackedAfter(events[..k]), events[k], pos);
            && |more| <= 1 && AllWellFormed(more)
            && TraceOps(events[..k + 1]) == TraceOps(events[..k]) + more
  {
    hide WellFormed, Next, Track, Position, PaintedBytes;
    assert events[..k + 1][..k] == events[..k];
    EventOpsOfPrefix(events, k + 1, k);
    assert AllWellFormed(EventOps(events, k));
  }

  // -------------------------------------------------------- what events mean

  /** What a hook does to the shadow state, cell by cell. A read of n bytes (n
      cut to 32 bits) from a tracked descriptor leaves the offsets that end at
      the cursor; one from any other descriptor, and munmap, clear. */
  lemma EventLaw(m: Labels, fdset: set<int>, e: Event, pos: int, c: Cell)
    requires AllWellFormed(OpsOf(fdset, e, pos))
    ensures var w := Run(m, OpsOf(fdset, e, pos), Itself);
            match e
            case Read(fd, buf, ret) =>
              var n := ret % 0x1_0000_0000;
              if ret <= 0 then w == m
              else if fd in fdset then
                w[c] == if c.Mem? && buf <= c.addr < buf + n then {(pos - n + (c.addr - buf)) % 0x1_0000_0000} else m[c]
              else w[c] == if In(c, M(buf), n) then {} else m[c]
            case Pread(fd, buf, ret, offset) =>
              var n := ret % 0x1_0000_0000;
              if ret < 0 then w == m
              else if fd in fdset then
                w[c] == if c.Mem? && buf <= c.addr < buf + n then {(offset + (c.addr - buf)) % 0x1_0000_0000} else m[c]
              else w[c] == if In(c, M(buf), n) then {} else m[c]
            case Munmap(addr, len, ret) => w[c] == if ret >= 0 && In(c, M(addr), len) then {} else m[c]
            case Propagate(_) => w == Apply(m, e.op, Itself)
            case _ => w == m
  {
    hide Apply, Run, WellFormed;
    var ops := OpsOf(fdset, e, pos);
    if ops == [] {
      NothingRun(m);
    } else {
      assert ops == [ops[0]];
      RunShort(m, ops[0], ops[0], Itself);
      if ops[0].Paint? {
        PaintLaw(m, ops[0].buf, ops[0].n, ops[0].offset, Itself, c);
      } else if ops[0].Clear? {
        ClearLaw(m, ops[0].d, ops[0].n, Itself, c);
      }
    }
  }

  lemma NothingRun(m: Labels)
    ensures Run(m, [], Itself) == m
  {
  }

  /** A trace's events take effect in order. */
  lemma TraceInOrder(m: Labels, events: seq<Event>)
    requires TraceOk(events) && events != []
    ensures var n := |events| - 1;
            var ops := OpsOf(TrackedAfter(events[..n]), events[n], Position(KernelAfter(events), events[n]));
            && AllWellFormed(TraceOps(events)) && AllWellFormed(TraceOps(events[..n])) && AllWellFormed(ops)
            && Run(m, TraceOps(events), Itself) == Run(Run(m, TraceOps(events[..n]), Itself), ops, Itself)
  {
    hide Run, WellFormed, OpsOf, Position, KernelAfter, TrackedAfter;
    var n := |events| - 1;
    PrefixIsWellFormed(events);
    TraceIsWellFormed(events);
    assert events[..n + 1] == events;
    RunInOrder(m, TraceOps(events[..n]), EventOps(events, n), Itself);
  }

  // The number of cells painted by a sequence of steps, each step on its own.
  function PaintTotal(ops: seq<Op>): nat {
    if ops == [] then 0
    else PaintTotal(ops[..|ops| - 1]) + PaintedCells(ops[|ops| - 1])
  }

  function PaintedCells(op: Op): nat { if op.Paint? then |Addresses(op.buf, op.n)| else 0 }

  predicate Covered(buf: nat, n: nat, a: nat) { buf <= a < buf + n }

  function Addresses(buf: nat, n: nat): set<nat> { set a | buf <= a < buf + n && Covered(buf, n, a) }

  lemma {:induction false} AddressCount(buf: nat, n: nat)
    ensures |Addresses(buf, n)| == n
  {
    if n > 0 {
      AddressCount(buf, n - 1);
      assert Addresses(buf, n) == Addresses(buf, n - 1) + {buf + (n - 1)};
    }
  }

  /** The counters: a hook counts one event and n bytes exactly when it paints n
      cells. */
  lemma CountersFollow(fdset: set<int>, e: Event, pos: int)
    requires !e.Propagate?
    ensures PaintedBytes(fdset, e) == PaintTotal(OpsOf(fdset, e, pos))
    ensures var ops := OpsOf(fdset, e, pos); SourceEvents(fdset, e) == if ops != [] && ops[0].Paint? then 1 else 0
  {
    var ops := OpsOf(fdset, e, pos);
    if ops != [] {
      assert ops == [ops[0]] && ops[..0] == [];
      if ops[0].Paint? {
        AddressCount(ops[0].buf, ops[0].n);
      }
    }
  }

  /** Over a whole trace whose propagation steps do not paint, the byte counter
      is the number of cells painted. */
  lemma {:induction false} BytesArePainted(events: seq<Event>)
    requires forall k :: 0 <= k < |events| && events[k].Propagate? ==> !events[k].op.Paint?
    ensures TraceBytes(events) == PaintTotal(TraceOps(events))
  {
    hide OpsOf, Position, PaintedBytes, PaintedCells;
    if events != [] {
      var n := |events| - 1;
      var ops := EventOps(events, n);
      BytesArePainted(events[..n]);
      LastOps(events);
      TotalOfConcat(TraceOps(events[..n]), ops);
    }
  }

  lemma LastOps(events: seq<Event>)
    requires events != [] && (events[|events| - 1].Propagate? ==> !events[|events| - 1].op.Paint?)
    ensures var n := |events| - 1;
            PaintedBytes(TrackedAfter(events[..n]), events[n]) == PaintTotal(EventOps(events, n))
  {
    var n := |events| - 1;
    if events[n].Propagate? {
      assert EventOps(events, n) == [events[n].op] && [events[n].op][..0] == [];
    } else {
      CountersFollow(TrackedAfter(events[..n]), events[n], Position(KernelAfter(events[..n + 1]), events[n]));
    }
  }

  lemma {:induction false} TotalOfConcat(a: seq<Op>, b: seq<Op>)
    ensures PaintTotal(a + b) == PaintTotal(a) + PaintTotal(b)
  {
    hide PaintedCells;
    if b == [] {
      assert a + b == a;
    } else {
      TotalOfConcat(a, b[..|b| - 1]);
      assert (a + b)[..|a + b| - 1] == a + b[..|b| - 1];
    }
  }

  // ------------------------------------------------------- what traces mean

  // The file offset at which a read starts.
  function StartOf(k: Kernel, e: Event): int {
    match e
    case Read(fd, _, _) => Tell(k, fd)
    case Pread(_, _, _, offset) => offset
    case _ => 0
  }

  predicate IsRead(e: Event) { (e.Read? && 0 < e.ret < ID_LIMIT) || (e.Pread? && 0 <= e.ret < ID_LIMIT) }

  // The cursor has moved past the bytes, so going back by their count gives the
  // offset at which the read started.
  lemma ReadStep(k: Kernel, fdset: set<int>, e: Event)
    requires IsRead(e) && KernelOk(k) && Possible(k, e)
    ensures var ops := OpsOf(fdset, e, Position(Next(k, e), e));
            ops == if e.fd in fdset then [Paint(e.buf, e.ret, StartOf(k, e))] else [Clear(M(e.buf), e.ret)]
  {
  }

  lemma BufferByte(m: Labels, buf: Addr, n: nat, offset: int, i: nat)
    requires i < n && Source(M(buf), n)
    ensures Painted(m, buf, n, offset, Itself)[Mem(buf + i)] == {(offset + i) % ID_LIMIT}
    ensures Blank(m, M(buf), n)[Mem(buf + i)] == {}
  {
    assert PaintOf(n, offset, Itself)[i] == Itself((offset + i) % ID_LIMIT);
  }

  lemma OtherByte(m: Labels, buf: Addr, n: nat, offset: int, c: Cell)
    requires Source(M(buf), n) && !(c.Mem? && buf <= c.addr < buf + n)
    ensures Painted(m, buf, n, offset, Itself)[c] == m[c] == Blank(m, M(buf), n)[c]
  {
  }

  /** Painting is offset-exact. After any trace that ends in a read, byte i of
      the buffer carries exactly the offset start + i (cut to 32 bits) if the
      descriptor is tracked, which every live descriptor of the source file is;
      otherwise the buffer is clear. No other cell changes. */
  lemma ReadIsOffsetExact(events: seq<Event>, i: nat, c: Cell)
    requires PossibleRun(events) && TraceOk(events) && events != []
    requires var e := events[|events| - 1]; IsRead(e) && i < e.ret && Source(M(e.buf), e.ret)
    ensures AllWellFormed(TraceOps(events)) && AllWellFormed(TraceOps(events[..|events| - 1]))
    ensures var e, init := events[|events| - 1], events[..|events| - 1];
            var before := Run(AllClear<Label>(), TraceOps(init), Itself);
            var after := Run(AllClear<Label>(), TraceOps(events), Itself);
            && after[Mem(e.buf + i)] ==
               (if e.fd in TrackedAfter(init) then {(StartOf(KernelAfter(init), e) + i) % ID_LIMIT} else {})
            && (Matching(KernelAfter(init), e.fd) ==> e.fd in TrackedAfter(init))
            && (!(c.Mem? && e.buf <= c.addr < e.buf + e.ret) ==> after[c] == before[c])
  {
    hide WellFormed, Run, Painted, Blank, Possible, KernelOk, Next, Track, OpsOf, Position, StartOf;
    hide TraceOk, PossibleRun, TraceOps, KernelAfter, TrackedAfter, Matching;
    var e, init := events[|events| - 1], events[..|events| - 1];
    var start := StartOf(KernelAfter(init), e);
    LastReadStep(events);
    var before := Run(AllClear<Label>(), TraceOps(init), Itself);
    BufferByte(before, e.buf, e.ret, start, i);
    if !(c.Mem? && e.buf <= c.addr < e.buf + e.ret) {
      OtherByte(before, e.buf, e.ret, start, c);
    }
  }

  lemma LastReadStep(events: seq<Event>)
    requires PossibleRun(events) && TraceOk(events) && events != [] && IsRead(events[|events| - 1])
    ensures AllWellFormed(TraceOps(events)) && AllWellFormed(TraceOps(events[..|events| - 1]))
    ensures var e, init := events[|events| - 1], events[..|events| - 1];
            var before := Run(AllClear<Label>(), TraceOps(init), Itself);
            && Run(AllClear<Label>(), TraceOps(events), Itself) ==
               (if e.fd in TrackedAfter(init) then Painted(before, e.buf, e.ret, StartOf(KernelAfter(init), e), Itself)
                else Blank(before, M(e.buf), e.ret))
            && (Matching(KernelAfter(init), e.fd) ==> e.fd in TrackedAfter(init))
  {
    hide WellFormed, Run, Painted, Blank, Possible, KernelOk, Next, Track, OpsOf, Position, StartOf, Covers, Matching;
    hide Apply, TraceOk, TraceOps, KernelAfter, TrackedAfter;
    var n := |events| - 1;
    var e, init := events[n], events[..n];
    assert events[..n + 1] == events;
    PrefixIsWellFormed(events);
    PrefixRun(events);
    TrackingIsSound(init);
    assert Possible(KernelAfter(init), e);
    CoveredIsTracked(TrackedAfter(init), KernelAfter(init), e.fd);
    TraceStep(events, n);
    ReadStep(KernelAfter(init), TrackedAfter(init), e);
    var more := OpsOf(TrackedAfter(init), e, Position(KernelAfter(events), e));
    RunOneMore(AllClear<Label>(), TraceOps(init), more);
    ApplySource(Run(AllClear<Label>(), TraceOps(init), Itself), more[0]);
  }

  lemma ApplySource(m: Labels, op: Op)
    requires WellFormed(op)
    ensures op.Paint? ==> Apply(m, op, Itself) == Painted(m, op.buf, op.n, op.offset, Itself)
    ensures op.Clear? ==> Apply(m, op, Itself) == Blank(m, op.d, op.n)
  {
  }

  lemma CoveredIsTracked(fdset: set<int>, k: Kernel, fd: int)
    requires Covers(fdset, k)
    ensures Matching(k, fd) ==> fd in fdset
  {
  }

  lemma PrefixIsWellFormed(events: seq<Event>)
    requires TraceOk(events) && events != []
    ensures TraceOk(events[..|events| - 1]) && AllWellFormed(TraceOps(events[..|events| - 1]))
    ensures AllWellFormed(EventOps(events, |events| - 1))
  {
    hide WellFormed, EventOps;
    var n := |events| - 1;
    forall k | 0 <= k < n ensures AllWellFormed(EventOps(events[..n], k)) {
      EventOpsOfPrefix(events, n, k);
    }
    TraceIsWellFormed(events[..n]);
  }

  // Label l is the offset, cut to 32 bits, of a byte that event e read from a
  // tracked descriptor.
  ghost predicate ReadsOffset(events: seq<Event>, k: nat, l: Label)
    requires k < |events|
  {
    var fdset, kernel := TrackedAfter(events[..k]), KernelAfter(events[..k]);
    && IsRead(events[k]) && events[k].fd in fdset
    && exists i :: 0 <= i < events[k].ret && l == PaintLabel(StartOf(kernel, events[k]), i)
  }

  // Reads move fewer than 2^32 bytes, and propagation does not paint.
  predicate Ordinary(e: Event) {
    && (e.Read? || e.Pread? ==> e.ret < ID_LIMIT)
    && (e.Propagate? ==> !e.op.Paint?)
  }

  lemma PaintingEvent(events: seq<Event>, k: nat, l: Label)
    requires k < |events| && PossibleRun(events) && Ordinary(events[k])
    requires EventOps(events, k) != [] && Paints(EventOps(events, k)[0], l)
    ensures ReadsOffset(events, k, l)
  {
    var init := events[..k];
    assert PossibleRun(init) by {
      assert forall i :: 0 <= i < k ==> init[..i] == events[..i] && init[i] == events[i];
    }
    TrackingIsSound(init);
    assert events[..k + 1][..k] == init;
    var e := events[k];
    assert IsRead(e);
    ReadStep(KernelAfter(init), TrackedAfter(init), e);
  }

  lemma {:induction false} PaintComesFromEvent(events: seq<Event>, j: nat)
    requires j < |TraceOps(events)|
    ensures exists k :: 0 <= k < |events| && EventOps(events, k) == [TraceOps(events)[j]]
  {
    hide EventOps;
    var n := |events| - 1;
    EventOpsAreShort(events, n);
    if j < |TraceOps(events[..n])| {
      PaintComesFromEvent(events[..n], j);
      var k :| 0 <= k < n && EventOps(events[..n], k) == [TraceOps(events[..n])[j]];
      EventOpsOfPrefix(events, n, k);
    } else {
      assert EventOps(events, n) == [TraceOps(events)[j]];
    }
  }

  lemma EventOpsAreShort(events: seq<Event>, k: nat)
    requires k < |events|
    ensures |EventOps(events, k)| <= 1
  {
  }

  /** Every label in any cell after any trace is the offset of a byte that some
      earlier event read from a tracked descriptor, and over a faithful trace
      that descriptor referred to the source file. */
  lemma LabelsAreReadOffsets(events: seq<Event>, l: Label, c: Cell)
    requires PossibleRun(events) && TraceOk(events)
    requires forall k :: 0 <= k < |events| ==> Ordinary(events[k])
    requires AllWellFormed(TraceOps(events)) && l in Run(AllClear<Label>(), TraceOps(events), Itself)[c]
    ensures exists k :: 0 <= k < |events| && ReadsOffset(events, k, l) &&
              (FaithfulRun(events) ==> Matching(KernelAfter(events[..k]), events[k].fd))
  {
    hide WellFormed, Run, EventOps, Paints, ReadsOffset, TraceOps, PossibleRun, FaithfulRun, Matching;
    var m: Labels := AllClear<Label>();
    NoFabricatedTaint(m, TraceOps(events), l, c);
    assert forall c' :: m[c'] == {};
    var j :| 0 <= j < |TraceOps(events)| && Paints(TraceOps(events)[j], l);
    PaintComesFromEvent(events, j);
    var k :| 0 <= k < |events| && EventOps(events, k) == [TraceOps(events)[j]];
    PaintingEvent(events, k, l);
    if FaithfulRun(events) {
      FaithfulReadMatches(events, k, l);
    }
  }

  lemma FaithfulReadMatches(events: seq<Event>, k: nat, l: Label)
    requires k < |events| && PossibleRun(events) && FaithfulRun(events) && ReadsOffset(events, k, l)
    ensures Matching(KernelAfter(events[..k]), events[k].fd)
  {
    hide Track, Next, KernelAfter, TrackedAfter, Faithful, PaintLabel;
    ExactRuns(events);
    assert ExactAfter(events[..k]);
    assert forall i :: 0 <= i < k ==> events[..k][..i] == events[..i];
    TrackingIsSound(events[..k]);
    assert Possible(KernelAfter(events[..k]), events[k]);
  }

  /** Faithfulness is needed: a stale descriptor can always be made to read
      another file, opening one under its number if it is not in use, and the
      buffer then carries that file's offset. */
  lemma StaleDescriptorPaints(events: seq<Event>, fd: int, buf: Addr)
    requires PossibleRun(events) && TraceOk(events) && Stale(events, fd) && Source(M(buf), 1)
    ensures var ready := events + if fd in KernelAfter(events).fds then [] else [Open(fd, false, false)];
            var all := ready + [Read(fd, buf, 1)];
            && PossibleRun(all) && AllWellFormed(TraceOps(all)) && !Matching(KernelAfter(ready), fd)
            && Run(AllClear<Label>(), TraceOps(all), Itself)[Mem(buf)] == {Tell(KernelAfter(ready), fd) % ID_LIMIT}
  {
    hide Run, TraceOps, PossibleRun, TraceOk;
    var ready := events + if fd in KernelAfter(events).fds then [] else [Open(fd, false, false)];
    var e := Read(fd, buf, 1);
    var all := ready + [e];
    if fd !in KernelAfter(events).fds {
      OneMoreEvent(events, Open(fd, false, false));
    } else {
      assert ready == events;
    }
    OneMoreEvent(ready, e);
    assert all[..|all| - 1] == ready;
    ReadIsOffsetExact(all, 0, Mem(buf));
  }

  lemma OneMoreEvent(events: seq<Event>, e: Event)
    requires PossibleRun(events) && TraceOk(events) && Possible(KernelAfter(events), e)
    requires AllWellFormed(OpsOf(TrackedAfter(events), e, Position(Next(KernelAfter(events), e), e)))
    ensures PossibleRun(events + [e]) && TraceOk(events + [e])
    ensures KernelAfter(events + [e]) == Next(KernelAfter(events), e)
    ensures TrackedAfter(events + [e]) == Track(TrackedAfter(events), e)
  {
    hide Possible, Next, Track, OpsOf, Position, WellFormed, KernelAfter, TrackedAfter;
    var all, n := events + [e], |events|;
    assert all[..n] == events && all[..n + 1] == all;
    LastEvent(all);
    forall k | 0 <= k < n ensures Possible(KernelAfter(all[..k]), all[k]) && AllWellFormed(EventOps(all, k)) {
      assert all[..k] == events[..k];
      EventOpsOfPrefix(all, n, k);
    }
  }

  lemma LastEvent(events: seq<Event>)
    requires events != []
    ensures var n := |events| - 1;
            && KernelAfter(events) == Next(KernelAfter(events[..n]), events[n])
            && TrackedAfter(events) == Track(TrackedAfter(events[..n]), events[n])
  {
  }

  /** The offset of another file's first byte, in a cell: the trace opens the
      source and another file, moves the other one over the source's descriptor
      and reads. */
  lemma FalseOffset(buf: Addr)
    requires Source(M(buf), 1)
    ensures var events := [Open(3, true, false), Open(4, false, false), Dup2(4, 3, 3)];
            var all := events + [Read(3, buf, 1)];
            && PossibleRun(all) && !Matching(KernelAfter(events), 3) && AllWellFormed(TraceOps(all))
            && Run(AllClear<Label>(), TraceOps(all), Itself)[Mem(buf)] == {0}
  {
    hide Run, WellFormed;
    var events := [Open(3, true, false), Open(4, false, false), Dup2(4, 3, 3)];
    StaleDescriptor();
    FalseKernel();
    assert TraceOk(events);
    StaleDescriptorPaints(events, 3, buf);
    assert events + [] == events;
  }

  lemma FalseKernel()
    ensures var events := [Open(3, true, false), Open(4, false, false), Dup2(4, 3, 3)];
            3 in KernelAfter(events).fds && Tell(KernelAfter(events), 3) == 0
  {
  }
}
