/** Which descriptors are taint sources. The hooks keep a set of descriptor
    numbers; the kernel keeps the descriptor table. */
module Descriptors {
  import opened ShadowDirectory
  import opened Ops

  // An open file description: whether its path is the taint source (and not a
  // directory), and its file cursor. Duplicated descriptors share it.
  datatype Description = Description(matching: bool, cursor: nat)

  // Descriptor numbers, and the descriptions they refer to.
  datatype Kernel = Kernel(fds: map<int, nat>, files: map<nat, Description>, nextFile: nat)

  ghost predicate KernelOk(k: Kernel) {
    && (forall fd :: fd in k.fds ==> fd >= 0 && k.fds[fd] in k.files)
    && (forall f :: f in k.files ==> f < k.nextFile)
  }

  const EMPTY: Kernel := Kernel(map[], map[], 0)

  // The hooked calls with their results, the unhooked lseek, and the
  // propagation steps between them. A failed open is looked up by name all the
  // same: `errorMatches` says whether the error text contains the source name.
  // A failed close may have released the descriptor.
  datatype Event =
    | Open(ret: int, matching: bool, errorMatches: bool)
    | Dup(src: int, ret: int)
    | Dup2(src: int, dst: int, ret: int)
    | Close(fd: int, ret: int, released: bool)
    | Read(fd: int, buf: Addr, ret: int)
    | Pread(fd: int, buf: Addr, ret: int, offset: nat)
    | Lseek(fd: int, to: nat)
    | Munmap(addr: Addr, len: nat, ret: int)
    | Propagate(op: Op)

  // What the kernel guarantees about a call's result.
  ghost predicate Possible(k: Kernel, e: Event) {
    match e
    case Open(ret, _, _) => ret >= 0 ==> ret !in k.fds
    case Dup(src, ret) => ret >= 0 ==> src in k.fds && ret !in k.fds
    case Dup2(src, dst, ret) => ret >= 0 ==> src in k.fds && dst >= 0
    case Close(fd, ret, released) => ret >= 0 || released ==> fd in k.fds
    case Read(fd, _, ret) => ret > 0 ==> fd in k.fds
    case Pread(fd, _, ret, _) => ret > 0 ==> fd in k.fds
    case Lseek(fd, _) => fd in k.fds
    case _ => true
  }

  function SetCursor(k: Kernel, fd: int, pos: nat): Kernel
    requires fd in k.fds && k.fds[fd] in k.files
  {
    k.(files := k.files[k.fds[fd] := k.files[k.fds[fd]].(cursor := pos)])
  }

  function Next(k: Kernel, e: Event): Kernel {
    match e
    case Open(ret, matching, _) =>
      if ret < 0 then k
      else Kernel(k.fds[ret := k.nextFile], k.files[k.nextFile := Description(matching, 0)], k.nextFile + 1)
    case Dup(src, ret) => if ret < 0 || src !in k.fds then k else k.(fds := k.fds[ret := k.fds[src]])
    case Dup2(src, dst, ret) => if ret < 0 || src !in k.fds then k else k.(fds := k.fds[dst := k.fds[src]])
    case Close(fd, ret, released) => if ret >= 0 || released then k.(fds := k.fds - {fd}) else k
    case Read(fd, _, ret) =>
      if ret > 0 && fd in k.fds && k.fds[fd] in k.files
      then SetCursor(k, fd, k.files[k.fds[fd]].cursor + ret) else k
    case Lseek(fd, to) => if fd in k.fds && k.fds[fd] in k.files then SetCursor(k, fd, to) else k
    case _ => k
  }

  // lseek(fd, 0, SEEK_CUR)
  function Tell(k: Kernel, fd: int): int {
    if fd in k.fds && k.fds[fd] in k.files then k.files[k.fds[fd]].cursor else -1
  }

  // ------------------------------------------------------------------- hooks

  // What the post-call hooks do to the set of tracked descriptors.
  function Track(fdset: set<int>, e: Event): set<int> {
    match e
    case Open(ret, matching, errorMatches) =>
      if (if ret >= 0 then matching else errorMatches) then fdset + {ret} else fdset
    case Dup(src, ret) => if src in fdset && ret != -1 then fdset + {ret} else fdset
    case Dup2(src, dst, _) => if src in fdset then fdset + {dst} else fdset
    case Close(fd, ret, _) => if ret < 0 then fdset else fdset - {fd}
    case _ => fdset
  }

  ghost predicate Matching(k: Kernel, fd: int) {
    fd in k.fds && k.fds[fd] in k.files && k.files[k.fds[fd]].matching
  }

  // Every live descriptor of the source file is tracked.
  ghost predicate Covers(fdset: set<int>, k: Kernel) {
    forall fd :: Matching(k, fd) ==> fd in fdset
  }

  // The tracked non-negative descriptors are exactly those.
  ghost predicate Exact(fdset: set<int>, k: Kernel) {
    forall fd :: fd >= 0 ==> (fd in fdset <==> Matching(k, fd))
  }

  lemma NextIsOk(k: Kernel, e: Event)
    requires KernelOk(k) && Possible(k, e)
    ensures KernelOk(Next(k, e))
  {
  }

  /** No call loses a live descriptor of the source file. */
  lemma CoverageIsKept(k: Kernel, fdset: set<int>, e: Event)
    requires KernelOk(k) && Possible(k, e) && Covers(fdset, k)
    ensures Covers(Track(fdset, e), Next(k, e))
  {
  }

  // The calls after which tracking is still exact: a failed dup2 or dup3 must
  // not name a new target for a tracked source, a successful one must not
  // replace a tracked target by an untracked source, and a failed close must
  // not have released a tracked descriptor.
  predicate Faithful(fdset: set<int>, e: Event) {
    match e
    case Dup2(src, dst, ret) =>
      if ret < 0 then !(src in fdset && dst >= 0 && dst !in fdset) else !(src !in fdset && dst in fdset)
    case Close(fd, ret, released) => !(ret < 0 && released && fd in fdset)
    case _ => true
  }

  /** From exact tracking, a call leads to exact tracking if and only if it is
      one of the faithful ones. */
  lemma ExactnessIsKept(k: Kernel, fdset: set<int>, e: Event)
    requires KernelOk(k) && Possible(k, e) && Exact(fdset, k)
    ensures Exact(Track(fdset, e), Next(k, e)) <==> Faithful(fdset, e)
  {
  }

  // -------------------------------------------------------------------- runs

  function KernelAfter(events: seq<Event>): Kernel {
    if events == [] then EMPTY else Next(KernelAfter(events[..|events| - 1]), events[|events| - 1])
  }

  function TrackedAfter(events: seq<Event>): set<int> {
    if events == [] then {} else Track(TrackedAfter(events[..|events| - 1]), events[|events| - 1])
  }

  ghost predicate PossibleRun(events: seq<Event>) {
    forall i :: 0 <= i < |events| ==> Possible(KernelAfter(events[..i]), events[i])
  }

  ghost predicate FaithfulRun(events: seq<Event>) {
    forall i :: 0 <= i < |events| ==> Faithful(TrackedAfter(events[..i]), events[i])
  }

  lemma PrefixRun(events: seq<Event>)
    requires events != []
    ensures PossibleRun(events) ==> PossibleRun(events[..|events| - 1])
    ensures FaithfulRun(events) ==> FaithfulRun(events[..|events| - 1])
  {
    var init := events[..|events| - 1];
    assert forall i :: 0 <= i < |init| ==> init[..i] == events[..i] && init[i] == events[i];
  }

  /** Over every run, every live descriptor that refers to the source file is
      tracked; over every faithful run the tracking is exact. */
  lemma {:induction false} TrackingIsSound(events: seq<Event>)
    requires PossibleRun(events)
    ensures KernelOk(KernelAfter(events)) && Covers(TrackedAfter(events), KernelAfter(events))
    ensures FaithfulRun(events) ==> Exact(TrackedAfter(events), KernelAfter(events))
  {
    if events != [] {
      var k := |events| - 1;
      PrefixRun(events);
      TrackingIsSound(events[..k]);
      NextIsOk(KernelAfter(events[..k]), events[k]);
      CoverageIsKept(KernelAfter(events[..k]), TrackedAfter(events[..k]), events[k]);
      if FaithfulRun(events) {
        ExactnessIsKept(KernelAfter(events[..k]), TrackedAfter(events[..k]), events[k]);
      }
    }
  }

  ghost predicate ExactAfter(events: seq<Event>) { Exact(TrackedAfter(events), KernelAfter(events)) }

  /** Tracking is exact at every moment of a run if and only if every call of the
      run is faithful. */
  lemma {:induction false} ExactRuns(events: seq<Event>)
    requires PossibleRun(events)
    ensures (forall n :: 0 <= n <= |events| ==> ExactAfter(events[..n])) <==> FaithfulRun(events)
  {
    hide Possible, Next, Track, Faithful, Exact, Covers, KernelOk, PossibleRun;
    assert events[..|events|] == events;
    if events == [] {
      TrackingIsSound(events);
      return;
    }
    var k := |events| - 1;
    var init := events[..k];
    PrefixRun(events);
    ExactRuns(init);
    TrackingIsSound(init);
    assert forall n :: 0 <= n <= k ==> init[..n] == events[..n];
    LastIsPossible(events);
    if ExactAfter(init) {
      ExactnessIsKept(KernelAfter(init), TrackedAfter(init), events[k]);
    }
    assert init == events[..k];
    FaithfulSplit(events);
  }

  lemma LastIsPossible(events: seq<Event>)
    requires events != [] && PossibleRun(events)
    ensures Possible(KernelAfter(events[..|events| - 1]), events[|events| - 1])
  {
  }

  lemma FaithfulSplit(events: seq<Event>)
    requires events != []
    ensures var k := |events| - 1;
            FaithfulRun(events) <==> FaithfulRun(events[..k]) && Faithful(TrackedAfter(events[..k]), events[k])
  {
    var init := events[..|events| - 1];
    assert forall i :: 0 <= i < |init| ==> init[..i] == events[..i] && init[i] == events[i];
  }

  // A tracked descriptor that does not refer to the source file.
  ghost predicate Stale(events: seq<Event>, fd: int) {
    fd >= 0 && fd in TrackedAfter(events) && !Matching(KernelAfter(events), fd)
  }

  /** A run with an unfaithful call has, at some moment, a stale descriptor. */
  lemma UnfaithfulIsStale(events: seq<Event>) returns (n: nat, fd: int)
    requires PossibleRun(events) && !FaithfulRun(events)
    ensures n <= |events| && PossibleRun(events[..n]) && Stale(events[..n], fd)
  {
    hide KernelAfter, TrackedAfter, Possible, Matching;
    ExactRuns(events);
    n :| 0 <= n <= |events| && !ExactAfter(events[..n]);
    assert forall i :: 0 <= i < n ==> events[..n][..i] == events[..i];
    TrackingIsSound(events[..n]);
    fd :| fd >= 0 && !(fd in TrackedAfter(events[..n]) <==> Matching(KernelAfter(events[..n]), fd));
  }

  /** A stale descriptor: after an untracked source replaces a tracked target,
      reads of the other file count as source reads. */
  lemma StaleDescriptor()
    ensures var events := [Open(3, true, false), Open(4, false, false), Dup2(4, 3, 3)];
            PossibleRun(events) && 3 in TrackedAfter(events) && !Matching(KernelAfter(events), 3)
  {
  }
}
