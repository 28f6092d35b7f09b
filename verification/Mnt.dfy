/** The must-not-taint consumer: which program counters lie in code that the
    instrumentation skips. Lookups go through a one-entry image cache, a binary
    search per image and a lazily sorted index of routine ranges. */
module Mnt {
  import opened ShadowDirectory
  import opened Options
  import opened Ordering

  datatype Policy = Off | Lean | Sound | V2PerPc

  // A runtime range [lo, hi).
  datatype Range = Range(lo: Addr, hi: Addr)

  // Pairs compare by their first component, then by their second.
  function Key(r: Range): nat { r.lo * WORD + r.hi }

  lemma KeyOrder(r: Range, s: Range)
    ensures Key(r) < Key(s) <==> r.lo < s.lo || (r.lo == s.lo && r.hi < s.hi)
    ensures Key(r) == Key(s) <==> r == s
  {
  }

  predicate Contains(r: Range, pc: Addr) { r.lo <= pc < r.hi }

  // ------------------------------------------------------- the range lookup

  // Some registered range contains pc.
  ghost predicate Member(ranges: set<Range>, pc: Addr) {
    exists r :: r in ranges && Contains(r, pc)
  }

  // r is the last range, in pair order, that starts at or before pc.
  ghost predicate IsPredecessor(ranges: set<Range>, r: Range, pc: Addr) {
    r in ranges && r.lo <= pc && forall s :: s in ranges && s.lo <= pc ==> Key(s) <= Key(r)
  }

  // What the predecessor probe answers, independently of the order in which
  // the ranges are stored.
  ghost predicate Probe(ranges: set<Range>, pc: Addr) {
    exists r :: IsPredecessor(ranges, r, pc) && Contains(r, pc)
  }

  /** A hit always comes from a registered range. */
  lemma ProbeIsSound(ranges: set<Range>, pc: Addr)
    requires Probe(ranges, pc)
    ensures Member(ranges, pc)
  {
  }

  // Every range that ends inside an enclosing one is followed, before or at its
  // end, by another range that starts later (or equally, and ends later).
  ghost predicate NoHole(ranges: set<Range>) {
    forall r, s :: r in ranges && s in ranges && r.lo < s.lo && s.hi < r.hi ==> Continued(ranges, s)
  }

  ghost predicate Continued(ranges: set<Range>, s: Range) {
    exists t :: t in ranges && Key(s) < Key(t) && t.lo <= s.hi
  }

  lemma {:induction false} PredecessorExists(ranges: set<Range>, pc: Addr)
    requires exists r :: r in ranges && r.lo <= pc
    ensures exists r :: IsPredecessor(ranges, r, pc)
  {
    var last :| last in ranges && last.lo <= pc;
    var rest := ranges - {last};
    if exists r :: r in rest && r.lo <= pc {
      PredecessorExists(rest, pc);
      var r :| IsPredecessor(rest, r, pc);
      assert IsPredecessor(ranges, if Key(r) < Key(last) then last else r, pc);
    } else {
      assert IsPredecessor(ranges, last, pc);
    }
  }

  lemma ProbeIsComplete(ranges: set<Range>, pc: Addr)
    requires NoHole(ranges) && Member(ranges, pc)
    ensures Probe(ranges, pc)
  {
    var r :| r in ranges && Contains(r, pc);
    PredecessorExists(ranges, pc);
    var p :| IsPredecessor(ranges, p, pc);
    KeyOrder(r, p);
    assert !Contains(p, pc) ==> r.lo < p.lo && p.hi < r.hi;
  }

  lemma HoleIsMissed(ranges: set<Range>, r: Range, s: Range)
    requires r in ranges && s in ranges && s.lo < s.hi && r.lo < s.lo && s.hi < r.hi && !Continued(ranges, s)
    ensures Member(ranges, s.hi) && !Probe(ranges, s.hi)
  {
  }

  /** The predecessor probe answers membership for every program counter exactly
      when the registered ranges leave no hole. */
  lemma ProbeIsExact(ranges: set<Range>)
    requires forall r :: r in ranges ==> r.lo < r.hi
    ensures (forall pc :: Probe(ranges, pc) <==> Member(ranges, pc)) <==> NoHole(ranges)
  {
    if NoHole(ranges) {
      forall pc ensures Probe(ranges, pc) <==> Member(ranges, pc) {
        if Probe(ranges, pc) { ProbeIsSound(ranges, pc); }
        if Member(ranges, pc) { ProbeIsComplete(ranges, pc); }
      }
    } else {
      var r, s :| r in ranges && s in ranges && r.lo < s.lo && s.hi < r.hi && !Continued(ranges, s);
      HoleIsMissed(ranges, r, s);
    }
  }

  /** Without strict nesting there is no hole. */
  lemma UnnestedHasNoHole(ranges: set<Range>)
    requires forall r, s :: r in ranges && s in ranges && r.lo < s.lo ==> r.hi <= s.hi
    ensures NoHole(ranges)
  {
  }

  /** A nested pair with a hole: the probe misses 0x30, which the outer range
      contains. */
  lemma NestedRangeIsMissed()
    ensures var ranges := {Range(0x10, 0x40), Range(0x20, 0x30)};
            Member(ranges, 0x30) && !Probe(ranges, 0x30)
  {
  }

  // ------------------------------------------------------------- the images

  // A module: [low, high], both ends included, and the words loaded for it.
  datatype Image = Image(low: Addr, high: Addr, mnt: seq<nat>)

  predicate InImage(im: Image, pc: Addr) { im.low <= pc <= im.high }

  // A candidate .mnt.bin file: absent, rejected by its header, or a header with
  // the three tier sizes followed by the words that could be read.
  datatype MntFile = Missing | BadHeader | Body(nSound: nat, nLean: nat, nV2: nat, words: seq<nat>)

  predicate Complete(f: MntFile) { f.Body? && |f.words| >= f.nSound + f.nLean + f.nV2 }

  // The words from position `at` up to `end`, as far as the file goes.
  function Slice(words: seq<nat>, at: nat, end: nat): seq<nat>
    requires at <= end
  {
    if |words| <= at then [] else words[at..if end <= |words| then end else |words|]
  }

  // The offsets a file contributes under a policy, even if its body is cut
  // short: the sound tier always, the others each under their own policy.
  function Kept(f: MntFile, policy: Policy): seq<nat> {
    if !f.Body? then []
    else
      Slice(f.words, 0, f.nSound)
      + (if policy == Lean then Slice(f.words, f.nSound, f.nSound + f.nLean) else [])
      + (if policy == V2PerPc then Slice(f.words, f.nSound + f.nLean, f.nSound + f.nLean + f.nV2) else [])
  }

  // Reading `count` words from position `at`, keeping them if `keep`; the
  // loop stops at the first word that cannot be read.
  method ReadTier(words: seq<nat>, at: nat, count: nat, keep: bool, acc: seq<nat>) returns (ok: bool, mnt: seq<nat>)
    requires at <= |words|
    ensures ok <==> at + count <= |words|
    ensures mnt == acc + if keep then Slice(words, at, at + count) else []
  {
    mnt := acc;
    for i := 0 to count
      invariant at + i <= |words|
      invariant mnt == acc + if keep then words[at..at + i] else []
    {
      if at + i >= |words| {
        return false, mnt;
      }
      if keep {
        mnt := mnt + [words[at + i]];
      }
    }
    ok := true;
  }

  // The three tiers in file order.
  method ReadBody(f: MntFile, policy: Policy, residue: seq<nat>) returns (ok: bool, mnt: seq<nat>)
    requires f.Body?
    ensures ok <==> Complete(f)
    ensures mnt == residue + Kept(f, policy)
  {
    hide Slice, Kept;
    KeptInOrder(f, policy, residue);
    ok, mnt := ReadTier(f.words, 0, f.nSound, true, residue);
    if !ok { return; }
    ok, mnt := ReadTier(f.words, f.nSound, f.nLean, policy == Lean, mnt);
    if !ok { return; }
    ok, mnt := ReadTier(f.words, f.nSound + f.nLean, f.nV2, policy == V2PerPc, mnt);
  }

  lemma KeptInOrder(f: MntFile, policy: Policy, residue: seq<nat>)
    requires f.Body?
    ensures var lean, v2 := f.nSound + f.nLean, f.nSound + f.nLean + f.nV2;
            var one := residue + Slice(f.words, 0, f.nSound);
            var two := one + if policy == Lean then Slice(f.words, f.nSound, lean) else [];
            var three := two + if policy == V2PerPc then Slice(f.words, lean, v2) else [];
            && residue + Kept(f, policy) == three
            && (|f.words| < lean ==> three == two)
            && (|f.words| < f.nSound ==> two == one)
  {
  }

  /** load_mnt_bin, appending to what earlier candidates left behind: a complete
      file is merged and sorted, any other leaves what it kept unsorted. */
  method LoadMntBin(f: MntFile, policy: Policy, residue: seq<nat>) returns (ok: bool, mnt: seq<nat>)
    ensures ok <==> Complete(f)
    ensures ok ==> SortedBy(mnt, Value) && multiset(mnt) == multiset(residue + Kept(f, policy))
    ensures mnt == if ok then Sort(residue + Kept(f, policy), Value) else residue + Kept(f, policy)
    ensures ok ==>
              var lean, v2 := f.nSound + f.nLean, f.nSound + f.nLean + f.nV2;
              multiset(mnt) == multiset(residue) + multiset(f.words[..f.nSound])
                               + multiset(if policy == Lean then f.words[f.nSound..lean] else [])
                               + multiset(if policy == V2PerPc then f.words[lean..v2] else [])
  {
    hide Sort, SortedBy, Slice, Kept;
    KeptOfOther(f, policy);
    if f.Missing? || f.BadHeader? {
      return false, residue;
    }
    ok, mnt := ReadBody(f, policy, residue);
    if ok {
      TiersOf(f, policy);
      SortIsSorting(mnt, Value);
      mnt := Sort(mnt, Value);
    }
  }

  // Word i of a file lies in a tier the policy selects.
  predicate Selected(f: MntFile, policy: Policy, i: nat)
    requires f.Body?
  {
    || i < f.nSound
    || (policy == Lean && f.nSound <= i < f.nSound + f.nLean)
    || (policy == V2PerPc && f.nSound + f.nLean <= i < f.nSound + f.nLean + f.nV2)
  }

  // x is a word of f, in a selected tier.
  ghost predicate Offers(f: MntFile, policy: Policy, x: nat) {
    f.Body? && exists i :: 0 <= i < |f.words| && Selected(f, policy, i) && f.words[i] == x
  }

  /** What a file contributes: of a complete one the whole selected tiers, of a
      cut one as much of them as it has. */
  lemma KeptWords(f: MntFile, policy: Policy)
    ensures !f.Body? ==> Kept(f, policy) == []
    ensures f.Body? ==>
              var len, lean, v2 := |f.words|, f.nSound + f.nLean, f.nSound + f.nLean + f.nV2;
              Kept(f, policy) ==
              if len <= f.nSound then f.words
              else f.words[..f.nSound]
                   + (if policy == Lean then f.words[f.nSound..if len < lean then len else lean] else [])
                   + (if policy == V2PerPc && lean < len then f.words[lean..if len < v2 then len else v2] else [])
  {
  }

  lemma KeptOfOther(f: MntFile, policy: Policy)
    ensures !f.Body? ==> Kept(f, policy) == []
  {
  }

  lemma TiersOf(f: MntFile, policy: Policy)
    requires Complete(f)
    ensures var lean, v2 := f.nSound + f.nLean, f.nSound + f.nLean + f.nV2;
            Kept(f, policy) == f.words[..f.nSound]
                               + (if policy == Lean then f.words[f.nSound..lean] else [])
                               + (if policy == V2PerPc then f.words[lean..v2] else [])
  {
  }

  /** The same by elements. */
  lemma KeptElements(f: MntFile, policy: Policy, x: nat)
    ensures x in Kept(f, policy) <==> Offers(f, policy, x)
  {
    hide Slice;
    if f.Body? {
      var lean, v2 := f.nSound + f.nLean, f.nSound + f.nLean + f.nV2;
      SliceElements(f.words, 0, f.nSound, x);
      SliceElements(f.words, f.nSound, lean, x);
      SliceElements(f.words, lean, v2, x);
    }
  }

  lemma SliceElements(words: seq<nat>, lo: nat, hi: nat, x: nat)
    requires lo <= hi
    ensures x in Slice(words, lo, hi) <==> exists i :: lo <= i < hi && i < |words| && words[i] == x
  {
    if i :| lo <= i < hi && i < |words| && words[i] == x {
      assert Slice(words, lo, hi)[i - lo] == x;
    }
  }

  // x is offered by a candidate that is read: no earlier one is complete.
  ghost predicate Offered(candidates: seq<MntFile>, policy: Policy, x: nat) {
    exists k :: 0 <= k < |candidates| && Offers(candidates[k], policy, x) && !SomeComplete(candidates[..k])
  }

  /** A module's words are exactly those its candidates offer. */
  lemma {:induction false} LoadedElements(residue: seq<nat>, candidates: seq<MntFile>, policy: Policy, x: nat)
    ensures x in Loaded(residue, candidates, policy) <==> x in residue || Offered(candidates, policy, x)
    decreases candidates
  {
    hide Kept, Complete, Offers, Sort;
    if candidates != [] {
      var f, rest := candidates[0], candidates[1..];
      KeptElements(f, policy, x);
      OfferedFirst(candidates, policy, x);
      if Complete(f) {
        SortIsSorting(residue + Kept(f, policy), Value);
        SamePermutedElements(Loaded(residue, candidates, policy), residue + Kept(f, policy), x);
      } else {
        LoadedElements(residue + Kept(f, policy), rest, policy, x);
      }
    }
  }

  lemma OfferedFirst(candidates: seq<MntFile>, policy: Policy, x: nat)
    requires candidates != []
    ensures Offered(candidates, policy, x) <==>
            Offers(candidates[0], policy, x) || (!Complete(candidates[0]) && Offered(candidates[1..], policy, x))
  {
    hide Complete, Offers;
    var rest := candidates[1..];
    if Offers(candidates[0], policy, x) {
      assert !SomeComplete(candidates[..0]);
    }
    forall k | 0 < k < |candidates|
      ensures SomeComplete(candidates[..k]) <==> Complete(candidates[0]) || SomeComplete(rest[..k - 1])
    {
      assert candidates[..k] == [candidates[0]] + rest[..k - 1];
      FirstOrRest(candidates[0], rest[..k - 1]);
    }
    if !Complete(candidates[0]) && Offered(rest, policy, x) {
      var k :| 0 <= k < |rest| && Offers(rest[k], policy, x) && !SomeComplete(rest[..k]);
      assert Offers(candidates[k + 1], policy, x) && !SomeComplete(candidates[..k + 1]);
    }
    if Offered(candidates, policy, x) && !Offers(candidates[0], policy, x) {
      var k :| 0 <= k < |candidates| && Offers(candidates[k], policy, x) && !SomeComplete(candidates[..k]);
      assert Offers(rest[k - 1], policy, x) && !SomeComplete(rest[..k - 1]);
    }
  }

  lemma FirstOrRest(f: MntFile, files: seq<MntFile>)
    ensures SomeComplete([f] + files) <==> Complete(f) || SomeComplete(files)
  {
    hide Complete;
    var all := [f] + files;
    if Complete(f) {
      assert Complete(all[0]);
    }
    if SomeComplete(files) {
      var i :| 0 <= i < |files| && Complete(files[i]);
      assert Complete(all[i + 1]);
    }
  }

  // The words a module ends up with: loading stops at the first complete
  // candidate, and every one before it may leave words behind.
  ghost function Loaded(residue: seq<nat>, candidates: seq<MntFile>, policy: Policy): seq<nat>
    decreases candidates
  {
    if candidates == [] then residue
    else if Complete(candidates[0]) then Sort(residue + Kept(candidates[0], policy), Value)
    else Loaded(residue + Kept(candidates[0], policy), candidates[1..], policy)
  }

  method LoadCandidates(candidates: seq<MntFile>, policy: Policy) returns (mnt: seq<nat>)
    ensures mnt == Loaded([], candidates, policy)
  {
    mnt := [];
    for i := 0 to |candidates|
      invariant Loaded([], candidates, policy) == Loaded(mnt, candidates[i..], policy)
    {
      assert candidates[i..][1..] == candidates[i + 1..];
      var ok;
      ok, mnt := LoadMntBin(candidates[i], policy, mnt);
      if ok {
        return;
      }
    }
  }

  // How many candidates are read: up to and including the first complete one.
  ghost function ReadCount(candidates: seq<MntFile>): (n: nat)
    ensures n <= |candidates|
  {
    if candidates == [] then 0 else if Complete(candidates[0]) then 1 else 1 + ReadCount(candidates[1..])
  }

  ghost predicate SomeComplete(candidates: seq<MntFile>) {
    exists i :: 0 <= i < |candidates| && Complete(candidates[i])
  }

  // What a sequence of files keeps, in file order.
  ghost function AllKept(files: seq<MntFile>, policy: Policy): seq<nat> {
    if files == [] then [] else Kept(files[0], policy) + AllKept(files[1..], policy)
  }

  lemma {:induction false} LoadedFrom(residue: seq<nat>, candidates: seq<MntFile>, policy: Policy)
    ensures var all := residue + AllKept(candidates[..ReadCount(candidates)], policy);
            Loaded(residue, candidates, policy) == if SomeComplete(candidates) then Sort(all, Value) else all
    decreases candidates
  {
    hide Sort, Kept, Complete;
    if candidates == [] {
      assert residue + [] == residue;
      return;
    }
    var f, rest, n := candidates[0], candidates[1..], ReadCount(candidates);
    assert candidates[..n] == [f] + candidates[1..n];
    if Complete(f) {
      assert candidates[1..n] == [];
      assert Kept(f, policy) + [] == Kept(f, policy);
    } else {
      LoadedFrom(residue + Kept(f, policy), rest, policy);
      assert candidates[1..n] == rest[..ReadCount(rest)];
      assert SomeComplete(candidates) <==> SomeComplete(rest) by {
        assert forall i :: 0 <= i < |rest| ==> rest[i] == candidates[i + 1];
        if SomeComplete(rest) {
          var i :| 0 <= i < |rest| && Complete(rest[i]);
          assert Complete(candidates[i + 1]);
        }
      }
      assert residue + (Kept(f, policy) + AllKept(rest[..ReadCount(rest)], policy))
        == residue + Kept(f, policy) + AllKept(rest[..ReadCount(rest)], policy);
    }
  }

  /** A module's words are those the files up to the first complete one kept,
      and they are sorted exactly when some candidate is complete or what the cut
      ones left happens to be sorted. */
  lemma LoadedWords(candidates: seq<MntFile>, policy: Policy)
    ensures var words := Loaded([], candidates, policy);
            var kept := AllKept(candidates[..ReadCount(candidates)], policy);
            && multiset(words) == multiset(kept)
            && (SortedBy(words, Value) <==> SomeComplete(candidates) || SortedBy(kept, Value))
  {
    var kept := AllKept(candidates[..ReadCount(candidates)], policy);
    LoadedFrom([], candidates, policy);
    assert [] + kept == kept;
    SortIsSorting(kept, Value);
  }

  /** A body cut after the words 5 and 1: no candidate loads, both words are kept
      and the search misses both. Cut after 1 and 5, it finds both. */
  lemma CutBody()
    ensures var words := Loaded([], [Body(3, 0, 0, [5, 1])], Sound);
            words == [5, 1] && !Found(words, 5) && !Found(words, 1)
    ensures var words := Loaded([], [Body(3, 0, 0, [1, 5])], Sound);
            words == [1, 5] && Found(words, 5) && Found(words, 1)
  {
    CutBodyOf([5, 1]);
    CutBodyOf([1, 5]);
  }

  lemma CutBodyOf(words: seq<nat>)
    requires |words| == 2
    ensures Loaded([], [Body(3, 0, 0, words)], Sound) == words
  {
    LoadedFrom([], [Body(3, 0, 0, words)], Sound);
  }

  /** With repeated words a search may find them all in unsorted words. */
  lemma RepeatedWordsMayBeFound()
    ensures var xs: seq<nat> := [1, 2, 1];
            !SortedBy(xs, Value) && forall x :: Found(xs, x) <==> x in xs
  {
    var xs: seq<nat> := [1, 2, 1];
    assert xs[1] > xs[2];
    forall x ensures Found(xs, x) <==> x in xs {
      assert Bound(xs, Value, x, 0, 3) == if 2 < x then Bound(xs, Value, x, 2, 1) else Bound(xs, Value, x, 0, 1);
    }
  }

  // ------------------------------------------------------------ the consumer

  // The cache-free view of the consumer's state; ranges have no order.
  datatype World = World(images: seq<Image>, ranges: set<Range>)

  // The halving search answers yes in some image that contains pc.
  ghost predicate Searched(images: seq<Image>, pc: Addr) {
    exists i :: 0 <= i < |images| && InImage(images[i], pc) && Found(images[i].mnt, pc - images[i].low)
  }

  // A linear scan finds pc among the words of some image.
  ghost predicate Scanned(images: seq<Image>, pc: Addr) {
    exists i :: 0 <= i < |images| && InImage(images[i], pc) && pc - images[i].low in images[i].mnt
  }

  // What is_mnt answers in any state, and what it is meant to answer.
  ghost predicate Answer(w: World, policy: Policy, pc: Addr) {
    (policy != Off && Searched(w.images, pc)) || Probe(w.ranges, pc)
  }

  ghost predicate Skippable(w: World, policy: Policy, pc: Addr) {
    (policy != Off && Scanned(w.images, pc)) || Probe(w.ranges, pc)
  }

  ghost predicate WordsSorted(images: seq<Image>) {
    forall i :: 0 <= i < |images| ==> SortedBy(images[i].mnt, Value)
  }

  ghost predicate Apart(a: Image, b: Image) { a.high < b.low || b.high < a.low }

  ghost predicate AllApart(images: seq<Image>) {
    forall i, j :: 0 <= i < j < |images| ==> Apart(images[i], images[j])
  }

  // The words are distinct and lie inside their image.
  ghost predicate Proper(im: Image) {
    im.low <= im.high && Distinct(im.mnt) && forall x :: x in im.mnt ==> im.low + x <= im.high
  }

  // Only the image around pc can answer for it.
  lemma OneImageAnswers(images: seq<Image>, i: nat, pc: Addr)
    requires AllApart(images) && i < |images| && InImage(images[i], pc)
    ensures Searched(images, pc) <==> Found(images[i].mnt, pc - images[i].low)
    ensures Scanned(images, pc) <==> pc - images[i].low in images[i].mnt
  {
    forall j | 0 <= j < |images| && j != i ensures !InImage(images[j], pc) {
      var a, b := if i < j then i else j, if i < j then j else i;
      assert Apart(images[a], images[b]);
    }
  }

  /** In any state with sorted words the answer is that of the scan. */
  lemma SortedAnswers(w: World, policy: Policy, pc: Addr)
    requires WordsSorted(w.images)
    ensures Answer(w, policy, pc) <==> Skippable(w, policy, pc)
  {
    forall i | 0 <= i < |w.images| && InImage(w.images[i], pc)
      ensures Found(w.images[i].mnt, pc - w.images[i].low) <==> pc - w.images[i].low in w.images[i].mnt
    {
      FoundInSorted(w.images[i].mnt, pc - w.images[i].low);
    }
  }

  /** For images apart with distinct words inside them, the searches answer the
      scan at every program counter exactly when every image's words are
      sorted. */
  lemma SearchedIsScanned(images: seq<Image>)
    requires AllApart(images) && forall i :: 0 <= i < |images| ==> Proper(images[i])
    ensures (forall pc :: Searched(images, pc) <==> Scanned(images, pc)) <==> WordsSorted(images)
  {
    if WordsSorted(images) {
      forall pc ensures Searched(images, pc) <==> Scanned(images, pc) {
        SortedAnswers(World(images, {}), Lean, pc);
      }
    } else if forall pc :: Searched(images, pc) <==> Scanned(images, pc) {
      var i :| 0 <= i < |images| && !SortedBy(images[i].mnt, Value);
      var im := images[i];
      forall x: nat ensures Found(im.mnt, x) <==> x in im.mnt {
        if im.low + x <= im.high {
          OneImageAnswers(images, i, im.low + x);
        }
      }
      SearchIsExact(im.mnt);
      assert false;
    }
  }

  /** An image none of whose candidates loaded is reported as not skippable, yet
      it answers for the words the cut ones left, as far as the search finds
      them. */
  lemma UnloadedImageAnswers(w: World, policy: Policy, i: nat, candidates: seq<MntFile>, x: nat)
    requires policy != Off && AllApart(w.images) && i < |w.images|
    requires w.images[i].mnt == Loaded([], candidates, policy) && !SomeComplete(candidates)
    requires w.images[i].low + x <= w.images[i].high
    ensures var pc, residue := w.images[i].low + x, AllKept(candidates, policy);
            && (Answer(w, policy, pc) <==> Found(residue, x) || Probe(w.ranges, pc))
            && (SortedBy(residue, Value) && x in residue ==> Answer(w, policy, pc))
  {
    hide Loaded, AllKept, SortedBy, Found;
    var residue := AllKept(candidates, policy);
    NothingComplete(candidates);
    assert candidates[..|candidates|] == candidates && [] + residue == residue;
    LoadedFrom([], candidates, policy);
    OneImageAnswers(w.images, i, w.images[i].low + x);
    if SortedBy(residue, Value) {
      FoundInSorted(residue, x);
    }
  }

  /** What a query finds in an image: exactly the words its candidates offer. A
      single complete file offers its selected tiers. */
  lemma LoadedScan(images: seq<Image>, i: nat, candidates: seq<MntFile>, policy: Policy, pc: Addr)
    requires AllApart(images) && i < |images| && InImage(images[i], pc)
    requires images[i].mnt == Loaded([], candidates, policy)
    ensures Scanned(images, pc) <==> Offered(candidates, policy, pc - images[i].low)
    ensures SomeComplete(candidates) ==> (Searched(images, pc) <==> Offered(candidates, policy, pc - images[i].low))
  {
    hide Loaded, Offered, AllApart, Found;
    OneImageAnswers(images, i, pc);
    LoadedElements([], candidates, policy, pc - images[i].low);
    if SomeComplete(candidates) {
      LoadedWords(candidates, policy);
      FoundInSorted(images[i].mnt, pc - images[i].low);
    }
  }

  lemma LoadOneComplete(images: seq<Image>, i: nat, f: MntFile, policy: Policy, pc: Addr)
    requires AllApart(images) && i < |images| && InImage(images[i], pc) && Complete(f)
    requires images[i].mnt == Loaded([], [f], policy)
    ensures var x, lean, v2 := pc - images[i].low, f.nSound + f.nLean, f.nSound + f.nLean + f.nV2;
            Searched(images, pc) <==>
            || x in f.words[..f.nSound]
            || (policy == Lean && x in f.words[f.nSound..lean])
            || (policy == V2PerPc && x in f.words[lean..v2])
  {
    hide Loaded, AllApart, Found, Kept, Offers;
    var x := pc - images[i].low;
    assert SomeComplete([f]) by { assert Complete([f][0]); }
    LoadedScan(images, i, [f], policy, pc);
    OfferedFirst([f], policy, x);
    KeptElements(f, policy, x);
    TiersOf(f, policy);
  }

  lemma {:induction false} NothingComplete(candidates: seq<MntFile>)
    requires !SomeComplete(candidates)
    ensures ReadCount(candidates) == |candidates|
  {
    if candidates != [] {
      NothingComplete(candidates[1..]);
    }
  }

  lemma RemoveImage(images: seq<Image>, i: nat)
    requires AllApart(images) && i < |images|
    requires forall j :: 0 <= j < i ==> images[j].low != images[i].low
    ensures AllApart(images[..i] + images[i + 1..])
    ensures images[..i] + images[i + 1..] == Without(images, images[i].low)
  {
    WithoutAt(images, images[i].low, i);
  }

  ghost function RangesOf(ranges: seq<Range>): set<Range> { set r | r in ranges }

  // Removing the first image that starts at `low`.
  ghost function Without(images: seq<Image>, low: Addr): seq<Image> {
    if images == [] then []
    else if images[0].low == low then images[1..]
    else [images[0]] + Without(images[1..], low)
  }

  /** The predecessor in a sorted sequence is the one the probe means. */
  lemma PredecessorAt(ranges: seq<Range>, at: nat, pc: Addr)
    requires at <= |ranges| && pc + 1 < WORD
    requires forall i :: 0 <= i < at ==> Key(ranges[i]) < Key(Range(pc + 1, 0))
    requires forall i :: at <= i < |ranges| ==> Key(Range(pc + 1, 0)) <= Key(ranges[i])
    requires SortedBy(ranges, Key)
    ensures Probe(RangesOf(ranges), pc) <==> at > 0 && Contains(ranges[at - 1], pc)
  {
    forall i | 0 <= i < |ranges| ensures ranges[i].lo <= pc <==> i < at {
      KeyOrder(ranges[i], Range(pc + 1, 0));
    }
    if at > 0 {
      var p := ranges[at - 1];
      assert IsPredecessor(RangesOf(ranges), p, pc) by {
        forall s | s in RangesOf(ranges) && s.lo <= pc ensures Key(s) <= Key(p) {
          var i :| 0 <= i < |ranges| && ranges[i] == s;
        }
      }
      forall q | IsPredecessor(RangesOf(ranges), q, pc) ensures q == p {
        KeyOrder(p, q);
      }
    } else {
      assert forall q :: q in RangesOf(ranges) ==> q.lo > pc;
    }
  }

  lemma NothingProbed(pc: Addr)
    ensures !Probe(RangesOf([]), pc)
  {
  }

  lemma SortedRanges(ranges: seq<Range>)
    ensures SortedBy(Sort(ranges, Key), Key) && RangesOf(Sort(ranges, Key)) == RangesOf(ranges)
    ensures forall r :: r in Sort(ranges, Key) <==> r in ranges
  {
    hide Sort;
    SortIsSorting(ranges, Key);
    forall r ensures r in Sort(ranges, Key) <==> r in ranges {
      SamePermutedElements(Sort(ranges, Key), ranges, r);
    }
  }

  // The probe into the sorted index.
  method ProbeSorted(ranges: seq<Range>, pc: Addr) returns (hit: bool)
    requires SortedBy(ranges, Key)
    ensures hit <==> Probe(RangesOf(ranges), pc)
  {
    hide Bound, SortedBy, RangesOf, Probe;
    var probe := Range(if pc + 1 < WORD then pc + 1 else 0, 0);
    var at := LowerBound(ranges, Key, Key(probe));
    if pc + 1 < WORD {
      PredecessorAt(ranges, at, pc);
    } else {
      LastAddressMissed(ranges, at);
    }
    hit := at > 0 && Contains(ranges[at - 1], pc);
  }

  class Consumer {
    const policy: Policy
    var images: seq<Image>
    var lastImg: Option<nat>
    var ranges: seq<Range>
    var dirty: bool
    var lookups: nat
    var hits: nat
    var missesNoImg: nat
    var rtnHits: nat

    ghost function View(): World
      reads this
    {
      World(images, RangesOf(ranges))
    }

    ghost predicate Valid()
      reads this
    {
      && (lastImg.Some? ==> lastImg.value < |images|)
      && AllApart(images)
      && (!dirty ==> SortedBy(ranges, Key))
      && (forall r :: r in ranges ==> r.lo < r.hi)
    }

    constructor (p: Policy)
      ensures Valid() && policy == p && View() == World([], {})
    {
      policy := p;
      images, lastImg, ranges, dirty := [], None, [], false;
      lookups, hits, missesNoImg, rtnHits := 0, 0, 0, 0;
    }

    /** rtn_range_contains: sort if needed, then probe for the predecessor. The
        probe key (pc + 1, 0) wraps to (0, 0) at the last address. */
    method RtnRangeContains(pc: Addr) returns (hit: bool)
      requires Valid()
      modifies this`ranges, this`dirty
      ensures Valid() && View() == old(View())
      ensures hit <==> Probe(View().ranges, pc)
    {
      hide Bound, Sort, SortedBy, RangesOf, Probe, AllApart;
      if ranges == [] {
        NothingProbed(pc);
        return false;
      }
      if dirty {
        SortedRanges(ranges);
        ranges := Sort(ranges, Key);
        dirty := false;
      }
      hit := ProbeSorted(ranges, pc);
    }

    method AddRtnRange(low: Addr, high: Addr)
      requires Valid()
      modifies this`ranges, this`dirty
      ensures Valid()
      ensures View() == World(old(images), old(View()).ranges + if high <= low then {} else {Range(low, high)})
    {
      if high <= low {
        return;
      }
      ranges := ranges + [Range(low, high)];
      dirty := true;
      assert RangesOf(ranges) == old(RangesOf(ranges)) + {Range(low, high)};
    }

    /** on_module_load: [start, end) with its candidate files. */
    method OnModuleLoad(start: Addr, end: Addr, candidates: seq<MntFile>)
      requires Valid() && start < end
      requires forall im :: im in images ==> Apart(im, Image(start, end - 1, []))
      modifies this`images, this`lastImg
      ensures Valid()
      ensures View() == World(
        if policy == Off then old(images)
        else old(images) + [Image(start, end - 1, Loaded([], candidates, policy))],
        old(View()).ranges)
    {
      if policy == Off {
        return;
      }
      var mnt := LoadCandidates(candidates, policy);
      images := images + [Image(start, end - 1, mnt)];
      lastImg := None;
      forall i | 0 <= i < |images| - 1 ensures Apart(images[i], images[|images| - 1]) {
        assert images[i] in old(images);
      }
    }

    /** on_module_unload: the first image that starts there is dropped, and the
        cache with it. */
    method OnModuleUnload(start: Addr)
      requires Valid()
      modifies this`images, this`lastImg
      ensures Valid()
      ensures View() == World(Without(old(images), start), old(View()).ranges)
    {
      hide AllApart, Without;
      for i := 0 to |images|
        invariant images == old(images) && lastImg == old(lastImg)
        invariant forall j :: 0 <= j < i ==> images[j].low != start
      {
        if images[i].low == start {
          RemoveImage(images, i);
          images := images[..i] + images[i + 1..];
          lastImg := None;
          return;
        }
      }
      WithoutNone(images, start);
    }

    /** is_mnt, with its cache, its searches and its lazy sort. */
    method IsMnt(pc: Addr) returns (skip: bool)
      requires Valid()
      modifies this
      ensures Valid() && View() == old(View())
      ensures skip <==> Answer(View(), policy, pc)
      ensures WordsSorted(images) ==> (skip <==> Skippable(View(), policy, pc))
    {
      hide AllApart, Found, Probe;
      SortedAnswersIf(View(), policy, pc);
      if policy == Off {
        skip := RtnRangeContains(pc);
        if skip { rtnHits := rtnHits + 1; }
        return;
      }
      lookups := lookups + 1;
      if lastImg.Some? && InImage(images[lastImg.value], pc) {
        skip := LookIn(lastImg.value, pc);
        return;
      }
      for i := 0 to |images|
        invariant Valid() && View() == old(View())
        invariant forall j :: 0 <= j < i ==> !InImage(images[j], pc)
      {
        if InImage(images[i], pc) {
          lastImg := Some(i);
          skip := LookIn(i, pc);
          return;
        }
      }
      missesNoImg := missesNoImg + 1;
      skip := RtnRangeContains(pc);
      if skip { rtnHits := rtnHits + 1; }
    }

    // The lookup inside the image that contains pc.
    method LookIn(i: nat, pc: Addr) returns (skip: bool)
      requires Valid() && policy != Off && i < |images| && InImage(images[i], pc)
      modifies this
      ensures Valid() && View() == old(View())
      ensures skip <==> Answer(View(), policy, pc)
    {
      OneImageAnswers(images, i, pc);
      skip := BinarySearch(images[i].mnt, pc - images[i].low);
      if skip {
        hits := hits + 1;
        return;
      }
      skip := RtnRangeContains(pc);
      if skip { rtnHits := rtnHits + 1; }
    }
  }

  lemma SortedAnswersIf(w: World, policy: Policy, pc: Addr)
    ensures WordsSorted(w.images) ==> (Answer(w, policy, pc) <==> Skippable(w, policy, pc))
  {
    if WordsSorted(w.images) {
      SortedAnswers(w, policy, pc);
    }
  }

  /** No range can contain the last address, so the wrapped probe is right. */
  lemma LastAddressMissed(ranges: seq<Range>, at: nat)
    requires at <= |ranges| && forall i :: 0 <= i < at ==> Key(ranges[i]) < Key(Range(0, 0))
    ensures at == 0 && !Probe(RangesOf(ranges), WORD - 1)
  {
    assert at == 0 || Key(ranges[0]) < Key(Range(0, 0));
  }

  lemma {:induction false} WithoutAt(images: seq<Image>, low: Addr, i: nat)
    requires i < |images| && images[i].low == low && forall j :: 0 <= j < i ==> images[j].low != low
    ensures Without(images, low) == images[..i] + images[i + 1..]
  {
    if i > 0 {
      WithoutAt(images[1..], low, i - 1);
    }
  }

  lemma {:induction false} WithoutNone(images: seq<Image>, low: Addr)
    requires forall j :: 0 <= j < |images| ==> images[j].low != low
    ensures Without(images, low) == images
  {
    if images != [] {
      WithoutNone(images[1..], low);
    }
  }

  // --------------------------------------------------------------- histories

  datatype Event =
    | LoadModule(start: Addr, end: Addr, candidates: seq<MntFile>)
    | UnloadModule(start: Addr)
    | AddRange(lo: Addr, hi: Addr)
    | Query(pc: Addr)

  ghost function Next(w: World, policy: Policy, e: Event): World {
    match e
    case LoadModule(start, end, candidates) =>
      if policy == Off || end == 0 then w
      else w.(images := w.images + [Image(start, end - 1, Loaded([], candidates, policy))])
    case UnloadModule(start) => w.(images := Without(w.images, start))
    case AddRange(lo, hi) => w.(ranges := w.ranges + if hi <= lo then {} else {Range(lo, hi)})
    case Query(_) => w
  }

  ghost function WorldAfter(policy: Policy, events: seq<Event>): World {
    if events == [] then World([], {})
    else Next(WorldAfter(policy, events[..|events| - 1]), policy, events[|events| - 1])
  }

  // A module is loaded where no loaded module is.
  ghost predicate Allowed(w: World, e: Event) {
    e.LoadModule? ==>
      && e.start < e.end
      && forall im :: im in w.images ==> Apart(im, Image(e.start, e.end - 1, []))
  }

  ghost predicate Admissible(policy: Policy, events: seq<Event>) {
    forall k :: 0 <= k < |events| ==> Allowed(WorldAfter(policy, events[..k]), events[k])
  }

  // Every loaded module had a complete candidate, or cut ones that left sorted
  // words.
  ghost predicate LoadsSorted(policy: Policy, e: Event) {
    e.LoadModule? ==>
      SomeComplete(e.candidates) || SortedBy(AllKept(e.candidates, policy), Value)
  }

  /** Every answer of every history of loads, unloads, registrations and queries
      is the answer of the searches, whatever the files held, and that of the
      scan when every load left sorted words. */
  method RunHistory(policy: Policy, events: seq<Event>) returns (answers: seq<bool>)
    requires Admissible(policy, events)
    ensures |answers| == |events|
    ensures forall k :: 0 <= k < |events| && events[k].Query? ==>
              (answers[k] <==> Answer(WorldAfter(policy, events[..k]), policy, events[k].pc))
    ensures (forall k :: 0 <= k < |events| ==> LoadsSorted(policy, events[k])) ==>
              forall k :: 0 <= k < |events| && events[k].Query? ==>
                (answers[k] <==> Skippable(WorldAfter(policy, events[..k]), policy, events[k].pc))
  {
    var c := new Consumer(policy);
    answers := [];
    for k := 0 to |events|
      invariant c.Valid() && c.policy == policy && fresh(c)
      invariant c.View() == WorldAfter(policy, events[..k])
      invariant |answers| == k
      invariant forall j :: 0 <= j < k && events[j].Query? ==>
                  (answers[j] <==> Answer(WorldAfter(policy, events[..j]), policy, events[j].pc))
    {
      hide Answer, Consumer.Valid, Consumer.View, Next;
      assert events[..k + 1][..k] == events[..k];
      var answer := Perform(c, events[k]);
      answers := answers + [answer];
    }
    if forall k :: 0 <= k < |events| ==> LoadsSorted(policy, events[k]) {
      forall k | 0 <= k < |events| && events[k].Query?
        ensures answers[k] <==> Skippable(WorldAfter(policy, events[..k]), policy, events[k].pc)
      {
        WorldIsSorted(policy, events[..k]);
        SortedAnswers(WorldAfter(policy, events[..k]), policy, events[k].pc);
      }
    }
  }

  lemma {:induction false} WorldIsSorted(policy: Policy, events: seq<Event>)
    requires forall k :: 0 <= k < |events| ==> LoadsSorted(policy, events[k])
    ensures WordsSorted(WorldAfter(policy, events).images)
  {
    if events != [] {
      var init, e := events[..|events| - 1], events[|events| - 1];
      var w := WorldAfter(policy, init);
      WorldIsSorted(policy, init);
      if e.LoadModule? {
        SortedLoad(e.candidates, policy);
      } else if e.UnloadModule? {
        WithoutKeepsSorted(w.images, e.start);
      }
    }
  }

  lemma SortedLoad(candidates: seq<MntFile>, policy: Policy)
    requires SomeComplete(candidates) || SortedBy(AllKept(candidates, policy), Value)
    ensures SortedBy(Loaded([], candidates, policy), Value)
  {
    LoadedWords(candidates, policy);
    if !SomeComplete(candidates) {
      NothingComplete(candidates);
      assert candidates[..|candidates|] == candidates;
    }
  }

  lemma {:induction false} WithoutKeepsSorted(images: seq<Image>, low: Addr)
    requires WordsSorted(images)
    ensures WordsSorted(Without(images, low))
  {
    if images != [] && images[0].low != low {
      WithoutKeepsSorted(images[1..], low);
    }
  }

  // One event, on the consumer.
  method Perform(c: Consumer, e: Event) returns (answer: bool)
    requires c.Valid() && Allowed(c.View(), e)
    modifies c
    ensures c.Valid() && c.View() == Next(old(c.View()), c.policy, e)
    ensures e.Query? ==> (answer <==> Answer(old(c.View()), c.policy, e.pc))
  {
    hide Answer, Skippable, Consumer.Valid, Without, Loaded;
    answer := false;
    match e {
      case LoadModule(start, end, candidates) => c.OnModuleLoad(start, end, candidates);
      case UnloadModule(start) => c.OnModuleUnload(start);
      case AddRange(lo, hi) => c.AddRtnRange(lo, hi);
      case Query(pc) => answer := c.IsMnt(pc);
    }
  }
}
