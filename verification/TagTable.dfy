/** The interned-set table: a 32-bit id stands for a set of input offsets.
    Three containers, updated in place, have to agree: `sets` (id -> set),
    `intern` (printed set -> id) and `memo` (packed pair of ids -> id of the
    union). */
module TagTables {
  import opened TagText

  const ID_LIMIT: nat := 0x1_0000_0000

  // An id is a 32-bit word; 0 is the cleared tag.
  type TagId = x: nat | x < ID_LIMIT

  const CLEARED: TagId := 0

  // The memo key (a << 32) | b and its two halves.
  function Pack(a: TagId, b: TagId): nat { a * ID_LIMIT + b }

  function High(key: nat): nat { key / ID_LIMIT }

  function Low(key: nat): TagId { key % ID_LIMIT }

  /** The packed key is injective: both ids can be read back from it. */
  lemma UnpackOfPack(a: TagId, b: TagId)
    ensures High(Pack(a, b)) == a && Low(Pack(a, b)) == b
    ensures Pack(a, b) < ID_LIMIT * ID_LIMIT
  {
  }

  /** The same on machine words: both halves of (a << 32) | b. */
  lemma ShiftedKey(a: bv64, b: bv64)
    requires a <= 0xffff_ffff && b <= 0xffff_ffff
    ensures var key := (a << 32) | b; key >> 32 == a && key & 0xffff_ffff == b
  {
  }

  // ---------------------------------------------------------- the invariant

  ghost predicate SetsCanonical(sets: seq<set<Label>>) {
    && 0 < |sets| <= ID_LIMIT
    && sets[0] == {}
    && forall i, j :: 0 <= i < j < |sets| ==> sets[i] != sets[j]
  }

  ghost predicate InternInverse(sets: seq<set<Label>>, intern: map<string, TagId>) {
    && (forall i :: 0 <= i < |sets| ==> Sprint(sets[i]) in intern && intern[Sprint(sets[i])] == i)
    && (forall k :: k in intern ==> intern[k] < |sets| && Sprint(sets[intern[k]]) == k)
  }

  ghost predicate MemoEntry(sets: seq<set<Label>>, memo: map<nat, TagId>, key: nat)
    requires key in memo
  {
    var a, b := High(key), Low(key);
    && a < |sets| && a < ID_LIMIT && b < |sets| && memo[key] < |sets|
    && sets[memo[key]] == sets[a] + sets[b]
    && Pack(b, a) in memo && memo[Pack(b, a)] == memo[key]
  }

  ghost predicate MemoSound(sets: seq<set<Label>>, memo: map<nat, TagId>) {
    forall key :: key in memo ==> MemoEntry(sets, memo, key)
  }

  /** Equal ids mean equal sets and the other way round, so testing `id != 0`
      tests for a non-empty set. */
  lemma IdsAreCanonical(sets: seq<set<Label>>, a: TagId, b: TagId)
    requires SetsCanonical(sets) && a < |sets| && b < |sets|
    ensures a == b <==> sets[a] == sets[b]
    ensures a != CLEARED <==> sets[a] != {}
  {
  }

  ghost predicate Consistent(sets: seq<set<Label>>, intern: map<string, TagId>, memo: map<nat, TagId>) {
    SetsCanonical(sets) && InternInverse(sets, intern) && MemoSound(sets, memo)
  }

  /** A set's text is a key of the intern map exactly when the set is in the
      table, and then it leads to the set. */
  lemma InternLookup(sets: seq<set<Label>>, intern: map<string, TagId>, s: set<Label>)
    requires InternInverse(sets, intern)
    ensures Sprint(s) in intern <==> s in sets
    ensures Sprint(s) in intern ==> intern[Sprint(s)] < |sets| && sets[intern[Sprint(s)]] == s
  {
    hide Sprint;
    if Sprint(s) in intern {
      SprintInjective(sets[intern[Sprint(s)]], s);
    }
  }

  lemma LookupOfConsistent(sets: seq<set<Label>>, intern: map<string, TagId>, memo: map<nat, TagId>, s: set<Label>)
    requires Consistent(sets, intern, memo)
    ensures Sprint(s) in intern <==> s in sets
    ensures Sprint(s) in intern ==> intern[Sprint(s)] < |sets| && sets[intern[Sprint(s)]] == s
    ensures |sets| == ID_LIMIT && s !in sets ==> sets[0] != s
  {
    InternLookup(sets, intern, s);
  }

  /** A set that is not in the table can be appended to it. */
  lemma AppendConsistent(sets: seq<set<Label>>, intern: map<string, TagId>, memo: map<nat, TagId>, s: set<Label>)
    requires Consistent(sets, intern, memo)
    requires s !in sets && |sets| < ID_LIMIT
    ensures Consistent(sets + [s], intern[Sprint(s) := |sets|], memo)
  {
    InternAppend(sets, intern, s);
    MemoGrow(sets, memo, s);
  }

  lemma InternAppend(sets: seq<set<Label>>, intern: map<string, TagId>, s: set<Label>)
    requires InternInverse(sets, intern) && s !in sets && |sets| < ID_LIMIT
    ensures InternInverse(sets + [s], intern[Sprint(s) := |sets|])
  {
    hide Sprint;
    forall i | 0 <= i < |sets| ensures Sprint(sets[i]) != Sprint(s) {
      SprintInjective(sets[i], s);
    }
  }

  lemma MemoGrow(sets: seq<set<Label>>, memo: map<nat, TagId>, s: set<Label>)
    requires MemoSound(sets, memo)
    ensures MemoSound(sets + [s], memo)
  {
  }

  /** A union can be memoised under both orders of its operands. */
  lemma MemoInsert(sets: seq<set<Label>>, memo: map<nat, TagId>, l: TagId, r: TagId, id: TagId)
    requires MemoSound(sets, memo)
    requires l < |sets| && r < |sets| && id < |sets| && sets[id] == sets[l] + sets[r]
    ensures MemoSound(sets, memo[Pack(l, r) := id][Pack(r, l) := id])
  {
    hide High, Low, Pack, MemoEntry;
    var memo' := memo[Pack(l, r) := id][Pack(r, l) := id];
    forall key | key in memo' ensures MemoEntry(sets, memo', key) {
      if key == Pack(l, r) || key == Pack(r, l) {
        NewEntry(sets, memo', l, r, id);
      } else {
        assert MemoEntry(sets, memo, key);
        OldEntry(sets, memo, l, r, id, key);
      }
    }
  }

  lemma NewEntry(sets: seq<set<Label>>, memo: map<nat, TagId>, l: TagId, r: TagId, id: TagId)
    requires l < |sets| && r < |sets| && id < |sets| && sets[id] == sets[l] + sets[r]
    requires Pack(l, r) in memo && memo[Pack(l, r)] == id && Pack(r, l) in memo && memo[Pack(r, l)] == id
    ensures MemoEntry(sets, memo, Pack(l, r)) && MemoEntry(sets, memo, Pack(r, l))
  {
    hide High, Low, Pack;
    UnpackOfPack(l, r);
    UnpackOfPack(r, l);
    assert sets[l] + sets[r] == sets[r] + sets[l];
  }

  lemma OldEntry(sets: seq<set<Label>>, memo: map<nat, TagId>, l: TagId, r: TagId, id: TagId, key: nat)
    requires key in memo && MemoEntry(sets, memo, key) && key != Pack(l, r) && key != Pack(r, l)
    ensures MemoEntry(sets, memo[Pack(l, r) := id][Pack(r, l) := id], key)
  {
    hide High, Low, Pack;
    MirrorDiffers(key, l, r);
  }

  lemma MirrorDiffers(key: nat, l: TagId, r: TagId)
    requires High(key) < ID_LIMIT && key != Pack(l, r) && key != Pack(r, l)
    ensures Pack(Low(key), High(key)) != Pack(l, r) && Pack(Low(key), High(key)) != Pack(r, l)
  {
  }

  /** What a memo hit returns. */
  lemma MemoHit(sets: seq<set<Label>>, intern: map<string, TagId>, memo: map<nat, TagId>, l: TagId, r: TagId)
    requires Consistent(sets, intern, memo)
    requires l < |sets| && r < |sets| && Pack(l, r) in memo
    ensures memo[Pack(l, r)] < |sets| && sets[memo[Pack(l, r)]] == sets[l] + sets[r]
  {
    hide High, Low, Pack;
    UnpackOfPack(l, r);
    assert MemoEntry(sets, memo, Pack(l, r));
  }

  lemma ConsistentAfterMemo(sets: seq<set<Label>>, intern: map<string, TagId>, memo: map<nat, TagId>,
                            l: TagId, r: TagId, id: TagId)
    requires Consistent(sets, intern, memo)
    requires l < |sets| && r < |sets| && id < |sets| && sets[id] == sets[l] + sets[r]
    ensures Consistent(sets, intern, memo[Pack(l, r) := id][Pack(r, l) := id])
  {
    MemoInsert(sets, memo, l, r, id);
  }

  lemma ClearedIsEmpty(sets: seq<set<Label>>, intern: map<string, TagId>, memo: map<nat, TagId>)
    requires Consistent(sets, intern, memo)
    ensures sets[CLEARED] == {} && SetsCanonical(sets)
  {
  }

  // ---------------------------------------------------------------- the table

  class TagTable {
    var sets: seq<set<Label>>
    var intern: map<string, TagId>
    var memo: map<nat, TagId>

    // Ids are truncated to 32 bits, so the table is meaningful up to 2^32 sets.
    ghost predicate Live()
      reads this
    {
      |sets| <= ID_LIMIT
    }

    ghost predicate Valid()
      reads this
    {
      && |sets| > 0 && sets[CLEARED] == {}
      && (forall k :: k in intern ==> intern[k] < |sets|)
      && (forall k :: k in memo ==> memo[k] < |sets|)
      && (Live() ==> Consistent(sets, intern, memo))
    }

    // The sets a sequence of ids denotes.
    ghost function SetsOf(ids: seq<TagId>): (vals: seq<set<Label>>)
      requires forall i :: 0 <= i < |ids| ==> ids[i] < |sets|
      reads this
      ensures |vals| == |ids|
    {
      var known := sets;
      seq(|ids|, i requires 0 <= i < |ids| => known[ids[i]])
    }

    // tagmap_alloc: id 0 is the empty set.
    constructor ()
      ensures Valid() && sets == [{}] && Live()
    {
      sets := [{}];
      intern := map[Sprint({}) := 0];
      memo := map[];
    }

    /** intern_set: equal sets share an id. The id denotes the set, unless the
        set is new and the 32-bit id space is used up: then the truncated id
        belongs to another set. */
    method Intern(s: set<Label>) returns (id: TagId)
      requires Valid()
      modifies this
      ensures Valid() && old(sets) <= sets <= old(sets) + [s]
      ensures memo == old(memo)
      ensures id < |sets|
      ensures Live() ==> sets[id] == s
      ensures old(Live()) ==> (sets == old(sets) <==> s in old(sets))
      ensures old(Live()) ==> (sets[id] == s <==> s in old(sets) || |old(sets)| < ID_LIMIT)
    {
      hide Sprint, Consistent;
      var k := Sprint(s);
      if Live() {
        LookupOfConsistent(sets, intern, memo, s);
      }
      if k in intern {
        return intern[k];
      }
      id := |sets| % ID_LIMIT;
      if |sets| < ID_LIMIT {
        AppendConsistent(sets, intern, memo, s);
      }
      sets := sets + [s];
      intern := intern[k := id];
    }

    /** dft_label::set: the id of a singleton; the offset is cut to 32 bits. */
    method SetLabel(offset: int) returns (id: TagId)
      requires Valid()
      modifies this
      ensures Valid() && old(sets) <= sets && |sets| <= |old(sets)| + 1
      ensures id < |sets|
      ensures Live() ==> sets[id] == {offset % ID_LIMIT}
    {
      id := Intern({offset % ID_LIMIT});
    }

    /** tag_combine: the id of the union, memoised under both packed keys. */
    method Combine(l: TagId, r: TagId) returns (id: TagId)
      requires Valid() && l < |sets| && r < |sets|
      modifies this
      ensures Valid() && old(sets) <= sets && |sets| <= |old(sets)| + 1
      ensures id < |sets|
      ensures Live() ==> sets[id] == old(sets)[l] + old(sets)[r]
    {
      hide Sprint, Consistent, Pack;
      if Live() {
        ClearedIsEmpty(sets, intern, memo);
      }
      if l == r { return l; }
      if l == CLEARED { return r; }
      if r == CLEARED { return l; }
      if Pack(l, r) in memo {
        if Live() {
          MemoHit(sets, intern, memo, l, r);
        }
        return memo[Pack(l, r)];
      }
      id := Intern(sets[l] + sets[r]);
      if Live() {
        ConsistentAfterMemo(sets, intern, memo, l, r, id);
      }
      memo := memo[Pack(l, r) := id][Pack(r, l) := id];
    }

    // The set an id stands for; an id outside the table counts as empty.
    ghost function SetOf(id: TagId): set<Label>
      reads this
    {
      if id < |sets| then sets[id] else {}
    }

    /** numberOfOnes */
    function NumberOfOnes(id: TagId): (n: nat)
      requires Valid()
      reads this
      ensures n == |SetOf(id)|
    {
      if id == 0 || id >= |sets| then 0 else |sets[id]|
    }

    /** tag_sprint */
    function SprintTag(id: TagId): (text: string)
      requires Valid()
      reads this
      ensures text == Sprint(SetOf(id))
    {
      if id == 0 || id >= |sets| then "{}" else Sprint(sets[id])
    }

    /** tag_walk: the labels in ascending order, with the state the visitor
        carries, up to and including the first one it refuses; `complete` says
        that none was refused. */
    method Walk<S>(id: TagId, visit: (S, Label) -> (S, bool), user: S)
      returns (user': S, visited: seq<Label>, complete: bool)
      requires Valid()
      ensures visited <= Ascending(SetOf(id)) && user' == Carried(visit, user, visited)
      ensures complete ==> visited == Ascending(SetOf(id))
      ensures !complete ==> visited != []
      ensures var xs := Ascending(SetOf(id));
              && (complete <==> forall i :: 0 <= i < |xs| ==> Accepts(visit, user, xs, i))
              && forall i :: 0 <= i < |visited| - 1 ==> Accepts(visit, user, xs, i)
    {
      hide Sprint, Consistent, Least, Ascending;
      user', visited, complete := user, [], true;
      if id == 0 || id >= |sets| {
        AscendingIsSorted({});
        return;
      }
      var xs := Ascending(sets[id]);
      for i := 0 to |xs|
        invariant complete && visited == xs[..i] && user' == Carried(visit, user, visited)
        invariant forall j :: 0 <= j < i ==> Accepts(visit, user, xs, j)
      {
        assert xs[..i + 1][..i] == xs[..i];
        var (next, more) := visit(user', xs[i]);
        visited, user', complete := visited + [xs[i]], next, more;
        assert visited == xs[..i + 1];
        if !more {
          assert !Accepts(visit, user, xs, i);
          return;
        }
      }
    }
  }

  // The visitor's state after it has seen the labels xs.
  ghost function Carried<S>(visit: (S, Label) -> (S, bool), user: S, xs: seq<Label>): S {
    if xs == [] then user else visit(Carried(visit, user, xs[..|xs| - 1]), xs[|xs| - 1]).0
  }

  /** The state is handed on from one visit to the next, in order. */
  lemma {:induction false} CarriedInOrder<S>(visit: (S, Label) -> (S, bool), user: S, xs: seq<Label>, ys: seq<Label>)
    ensures Carried(visit, user, xs + ys) == Carried(visit, Carried(visit, user, xs), ys)
    ensures forall x :: Carried(visit, user, [x]) == visit(user, x).0
  {
    forall x ensures Carried(visit, user, [x]) == visit(user, x).0 {
      assert [x][..0] == [];
      assert Carried(visit, user, []) == user;
    }
    if ys == [] {
      assert xs + ys == xs;
    } else {
      CarriedInOrder(visit, user, xs, ys[..|ys| - 1]);
      assert (xs + ys)[..|xs + ys| - 1] == xs + ys[..|ys| - 1];
    }
  }

  // Having seen the labels before it, the visitor accepts label i.
  ghost predicate Accepts<S>(visit: (S, Label) -> (S, bool), user: S, xs: seq<Label>, i: nat)
    requires i < |xs|
  {
    visit(Carried(visit, user, xs[..i]), xs[i]).1
  }
}
