/** Comparison and LEA records: how the handlers build them, which ones the
    noise filter drops, and the bytes the two writers produce. */
module Sinks {
  import opened TagText
  import opened TagTables
  import opened ShadowDirectory
  import opened Cells
  import opened Options
  import opened Engines

  // ----------------------------------------------------------------- writers

  // Every field followed by a blank, then the newline.
  function Body(fields: seq<string>): string {
    if fields == [] then "" else Body(fields[..|fields| - 1]) + fields[|fields| - 1] + " "
  }

  /** One field is its text and a blank, and fields come out in order. */
  lemma {:induction false} BodyInOrder(a: seq<string>, b: seq<string>, f: string)
    ensures Body([]) == "" && Body([f]) == f + " " && Body(a + b) == Body(a) + Body(b)
  {
    assert [f][..0] == [];
    if b == [] {
      assert a + b == a;
    } else {
      var k := |b| - 1;
      BodyInOrder(a, b[..k], f);
      assert (a + b)[..|a + b| - 1] == a + b[..k];
    }
  }

  // Where field k begins in a line: after the fields before it and their blanks.
  function FieldStart(fields: seq<string>, k: nat): nat
    requires k <= |fields|
  {
    if k == 0 then 0 else FieldStart(fields, k - 1) + |fields[k - 1]| + 1
  }

  lemma {:induction false} BodyLength(fields: seq<string>, k: nat)
    requires k <= |fields|
    ensures |Body(fields[..k])| == FieldStart(fields, k)
  {
    if k > 0 {
      BodyLength(fields, k - 1);
      assert fields[..k][..k - 1] == fields[..k - 1];
    }
  }

  /** The line that reaches the file, field by field: it ends in a newline, and
      field k stands at its place, followed by a blank. */
  lemma LineLayout(fields: seq<string>, lo: nat, hi: nat, limit: int, k: nat)
    requires k < |fields| && hi <= |fields| && Output(fields, lo, hi, limit).Some?
    ensures var line, at, len := Output(fields, lo, hi, limit).value, FieldStart(fields, k), |fields[k]|;
            && |line| == FieldStart(fields, |fields|) + 1 && line[|line| - 1] == '\n'
            && at + len + 1 < |line| && line[at..at + len] == fields[k] && line[at + len] == ' '
  {
    hide Noisy, Body;
    BodyLength(fields, k);
    BodyLength(fields, |fields|);
    assert fields[..|fields|] == fields;
    BodyAround(fields, k);
    Prefixed(Body(fields[..k]), fields[k], Body(fields[k + 1..]));
  }

  lemma BodyAround(fields: seq<string>, k: nat)
    requires k < |fields|
    ensures Body(fields) == Body(fields[..k]) + (fields[k] + " " + Body(fields[k + 1..]))
  {
    hide Body;
    var a, f, b := fields[..k], fields[k], fields[k + 1..];
    assert fields == a + ([f] + b);
    BodyInOrder(a, [f] + b, f);
    BodyInOrder([f], b, f);
  }

  lemma Prefixed(a: string, f: string, b: string)
    ensures var line := a + (f + " " + b) + "\n";
            line[|a|..|a| + |f|] == f && line[|a| + |f|] == ' '
  {
  }

  /** A record is dropped exactly when some filtered field has more than limit
      comma-separated tokens. */
  lemma DroppedRecords(fields: seq<string>, lo: nat, hi: nat, limit: int)
    requires hi <= |fields|
    ensures Output(fields, lo, hi, limit).None? <==> exists i :: lo <= i < hi && CommaCount(fields[i]) + 1 > limit
  {
    hide Split, CommaCount;
    if i :| lo <= i < hi && CommaCount(fields[i]) + 1 > limit {
      assert |Split(fields[i])| > limit;
    }
    if i :| lo <= i < hi && |Split(fields[i])| > limit {
      assert CommaCount(fields[i]) + 1 > limit;
    }
  }

  // Some filtered field splits into more tokens than the limit allows.
  predicate Noisy(fields: seq<string>, lo: nat, hi: nat, limit: int)
    requires hi <= |fields|
  {
    exists i :: lo <= i < hi && |Split(fields[i])| > limit
  }

  // What reaches the file.
  function Output(fields: seq<string>, lo: nat, hi: nat, limit: int): Option<string>
    requires hi <= |fields|
  {
    if Noisy(fields, lo, hi, limit) then None else Some(Body(fields) + "\n")
  }

  method Filter(fields: seq<string>, lo: nat, hi: nat, limit: int) returns (noisy: bool)
    requires lo <= hi <= |fields|
    ensures noisy <==> Noisy(fields, lo, hi, limit)
  {
    for i := lo to hi
      invariant forall j :: lo <= j < i ==> |Split(fields[j])| <= limit
    {
      var n := CommaTokens(fields[i]);
      if n > limit {
        return true;
      }
    }
    noisy := false;
  }

  /** legacy_write_cmp: filters fields 3..18 and joins exactly 21 fields. */
  method LegacyWriteCmp(o: seq<string>, limit: int) returns (line: Option<string>)
    requires |o| >= 21
    ensures line == Output(o[..21], 3, 19, limit)
  {
    hide Split;
    assert forall i :: 3 <= i < 19 ==> o[..21][i] == o[i];
    var noisy := Filter(o, 3, 19, limit);
    if noisy {
      var i :| 3 <= i < 19 && |Split(o[i])| > limit;
      assert |Split(o[..21][i])| > limit;
      return None;
    }
    var text := "";
    for i := 0 to 21
      invariant text == Body(o[..i])
    {
      assert o[..i + 1][..i] == o[..i];
      text := text + o[i];
      text := text + " ";
    }
    line := Some(text + "\n");
  }

  /** legacy_write_lea: filters fields 2..9 and joins exactly 10 fields. */
  method LegacyWriteLea(o: seq<string>, limit: int) returns (line: Option<string>)
    requires |o| >= 10
    ensures line == Output(o[..10], 2, 10, limit)
  {
    hide Split;
    assert forall i :: 2 <= i < 10 ==> o[..10][i] == o[i];
    var noisy := Filter(o, 2, 10, limit);
    if noisy {
      var i :| 2 <= i < 10 && |Split(o[i])| > limit;
      assert |Split(o[..10][i])| > limit;
      return None;
    }
    var text := "";
    for i := 0 to 10
      invariant text == Body(o[..i])
    {
      assert o[..i + 1][..i] == o[..i];
      text := text + o[i];
      text := text + " ";
    }
    line := Some(text + "\n");
  }

  /** The client's writer: joins all fields. */
  method WriteRecord(fields: seq<string>, lo: nat, hi: nat, maxoff: int) returns (line: Option<string>)
    requires lo <= hi <= |fields|
    ensures line == Output(fields, lo, hi, maxoff)
  {
    var noisy := Filter(fields, lo, hi, maxoff);
    if noisy {
      return None;
    }
    var text := "";
    for i := 0 to |fields|
      invariant text == Body(fields[..i])
    {
      assert fields[..i + 1][..i] == fields[..i];
      text := text + fields[i];
      text := text + " ";
    }
    assert fields[..|fields|] == fields;
    line := Some(text + "\n");
  }

  /** On a 21-field comparison record and on a 10-field LEA record the engine's
      writer and the client's write the same bytes, or both write nothing. */
  method WritersAgree(o: seq<string>, limit: int) returns (legacy: Option<string>, client: Option<string>)
    requires |o| == 21 || |o| == 10
    ensures legacy == client == if |o| == 21 then Output(o, 3, 19, limit) else Output(o, 2, 10, limit)
  {
    assert o[..|o|] == o;
    if |o| == 21 {
      legacy := LegacyWriteCmp(o, limit);
      client := WriteRecord(o, 3, 19, limit);
    } else {
      legacy := LegacyWriteLea(o, limit);
      client := WriteRecord(o, 2, 10, limit);
    }
  }

  // ----------------------------------------------------------------- records

  // Up to 8 byte tags, padded with the empty set's text.
  function TagFields(vals: seq<set<Label>>): seq<string>
    requires |vals| <= 8
  {
    seq(8, i requires 0 <= i < 8 => if i < |vals| then Sprint(vals[i]) else "{}")
  }

  // The 21 fields of a comparison record.
  function CmpFields(head: seq<string>, dest: seq<set<Label>>, src: seq<set<Label>>, vals: seq<string>): seq<string>
    requires |head| == 3 && |dest| <= 8 && |src| <= 8 && |vals| == 2
  {
    head + TagFields(dest) + TagFields(src) + vals
  }

  /** The 21 fields: three of heading, the destination's byte tags in fields 3 to
      10, the source's in 11 to 18, the two values. */
  lemma RecordLayout(head: seq<string>, dest: seq<set<Label>>, src: seq<set<Label>>, vals: seq<string>, i: nat)
    requires |head| == 3 && |dest| <= 8 && |src| <= 8 && |vals| == 2
    ensures var o := CmpFields(head, dest, src, vals);
            && |o| == 21 && o[..3] == head && o[19..] == vals
            && (i < 8 ==> o[3 + i] == if i < |dest| then Sprint(dest[i]) else "{}")
            && (i < 8 ==> o[11 + i] == if i < |src| then Sprint(src[i]) else "{}")
  {
    hide Sprint;
  }

  ghost predicate AnyTainted(dest: seq<set<Label>>, src: seq<set<Label>>) {
    (exists i :: 0 <= i < |dest| && dest[i] != {}) || (exists i :: 0 <= i < |src| && src[i] != {})
  }

  // The limit as an unsigned 64-bit number: a negative one is huge.
  function Unsigned(limit: int): int { if limit < 0 then limit + WORD else limit }

  ghost predicate InWindow(s: set<Label>, limit: int) { 0 < |s| <= Unsigned(limit) }

  // The gate of CMPS: some byte carries at least one offset and at most limit.
  ghost predicate CmpsGate(dest: seq<set<Label>>, src: seq<set<Label>>, limit: int) {
    (exists i :: 0 <= i < |dest| && InWindow(dest[i], limit)) || (exists i :: 0 <= i < |src| && InWindow(src[i], limit))
  }

  /** The gates on a single byte: the plain one opens for any taint, the one of
      CMPS for 1 to limit offsets, and for any taint if the limit is negative. */
  lemma GateOfOneByte(s: set<Label>, limit: int)
    ensures (AnyTainted([s], [{}]) <==> s != {}) && (AnyTainted([{}], [s]) <==> s != {})
    ensures CmpsGate([s], [{}], limit) == CmpsGate([{}], [s], limit)
    ensures 0 <= limit ==> (CmpsGate([s], [{}], limit) <==> 1 <= |s| <= limit)
    ensures -0x8000_0000 <= limit < 0 && |s| <= ID_LIMIT ==> (CmpsGate([s], [{}], limit) <==> s != {})
  {
    var one, none: seq<set<Label>> := [s], [{}];
    assert one[0] == s && none[0] == {};
  }

  ghost predicate AllWithin(vals: seq<set<Label>>, limit: int) {
    forall i :: 0 <= i < |vals| ==> |vals[i]| <= limit
  }

  lemma TagFieldNoise(vals: seq<set<Label>>, limit: int)
    requires |vals| <= 8
    ensures (forall i :: 0 <= i < 8 ==> |Split(TagFields(vals)[i])| <= limit) <==> limit >= 1 && AllWithin(vals, limit)
  {
    hide Split, Sprint;
    forall i | 0 <= i < 8
      ensures |Split(TagFields(vals)[i])| == if i < |vals| && vals[i] != {} then |vals[i]| else 1
    {
      TokensOfSprint(if i < |vals| then vals[i] else {});
      EmptyText();
    }
    if limit >= 1 && !AllWithin(vals, limit) {
      var i :| 0 <= i < |vals| && |vals[i]| > limit;
      assert |Split(TagFields(vals)[i])| > limit;
    }
    if forall i :: 0 <= i < 8 ==> |Split(TagFields(vals)[i])| <= limit {
      assert |Split(TagFields(vals)[0])| <= limit;
      forall i | 0 <= i < |vals| ensures |vals[i]| <= limit {
        assert |Split(TagFields(vals)[i])| <= limit;
      }
    }
  }

  lemma EmptyText()
    ensures Sprint({}) == "{}"
  {
  }

  /** A record passes the filter exactly when the limit is positive and no byte
      carries more offsets than the limit. */
  lemma FilterMeansLimit(head: seq<string>, dest: seq<set<Label>>, src: seq<set<Label>>, vals: seq<string>, limit: int)
    requires |head| == 3 && |dest| <= 8 && |src| <= 8 && |vals| == 2
    ensures !Noisy(CmpFields(head, dest, src, vals), 3, 19, limit) <==>
            limit >= 1 && AllWithin(dest, limit) && AllWithin(src, limit)
  {
    hide Split, Sprint, AllWithin, TagFields;
    var o := CmpFields(head, dest, src, vals);
    TagFieldNoise(dest, limit);
    TagFieldNoise(src, limit);
    TagFieldsLength(dest);
    TagFieldsLength(src);
    assert forall i :: 0 <= i < 8 ==> o[3 + i] == TagFields(dest)[i];
    assert forall i :: 0 <= i < 8 ==> o[11 + i] == TagFields(src)[i];
    assert forall i :: 3 <= i < 11 ==> o[i] == TagFields(dest)[i - 3];
    assert forall i :: 11 <= i < 19 ==> o[i] == TagFields(src)[i - 11];
  }

  lemma TagFieldsLength(vals: seq<set<Label>>)
    requires |vals| <= 8
    ensures |TagFields(vals)| == 8
  {
  }

  /** The CMPS gate and the plain gate let the same records reach the file, for
      every limit. */
  lemma GatesAgree(head: seq<string>, dest: seq<set<Label>>, src: seq<set<Label>>, vals: seq<string>, limit: int)
    requires |head| == 3 && |dest| <= 8 && |src| <= 8 && |vals| == 2
    ensures var o := CmpFields(head, dest, src, vals);
            (CmpsGate(dest, src, limit) && !Noisy(o, 3, 19, limit)) <==>
            (AnyTainted(dest, src) && !Noisy(o, 3, 19, limit))
  {
    hide Noisy, CmpFields;
    FilterMeansLimit(head, dest, src, vals, limit);
    if limit >= 1 && AllWithin(dest, limit) && AllWithin(src, limit) {
      forall i | 0 <= i < |dest| ensures InWindow(dest[i], limit) <==> dest[i] != {} {
      }
      forall i | 0 <= i < |src| ensures InWindow(src[i], limit) <==> src[i] != {} {
      }
    }
  }

  // ---------------------------------------------------------------- builders

  // The record after i bytes: tag texts in place, the address once the gate
  // has opened, and "{}" elsewhere.
  ghost predicate Building(o: seq<string>, dest: seq<set<Label>>, src: seq<set<Label>>, i: nat, open: bool, ins: string)
    requires i <= |dest| == |src| <= 8
  {
    && |o| == 21 && o[2] == (if open then ins else "{}")
    && (forall k :: 3 <= k < 11 ==> o[k] == if k - 3 < i then Sprint(dest[k - 3]) else "{}")
    && (forall k :: 11 <= k < 19 ==> o[k] == if k - 11 < i then Sprint(src[k - 11]) else "{}")
  }

  lemma BuildStep(o: seq<string>, dest: seq<set<Label>>, src: seq<set<Label>>, i: nat,
                  open: bool, open': bool, ins: string)
    requires i < |dest| == |src| <= 8 && Building(o, dest, src, i, open, ins)
    ensures Building(o[2 := if open' then ins else "{}"][3 + i := Sprint(dest[i])][11 + i := Sprint(src[i])],
                     dest, src, i + 1, open', ins)
  {
    hide Sprint;
  }

  lemma BuildDone(o: seq<string>, dest: seq<set<Label>>, src: seq<set<Label>>, ins: string,
                  width: string, kind: string, dval: string, sval: string)
    requires |dest| == |src| <= 8 && Building(o, dest, src, |dest|, true, ins)
    ensures o[0 := width][1 := kind][19 := dval][20 := sval] == CmpFields([width, kind, ins], dest, src, [dval, sval])
  {
  }

  /** cmp_r2r: a record is built exactly when some compared byte is tainted, and
      it holds the bytes' label sets. The value fields are given as text. */
  method CmpR2R(e: Engine, ins: string, dRow: nat, dStart: nat, sRow: nat, sStart: nat, size: nat,
                width: string, dval: string, sval: string) returns (rec: Option<seq<string>>)
    requires e.Valid() && e.Live() && size <= 8
    requires Source(R(dRow, dStart), size) && Source(R(sRow, sStart), size)
    ensures e.Valid()
    ensures var dest, src := Bytes(e.Meaning(), R(dRow, dStart), size), Bytes(e.Meaning(), R(sRow, sStart), size);
            rec == if AnyTainted(dest, src)
                   then Some(CmpFields([width, "reg reg", ins], dest, src, [dval, sval])) else None
  {
    hide Engine.Valid, Engine.Meaning, Engine.Live, Engine.GetReg, Sprint, Bytes, CmpFields, Building;
    ghost var m := e.Meaning();
    ghost var dest, src := Bytes(m, R(dRow, dStart), size), Bytes(m, R(sRow, sStart), size);
    var o := seq(21, _ => "{}");
    var fl := false;
    BuildStart(o, dest, src, ins);
    for i := 0 to size
      invariant e.Valid() && e.Live() && e.Meaning() == m
      invariant |o| == 21 && Building(o, dest, src, i, fl, ins)
      invariant fl <==> exists j :: 0 <= j < i && (dest[j] != {} || src[j] != {})
    {
      BytesAt(m, R(dRow, dStart), size, i);
      BytesAt(m, R(sRow, sStart), size, i);
      var d, s := e.GetReg(dRow, dStart + i), e.GetReg(sRow, sStart + i);
      TagDenotes(e, d);
      TagDenotes(e, s);
      ghost var open := fl;
      if d != CLEARED || s != CLEARED { fl := true; }
      BuildStep(o, dest, src, i, open, fl, ins);
      o := o[2 := if fl then ins else "{}"][3 + i := e.tags.SprintTag(d)][11 + i := e.tags.SprintTag(s)];
    }
    if fl {
      BuildDone(o, dest, src, ins, width, "reg reg", dval, sval);
      return Some(o[0 := width][1 := "reg reg"][19 := dval][20 := sval]);
    }
    rec := None;
  }

  lemma BuildStart(o: seq<string>, dest: seq<set<Label>>, src: seq<set<Label>>, ins: string)
    requires |dest| == |src| <= 8 && |o| == 21 && forall i :: 0 <= i < 21 ==> o[i] == "{}"
    ensures Building(o, dest, src, 0, false, ins)
  {
  }

  // A live engine's id denotes its set to all three readers of the table.
  lemma TagDenotes(e: Engine, id: TagId)
    requires e.Valid() && e.Live() && id < |e.tags.sets|
    ensures e.tags.Valid() && e.tags.SprintTag(id) == Sprint(e.tags.sets[id])
    ensures e.tags.NumberOfOnes(id) == |e.tags.sets[id]|
    ensures id != CLEARED <==> e.tags.sets[id] != {}
  {
  }

  /** cmp_m2m (CMPS): both operands in memory, gated by the window test; an
      operand without shadow cells gives no record. */
  method CmpM2M(e: Engine, ins: string, destAddr: Addr, srcAddr: Addr, size: nat, limit: int,
                width: string, dval: string, sval: string) returns (rec: Option<seq<string>>)
    requires e.Valid() && e.Live() && size <= 8
    requires InSpace(destAddr) && InSpace(srcAddr) ==> Source(M(destAddr), size) && Source(M(srcAddr), size)
    ensures e.Valid()
    ensures var dest, src := Bytes(e.Meaning(), M(destAddr), size), Bytes(e.Meaning(), M(srcAddr), size);
            rec == if InSpace(destAddr) && InSpace(srcAddr) && CmpsGate(dest, src, limit)
                   then Some(CmpFields([width, "mem mem", ins], dest, src, [dval, sval])) else None
  {
    hide Engine.Valid, Engine.Meaning, Engine.Live, Engine.GetMem, Sprint, Bytes, CmpFields, Building;
    if destAddr > 0x7fff_ffff_ffff || srcAddr > 0x7fff_ffff_ffff {
      return None;
    }
    ghost var m := e.Meaning();
    ghost var dest, src := Bytes(m, M(destAddr), size), Bytes(m, M(srcAddr), size);
    var o := seq(21, _ => "{}");
    var fl := false;
    BuildStart(o, dest, src, ins);
    for i := 0 to size
      invariant e.Valid() && e.Live() && e.Meaning() == m
      invariant |o| == 21 && Building(o, dest, src, i, fl, ins)
      invariant fl <==> exists j :: 0 <= j < i && (InWindow(dest[j], limit) || InWindow(src[j], limit))
    {
      BytesAt(m, M(destAddr), size, i);
      BytesAt(m, M(srcAddr), size, i);
      var d, s := e.GetMem(destAddr + i), e.GetMem(srcAddr + i);
      TagDenotes(e, d);
      TagDenotes(e, s);
      var dn, sn := e.tags.NumberOfOnes(d), e.tags.NumberOfOnes(s);
      ghost var open := fl;
      if 0 < dn <= Unsigned(limit) || 0 < sn <= Unsigned(limit) { fl := true; }
      BuildStep(o, dest, src, i, open, fl, ins);
      o := o[2 := if fl then ins else "{}"][3 + i := e.tags.SprintTag(d)][11 + i := e.tags.SprintTag(s)];
    }
    if fl {
      BuildDone(o, dest, src, ins, width, "mem mem", dval, sval);
      return Some(o[0 := width][1 := "mem mem"][19 := dval][20 := sval]);
    }
    rec := None;
  }

  /** A CMPS record reaches the file exactly when the limit is positive, some
      compared byte is tainted and none carries more offsets than the limit. */
  lemma CmpsReachesFile(head: seq<string>, dest: seq<set<Label>>, src: seq<set<Label>>, vals: seq<string>, limit: int)
    requires |head| == 3 && |dest| <= 8 && |src| <= 8 && |vals| == 2
    ensures |CmpFields(head, dest, src, vals)| == 21
    ensures CmpsGate(dest, src, limit) && Output(CmpFields(head, dest, src, vals), 3, 19, limit).Some? <==>
            limit >= 1 && AnyTainted(dest, src) && AllWithin(dest, limit) && AllWithin(src, limit)
  {
    hide CmpsGate, AnyTainted, AllWithin, Noisy;
    FilterMeansLimit(head, dest, src, vals, limit);
    GatesAgree(head, dest, src, vals, limit);
  }
}
