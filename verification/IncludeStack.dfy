/**
 * The stack of source files being assembled, kept in 512 bytes without any
 * links: assembly_pop finds the record below by scanning backwards for NULs.
 */
module IncludeStack {

  import opened Common

  const CAPACITY := 512

  // The offset of the zero field: file_offset, level, avoid_level and
  // line_number come before it, 4 bytes each; the file name comes after it.
  const ZERO := 16

  // level is 1 in a new record, and all the other fields are 0.
  const NEW_HEADER: seq<Byte> := [0, 0, 0, 0, 1, 0, 0, 0, 0, 0, 0, 0, 0, 0, 0, 0]

  datatype Record = Record(header: seq<Byte>, name: seq<Byte>)

  ghost predicate RecordOk(r: Record) {
    |r.header| == ZERO && forall i :: 0 <= i < |r.name| ==> r.name[i] != 0
  }

  function Bytes(r: Record): (b: seq<Byte>)
    ensures |b| == |r.header| + 2 + |r.name|
  {
    r.header + [0] + (r.name + [0])
  }

  function Last(rs: seq<Record>): Record
    requires rs != []
  {
    rs[|rs| - 1]
  }

  function Init(rs: seq<Record>): seq<Record>
    requires rs != []
  {
    rs[..|rs| - 1]
  }

  function Flat(rs: seq<Record>): seq<Byte> {
    if rs == [] then [] else Flat(Init(rs)) + Bytes(Last(rs))
  }

  ghost predicate AllOk(rs: seq<Record>) {
    forall i :: 0 <= i < |rs| ==> RecordOk(rs[i])
  }

  /** Where the topmost record starts. */
  function TopStart(rs: seq<Record>): nat
    requires rs != []
  {
    |Flat(Init(rs))|
  }

  /** The position of the last NUL at or before i, or -1. */
  ghost function LastNul(b: seq<Byte>, i: int): (j: int)
    requires -1 <= i < |b|
    ensures -1 <= j <= i && (j >= 0 ==> b[j] == 0) && forall k :: j < k <= i ==> b[k] != 0
    decreases i + 1
  {
    if i < 0 || b[i] == 0 then i else LastNul(b, i - 1)
  }

  ghost function LastNonNul(b: seq<Byte>, i: int): (j: int)
    requires -1 <= i < |b|
    ensures -1 <= j <= i && (j >= 0 ==> b[j] != 0) && forall k :: j < k <= i ==> b[k] == 0
    decreases i + 1
  {
    if i < 0 || b[i] != 0 then i else LastNonNul(b, i - 1)
  }

  /** b ends in a record that starts at s: from behind, a NUL, no more NULs in the name, and the zero field. */
  ghost predicate EndsInRecord(b: seq<Byte>, s: nat) {
    && |b| >= s + ZERO + 2
    && b[s + ZERO] == 0 && b[|b| - 1] == 0
    && forall k :: s + ZERO < k < |b| - 1 ==> b[k] != 0
  }

  lemma Appended(below: seq<Byte>, r: Record)
    requires RecordOk(r)
    ensures EndsInRecord(below + Bytes(r), |below|)
  {
    var b, s := below + Bytes(r), |below|;
    assert b[s..] == Bytes(r);
    assert b[s..][ZERO] == 0 && b[s..][|b| - 1 - s] == 0;
    forall k | s + ZERO < k < |b| - 1 ensures b[k] != 0 {
      assert b[k] == r.name[k - s - ZERO - 1];
    }
  }

  lemma TopRecord(rs: seq<Record>)
    requires rs != [] && AllOk(rs)
    ensures EndsInRecord(Flat(rs), TopStart(rs))
    ensures Flat(rs)[..TopStart(rs)] == Flat(Init(rs))
  {
    assert RecordOk(Last(rs));
    Appended(Flat(Init(rs)), Last(rs));
  }

  lemma AppendedParts(below: seq<Byte>, r: Record)
    requires RecordOk(r)
    ensures var b, s := below + Bytes(r), |below|;
            && b[s + ZERO..] == [0] + (r.name + [0])
            && b[s + ZERO + 1..|b| - 1] == r.name
  {
    var b, s := below + Bytes(r), |below|;
    assert b[s..] == Bytes(r);
    assert b[s..][ZERO..] == [0] + (r.name + [0]);
    assert b[s + ZERO..][1..|b| - 1 - s - ZERO] == r.name;
  }

  lemma TopParts(rs: seq<Record>)
    requires rs != [] && AllOk(rs)
    ensures |Flat(rs)| == TopStart(rs) + ZERO + 2 + |Last(rs).name|
    ensures Flat(rs)[TopStart(rs) + ZERO..] == [0] + (Last(rs).name + [0])
    ensures Flat(rs)[TopStart(rs) + ZERO + 1..|Flat(rs)| - 1] == Last(rs).name
  {
    hide Bytes;
    assert RecordOk(Last(rs));
    AppendedParts(Flat(Init(rs)), Last(rs));
  }

  /** The backward scan is right for all NUL-free names, the empty one included. */
  lemma ScanFindsTop(rs: seq<Record>)
    requires rs != [] && AllOk(rs)
    ensures var b := Flat(rs);
            && |b| >= ZERO + 2 && b[|b| - 1] == 0
            && LastNul(b, |b| - 2) == TopStart(rs) + ZERO
  {
    hide Flat, LastNul, AllOk, TopStart;
    TopRecord(rs);
  }

  function Padding(n: nat): (z: seq<Byte>)
    ensures |z| == n && forall i :: 0 <= i < n ==> z[i] == 0
  {
    seq(n, _ => 0)
  }

  /**
   * Where records are padded to an alignment, assembly_pop first skips all
   * trailing NULs. That is right exactly for names that are not empty: after
   * an empty one the zero field is skipped, too.
   */
  lemma AlignedScan(below: seq<Byte>, r: Record, padding: nat)
    requires RecordOk(r)
    ensures var b := below + Bytes(r) + Padding(padding);
            LastNul(b, LastNonNul(b, |b| - 1)) == |below| + ZERO <==> r.name != []
  {
    hide LastNul, LastNonNul, Bytes;
    Appended(below, r);
    var c, b, z := below + Bytes(r), below + Bytes(r) + Padding(padding), |below| + ZERO;
    var j := LastNonNul(b, |b| - 1);
    assert forall k :: |c| <= k < |b| ==> b[k] == 0;
    assert forall k :: 0 <= k < |c| ==> b[k] == c[k];
    if r.name == [] {
      assert |c| == z + 2 && j < z;
    } else {
      assert b[|c| - 2] != 0 && j == |c| - 2;
    }
  }

  /** The names in the order in which their files are gone back to. */
  function NamesDown(rs: seq<Record>): seq<seq<Byte>> {
    if rs == [] then [] else [Last(rs).name] + NamesDown(Init(rs))
  }

  lemma {:induction false} NamesDownIsReversed(rs: seq<Record>, k: nat)
    requires k < |rs|
    ensures |NamesDown(rs)| == |rs| && NamesDown(rs)[k] == rs[|rs| - 1 - k].name
  {
    if k > 0 {
      NamesDownIsReversed(Init(rs), k - 1);
    } else if |rs| > 1 {
      NamesDownIsReversed(Init(rs), 0);
    }
  }

  lemma Regrouped(b: seq<Byte>, h: seq<Byte>, z: seq<Byte>, n: seq<Byte>)
    ensures ((b + h) + z) + n == b + (h + z + n)
    ensures (b + h) + (z + n) == b + (h + z + n)
  {
  }

  lemma HeaderReplaced(rs: seq<Record>, header: seq<Byte>)
    requires rs != [] && AllOk(rs) && |header| == ZERO
    ensures var after := Init(rs) + [Last(rs).(header := header)];
            && AllOk(after) && TopStart(after) == TopStart(rs)
            && Flat(after) == (Flat(Init(rs)) + header) + ([0] + (Last(rs).name + [0]))
  {
    var r := Last(rs).(header := header);
    var after := Init(rs) + [r];
    assert RecordOk(Last(rs));
    assert Init(after) == Init(rs) && Last(after) == r;
    Regrouped(Flat(Init(rs)), header, [0], r.name + [0]);
  }

  lemma Resliced(b: seq<Byte>, at: nat, end: nat)
    requires at <= end <= |b|
    ensures b[..end] == b[..at] + b[at..][..end - at]
    ensures b[..end][at..] == b[at..][..end - at]
  {
  }

  class Stack {
    const bytes: array<Byte>
    var end: nat            // assembly_p

    ghost var records: seq<Record>

    ghost predicate Valid()
      reads this, bytes
    {
      && bytes.Length == CAPACITY && end <= CAPACITY
      && AllOk(records) && bytes[..end] == Flat(records)
    }

    constructor ()
      ensures Valid() && fresh(bytes) && records == []
    {
      bytes := new Byte[CAPACITY](_ => 0);
      end := 0;
      records := [];
    }

    method Put(at: nat, s: seq<Byte>)
      requires at + |s| <= bytes.Length
      modifies bytes
      ensures bytes[..at + |s|] == old(bytes[..at]) + s
      ensures bytes[at + |s|..] == old(bytes[at + |s|..])
    {
      var j := 0;
      while j < |s|
        invariant j <= |s| && bytes[..at + j] == old(bytes[..at]) + s[..j]
        invariant bytes[at + j..] == old(bytes[at + j..])
      {
        bytes[at + j] := s[j];
        j := j + 1;
      }
      assert s[..j] == s;
    }

    /** assembly_push: the record's address, or None if it does not fit, and then nothing changes. */
    method Push(name: seq<Byte>) returns (aip: Option<nat>)
      requires Valid() && 0 !in name
      modifies this, bytes
      ensures Valid()
      ensures aip == None <==> |Flat(old(records) + [Record(NEW_HEADER, name)])| > CAPACITY
      ensures aip == None ==> records == old(records) && end == old(end)
      ensures aip != None ==> records == old(records) + [Record(NEW_HEADER, name)] && aip == Some(TopStart(records))
    {
      ghost var r := Record(NEW_HEADER, name);
      ghost var after := records + [r];
      assert Init(after) == records && Last(after) == r && |r.header| == ZERO;
      if end + ZERO + 1 + |name| >= CAPACITY { return None; }
      var at := end;
      Put(at, NEW_HEADER);
      Put(at + ZERO, [0]);
      Put(at + ZERO + 1, name + [0]);
      end := at + ZERO + 1 + |name| + 1;
      aip := Some(at);
      Regrouped(Flat(records), NEW_HEADER, [0], name + [0]);
      records := after;
    }

    /** do_assembly keeps its position in the file in the topmost record. */
    method SaveHeader(aip: nat, header: seq<Byte>)
      requires Valid() && records != [] && aip == TopStart(records) && |header| == ZERO
      modifies this`records, bytes
      ensures Valid() && records == Init(old(records)) + [Last(old(records)).(header := header)]
      ensures aip == TopStart(records)
    {
      hide Flat, AllOk, EndsInRecord, RecordOk, Init, Last, Bytes;
      TopRecord(records);
      TopParts(records);
      HeaderReplaced(records, header);
      ghost var at, b := aip + ZERO, bytes[..];
      assert bytes[..aip] == bytes[..end][..aip];
      Resliced(b, at, end);
      Put(aip, header);
      Resliced(bytes[..], at, end);
      assert bytes[at..] == b[at..];
      records := Init(records) + [Last(records).(header := header)];
    }

    method ScanBack(from: nat) returns (p: nat)
      requires from < bytes.Length && exists k :: 0 <= k <= from && bytes[k] == 0
      ensures p <= from && bytes[p] == 0 && forall k :: p < k <= from ==> bytes[k] != 0
    {
      ghost var z :| 0 <= z <= from && bytes[z] == 0;
      p := from;
      while bytes[p] != 0
        invariant z <= p <= from && forall k :: p < k <= from ==> bytes[k] != 0
        decreases p
      {
        p := p - 1;
      }
    }

    method ScanForward(from: nat) returns (p: nat)
      requires exists k :: from <= k < bytes.Length && bytes[k] == 0
      ensures from <= p < bytes.Length && bytes[p] == 0 && forall k :: from <= k < p ==> bytes[k] != 0
    {
      ghost var z :| from <= z < bytes.Length && bytes[z] == 0;
      p := from;
      while bytes[p] != 0
        invariant from <= p <= z && forall k :: from <= k < p ==> bytes[k] != 0
        decreases z - p
      {
        p := p + 1;
      }
    }

    /** The scanning positions in the array, where the topmost record is known. */
    lemma TopInArray()
      requires Valid() && records != []
      ensures end <= bytes.Length && end >= TopStart(records) + ZERO + 2
      ensures bytes[end - 1] == 0 && bytes[TopStart(records) + ZERO] == 0
      ensures forall k :: TopStart(records) + ZERO < k < end - 1 ==> bytes[k] != 0
    {
      TopRecord(records);
      hide Flat, TopStart, RecordOk;
      var b := Flat(records);
      assert forall k :: 0 <= k < end ==> bytes[k] == bytes[..end][k] == b[k];
    }

    lemma BelowTop()
      requires Valid() && records != []
      ensures TopStart(records) == 0 <==> |records| == 1
      ensures TopStart(records) <= end && AllOk(Init(records))
      ensures bytes[..TopStart(records)] == Flat(Init(records))
    {
      TopRecord(records);
      var rest := Init(records);
      if rest != [] { TopRecord(rest); }
      assert bytes[..TopStart(records)] == bytes[..end][..TopStart(records)];
    }

    lemma TopFits()
      requires Valid() && records != []
      ensures TopStart(records) + ZERO < end
    {
      TopRecord(records);
    }

    /** assembly_pop: back to the record below, or None at the bottom, where the last record stays. */
    method Pop(aip: nat) returns (below: Option<nat>)
      requires Valid() && records != [] && aip == TopStart(records)
      modifies this
      ensures Valid()
      ensures below == None <==> |old(records)| == 1
      ensures below == None ==> records == old(records) && end == old(end)
      ensures below != None ==> records == Init(old(records)) && below == Some(TopStart(records))
    {
      hide Flat, TopStart, EndsInRecord, RecordOk;
      BelowTop();
      if aip == 0 { return None; }
      end, records := aip, Init(records);
      TopInArray();
      TopFits();
      var p := aip - 1;
      if bytes[p] != 0 { return Some(aip); }
      p := ScanBack(p - 1);
      below := Some(p - ZERO);
    }

    /** The file name in the record at aip, which is where assembly_push or assembly_pop said it is. */
    method FileName(aip: nat) returns (name: seq<Byte>)
      requires Valid() && records != [] && aip == TopStart(records)
      ensures name == Last(records).name
    {
      TopInArray();
      TopParts(records);
      hide Flat, TopStart;
      var p := ScanForward(aip + ZERO + 1);
      name := bytes[..end][aip + ZERO + 1..p];
    }

    /** From the end of the innermost file to the end of assembly: files are gone back to in reverse order. */
    method Unwind(start: nat) returns (names: seq<seq<Byte>>)
      requires Valid() && records != [] && start == TopStart(records)
      modifies this
      ensures Valid() && |records| == 1 && names == NamesDown(Init(old(records)))
    {
      names := [];
      var aip := start;
      ghost var all := NamesDown(Init(records));
      while true
        invariant Valid() && records != [] && aip == TopStart(records)
        invariant all == names + NamesDown(Init(records))
        decreases |records|
      {
        var below := Pop(aip);
        if below == None { return; }
        aip := below.value;
        var name := FileName(aip);
        names := names + [name];
      }
    }
  }
}
