/** The object stream: records back to back with a handle map (`examples/build_fixtures.rs`),
    the walk that reads them again (`src/object.rs`), and the tiling verdict of
    `examples/probe_reference_closure.rs` about the walk. */
module ObjectStream {
  import opened Bits
  import opened Codes
  import opened BitIo
  import opened Versions
  import opened RecordWriter
  import opened RecordReaders
  import opened RecordLaws
  import opened Coverage
  import opened Results
  import HandleMap

  type Entry = HandleMap.Entry

  // ---- the walk: one record -----------------------------------------------

  /** The modules of a byte-aligned `MS` from the `k`-th on; the reader keeps three at most. */
  function GetModules(bytes: seq<byte>, at: nat, k: nat): (r: Option<(nat, nat)>)
    ensures r.Some? ==> r.value.1 > at
    decreases 3 - k, at
  {
    if at + 2 > |bytes| then None
    else
      var word := Word(bytes[at], bytes[at + 1]);
      if word < 0x8000 || k >= 2 then Some((word % 0x8000, at + 2))
      else match GetModules(bytes, at + 2, k + 1)
        case None => None
        case Some((rest, z)) => Some((word % 0x8000 + 0x8000 * rest, z))
  }

  /** An `MS` into 32 bits. */
  function GetMs(bytes: seq<byte>, at: nat): (r: Option<(u32, nat)>)
    ensures r.Some? ==> r.value.1 > at
  {
    match GetModules(bytes, at, 0)
    case None => None
    case Some((v, z)) => Some((v % 0x1_0000_0000, z))
  }

  /** The bytes of a leading `MC`, up to the first that is not continued, of ten at most. */
  function McWidth(bytes: seq<byte>, at: nat, k: nat): Option<nat>
    decreases 10 - k, at
  {
    if k >= 10 || at >= |bytes| then None
    else if bytes[at] < 0x80 then Some(1)
    else match McWidth(bytes, at + 1, k + 1)
      case None => None
      case Some(n) => Some(n + 1)
  }

  datatype RawObject = RawObject(offset: nat, size: nat, prologue: Prologue, raw: seq<byte>)

  /** A record and the byte after it; nothing there that can be a record, which ends a walk;
      or a record whose size or prologue cannot be read, which is an error. */
  datatype Walked = Object(raw: RawObject, next: nat) | NoRecord | Unreadable

  function LeadingMc(bytes: seq<byte>, at: nat, v: Version): Option<nat> {
    if v.IsR2010Plus() then McWidth(bytes, at, 0) else Some(0)
  }

  /** The walker's reading of the record at `start`: `MS`, then the `MC` the `MS` does not
      count, then the counted bytes, then two bytes of CRC. */
  function WalkOne(bytes: seq<byte>, start: nat, v: Version): (r: Walked)
    ensures r.Object? ==> start < r.next <= |bytes|
  {
    match GetMs(bytes, start)
    case None => Unreadable
    case Some((size, payloadAt)) =>
      if size == 0 then NoRecord
      else match LeadingMc(bytes, payloadAt, v)
        case None => NoRecord
        case Some(mc) =>
          var payloadEnd := payloadAt + size + mc;
          if payloadEnd + 2 > |bytes| then NoRecord
          else
            var raw := bytes[payloadAt..payloadEnd];
            match GetPrologue(BytesBits(raw), v)
            case Err(_) => Unreadable
            case Ok((prologue, _)) => Object(RawObject(start, size, prologue, raw), payloadEnd + 2)
  }

  method ReadMs(bytes: seq<byte>, start: nat) returns (r: Option<(u32, nat)>)
    ensures r == GetMs(bytes, start)
  {
    var value: nat, weight: nat, at, k := 0, 1, start, 0;
    while true
      invariant 0 <= k <= 2 && at == start + 2 * k
      invariant weight == if k == 0 then 1 else if k == 1 then 0x8000 else 0x4000_0000
      invariant GetModules(bytes, start, 0) == match GetModules(bytes, at, k)
                                               case None => None
                                               case Some((rest, z)) => Some((value + weight * rest, z))
      decreases 2 - k
    {
      if at + 2 > |bytes| {
        return None;
      }
      var word := Word(bytes[at], bytes[at + 1]);
      var group := word % 0x8000;
      if word < 0x8000 || k == 2 {
        return Some(((value + weight * group) % 0x1_0000_0000, at + 2));
      }
      value, weight, at, k := value + weight * group, 0x8000 * weight, at + 2, k + 1;
    }
  }

  method ReadMcWidth(bytes: seq<byte>, start: nat) returns (r: Option<nat>)
    ensures r == McWidth(bytes, start, 0)
  {
    var i := 0;
    while i < 10 && start + i < |bytes|
      invariant 0 <= i <= 10
      invariant McWidth(bytes, start, 0) == match McWidth(bytes, start + i, i)
                                            case None => None
                                            case Some(n) => Some(n + i)
    {
      if bytes[start + i] < 0x80 {
        return Some(i + 1);
      }
      i := i + 1;
    }
    return None;
  }

  method ReadOneAt(bytes: seq<byte>, start: nat, v: Version) returns (r: Walked)
    ensures r == WalkOne(bytes, start, v)
  {
    hide GetPrologue, BytesBits, GetMs, McWidth;
    var ms := ReadMs(bytes, start);
    if ms.None? {
      return Unreadable;
    }
    var (size, payloadAt) := ms.value;
    if size == 0 {
      return NoRecord;
    }
    var mc := Some(0);
    if v.IsR2010Plus() {
      mc := ReadMcWidth(bytes, payloadAt);
    }
    if mc.None? {
      return NoRecord;
    }
    var payloadEnd := payloadAt + size + mc.value;
    if payloadEnd + 2 > |bytes| {
      return NoRecord;
    }
    var raw := bytes[payloadAt..payloadEnd];
    var c := new BitCursor(raw);
    var prologue := ReadPrologue(c, v);
    if prologue.Err? {
      return Unreadable;
    }
    return Object(RawObject(start, size, prologue.value, raw), payloadEnd + 2);
  }

  // ---- building -------------------------------------------------------------

  function Joined(v: Version, records: seq<Record>, crc: Crc): seq<byte> {
    if records == [] then [] else RecordBytes(v, records[0], crc) + Joined(v, records[1..], crc)
  }

  /** Each record's handle with the offset of its first byte, the first record at `at`. */
  function EntriesOf(v: Version, records: seq<Record>, crc: Crc, at: nat): seq<Entry> {
    if records == [] then []
    else [HandleMap.Entry(records[0].handle, at)] + EntriesOf(v, records[1..], crc, at + |RecordBytes(v, records[0], crc)|)
  }

  predicate AllCodesFit(records: seq<Record>) {
    forall i :: 0 <= i < |records| ==> CodesFit(records[i].references)
  }

  const STREAM_PREFIX: seq<byte> := [0xCA, 0x0D, 0x00, 0x00]

  /** Append the records to `before`, whose first byte is at offset `base` of the address
      space the entries use. */
  method AppendRecords(v: Version, records: seq<Record>, crc: Crc, before: seq<byte>, base: nat)
    returns (bytes: seq<byte>, entries: seq<Entry>)
    requires AllCodesFit(records)
    ensures bytes == before + Joined(v, records, crc)
    ensures entries == EntriesOf(v, records, crc, base + |before|)
  {
    hide RecordBytes;
    bytes, entries := before, [];
    for i := 0 to |records|
      invariant before + Joined(v, records, crc) == bytes + Joined(v, records[i..], crc)
      invariant EntriesOf(v, records, crc, base + |before|) == entries + EntriesOf(v, records[i..], crc, base + |bytes|)
    {
      assert records[i..][1..] == records[i + 1..];
      var record := BuildRecord(v, records[i], crc);
      entries := entries + [HandleMap.Entry(records[i].handle, base + |bytes|)];
      bytes := bytes + record;
    }
  }

  method BuildObjectStream(v: Version, records: seq<Record>, crc: Crc) returns (stream: seq<byte>, entries: seq<Entry>)
    requires AllCodesFit(records)
    ensures stream == STREAM_PREFIX + Joined(v, records, crc)
    ensures entries == EntriesOf(v, records, crc, 4)
  {
    hide Joined, EntriesOf;
    stream, entries := AppendRecords(v, records, crc, STREAM_PREFIX, 0);
  }

  // ---- a built record is walked ----------------------------------------------

  /** What the `MS` counts. */
  function Size(v: Version, r: Record): nat {
    |Pack(StreamBits(v, r))|
  }

  /** The walker's 32-bit size holds the record. */
  predicate Walkable(v: Version, r: Record) {
    Fits(v, r) && Size(v, r) < 0x1_0000_0000
  }

  predicate Sits(bytes: seq<byte>, at: nat, part: seq<byte>) {
    at + |part| <= |bytes| && bytes[at..at + |part|] == part
  }

  lemma SitsSplit(bytes: seq<byte>, at: nat, a: seq<byte>, b: seq<byte>)
    requires Sits(bytes, at, a + b)
    ensures Sits(bytes, at, a) && Sits(bytes, at + |a|, b)
  {
    assert a == (a + b)[..|a|] == bytes[at..at + |a|];
    assert b == (a + b)[|a|..] == bytes[at + |a|..at + |a| + |b|];
  }

  lemma {:induction false} MsBytesLength(v: nat, n: nat)
    requires n > 0 && v < Pow2(15 * n)
    ensures |MsBytes(v)| <= 2 * n
  {
    if v >= 0x8000 {
      assert n > 1 by {
        Pow2Words();
      }
      Pow2Add(15, 15 * (n - 1));
      Pow2Words();
      MsBytesLength(v / 0x8000, n - 1);
    }
  }

  lemma FirstModule(bytes: seq<byte>, at: nat, v: nat)
    requires Sits(bytes, at, MsBytes(v))
    ensures at + 2 <= |bytes| && Word(bytes[at], bytes[at + 1]) == if v < 0x8000 then v else 0x8000 + v % 0x8000
    ensures v >= 0x8000 ==> |MsBytes(v)| == 2 + |MsBytes(v / 0x8000)| && Sits(bytes, at + 2, MsBytes(v / 0x8000))
    ensures v < 0x8000 ==> |MsBytes(v)| == 2
  {
    hide LeBytes, Sits;
    var w := if v < 0x8000 then v else 0x8000 + v % 0x8000;
    var rest := if v < 0x8000 then [] else MsBytes(v / 0x8000);
    assert MsBytes(v) == LeBytes(w, 2) + rest;
    SitsSplit(bytes, at, LeBytes(w, 2), rest);
    WordSits(bytes, at, w);
  }

  lemma {:induction false} ModulesRead(bytes: seq<byte>, at: nat, v: nat, k: nat)
    requires 2 * k + |MsBytes(v)| <= 6 && Sits(bytes, at, MsBytes(v))
    ensures GetModules(bytes, at, k) == Some((v, at + |MsBytes(v)|))
    decreases v
  {
    hide LeBytes, Sits, MsBytes;
    FirstModule(bytes, at, v);
    if v >= 0x8000 {
      assert |MsBytes(v / 0x8000)| >= 2 by {
        FirstModule(bytes, at + 2, v / 0x8000);
      }
      ModulesRead(bytes, at + 2, v / 0x8000, k + 1);
    }
  }

  lemma WordSits(bytes: seq<byte>, at: nat, w: u16)
    requires Sits(bytes, at, LeBytes(w, 2))
    ensures at + 2 <= |bytes| && Word(bytes[at], bytes[at + 1]) == w
  {
    WordBytes(w);
    assert bytes[at..at + 2] == [w % 0x100, w / 0x100];
    assert bytes[at] == bytes[at..at + 2][0] && bytes[at + 1] == bytes[at..at + 2][1];
  }

  lemma MsReads(bytes: seq<byte>, at: nat, v: u32)
    requires Sits(bytes, at, MsBytes(v))
    ensures GetMs(bytes, at) == Some((v, at + |MsBytes(v)|))
  {
    hide MsBytes, Sits, GetModules, Pow2;
    assert v < Pow2(45) by {
      Pow2Words();
      Pow2Monotone(32, 45);
    }
    MsBytesLength(v, 3);
    ModulesRead(bytes, at, v, 0);
  }

  /** The fifteen digits of each module, the lowest first. */
  function Digits15(words: seq<u16>): nat {
    if words == [] then 0 else words[0] % 0x8000 + 0x8000 * Digits15(words[1..])
  }

  /** Modules that a reader takes together from its `k`-th on: continued up to the last, which
      is not, or is the third. */
  predicate AreModules(bytes: seq<byte>, at: nat, words: seq<u16>, k: nat) {
    && words != [] && k + |words| <= 3 && at + 2 * |words| <= |bytes|
    && (forall i :: 0 <= i < |words| ==> Word(bytes[at + 2 * i], bytes[at + 2 * i + 1]) == words[i])
    && (forall i :: 0 <= i < |words| - 1 ==> words[i] >= 0x8000)
    && (k + |words| == 3 || words[|words| - 1] < 0x8000)
  }

  lemma {:induction false} ModulesOfAny(bytes: seq<byte>, at: nat, words: seq<u16>, k: nat)
    requires AreModules(bytes, at, words, k)
    ensures GetModules(bytes, at, k) == Some((Digits15(words), at + 2 * |words|))
    decreases |words|
  {
    hide Word;
    assert Word(bytes[at + 2 * 0], bytes[at + 2 * 0 + 1]) == words[0];
    if |words| > 1 {
      forall i | 0 <= i < |words| - 1
        ensures Word(bytes[at + 2 + 2 * i], bytes[at + 2 + 2 * i + 1]) == words[1..][i]
      {
        assert Word(bytes[at + 2 * (i + 1)], bytes[at + 2 * (i + 1) + 1]) == words[i + 1];
      }
      ModulesOfAny(bytes, at + 2, words[1..], k + 1);
    } else {
      assert Digits15(words[1..]) == 0;
    }
  }

  /** An `MS` of any writer reads back from up to three modules, and loses what is above 32
      bits. */
  lemma MsOfAny(bytes: seq<byte>, at: nat, words: seq<u16>)
    requires AreModules(bytes, at, words, 0)
    ensures GetMs(bytes, at) == Some((Digits15(words) % 0x1_0000_0000, at + 2 * |words|))
  {
    hide GetModules, Digits15;
    ModulesOfAny(bytes, at, words, 0);
  }

  lemma {:induction false} McWidthReads(bytes: seq<byte>, at: nat, v: nat, k: nat)
    requires k + |McBytes(v, false)| <= 10 && Sits(bytes, at, McBytes(v, false))
    ensures McWidth(bytes, at, k) == Some(|McBytes(v, false)|)
    decreases v
  {
    var mc := McBytes(v, false);
    assert bytes[at..at + |mc|][0] == bytes[at];
    if v >= 0x40 {
      SitsSplit(bytes, at, mc[..1], McBytes(v / 0x80, false));
      McWidthReads(bytes, at + 1, v / 0x80, k + 1);
    }
  }

  function WalkedRecord(v: Version, r: Record, at: nat): RawObject {
    RawObject(at, Size(v, r), ExpectedPrologue(v, r), Payload(v, r))
  }

  lemma SizeIsPositive(v: Version, r: Record)
    ensures Size(v, r) > 0
  {
    hide TypeBits, Pack, TrailerBits, ReferencesBits, LeBits, When;
    assert |HandleBits(0, r.handle)| > 0;
    assert |StreamBits(v, r)| > 0;
    assert |BytesBits(Pack(StreamBits(v, r)))| > 0;
  }

  lemma LeadingMcReads(bytes: seq<byte>, at: nat, v: Version, r: Record)
    requires Fits(v, r) && Sits(bytes, at, McField(v, r))
    ensures LeadingMc(bytes, at, v) == Some(|McField(v, r)|)
  {
    hide HandleStreamLength, Sits, McBytes, McWidth;
    if v.IsR2010Plus() {
      McAtMostTen(HandleStreamLength(v, r), false);
      McWidthReads(bytes, at, HandleStreamLength(v, r), 0);
    }
  }

  /** Where the parts of a record stand. */
  lemma RecordParts(bytes: seq<byte>, at: nat, v: Version, r: Record, crc: Crc)
    requires Sits(bytes, at, RecordBytes(v, r, crc))
    ensures var ms := MsBytes(Size(v, r));
            && Sits(bytes, at, ms) && Sits(bytes, at + |ms|, McField(v, r)) && Sits(bytes, at + |ms|, Payload(v, r))
            && |Payload(v, r)| == |McField(v, r)| + Size(v, r)
            && at + |RecordBytes(v, r, crc)| == at + |ms| + |Payload(v, r)| + 2 <= |bytes|
  {
    hide Sits, MsBytes, StreamBits, Pack, McField, LeBytes;
    var ms, mc, rest := MsBytes(Size(v, r)), McField(v, r), Pack(StreamBits(v, r));
    SitsSplit(bytes, at, ms + (mc + rest), LeBytes(crc(CheckedBytes(v, r)), 2));
    SitsSplit(bytes, at, ms, mc + rest);
    SitsSplit(bytes, at + |ms|, mc, rest);
    EndInside(bytes, at, RecordBytes(v, r, crc));
  }

  /** A record anywhere in a byte string is walked back whole, and the walker stands on the
      byte after its CRC. */
  lemma RecordIsWalked(bytes: seq<byte>, at: nat, v: Version, r: Record, crc: Crc)
    requires Walkable(v, r) && Sits(bytes, at, RecordBytes(v, r, crc))
    ensures WalkOne(bytes, at, v) == Object(WalkedRecord(v, r, at), at + |RecordBytes(v, r, crc)|)
  {
    hide Sits, MsBytes, Pack, McField, GetPrologue, GetMs, LeadingMc, BytesBits, ExpectedPrologue, BodyAt, Payload,
         RecordBytes, StreamBits;
    var payloadAt := at + |MsBytes(Size(v, r))|;
    RecordParts(bytes, at, v, r, crc);
    SizeIsPositive(v, r);
    PrologueReads(v, r);
    hide Size;
    MsReads(bytes, at, Size(v, r));
    LeadingMcReads(bytes, payloadAt, v, r);
    RawIsPayload(bytes, payloadAt, Payload(v, r));
  }

  lemma RawIsPayload(bytes: seq<byte>, at: nat, payload: seq<byte>)
    requires Sits(bytes, at, payload)
    ensures at + |payload| <= |bytes| && bytes[at..at + |payload|] == payload
  {
  }

  lemma EndInside(bytes: seq<byte>, at: nat, part: seq<byte>)
    requires Sits(bytes, at, part)
    ensures at + |part| <= |bytes|
  {
  }

  // ---- the walks --------------------------------------------------------------

  /** What a handle-driven walk returns: the records, the entries that gave none, and the
      entries whose record states another handle. */
  datatype WalkResult = WalkResult(objects: seq<RawObject>, skipped: seq<Entry>, mismatched: seq<Entry>)

  function WalkEntry(bytes: seq<byte>, e: Entry, v: Version, before: WalkResult): WalkResult {
    if e.offset >= |bytes| then before.(skipped := before.skipped + [e])
    else match WalkOne(bytes, e.offset, v)
      case NoRecord => before.(skipped := before.skipped + [e])
      case Unreadable => before.(skipped := before.skipped + [e])
      case Object(raw, _) =>
        var relabelled := raw.(prologue := raw.prologue.(handle := raw.prologue.handle.(value := e.handle)));
        WalkResult(before.objects + [relabelled], before.skipped,
                   if raw.prologue.handle.value == e.handle then before.mismatched else before.mismatched + [e])
  }

  function WalkEntries(bytes: seq<byte>, entries: seq<Entry>, v: Version, before: WalkResult): WalkResult {
    if entries == [] then before
    else WalkEntries(bytes, entries[1..], v, WalkEntry(bytes, entries[0], v, before))
  }

  /** A record is read at the entry's offset. */
  predicate GivesRecord(bytes: seq<byte>, e: Entry, v: Version) {
    e.offset < |bytes| && WalkOne(bytes, e.offset, v).Object?
  }

  /** The handle that the record there states itself. */
  function Stated(bytes: seq<byte>, e: Entry, v: Version): nat
    requires GivesRecord(bytes, e, v)
  {
    WalkOne(bytes, e.offset, v).raw.prologue.handle.value
  }

  /** Of a map's entries those without a record, those with one, and those whose record states
      another handle. */
  function WithoutRecord(bytes: seq<byte>, entries: seq<Entry>, v: Version): seq<Entry> {
    if entries == [] then []
    else (if GivesRecord(bytes, entries[0], v) then [] else [entries[0]]) + WithoutRecord(bytes, entries[1..], v)
  }

  function WithRecord(bytes: seq<byte>, entries: seq<Entry>, v: Version): seq<Entry> {
    if entries == [] then []
    else (if GivesRecord(bytes, entries[0], v) then [entries[0]] else []) + WithRecord(bytes, entries[1..], v)
  }

  function WithOtherHandle(bytes: seq<byte>, entries: seq<Entry>, v: Version): seq<Entry> {
    if entries == [] then []
    else
      (if GivesRecord(bytes, entries[0], v) && Stated(bytes, entries[0], v) != entries[0].handle then [entries[0]] else [])
      + WithOtherHandle(bytes, entries[1..], v)
  }

  /** The record read there, under the map's handle. */
  predicate IsRecordOf(bytes: seq<byte>, e: Entry, v: Version, o: RawObject) {
    && GivesRecord(bytes, e, v)
    && var raw := WalkOne(bytes, e.offset, v).raw;
    && o.offset == raw.offset && o.size == raw.size && o.raw == raw.raw
    && o.prologue.handle.value == e.handle && o.prologue.typeCode == raw.prologue.typeCode
    && o.prologue.handle.code == raw.prologue.handle.code && o.prologue.handle.counter == raw.prologue.handle.counter
    && o.prologue.handleStream == raw.prologue.handleStream && o.prologue.objectSize == raw.prologue.objectSize
  }

  predicate AreRecordsOf(bytes: seq<byte>, entries: seq<Entry>, v: Version, objects: seq<RawObject>) {
    |objects| == |entries| && forall k :: 0 <= k < |entries| ==> IsRecordOf(bytes, entries[k], v, objects[k])
  }

  lemma WalkEntrySorts(bytes: seq<byte>, e: Entry, v: Version, before: WalkResult)
    ensures var r := WalkEntry(bytes, e, v, before);
            if GivesRecord(bytes, e, v) then
              && r.skipped == before.skipped && |r.objects| == |before.objects| + 1
              && r.objects == before.objects + [r.objects[|before.objects|]]
              && IsRecordOf(bytes, e, v, r.objects[|before.objects|])
              && r.mismatched == before.mismatched + if Stated(bytes, e, v) == e.handle then [] else [e]
            else
              r == before.(skipped := before.skipped + [e])
  {
    hide WalkOne;
    assert before.mismatched + [] == before.mismatched;
  }

  /** Over any bytes and any map, in map order: the entries without a record are the skipped
      ones, those whose record states another handle the mismatched ones, and every record read
      is an object under the map's handle. */
  lemma {:induction false} WalkSorts(bytes: seq<byte>, entries: seq<Entry>, v: Version, before: WalkResult)
    ensures var r := WalkEntries(bytes, entries, v, before);
            && r.skipped == before.skipped + WithoutRecord(bytes, entries, v)
            && r.mismatched == before.mismatched + WithOtherHandle(bytes, entries, v)
            && before.objects <= r.objects
            && AreRecordsOf(bytes, WithRecord(bytes, entries, v), v, r.objects[|before.objects|..])
    decreases |entries|
  {
    hide WalkOne, WalkEntry, GivesRecord, IsRecordOf, Stated;
    if entries != [] {
      var e, next := entries[0], WalkEntry(bytes, entries[0], v, before);
      WalkEntrySorts(bytes, e, v, before);
      WalkSorts(bytes, entries[1..], v, next);
      var r := WalkEntries(bytes, entries, v, before);
      ObjectsGoOn(before.objects, next.objects, r.objects);
      if GivesRecord(bytes, e, v) {
        Assoc(before.mismatched, if Stated(bytes, e, v) == e.handle then [] else [e], WithOtherHandle(bytes, entries[1..], v));
        assert [] + WithoutRecord(bytes, entries[1..], v) == WithoutRecord(bytes, entries[1..], v);
        MoreRecords(bytes, e, WithRecord(bytes, entries[1..], v), v, r.objects[|before.objects|], r.objects[|next.objects|..]);
      } else {
        Assoc(before.skipped, [e], WithoutRecord(bytes, entries[1..], v));
        assert [] + WithOtherHandle(bytes, entries[1..], v) == WithOtherHandle(bytes, entries[1..], v);
        assert [] + WithRecord(bytes, entries[1..], v) == WithRecord(bytes, entries[1..], v);
      }
    } else {
      assert before.skipped + [] == before.skipped && before.mismatched + [] == before.mismatched;
    }
  }

  lemma ObjectsGoOn(before: seq<RawObject>, next: seq<RawObject>, all: seq<RawObject>)
    requires before <= next <= all && |next| <= |before| + 1
    ensures before <= all
    ensures |next| == |before| + 1 ==> all[|before|] == next[|before|] && all[|before|..] == [all[|before|]] + all[|next|..]
  {
    assert all[..|before|] == next[..|before|];
  }

  lemma MoreRecords(bytes: seq<byte>, e: Entry, rest: seq<Entry>, v: Version, o: RawObject, objects: seq<RawObject>)
    requires IsRecordOf(bytes, e, v, o) && AreRecordsOf(bytes, rest, v, objects)
    ensures AreRecordsOf(bytes, [e] + rest, v, [o] + objects)
  {
    hide IsRecordOf;
  }

  const NOTHING_WALKED: WalkResult := WalkResult([], [], [])

  method HandleDrivenWalk(bytes: seq<byte>, entries: seq<Entry>, v: Version) returns (r: WalkResult)
    ensures r == WalkEntries(bytes, entries, v, NOTHING_WALKED)
  {
    hide WalkOne;
    var objects: seq<RawObject>, skipped: seq<Entry>, mismatched: seq<Entry> := [], [], [];
    for i := 0 to |entries|
      invariant WalkEntries(bytes, entries, v, NOTHING_WALKED)
             == WalkEntries(bytes, entries[i..], v, WalkResult(objects, skipped, mismatched))
    {
      var e := entries[i];
      assert entries[i..][1..] == entries[i + 1..];
      if e.offset >= |bytes| {
        skipped := skipped + [e];
      } else {
        var walked := ReadOneAt(bytes, e.offset, v);
        match walked {
          case NoRecord =>
            skipped := skipped + [e];
          case Unreadable =>
            skipped := skipped + [e];
          case Object(raw, _) =>
            if raw.prologue.handle.value != e.handle {
              mismatched := mismatched + [e];
            }
            objects := objects + [raw.(prologue := raw.prologue.(handle := raw.prologue.handle.(value := e.handle)))];
        }
      }
    }
    r := WalkResult(objects, skipped, mismatched);
  }

  /** The walk with no handle map: from `at`, record after record, until none is left; a
      record that cannot be read leaves no list at all. */
  function WalkOn(bytes: seq<byte>, at: nat, v: Version, before: seq<RawObject>): Option<seq<RawObject>>
    decreases |bytes| - at
  {
    if at >= |bytes| then Some(before)
    else match WalkOne(bytes, at, v)
      case NoRecord => Some(before)
      case Unreadable => None
      case Object(raw, next) => WalkOn(bytes, next, v, before + [raw])
  }

  method SequentialWalk(bytes: seq<byte>, v: Version) returns (r: Option<seq<RawObject>>)
    ensures r == WalkOn(bytes, if |bytes| >= 4 && v.IsR2004Plus() then 4 else 0, v, [])
  {
    hide WalkOne;
    var pos := if |bytes| >= 4 && v.IsR2004Plus() then 4 else 0;
    var objects: seq<RawObject> := [];
    ghost var spec := WalkOn(bytes, pos, v, []);
    while pos < |bytes|
      invariant spec == WalkOn(bytes, pos, v, objects)
    {
      var walked := ReadOneAt(bytes, pos, v);
      match walked {
        case NoRecord => return Some(objects);
        case Unreadable => return None;
        case Object(raw, next) => objects, pos := objects + [raw], next;
      }
    }
    return Some(objects);
  }

  // ---- what the walks make of a built stream -----------------------------------

  predicate AllWalkable(v: Version, records: seq<Record>) {
    forall i :: 0 <= i < |records| ==> Walkable(v, records[i])
  }

  /** The written records in order, each at its own offset. */
  function WalkedRecords(v: Version, records: seq<Record>, crc: Crc, at: nat): seq<RawObject> {
    if records == [] then []
    else [WalkedRecord(v, records[0], at)] + WalkedRecords(v, records[1..], crc, at + |RecordBytes(v, records[0], crc)|)
  }

  /** The handle-driven walk over the writer's own entries visits every record in order,
      skips none and finds every stated handle equal to the map's. */
  lemma {:induction false} HandleDrivenWalkReturnsRecords(
    bytes: seq<byte>, at: nat, v: Version, records: seq<Record>, crc: Crc, before: seq<RawObject>)
    requires AllWalkable(v, records) && Sits(bytes, at, Joined(v, records, crc))
    ensures WalkEntries(bytes, EntriesOf(v, records, crc, at), v, WalkResult(before, [], []))
            == WalkResult(before + WalkedRecords(v, records, crc, at), [], [])
    decreases |records|
  {
    hide Sits, WalkOne, RecordBytes, Walkable, WalkedRecord;
    if records == [] {
      assert before + [] == before;
    } else {
      var r, rest := records[0], records[1..];
      var record := RecordBytes(v, r, crc);
      SitsSplit(bytes, at, record, Joined(v, rest, crc));
      RecordIsWalked(bytes, at, v, r, crc);
      WalkedAsIs(bytes, at, v, r, before);
      assert AllWalkable(v, rest);
      HandleDrivenWalkReturnsRecords(bytes, at + |record|, v, rest, crc, before + [WalkedRecord(v, r, at)]);
      Assoc(before, [WalkedRecord(v, r, at)], WalkedRecords(v, rest, crc, at + |record|));
      EntriesTail(v, records, crc, at);
    }
  }

  lemma EntriesTail(v: Version, records: seq<Record>, crc: Crc, at: nat)
    requires records != []
    ensures var e := EntriesOf(v, records, crc, at);
            e != [] && e[0] == HandleMap.Entry(records[0].handle, at)
            && e[1..] == EntriesOf(v, records[1..], crc, at + |RecordBytes(v, records[0], crc)|)
  {
    hide RecordBytes;
  }

  lemma WalkedAsIs(bytes: seq<byte>, at: nat, v: Version, r: Record, before: seq<RawObject>)
    requires WalkOne(bytes, at, v).Object? && WalkOne(bytes, at, v).raw == WalkedRecord(v, r, at)
    ensures WalkEntry(bytes, HandleMap.Entry(r.handle, at), v, WalkResult(before, [], []))
            == WalkResult(before + [WalkedRecord(v, r, at)], [], [])
  {
    hide BytesBits, GetPrologue, GetMs, LeadingMc, HandleStreamLength, Payload, Pack;
    assert at < |bytes|;
  }

  /** So does the walk that only follows the records' own sizes. */
  lemma {:induction false} SequentialWalkReturnsRecords(
    bytes: seq<byte>, at: nat, v: Version, records: seq<Record>, crc: Crc, before: seq<RawObject>)
    requires AllWalkable(v, records) && Sits(bytes, at, Joined(v, records, crc))
    requires |bytes| == at + |Joined(v, records, crc)|
    ensures WalkOn(bytes, at, v, before) == Some(before + WalkedRecords(v, records, crc, at))
    decreases |records|
  {
    hide Sits, WalkOne, RecordBytes, Walkable, WalkedRecord;
    if records == [] {
      assert before + [] == before;
    } else {
      var r, rest := records[0], records[1..];
      var record := RecordBytes(v, r, crc);
      SitsSplit(bytes, at, record, Joined(v, rest, crc));
      RecordIsWalked(bytes, at, v, r, crc);
      assert AllWalkable(v, rest);
      assert WalkOne(bytes, at, v).next <= |bytes|;
      SequentialWalkReturnsRecords(bytes, at + |record|, v, rest, crc, before + [WalkedRecord(v, r, at)]);
      Assoc(before, [WalkedRecord(v, r, at)], WalkedRecords(v, rest, crc, at + |record|));
    }
  }

  /** Over a record the walk lists the map's entry exactly when it has another handle. */
  lemma WrongHandleIsListed(bytes: seq<byte>, at: nat, v: Version, r: Record, crc: Crc, h: u64)
    requires Walkable(v, r) && Sits(bytes, at, RecordBytes(v, r, crc))
    ensures var w := WalkEntries(bytes, [HandleMap.Entry(h, at)], v, NOTHING_WALKED);
            && w.mismatched == (if h == r.handle then [] else [HandleMap.Entry(h, at)])
            && w.skipped == [] && |w.objects| == 1 && w.objects[0].prologue.handle.value == h
  {
    hide WalkOne, WalkEntries, Sits, Walkable, RecordBytes, Payload, Size;
    var e := HandleMap.Entry(h, at);
    RecordIsWalked(bytes, at, v, r, crc);
    assert WalkOne(bytes, at, v).next <= |bytes|;
    WalkSorts(bytes, [e], v, NOTHING_WALKED);
    assert [e][1..] == [] && WithRecord(bytes, [e], v) == [e];
  }

  // ---- a stream that breaks off --------------------------------------------------

  lemma {:induction false} ModulesCut(full: seq<byte>, n: nat, at: nat, k: nat)
    requires n <= |full| && GetModules(full, at, k).Some?
    ensures GetModules(full[..n], at, k) == if GetModules(full, at, k).value.1 <= n then GetModules(full, at, k) else None
    decreases 3 - k, at
  {
    var word := Word(full[at], full[at + 1]);
    if k < 2 && word >= 0x8000 {
      ModulesCut(full, n, at + 2, k + 1);
    }
  }

  lemma {:induction false} McWidthCut(full: seq<byte>, n: nat, at: nat, k: nat)
    requires n <= |full| && McWidth(full, at, k).Some?
    ensures McWidth(full[..n], at, k) == if at + McWidth(full, at, k).value <= n then McWidth(full, at, k) else None
    decreases 10 - k, at
  {
    if k < 10 && at < |full| && full[at] >= 0x80 {
      McWidthCut(full, n, at + 1, k + 1);
    }
  }

  /** A record that breaks off is no record: an error while its size is cut, and then the end. */
  lemma CutRecord(full: seq<byte>, n: nat, at: nat, v: Version, r: Record, crc: Crc)
    requires Walkable(v, r) && Sits(full, at, RecordBytes(v, r, crc)) && at <= n < at + |RecordBytes(v, r, crc)| && n <= |full|
    ensures WalkOne(full[..n], at, v) == if n < at + |MsBytes(Size(v, r))| then Unreadable else NoRecord
  {
    hide Sits, MsBytes, Pack, McField, GetPrologue, BytesBits, Payload, RecordBytes, StreamBits, GetModules, McWidth;
    var payloadAt := at + |MsBytes(Size(v, r))|;
    RecordParts(full, at, v, r, crc);
    SizeIsPositive(v, r);
    hide Size;
    MsReads(full, at, Size(v, r));
    ModulesCut(full, n, at, 0);
    LeadingMcReads(full, payloadAt, v, r);
    if v.IsR2010Plus() {
      McWidthCut(full, n, payloadAt, 0);
    }
  }

  /** The walk by sizes over a stream that breaks off in its `k`-th record gives the records
      before that, or an error where the cut runs through the record's size. */
  lemma {:induction false} CutStreamWalks(
    full: seq<byte>, n: nat, at: nat, v: Version, records: seq<Record>, crc: Crc, k: nat, before: seq<RawObject>)
    requires AllWalkable(v, records) && Sits(full, at, Joined(v, records, crc)) && k < |records|
    requires var start := at + |Joined(v, records[..k], crc)|;
             start <= n < start + |RecordBytes(v, records[k], crc)| && n <= |full|
    ensures var start := at + |Joined(v, records[..k], crc)|;
            WalkOn(full[..n], at, v, before)
            == if start < n < start + |MsBytes(Size(v, records[k]))| then None
               else Some(before + WalkedRecords(v, records[..k], crc, at))
    decreases k
  {
    hide Sits, WalkOne, RecordBytes, Walkable, WalkedRecord, Size, MsBytes;
    var r, record, rest := records[0], RecordBytes(v, records[0], crc), records[1..];
    SitsSplit(full, at, record, Joined(v, rest, crc));
    if k == 0 {
      assert records[..0] == [] && before + [] == before;
      CutRecord(full, n, at, v, r, crc);
    } else {
      assert AllWalkable(v, rest);
      assert records[..k][0] == r && records[..k][1..] == rest[..k - 1];
      CutKeeps(full, n, at, record);
      RecordIsWalked(full[..n], at, v, r, crc);
      assert WalkOne(full[..n], at, v).next <= n;
      CutStreamWalks(full, n, at + |record|, v, rest, crc, k - 1, before + [WalkedRecord(v, r, at)]);
      Assoc(before, [WalkedRecord(v, r, at)], WalkedRecords(v, rest[..k - 1], crc, at + |record|));
    }
  }

  lemma CutKeeps(full: seq<byte>, n: nat, at: nat, part: seq<byte>)
    requires n <= |full| && Sits(full, at, part) && at + |part| <= n
    ensures Sits(full[..n], at, part)
  {
    assert full[..n][at..at + |part|] == full[at..at + |part|];
  }

  lemma {:induction false} OffsetsOfEntries(v: Version, records: seq<Record>, crc: Crc, at: nat)
    requires at + |Joined(v, records, crc)| < HandleMap.TWO64
    ensures HandleMap.OffsetsFit(EntriesOf(v, records, crc, at))
    ensures |EntriesOf(v, records, crc, at)| == |records|
    decreases |records|
  {
    hide RecordBytes;
    if records != [] {
      OffsetsOfEntries(v, records[1..], crc, at + |RecordBytes(v, records[0], crc)|);
    }
  }

  /** The stream of a drawing with sections, through the handle map written beside it: the
      parsed map leads the walk to every record, in order, as it was written. */
  lemma StreamReadsThroughItsMap(v: Version, records: seq<Record>, crc: Crc)
    requires AllWalkable(v, records) && |records| <= HandleMap.MAX_ENTRIES
    requires 4 + |Joined(v, records, crc)| < HandleMap.TWO64
    ensures var stream, entries := STREAM_PREFIX + Joined(v, records, crc), EntriesOf(v, records, crc, 4);
            && HandleMap.OffsetsFit(entries)
            && HandleMap.ParseSections(HandleMap.MapBytes(entries, crc), 0, []) == HandleMap.Parsed(entries)
            && WalkEntries(stream, entries, v, NOTHING_WALKED) == WalkResult(WalkedRecords(v, records, crc, 4), [], [])
            && WalkOn(stream, 4, v, []) == Some(WalkedRecords(v, records, crc, 4))
  {
    hide Joined, EntriesOf, HandleMap.MapBytes, HandleMap.ParseSections, HandleMap.OffsetsFit, WalkEntries, WalkOn,
         WalkedRecords;
    var stream, entries := STREAM_PREFIX + Joined(v, records, crc), EntriesOf(v, records, crc, 4);
    OffsetsOfEntries(v, records, crc, 4);
    HandleMap.ParseUndoesWrite(entries, crc);
    assert stream[4..] == Joined(v, records, crc);
    HandleDrivenWalkReturnsRecords(stream, 4, v, records, crc, []);
    SequentialWalkReturnsRecords(stream, 4, v, records, crc, []);
    assert [] + WalkedRecords(v, records, crc, 4) == WalkedRecords(v, records, crc, 4);
  }

  // ---- tiling -------------------------------------------------------------------

  /** The span the sweeps reckon for a record: they take an `MS` for two bytes or four. */
  function SpanOf(o: RawObject): Span {
    Span(o.offset, o.offset + (if o.size < 0x8000 then 2 else 4) + |o.raw| + 2)
  }

  function SpansOf(objects: seq<RawObject>): (r: seq<Span>)
    ensures |r| == |objects|
    ensures forall i :: 0 <= i < |r| ==> r[i] == SpanOf(objects[i])
  {
    seq(|objects|, i requires 0 <= i < |objects| => SpanOf(objects[i]))
  }

  /** The stream half of the closure verdict. */
  method StreamTiling(objects: seq<RawObject>, length: nat)
    returns (leading: nat, inter: nat, runs: nat, trailing: nat, closed: bool)
    ensures objects == [] ==> leading == 0
    ensures objects != [] ==> (exists i :: 0 <= i < |objects| && objects[i].offset == leading)
    ensures forall i :: 0 <= i < |objects| ==> leading <= objects[i].offset
    ensures inter == Uncovered(SpansOf(objects), leading, MaxEnd(SpansOf(objects)))
    ensures runs == RunStarts(SpansOf(objects), 0, MaxEnd(SpansOf(objects)))
    ensures trailing == Beyond(length, MaxEnd(SpansOf(objects)))
    ensures closed <==> inter == 0
  {
    hide Uncovered, RunStarts, MaxEnd;
    var spans := SpansOf(objects);
    leading, inter, runs, trailing := Locate(spans, length);
    assert forall i :: 0 <= i < |objects| ==> spans[i].start == objects[i].offset;
    closed := inter == 0;
  }

  /** Records whose `MS` takes a third module. */
  function LongOnes(v: Version, records: seq<Record>): nat {
    if records == [] then 0
    else LongOnes(v, records[1..]) + if Size(v, records[0]) >= 0x4000_0000 then 1 else 0
  }

  lemma MsWidth(v: u32)
    ensures |MsBytes(v)| == if v < 0x8000 then 2 else if v < 0x4000_0000 then 4 else 6
  {
    if v >= 0x8000 {
      assert |MsBytes(v / 0x8000)| == if v < 0x4000_0000 then 2 else 4 by {
        if v >= 0x4000_0000 {
          assert MsBytes(v / 0x8000 / 0x8000) == LeBytes(v / 0x8000 / 0x8000, 2);
        }
      }
    }
  }

  lemma SpanOfRecord(v: Version, r: Record, crc: Crc, at: nat)
    requires Walkable(v, r)
    ensures var s := SpanOf(WalkedRecord(v, r, at));
            s.start == at < s.end
            && s.end + (if Size(v, r) >= 0x4000_0000 then 2 else 0) == at + |RecordBytes(v, r, crc)|
  {
    hide MsBytes, StreamBits, Pack, McField, LeBytes, ExpectedPrologue, Fits;
    MsWidth(Size(v, r));
  }

  predicate Within(spans: seq<Span>, lo: nat, hi: nat) {
    forall i :: 0 <= i < |spans| ==> lo <= spans[i].start < spans[i].end <= hi
  }

  /** A span before all the others: it covers its own bytes and leaves the rest as it was. */
  lemma FirstSpan(s: Span, rest: seq<Span>, next: nat, end: nat)
    requires s.Real() && s.end <= next <= end && Within(rest, next, end)
    ensures Uncovered([s] + rest, s.start, end) == (next - s.end) + Uncovered(rest, next, end)
  {
    var all := [s] + rest;
    forall b
      ensures Covered(all, b) <==> s.start <= b < s.end || Covered(rest, b)
    {
      if Covered(rest, b) {
        var i :| 0 <= i < |rest| && rest[i].start <= b < rest[i].end;
        assert all[i + 1] == rest[i];
      }
      if s.start <= b < s.end {
        assert all[0] == s;
      }
      if Covered(all, b) {
        var i :| 0 <= i < |all| && all[i].start <= b < all[i].end;
        assert i > 0 ==> all[i] == rest[i - 1];
      }
    }
    AllCovered(all, s.start, s.end);
    assert Free(all, s.end, next);
    AllUncovered(all, s.end, next);
    UncoveredSplit(all, s.start, s.end, end);
    UncoveredSplit(all, s.end, next, end);
    UncoveredAbove(all, rest, next, end);
  }

  lemma {:induction false} UncoveredAbove(p: seq<Span>, q: seq<Span>, lo: nat, hi: nat)
    requires forall b :: lo <= b < hi ==> (Covered(p, b) <==> Covered(q, b))
    ensures Uncovered(p, lo, hi) == Uncovered(q, lo, hi)
    decreases hi
  {
    if lo < hi {
      UncoveredAbove(p, q, lo, hi - 1);
      assert Covered(p, hi - 1) <==> Covered(q, hi - 1);
    }
  }

  lemma SpansOfMore(o: RawObject, rest: seq<RawObject>)
    ensures SpansOf([o] + rest) == [SpanOf(o)] + SpansOf(rest)
  {
  }

  lemma NoRange(at: nat)
    ensures Uncovered([], at, at) == 0
  {
  }

  lemma {:induction false} BuiltSpans(v: Version, records: seq<Record>, crc: Crc, at: nat)
    requires AllWalkable(v, records)
    ensures var spans, end := SpansOf(WalkedRecords(v, records, crc, at)), at + |Joined(v, records, crc)|;
            && Within(spans, at, end)
            && (records != [] ==> spans != [] && spans[0].start == at)
            && Uncovered(spans, at, end) == 2 * LongOnes(v, records)
    decreases |records|
  {
    hide RecordBytes, Walkable, WalkedRecord, Covered, Uncovered, Size, SpanOf, SpansOf;
    if records != [] {
      var r, rest := records[0], records[1..];
      var next := at + |RecordBytes(v, r, crc)|;
      assert Walkable(v, r) && AllWalkable(v, rest);
      SpanOfRecord(v, r, crc, at);
      BuiltSpans(v, rest, crc, next);
      var s, spans := SpanOf(WalkedRecord(v, r, at)), SpansOf(WalkedRecords(v, rest, crc, next));
      FirstSpan(s, spans, next, at + |Joined(v, records, crc)|);
      SpansOfMore(WalkedRecord(v, r, at), WalkedRecords(v, rest, crc, next));
    } else {
      assert Uncovered([], at, at) == 0 by {
        NoRange(at);
      }
    }
  }

  /** Over the walk of a built stream the sweep finds four leading bytes, and no byte
      between or after the records exactly when every record's size is below 2^30: the
      `MS` of a longer one has a third module that the reckoned span leaves out. */
  lemma BuiltStreamTiles(v: Version, records: seq<Record>, crc: Crc, inter: nat, trailing: nat)
    requires AllWalkable(v, records) && records != []
    requires var spans := SpansOf(WalkedRecords(v, records, crc, 4));
             && inter == Uncovered(spans, 4, MaxEnd(spans))
             && trailing == Beyond(4 + |Joined(v, records, crc)|, MaxEnd(spans))
    ensures var spans := SpansOf(WalkedRecords(v, records, crc, 4));
            && AllReal(spans)
            && spans != [] && spans[0].start == 4
            && (forall i :: 0 <= i < |spans| ==> 4 <= spans[i].start)
    ensures inter + trailing == 2 * LongOnes(v, records)
    ensures inter == 0 && trailing == 0 <==> forall i :: 0 <= i < |records| ==> Size(v, records[i]) < 0x4000_0000
  {
    hide RecordBytes, Walkable, WalkedRecord, Covered, Size, SpanOf, Joined, WalkedRecords;
    var spans, end := SpansOf(WalkedRecords(v, records, crc, 4)), 4 + |Joined(v, records, crc)|;
    BuiltSpans(v, records, crc, 4);
    NoneIsLong(v, records);
    forall b | MaxEnd(spans) <= b
      ensures !Covered(spans, b)
    {
      NothingPastTheEnd(spans, b);
    }
    var i :| 0 <= i < |spans| && spans[i].end == MaxEnd(spans);
    assert Free(spans, MaxEnd(spans), end);
    UncoveredSplit(spans, 4, MaxEnd(spans), end);
    AllUncovered(spans, MaxEnd(spans), end);
  }

  lemma {:induction false} NoneIsLong(v: Version, records: seq<Record>)
    ensures LongOnes(v, records) == 0 <==> forall i :: 0 <= i < |records| ==> Size(v, records[i]) < 0x4000_0000
  {
    hide Size;
    if records != [] {
      NoneIsLong(v, records[1..]);
      assert forall i :: 0 < i < |records| ==> records[i] == records[1..][i - 1];
      assert forall i :: 0 <= i < |records[1..]| ==> records[1..][i] == records[i + 1];
    }
  }
}
