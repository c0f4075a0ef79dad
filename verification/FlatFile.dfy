/** The flat file of the releases before R2004: `build_flat_fixture` of
    `examples/build_fixtures.rs`, and reading it back by its locators (`src/header.rs`,
    `src/reader.rs`). */
module FlatFile {
  import opened Bits
  import opened Codes
  import opened Versions
  import opened RecordWriter
  import opened ObjectStream
  import opened Results
  import HandleMap

  // ---- overwriting a buffer by slices --------------------------------------

  datatype Region = Region(at: nat, bytes: seq<byte>) {
    function End(): nat {
      at + |bytes|
    }
  }

  function Placed(s: seq<byte>, r: Region): (t: seq<byte>)
    requires r.End() <= |s|
    ensures |t| == |s|
  {
    s[..r.at] + r.bytes + s[r.End()..]
  }

  /** The regions lie between `from` and `limit`, each ending before the next begins. */
  predicate Chain(regions: seq<Region>, from: nat, limit: nat) {
    && from <= limit
    && (forall i :: 0 <= i < |regions| ==> from <= regions[i].at && regions[i].End() <= limit)
    && (forall i, j :: 0 <= i < j < |regions| ==> regions[i].End() <= regions[j].at)
  }

  function PlaceAll(s: seq<byte>, regions: seq<Region>, from: nat): (t: seq<byte>)
    requires Chain(regions, from, |s|)
    ensures |t| == |s|
    decreases |regions|
  {
    if regions == [] then s
    else
      var r, rest := regions[0], regions[1..];
      PlaceAll(Placed(s, r), rest, r.End())
  }

  /** Later regions leave everything before them as it was. */
  lemma {:induction false} PlaceAllKeeps(s: seq<byte>, regions: seq<Region>, from: nat)
    requires Chain(regions, from, |s|)
    ensures from <= |s| && PlaceAll(s, regions, from)[..from] == s[..from]
    decreases |regions|
  {
    if regions != [] {
      var r, rest := regions[0], regions[1..];
      var next := r.End();
      var t := Placed(s, r);
      PlaceAllKeeps(t, rest, next);
      assert PlaceAll(t, rest, next)[..next][..from] == t[..next][..from];
      assert t[..from] == s[..from];
    }
  }

  /** In a chain no region disturbs another: every one is found where it was put. */
  lemma {:induction false} EveryRegionSits(s: seq<byte>, regions: seq<Region>, from: nat, i: nat)
    requires Chain(regions, from, |s|) && i < |regions|
    ensures Sits(PlaceAll(s, regions, from), regions[i].at, regions[i].bytes)
    decreases |regions|
  {
    var r, rest := regions[0], regions[1..];
    var next := r.End();
    var t := Placed(s, r);
    if i > 0 {
      EveryRegionSits(t, rest, next, i - 1);
    } else {
      PlaceAllKeeps(t, rest, next);
      var u := PlaceAll(t, rest, next);
      assert u[r.at..next] == u[..next][r.at..] == t[..next][r.at..] == t[r.at..next] == r.bytes;
    }
  }

  method CopyInto(file: array<byte>, r: Region)
    requires r.End() <= file.Length
    modifies file
    ensures r.End() <= |old(file[..])| && file[..] == Placed(old(file[..]), r)
  {
    ghost var before := file[..];
    for i := 0 to |r.bytes|
      invariant file[..] == before[..r.at] + r.bytes[..i] + before[r.at + i..]
    {
      file[r.at + i] := r.bytes[i];
    }
    assert r.bytes[..|r.bytes|] == r.bytes;
  }

  method CopyAll(file: array<byte>, regions: seq<Region>, ghost from: nat)
    requires Chain(regions, from, file.Length)
    modifies file
    ensures Chain(regions, from, |old(file[..])|) && file[..] == PlaceAll(old(file[..]), regions, from)
  {
    hide Placed;
    ghost var before, at: nat := file[..], from;
    for i := 0 to |regions|
      invariant Chain(regions[i..], at, file.Length)
      invariant PlaceAll(before, regions, from) == PlaceAll(file[..], regions[i..], at)
    {
      var r := regions[i];
      assert regions[i..][1..] == regions[i + 1..];
      CopyInto(file, r);
      at := r.End();
    }
  }

  // ---- what is written -------------------------------------------------------

  function Magic(v: Version): (r: seq<byte>)
    ensures |r| == 6
  {
    [0x41, 0x43, 0x31, 0x30] + match v
      case R14 => [0x31, 0x34]
      case R2000 => [0x31, 0x35]
      case R2004 => [0x31, 0x38]
      case R2007 => [0x32, 0x31]
      case R2010 => [0x32, 0x34]
      case R2013 => [0x32, 0x37]
      case R2018 => [0x33, 0x32]
  }

  datatype Locator = Locator(number: byte, seeker: u32, size: u32) {
    function Bytes(): (r: seq<byte>)
      ensures |r| == 9
    {
      [number] + LeBytes(seeker, 4) + LeBytes(size, 4)
    }
  }

  datatype Sentinels = Sentinels(start: seq<byte>, end: seq<byte>) {
    predicate Valid() {
      |start| == 16 && |end| == 16
    }
  }

  const HEADER_VARS_SENTINELS: Sentinels := Sentinels(
    [0xCF, 0x7B, 0x1F, 0x23, 0xFD, 0xDE, 0x38, 0xA9, 0x5F, 0x7C, 0x68, 0xB8, 0x4E, 0x6D, 0x33, 0x5F],
    [0x30, 0x84, 0xE0, 0xDC, 0x02, 0x21, 0xC7, 0x56, 0xA0, 0x83, 0x97, 0x47, 0xB1, 0x92, 0xCC, 0xA0])

  const CLASS_SENTINELS: Sentinels := Sentinels(
    [0x8D, 0xA1, 0xC4, 0xB8, 0xC4, 0xA9, 0xF8, 0xC5, 0xC0, 0xDC, 0xF4, 0x5F, 0xE7, 0xCF, 0xB6, 0x8A],
    [0x72, 0x5E, 0x3B, 0x47, 0x3B, 0x56, 0x07, 0x3A, 0x3F, 0x23, 0x0B, 0xA0, 0x18, 0x30, 0x49, 0x75])

  const END_SENTINEL: seq<byte> :=
    [0x95, 0xA0, 0x4E, 0x28, 0x99, 0x82, 0x1A, 0xE5, 0x5E, 0x41, 0xE0, 0x5F, 0x9D, 0x3A, 0x4D, 0x00]

  function Framed(sentinels: Sentinels, data: seq<byte>, crc: Crc): (r: seq<byte>)
    requires sentinels.Valid()
    ensures |r| == 38 + |data|
  {
    var counted := LeBytes(|data| % 0x1_0000_0000, 4) + data;
    sentinels.start + counted + LeBytes(crc(counted), 2) + sentinels.end
  }

  const VARS_AT: nat := 0x80
  const CLASSES_AT: nat := 0xC0
  const OBJECTS_AT: nat := 0x140
  const CRC_AT: nat := 0x34

  /** The placeholder header variables: 26 zero bytes. */
  function Placeholder(): (r: seq<byte>)
    ensures |r| == 26
  {
    seq(26, i => 0)
  }

  function LocatorsOf(mapAt: nat, mapSize: nat): (r: seq<Locator>)
    ensures |r| == 3
  {
    [Locator(0, VARS_AT, 64), Locator(1, CLASSES_AT, 38), Locator(2, mapAt % 0x1_0000_0000, mapSize % 0x1_0000_0000)]
  }

  /** What the header checksum is taken over. */
  function HeadRegions(v: Version, locators: seq<Locator>): (r: seq<Region>)
    requires |locators| == 3
    ensures Chain(r, 0, CRC_AT)
  {
    [Region(0, Magic(v)), Region(0x0C, [1]), Region(0x13, LeBytes(30, 2)), Region(0x15, LeBytes(3, 4)),
     Region(0x19, locators[0].Bytes()), Region(0x22, locators[1].Bytes()), Region(0x2B, locators[2].Bytes())]
  }

  function TailRegions(headerCrc: u16, objects: seq<byte>, map_: seq<byte>, crc: Crc): (r: seq<Region>)
    ensures Chain(r, CRC_AT, OBJECTS_AT + |objects| + |map_|)
  {
    [Region(CRC_AT, LeBytes(headerCrc, 2)), Region(CRC_AT + 2, END_SENTINEL),
     Region(VARS_AT, Framed(HEADER_VARS_SENTINELS, Placeholder(), crc)), Region(CLASSES_AT, Framed(CLASS_SENTINELS, [], crc)),
     Region(OBJECTS_AT, objects), Region(OBJECTS_AT + |objects|, map_)]
  }

  function FileSize(objects: seq<byte>, map_: seq<byte>): nat {
    OBJECTS_AT + |objects| + |map_|
  }

  /** The file with everything the header checksum covers, and zeros elsewhere. */
  function Head(v: Version, objects: seq<byte>, map_: seq<byte>): (r: seq<byte>)
    ensures |r| == FileSize(objects, map_)
  {
    var locators := LocatorsOf(OBJECTS_AT + |objects|, |map_|);
    PlaceAll(seq(FileSize(objects, map_), i => 0), HeadRegions(v, locators), 0)
  }

  function FlatBytes(v: Version, objects: seq<byte>, map_: seq<byte>, crc: Crc, headerCrc: Crc): (r: seq<byte>)
    ensures |r| == FileSize(objects, map_)
  {
    var head := Head(v, objects, map_);
    PlaceAll(head, TailRegions(headerCrc(head[..CRC_AT]), objects, map_, crc), CRC_AT)
  }

  method FrameSection(sentinels: Sentinels, data: seq<byte>, crc: Crc) returns (r: seq<byte>)
    requires sentinels.Valid()
    ensures r == Framed(sentinels, data, crc)
  {
    r := sentinels.start;
    r := r + LeBytes(|data| % 0x1_0000_0000, 4);
    r := r + data;
    var sum := crc(r[16..]);
    assert r[16..] == LeBytes(|data| % 0x1_0000_0000, 4) + data;
    r := r + LeBytes(sum, 2) + sentinels.end;
  }

  method BuildFlatFixture(v: Version, records: seq<Record>, crc: Crc, headerCrc: Crc) returns (file: array<byte>)
    requires AllCodesFit(records) && OBJECTS_AT + |Joined(v, records, crc)| < HandleMap.TWO64
    ensures HandleMap.OffsetsFit(EntriesOf(v, records, crc, OBJECTS_AT))
    ensures var entries := EntriesOf(v, records, crc, OBJECTS_AT);
            file[..] == FlatBytes(v, Joined(v, records, crc), HandleMap.MapBytes(entries, crc), crc, headerCrc)
  {
    hide Joined, EntriesOf, HandleMap.MapBytes, HandleMap.OffsetsFit, PlaceAll, Framed, Magic, LeBytes;
    OffsetsOfEntries(v, records, crc, OBJECTS_AT);
    var objects, entries := AppendRecords(v, records, crc, [], OBJECTS_AT);
    assert objects == Joined(v, records, crc);
    var map_ := HandleMap.WriteHandleMap(entries, crc);
    var vars := FrameSection(HEADER_VARS_SENTINELS, seq(26, i => 0), crc);
    var classes := FrameSection(CLASS_SENTINELS, [], crc);
    var mapAt := OBJECTS_AT + |objects|;
    file := new byte[mapAt + |map_|](i => 0);
    assert file[..] == seq(file.Length, i => 0);
    CopyAll(file, HeadRegions(v, LocatorsOf(mapAt, |map_|)), 0);
    var sum := headerCrc(file[..CRC_AT]);
    assert file[..CRC_AT] == file[..][..CRC_AT];
    CopyAll(file, [Region(CRC_AT, LeBytes(sum, 2)), Region(CRC_AT + 2, END_SENTINEL), Region(VARS_AT, vars),
                   Region(CLASSES_AT, classes), Region(OBJECTS_AT, objects), Region(mapAt, map_)], CRC_AT);
  }

  // ---- what is read ------------------------------------------------------------

  function FromMagic(magic: seq<byte>): (r: Option<Version>)
    requires |magic| == 6
    ensures r.Some? ==> Magic(r.value) == magic
  {
    if magic[..4] != [0x41, 0x43, 0x31, 0x30] then None
    else if magic[4..] == [0x31, 0x34] then Some(R14)
    else if magic[4..] == [0x31, 0x35] then Some(R2000)
    else if magic[4..] == [0x31, 0x38] then Some(R2004)
    else if magic[4..] == [0x32, 0x31] then Some(R2007)
    else if magic[4..] == [0x32, 0x34] then Some(R2010)
    else if magic[4..] == [0x32, 0x37] then Some(R2013)
    else if magic[4..] == [0x33, 0x32] then Some(R2018)
    else None
  }

  function RlAt(bytes: seq<byte>, at: nat): u32
    requires at + 4 <= |bytes|
  {
    OfLeBytes(bytes[at..at + 4]) % 0x1_0000_0000
  }

  function LocatorsAt(bytes: seq<byte>, at: nat, n: nat): (r: seq<Locator>)
    requires at + 9 * n <= |bytes|
    ensures |r| == n
    decreases n, at
  {
    if n == 0 then []
    else [Locator(bytes[at], RlAt(bytes, at + 1), RlAt(bytes, at + 5))] + LocatorsAt(bytes, at + 9, n - 1)
  }

  datatype FlatHeader = FlatHeader(version: Version, locators: seq<Locator>)

  function GetHeader(bytes: seq<byte>): Option<FlatHeader> {
    if |bytes| < 0x15 then None
    else match FromMagic(bytes[..6])
      case None => None
      case Some(v) =>
        if |bytes| < 0x19 then None
        else
          var count: nat := RlAt(bytes, 0x15);
          if |bytes| < 0x19 + 9 * count then None
          else Some(FlatHeader(v, LocatorsAt(bytes, 0x19, count)))
  }

  method ParseHeader(bytes: seq<byte>) returns (r: Option<FlatHeader>)
    ensures r == GetHeader(bytes)
  {
    hide RlAt, FromMagic, LocatorsAt;
    if |bytes| < 0x15 {
      return None;
    }
    var v := FromMagic(bytes[..6]);
    if v.None? || |bytes| < 0x19 {
      return None;
    }
    var count: nat := RlAt(bytes, 0x15);
    if |bytes| < 0x19 + count * 9 {
      return None;
    }
    var locators := ReadLocators(bytes, count);
    r := Some(FlatHeader(v.value, locators));
  }

  method ReadLocators(bytes: seq<byte>, count: nat) returns (locators: seq<Locator>)
    requires |bytes| >= 0x19 + 9 * count
    ensures locators == LocatorsAt(bytes, 0x19, count)
  {
    hide RlAt;
    locators := [];
    for i := 0 to count
      invariant locators + LocatorsAt(bytes, 0x19 + 9 * i, count - i) == LocatorsAt(bytes, 0x19, count)
    {
      var start := 0x19 + i * 9;
      locators := locators + [Locator(bytes[start], RlAt(bytes, start + 1), RlAt(bytes, start + 5))];
    }
  }

  datatype Section = Missing | Truncated | Found(bytes: seq<byte>)

  /** The first locator with the number says where the section is. */
  function ReadSection(bytes: seq<byte>, locators: seq<Locator>, number: byte): Section {
    if locators == [] then Missing
    else
      var l := locators[0];
      if l.number != number then ReadSection(bytes, locators[1..], number)
      else if l.seeker + l.size > |bytes| then Truncated
      else Found(bytes[l.seeker..l.seeker + l.size])
  }

  datatype Frame = Frame(data: seq<byte>, crcOk: bool, endOk: bool)

  /** A framed section of a flat release, taken apart: the start sentinel and the size must
      be right, the checksum and the end sentinel are reported. */
  function Unframe(bytes: seq<byte>, sentinels: Sentinels, crc: Crc): Option<Frame> {
    if |bytes| < 38 || bytes[..16] != sentinels.start then None
    else
      var end := 20 + RlAt(bytes, 16);
      if end + 18 != |bytes| then None
      else Some(Frame(bytes[20..end], crc(bytes[16..end]) == Word(bytes[end], bytes[end + 1]), bytes[end + 2..] == sentinels.end))
  }

  // ---- reading back what was written ---------------------------------------------

  lemma RlReads(bytes: seq<byte>, at: nat, v: u32)
    requires Sits(bytes, at, LeBytes(v, 4))
    ensures at + 4 <= |bytes| && RlAt(bytes, at) == v
  {
    hide LeBytes, OfLeBytes;
    Pow2Words();
    OfLeBytesOf(v, 4);
  }

  lemma LocatorReads(bytes: seq<byte>, at: nat, l: Locator)
    requires Sits(bytes, at, l.Bytes())
    ensures at + 9 <= |bytes|
    ensures Locator(bytes[at], RlAt(bytes, at + 1), RlAt(bytes, at + 5)) == l
  {
    hide LeBytes, RlAt;
    SitsSplit(bytes, at, [l.number] + LeBytes(l.seeker, 4), LeBytes(l.size, 4));
    SitsSplit(bytes, at, [l.number], LeBytes(l.seeker, 4));
    assert bytes[at] == bytes[at..at + 1][0];
    RlReads(bytes, at + 1, l.seeker);
    RlReads(bytes, at + 5, l.size);
  }

  /** Taking a framed section apart gives the data back, its checksum and end in order. */
  lemma UnframeUndoesFraming(sentinels: Sentinels, data: seq<byte>, crc: Crc)
    requires sentinels.Valid() && |data| < 0x1_0000_0000
    ensures Unframe(Framed(sentinels, data, crc), sentinels, crc) == Some(Frame(data, true, true))
  {
    hide LeBytes, RlAt;
    var size, framed, end := LeBytes(|data|, 4), Framed(sentinels, data, crc), 20 + |data|;
    var sum := LeBytes(crc(size + data), 2);
    assert framed[16..20] == size;
    RlReads(framed, 16, |data|);
    assert framed[16..end] == size + data;
    assert framed[20..end] == data;
    assert framed[end..end + 2] == sum;
    WordSits(framed, end, crc(size + data));
    assert framed[end + 2..] == sentinels.end;
  }

  lemma {:induction false} AllSit(s: seq<byte>, regions: seq<Region>, from: nat)
    requires Chain(regions, from, |s|)
    ensures forall i :: 0 <= i < |regions| ==> Sits(PlaceAll(s, regions, from), regions[i].at, regions[i].bytes)
  {
    forall i | 0 <= i < |regions|
      ensures Sits(PlaceAll(s, regions, from), regions[i].at, regions[i].bytes)
    {
      EveryRegionSits(s, regions, from, i);
    }
  }

  lemma SitsBefore(s: seq<byte>, t: seq<byte>, limit: nat, r: Region)
    requires limit <= |s| && limit <= |t| && s[..limit] == t[..limit]
    requires r.End() <= limit && Sits(s, r.at, r.bytes)
    ensures Sits(t, r.at, r.bytes)
  {
    assert s[r.at..r.End()] == s[..limit][r.at..r.End()];
    assert t[r.at..r.End()] == t[..limit][r.at..r.End()];
  }

  /** Nothing written to the file disturbs anything else written to it, and the header
      checksum is that of the finished file's first 0x34 bytes. */
  lemma EverythingSits(v: Version, objects: seq<byte>, map_: seq<byte>, crc: Crc, headerCrc: Crc)
    ensures var file := FlatBytes(v, objects, map_, crc, headerCrc);
            var head := HeadRegions(v, LocatorsOf(OBJECTS_AT + |objects|, |map_|));
            var tail := TailRegions(headerCrc(file[..CRC_AT]), objects, map_, crc);
            && (forall i :: 0 <= i < |head| ==> Sits(file, head[i].at, head[i].bytes))
            && (forall i :: 0 <= i < |tail| ==> Sits(file, tail[i].at, tail[i].bytes))
  {
    hide PlaceAll, HeadRegions, TailRegions, Sits;
    var file, before := FlatBytes(v, objects, map_, crc, headerCrc), Head(v, objects, map_);
    var head := HeadRegions(v, LocatorsOf(OBJECTS_AT + |objects|, |map_|));
    var tail := TailRegions(headerCrc(before[..CRC_AT]), objects, map_, crc);
    AllSit(seq(FileSize(objects, map_), i => 0), head, 0);
    PlaceAllKeeps(before, tail, CRC_AT);
    AllSit(before, tail, CRC_AT);
    forall i | 0 <= i < |head|
      ensures Sits(file, head[i].at, head[i].bytes)
    {
      SitsBefore(before, file, CRC_AT, head[i]);
    }
  }

  lemma MagicReads(v: Version)
    ensures FromMagic(Magic(v)) == Some(v)
  {
    assert Magic(v)[..4] == [0x41, 0x43, 0x31, 0x30];
    match v
    case R14 => assert Magic(v)[4..] == [0x31, 0x34];
    case R2000 => assert Magic(v)[4..] == [0x31, 0x35];
    case R2004 => assert Magic(v)[4..] == [0x31, 0x38];
    case R2007 => assert Magic(v)[4..] == [0x32, 0x31];
    case R2010 => assert Magic(v)[4..] == [0x32, 0x34];
    case R2013 => assert Magic(v)[4..] == [0x32, 0x37];
    case R2018 => assert Magic(v)[4..] == [0x33, 0x32];
  }

  /** The header reads back as the release and the three locators. */
  lemma HeaderReads(v: Version, objects: seq<byte>, map_: seq<byte>, crc: Crc, headerCrc: Crc)
    ensures GetHeader(FlatBytes(v, objects, map_, crc, headerCrc))
            == Some(FlatHeader(v, LocatorsOf(OBJECTS_AT + |objects|, |map_|)))
  {
    hide FlatBytes, Magic, FromMagic, LeBytes, RlAt, TailRegions;
    var file, ls := FlatBytes(v, objects, map_, crc, headerCrc), LocatorsOf(OBJECTS_AT + |objects|, |map_|);
    var head := HeadRegions(v, ls);
    EverythingSits(v, objects, map_, crc, headerCrc);
    assert Sits(file, head[0].at, head[0].bytes) && Sits(file, head[3].at, head[3].bytes);
    assert file[..6] == file[0..6];
    MagicReads(v);
    RlReads(file, 0x15, 3);
    assert Sits(file, head[4].at, head[4].bytes) && Sits(file, head[5].at, head[5].bytes) && Sits(file, head[6].at, head[6].bytes);
    LocatorReads(file, 0x19, ls[0]);
    LocatorReads(file, 0x22, ls[1]);
    LocatorReads(file, 0x2B, ls[2]);
    assert LocatorsAt(file, 0x2B, 1) == [ls[2]];
    assert LocatorsAt(file, 0x22, 2) == [ls[1]] + LocatorsAt(file, 0x2B, 1);
    assert LocatorsAt(file, 0x19, 3) == [ls[0]] + LocatorsAt(file, 0x22, 2);
    assert ls == [ls[0]] + ([ls[1]] + [ls[2]]);
  }

  /** Following each locator gives exactly the section written there, and no other number
      has one. */
  lemma SectionsRead(v: Version, objects: seq<byte>, map_: seq<byte>, crc: Crc, headerCrc: Crc)
    requires FileSize(objects, map_) < 0x1_0000_0000
    ensures var file := FlatBytes(v, objects, map_, crc, headerCrc);
            var ls := LocatorsOf(OBJECTS_AT + |objects|, |map_|);
            && ReadSection(file, ls, 0) == Found(Framed(HEADER_VARS_SENTINELS, Placeholder(), crc))
            && ReadSection(file, ls, 1) == Found(Framed(CLASS_SENTINELS, [], crc))
            && ReadSection(file, ls, 2) == Found(map_)
            && (forall n: byte :: n > 2 ==> ReadSection(file, ls, n) == Missing)
            && Sits(file, OBJECTS_AT, objects)
  {
    hide FlatBytes, Framed, HeadRegions;
    var file, ls := FlatBytes(v, objects, map_, crc, headerCrc), LocatorsOf(OBJECTS_AT + |objects|, |map_|);
    var tail := TailRegions(headerCrc(file[..CRC_AT]), objects, map_, crc);
    EverythingSits(v, objects, map_, crc, headerCrc);
    assert Sits(file, tail[2].at, tail[2].bytes) && Sits(file, tail[3].at, tail[3].bytes);
    assert Sits(file, tail[4].at, tail[4].bytes) && Sits(file, tail[5].at, tail[5].bytes);
    forall n: byte
      ensures n > 0 ==> ReadSection(file, ls, n) == ReadSection(file, ls[1..], n)
      ensures n > 1 ==> ReadSection(file, ls, n) == ReadSection(file, ls[2..], n)
      ensures n > 2 ==> ReadSection(file, ls, n) == ReadSection(file, [], n)
    {
      assert ls[1..][1..] == ls[2..] && ls[2..][1..] == [];
      assert n > 0 ==> ReadSection(file, ls, n) == ReadSection(file, ls[1..], n);
      assert n > 1 ==> ReadSection(file, ls[1..], n) == ReadSection(file, ls[2..], n);
    }
  }

  /** The whole file read back: the header, each section through its locator, the object map
      parsed, and the records walked at the absolute offsets the map gives. */
  lemma FlatFileReads(v: Version, records: seq<Record>, crc: Crc, headerCrc: Crc)
    requires AllWalkable(v, records) && |records| <= HandleMap.MAX_ENTRIES
    requires OBJECTS_AT + |Joined(v, records, crc)| < HandleMap.TWO64
    ensures var entries := EntriesOf(v, records, crc, OBJECTS_AT);
            HandleMap.OffsetsFit(entries)
            && var objects, map_ := Joined(v, records, crc), HandleMap.MapBytes(entries, crc);
            var file := FlatBytes(v, objects, map_, crc, headerCrc);
            FileSize(objects, map_) < 0x1_0000_0000 ==>
              && GetHeader(file).Some? && GetHeader(file).value.version == v
              && var ls := GetHeader(file).value.locators;
              && ReadSection(file, ls, 2).Found?
              && HandleMap.ParseSections(ReadSection(file, ls, 2).bytes, 0, []) == HandleMap.Parsed(entries)
              && WalkEntries(file, entries, v, NOTHING_WALKED) == WalkResult(WalkedRecords(v, records, crc, OBJECTS_AT), [], [])
              && ReadSection(file, ls, 0).Found? && ReadSection(file, ls, 1).Found?
              && Unframe(ReadSection(file, ls, 0).bytes, HEADER_VARS_SENTINELS, crc) == Some(Frame(Placeholder(), true, true))
              && Unframe(ReadSection(file, ls, 1).bytes, CLASS_SENTINELS, crc) == Some(Frame([], true, true))
  {
    hide FlatBytes, Framed, Joined, EntriesOf, GetHeader, ReadSection, Unframe, HandleMap.MapBytes, HandleMap.ParseSections,
         HandleMap.OffsetsFit, WalkEntries, WalkedRecords, LocatorsOf, Sits;
    OffsetsOfEntries(v, records, crc, OBJECTS_AT);
    var entries := EntriesOf(v, records, crc, OBJECTS_AT);
    var objects, map_ := Joined(v, records, crc), HandleMap.MapBytes(entries, crc);
    var file := FlatBytes(v, objects, map_, crc, headerCrc);
    if FileSize(objects, map_) < 0x1_0000_0000 {
      HeaderReads(v, objects, map_, crc, headerCrc);
      SectionsRead(v, objects, map_, crc, headerCrc);
      HandleMap.ParseUndoesWrite(entries, crc);
      HandleDrivenWalkReturnsRecords(file, OBJECTS_AT, v, records, crc, []);
      assert [] + WalkedRecords(v, records, crc, OBJECTS_AT) == WalkedRecords(v, records, crc, OBJECTS_AT);
      UnframeUndoesFraming(HEADER_VARS_SENTINELS, Placeholder(), crc);
      UnframeUndoesFraming(CLASS_SENTINELS, [], crc);
    }
  }
}
