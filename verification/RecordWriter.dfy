/** The writer of object records: `examples/build_fixtures.rs`. Each method appends the
    bits that the function of the same subject describes. */
module RecordWriter {
  import opened Bits
  import opened Codes
  import opened BitIo
  import opened Versions

  // ---- strings -----------------------------------------------------------

  function UnitBytes(units: seq<u16>): (r: seq<byte>)
    ensures |r| == 2 * |units|
  {
    if units == [] then [] else LeBytes(units[0], 2) + UnitBytes(units[1..])
  }

  /** A string of the string stream: a count of UTF-16 units, then the units. */
  function TuBits(units: seq<u16>): bits {
    BsBits(|units| % 0x1_0000) + BytesBits(UnitBytes(units))
  }

  function StringsBits(strings: seq<seq<u16>>): bits {
    if strings == [] then [] else TuBits(strings[0]) + StringsBits(strings[1..])
  }

  /** An inline string: a count that includes the terminator, the bytes, the terminator. */
  function TvBits(s: seq<byte>): bits {
    if s == [] then BsBits(0)
    else BsBits((|s| + 1) % 0x1_0000) + BytesBits(s + [0])
  }

  method WriteStringStreamTv(w: BitWriter, units: seq<u16>)
    requires w.Valid()
    modifies w
    ensures w.Valid() && w.written == old(w.written) + TuBits(units)
  {
    w.WriteBs(|units| % 0x1_0000);
    ghost var start := w.written;
    var i := 0;
    while i < |units|
      invariant 0 <= i <= |units| && w.Valid()
      invariant start + BytesBits(UnitBytes(units)) == w.written + BytesBits(UnitBytes(units[i..]))
    {
      ghost var unit, rest := LeBytes(units[i], 2), UnitBytes(units[i + 1..]);
      assert units[i..][1..] == units[i + 1..];
      BytesBitsAppend(unit, rest);
      Assoc(w.written, LeBits(units[i], 2), BytesBits(rest));
      w.WriteLe(units[i], 2);
      i := i + 1;
    }
    Assoc(old(w.written), BsBits(|units| % 0x1_0000), BytesBits(UnitBytes(units)));
  }

  method WriteStrings(w: BitWriter, strings: seq<seq<u16>>)
    requires w.Valid()
    modifies w
    ensures w.Valid() && w.written == old(w.written) + StringsBits(strings)
  {
    ghost var start := w.written;
    for i := 0 to |strings|
      invariant w.Valid()
      invariant start + StringsBits(strings) == w.written + StringsBits(strings[i..])
    {
      assert strings[i..][1..] == strings[i + 1..];
      Assoc(w.written, TuBits(strings[i]), StringsBits(strings[i + 1..]));
      WriteStringStreamTv(w, strings[i]);
    }
  }

  method WriteTvInline(w: BitWriter, s: seq<byte>)
    requires w.Valid()
    modifies w
    ensures w.Valid() && w.written == old(w.written) + TvBits(s)
  {
    if s == [] {
      w.WriteBs(0);
      return;
    }
    var count := (|s| + 1) % 0x1_0000;
    w.WriteBs(count);
    w.WriteByteString(s);
    w.WriteRc(0);
    BytesBitsAppend(s, [0]);
    BytesBitsOne(0);
    Assoc(old(w.written) + BsBits(count), BytesBits(s), RcBits(0));
    Assoc(old(w.written), BsBits(count), BytesBits(s + [0]));
  }

  // ---- the common entity preamble ----------------------------------------

  function When(present: bool, field: bits): bits {
    if present then field else []
  }

  function PreambleBits(v: Version): bits {
    BsBits(0) + ([false] + (BbBits(0) + (BlBits(0) + PreambleFlags(v))))
  }

  function PreambleFlags(v: Version): bits {
    When(v.IsR2004Plus(), [true]) + (When(v.IsR2013Plus(), [false]) + (When(v.IsR13R15(), [true]) + PreambleStyle(v)))
  }

  function PreambleStyle(v: Version): bits {
    BsBits(0) + (BdBits(ONE) + (BbBits(0) + (BbBits(0) + PreambleMaterial(v))))
  }

  function PreambleMaterial(v: Version): bits {
    When(v.IsR2007Plus(), BbBits(0) + RcBits(0)) + (When(v.IsR2010Plus(), [false, false, false]) + (BsBits(0) + RcBits(0)))
  }

  method WriteCommonEntityPreamble(w: BitWriter, v: Version)
    requires w.Valid()
    modifies w
    ensures w.Valid() && w.written == old(w.written) + PreambleBits(v)
  {
    ghost var a0 := BlBits(0) + PreambleFlags(v);
    Assoc(w.written, BsBits(0), [false] + (BbBits(0) + a0));
    w.WriteBs(0);
    Assoc(w.written, [false], BbBits(0) + a0);
    w.WriteB(false);
    Assoc(w.written, BbBits(0), a0);
    w.WriteBb(0);
    Assoc(w.written, BlBits(0), PreambleFlags(v));
    w.WriteBl(0);
    WritePreambleFlags(w, v);
    WritePreambleStyle(w, v);
    WritePreambleMaterial(w, v);
  }

  method WriteFlagWhen(w: BitWriter, present: bool, flag: bool)
    requires w.Valid()
    modifies w
    ensures w.Valid() && w.written == old(w.written) + When(present, [flag])
  {
    if present {
      w.WriteB(flag);
    }
  }

  method WritePreambleFlags(w: BitWriter, v: Version)
    requires w.Valid()
    modifies w
    ensures w.Valid() && w.written + PreambleStyle(v) == old(w.written) + PreambleFlags(v)
  {
    ghost var nolinks, ds, style := When(v.IsR13R15(), [true]), When(v.IsR2013Plus(), [false]), PreambleStyle(v);
    Assoc(w.written, When(v.IsR2004Plus(), [true]), ds + (nolinks + style));
    WriteFlagWhen(w, v.IsR2004Plus(), true);
    Assoc(w.written, ds, nolinks + style);
    WriteFlagWhen(w, v.IsR2013Plus(), false);
    Assoc(w.written, nolinks, style);
    WriteFlagWhen(w, v.IsR13R15(), true);
  }

  method WritePreambleStyle(w: BitWriter, v: Version)
    requires w.Valid()
    modifies w
    ensures w.Valid() && w.written + PreambleMaterial(v) == old(w.written) + PreambleStyle(v)
  {
    ghost var a0 := BbBits(0) + PreambleMaterial(v);
    Assoc(w.written, BsBits(0), BdBits(ONE) + (BbBits(0) + a0));
    w.WriteBs(0);
    Assoc(w.written, BdBits(ONE), BbBits(0) + a0);
    w.WriteBd(ONE);
    Assoc(w.written, BbBits(0), a0);
    w.WriteBb(0);
    Assoc(w.written, BbBits(0), PreambleMaterial(v));
    w.WriteBb(0);
  }

  method WritePreambleMaterial(w: BitWriter, v: Version)
    requires w.Valid()
    modifies w
    ensures w.Valid() && w.written == old(w.written) + PreambleMaterial(v)
  {
    ghost var tail, visual := BsBits(0) + RcBits(0), When(v.IsR2010Plus(), [false, false, false]);
    Assoc(w.written, When(v.IsR2007Plus(), BbBits(0) + RcBits(0)), visual + tail);
    WriteMaterial(w, v);
    Assoc(w.written, visual, tail);
    WriteVisualStyles(w, v);
    Assoc(w.written, BsBits(0), RcBits(0));
    w.WriteBs(0);
    w.WriteRc(0);
  }

  method WriteMaterial(w: BitWriter, v: Version)
    requires w.Valid()
    modifies w
    ensures w.Valid() && w.written == old(w.written) + When(v.IsR2007Plus(), BbBits(0) + RcBits(0))
  {
    if v.IsR2007Plus() {
      Assoc(w.written, BbBits(0), RcBits(0));
      w.WriteBb(0);
      w.WriteRc(0);
    }
  }

  method WriteVisualStyles(w: BitWriter, v: Version)
    requires w.Valid()
    modifies w
    ensures w.Valid() && w.written == old(w.written) + When(v.IsR2010Plus(), [false, false, false])
  {
    if v.IsR2010Plus() {
      w.WriteB(false);
      w.WriteB(false);
      w.WriteB(false);
    }
  }

  // ---- records -----------------------------------------------------------

  datatype Reference = Reference(code: nat, value: u64)

  /** What a caller hands to the record writer. `body` is the bits its closure appends. */
  datatype Record = Record(typeCode: u16, handle: u64, body: bits, strings: seq<seq<u16>>, references: seq<Reference>)

  predicate CodesFit(references: seq<Reference>) {
    forall i :: 0 <= i < |references| ==> references[i].code < 16
  }

  function ReferencesBits(references: seq<Reference>): bits {
    if references == [] then []
    else HandleBits(references[0].code, references[0].value) + ReferencesBits(references[1..])
  }

  function TypeBits(v: Version, typeCode: u16): bits {
    if v.IsR2010Plus() then BbBits(0) + RcBits(typeCode % 0x100) else BsBits(typeCode)
  }

  /** Object type, the `RL` object size where the release has one, the handle. */
  function HeaderBits(v: Version, r: Record, size: nat): bits {
    TypeBits(v, r.typeCode) + (When(v.HasObjectSizeField(), LeBits(size, 4)) + HandleBits(0, r.handle))
  }

  /** One emission of the data fields, with `size` in the `RL`. */
  function FieldBits(v: Version, r: Record, size: nat): bits {
    HeaderBits(v, r, size) + r.body
  }

  /** Where the data fields end; the same whatever the `RL` holds. */
  function DataEnd(v: Version, r: Record): nat {
    |FieldBits(v, r, 0)|
  }

  function TrailerBits(v: Version, strings: seq<seq<u16>>): bits {
    if !v.IsR2010Plus() then []
    else if strings == [] then [false]
    else StringsBits(strings) + (LeBits(|StringsBits(strings)| % 0x1_0000, 2) + [true])
  }

  /** Everything after the leading `MC`, unpadded. */
  function StreamBits(v: Version, r: Record): bits {
    FieldBits(v, r, DataEnd(v, r) % 0x1_0000_0000) + (TrailerBits(v, r.strings) + ReferencesBits(r.references))
  }

  /** The handle stream with the padding that counts as part of it. */
  function HandleStreamLength(v: Version, r: Record): nat {
    |ReferencesBits(r.references)| + PadLength(|StreamBits(v, r)|)
  }

  function McField(v: Version, r: Record): seq<byte> {
    if v.IsR2010Plus() then McBytes(HandleStreamLength(v, r), false) else []
  }

  /** The record between its `MS` and its CRC. */
  function Payload(v: Version, r: Record): seq<byte> {
    McField(v, r) + Pack(StreamBits(v, r))
  }

  /** A modular short: 15-bit groups in little-endian words, low first. */
  function MsBytes(v: nat): (r: seq<byte>)
    ensures |r| >= 2
  {
    if v < 0x8000 then LeBytes(v, 2) else LeBytes(0x8000 + v % 0x8000, 2) + MsBytes(v / 0x8000)
  }

  /** The `MS` leaves the record's own `MC` out of its count. */
  function CheckedBytes(v: Version, r: Record): seq<byte> {
    MsBytes(|Pack(StreamBits(v, r))|) + Payload(v, r)
  }

  function RecordBytes(v: Version, r: Record, crc: Crc): seq<byte> {
    CheckedBytes(v, r) + LeBytes(crc(CheckedBytes(v, r)), 2)
  }

  /** The two passes agree on every length. */
  lemma EmissionLength(v: Version, r: Record, size: nat)
    ensures |FieldBits(v, r, size)| == DataEnd(v, r)
  {
  }

  method WriteObjectType(w: BitWriter, v: Version, typeCode: u16)
    requires w.Valid()
    modifies w
    ensures w.Valid() && w.written == old(w.written) + TypeBits(v, typeCode)
  {
    if v.IsR2010Plus() {
      Assoc(w.written, BbBits(0), RcBits(typeCode % 0x100));
      w.WriteBb(0);
      w.WriteRc(typeCode % 0x100);
    } else {
      w.WriteBs(typeCode);
    }
  }

  method WriteObjectSize(w: BitWriter, v: Version, size: nat)
    requires w.Valid()
    modifies w
    ensures w.Valid() && w.written == old(w.written) + When(v.HasObjectSizeField(), LeBits(size, 4))
  {
    if v.HasObjectSizeField() {
      w.WriteLe(size, 4);
    }
  }

  method WriteAll(w: BitWriter, s: bits)
    requires w.Valid()
    modifies w
    ensures w.Valid() && w.written == old(w.written) + s
  {
    for i := 0 to |s|
      invariant w.Valid() && w.written == old(w.written) + s[..i]
    {
      assert s[..i + 1] == s[..i] + [s[i]];
      w.WriteB(s[i]);
    }
    assert s[..|s|] == s;
  }

  method WriteHeader(w: BitWriter, v: Version, r: Record, size: nat)
    requires w.Valid()
    modifies w
    ensures w.Valid() && w.written == old(w.written) + HeaderBits(v, r, size)
  {
    ghost var sized, handle := When(v.HasObjectSizeField(), LeBits(size, 4)), HandleBits(0, r.handle);
    Assoc(w.written, TypeBits(v, r.typeCode), sized + handle);
    WriteObjectType(w, v, r.typeCode);
    Assoc(w.written, sized, handle);
    WriteObjectSize(w, v, size);
    w.WriteHandle(0, r.handle);
  }

  method Emit(v: Version, r: Record, size: nat) returns (w: BitWriter)
    ensures fresh(w) && w.Valid() && w.written == FieldBits(v, r, size)
  {
    w := new BitWriter();
    WriteHeader(w, v, r, size);
    assert w.written == HeaderBits(v, r, size);
    WriteAll(w, r.body);
  }

  method WriteTrailer(w: BitWriter, v: Version, strings: seq<seq<u16>>)
    requires w.Valid()
    modifies w
    ensures w.Valid() && w.written == old(w.written) + TrailerBits(v, strings)
  {
    if v.IsR2010Plus() {
      if strings == [] {
        w.WriteB(false);
      } else {
        var measure := new BitWriter();
        WriteStrings(measure, strings);
        var stringBits := measure.PositionBits();
        assert measure.written == StringsBits(strings);
        ghost var size := LeBits(stringBits % 0x1_0000, 2);
        Assoc(w.written, StringsBits(strings), size + [true]);
        WriteStrings(w, strings);
        Assoc(w.written, size, [true]);
        w.WriteLe(stringBits % 0x1_0000, 2);
        w.WriteB(true);
      }
    }
  }

  method WriteReferences(w: BitWriter, references: seq<Reference>)
    requires w.Valid() && CodesFit(references)
    modifies w
    ensures w.Valid() && w.written == old(w.written) + ReferencesBits(references)
  {
    ghost var start := w.written;
    for i := 0 to |references|
      invariant w.Valid()
      invariant start + ReferencesBits(references) == w.written + ReferencesBits(references[i..])
    {
      var h := references[i];
      assert references[i..][1..] == references[i + 1..];
      Assoc(w.written, HandleBits(h.code, h.value), ReferencesBits(references[i + 1..]));
      w.WriteHandle(h.code, h.value);
    }
  }

  function Modules(v: nat): (r: seq<nat>)
    ensures v > 0 ==> r != []
  {
    if v == 0 then [] else [v % 0x8000] + Modules(v / 0x8000)
  }

  /** What the writer's module loop emits: every module but the last is continued. */
  function ModuleBytes(modules: seq<nat>): seq<byte>
    requires modules != []
  {
    if |modules| == 1 then LeBytes(modules[0], 2)
    else LeBytes(0x8000 + modules[0], 2) + ModuleBytes(modules[1..])
  }

  lemma {:induction false} ModuleBytesAreMs(v: nat)
    requires v > 0
    ensures ModuleBytes(Modules(v)) == MsBytes(v)
  {
    if v >= 0x8000 {
      ModuleBytesAreMs(v / 0x8000);
      assert Modules(v)[1..] == Modules(v / 0x8000);
    } else {
      assert Modules(v) == [v];
    }
  }

  lemma ZeroWord()
    ensures LeBytes(0, 2) == [0, 0]
  {
    assert LeBytes(0, 1) == [0];
  }

  method CutModules(v: nat) returns (modules: seq<nat>)
    ensures modules == Modules(v)
  {
    modules := [];
    var x := v;
    while x != 0
      invariant modules + Modules(x) == Modules(v)
      decreases x
    {
      modules, x := modules + [x % 0x8000], x / 0x8000;
    }
  }

  lemma ModulesFrom(modules: seq<nat>, i: nat)
    requires i < |modules|
    ensures i < |modules| - 1 ==>
              ModuleBytes(modules[i..]) == LeBytes(0x8000 + modules[i], 2) + ModuleBytes(modules[i + 1..])
    ensures i == |modules| - 1 ==> ModuleBytes(modules[i..]) == LeBytes(modules[i], 2)
  {
    hide LeBytes;
    assert i < |modules| - 1 ==> modules[i..][1..] == modules[i + 1..];
  }

  method WriteMs(v: nat) returns (r: seq<byte>)
    ensures r == MsBytes(v)
  {
    hide LeBytes, ModuleBytes;
    if v == 0 {
      ZeroWord();
      return [0, 0];
    }
    var modules := CutModules(v);
    ModuleBytesAreMs(v);
    hide MsBytes, Modules;
    r := [];
    var i := 0;
    assert modules[0..] == modules;
    while i < |modules| - 1
      invariant 0 <= i < |modules|
      invariant r + ModuleBytes(modules[i..]) == MsBytes(v)
    {
      ModulesFrom(modules, i);
      Assoc(r, LeBytes(0x8000 + modules[i], 2), ModuleBytes(modules[i + 1..]));
      r := r + LeBytes(0x8000 + modules[i], 2);
      i := i + 1;
    }
    ModulesFrom(modules, i);
    r := r + LeBytes(modules[i], 2);
  }

  /** Two emissions, the trailer, the handle stream and its padding. */
  method BuildStream(v: Version, r: Record) returns (rest: seq<byte>, handleStream: nat)
    requires CodesFit(r.references)
    ensures rest == Pack(StreamBits(v, r)) && handleStream == HandleStreamLength(v, r)
  {
    hide FieldBits, TrailerBits, ReferencesBits, Pack;
    var measure := Emit(v, r, 0);
    var size := measure.PositionBits() % 0x1_0000_0000;
    var w := Emit(v, r, size);
    Assoc(w.written, TrailerBits(v, r.strings), ReferencesBits(r.references));
    WriteTrailer(w, v, r.strings);
    var handlesAt := w.PositionBits();
    WriteReferences(w, r.references);
    handleStream := w.PositionBits() - handlesAt;
    var pad := (8 - w.PositionBits() % 8) % 8;
    handleStream := handleStream + pad;
    rest := PadAndFinish(w, pad);
  }

  method PadAndFinish(w: BitWriter, pad: nat) returns (rest: seq<byte>)
    requires w.Valid() && pad == PadLength(|w.written|)
    modifies w
    ensures rest == Pack(old(w.written))
  {
    ghost var stream := w.written;
    for i := 0 to pad
      invariant w.Valid() && w.written == stream + Zeros(i)
    {
      assert Zeros(i + 1) == Zeros(i) + [false];
      w.WriteB(false);
    }
    rest := w.IntoBytes();
    PaddedTwice(stream);
  }

  method BuildMcField(v: Version, handleStream: nat) returns (mc: seq<byte>)
    ensures mc == if v.IsR2010Plus() then McBytes(handleStream, false) else []
  {
    mc := [];
    if v.IsR2010Plus() {
      var m := new BitWriter();
      m.WriteMc(handleStream, false);
      assert m.written == BytesBits(McBytes(handleStream, false));
      mc := m.IntoBytes();
      PackOfBytes(McBytes(handleStream, false));
    }
  }

  /** The stream, the `MC` before it, the `MS` that leaves the `MC` out, the CRC. */
  method BuildRecord(v: Version, r: Record, crc: Crc) returns (record: seq<byte>)
    requires CodesFit(r.references)
    ensures record == RecordBytes(v, r, crc)
  {
    hide StreamBits, HandleStreamLength, Pack, LeBytes, MsBytes, McBytes;
    var rest, handleStream := BuildStream(v, r);
    var mc := BuildMcField(v, handleStream);
    var payload := mc + rest;
    var ms := WriteMs(|payload| - |mc|);
    record := ms + payload;
    record := record + LeBytes(crc(record), 2);
  }

  lemma PaddedTwice(s: bits)
    ensures Pack(Padded(s)) == Pack(s)
  {
    assert Padded(Padded(s)) == Padded(s);
    PackUnique(s, Pack(Padded(s)));
  }

  lemma PackOfBytes(bs: seq<byte>)
    ensures Pack(BytesBits(bs)) == bs
  {
    assert Padded(BytesBits(bs)) == BytesBits(bs);
    PackUnique(BytesBits(bs), bs);
  }
}
