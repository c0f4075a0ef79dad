/** A `BLOCK` record closes on its own boundary: the preamble reader of
    `examples/probe_acis_records.rs` and the inline string reader of
    `examples/probe_field_list.rs` against the writer's block body. */
module BlockLaws {
  import opened Bits
  import opened Codes
  import opened BitIo
  import opened Versions
  import opened RecordWriter
  import opened RecordReaders
  import opened StringStream
  import opened RecordLaws
  import PreambleLaws
  import opened Results

  /** The values every written preamble carries. */
  const PLAIN: Preamble := Preamble(false, 0, ONE, 0, 0)

  lemma ZeroShortReads(d: bits, p: nat)
    requires At(d, p, BsBits(0))
    ensures GetBs(d, p) == Ok((0, p + 2))
    ensures forall v: Version {:trigger GetColour(d, p, v)} :: GetColour(d, p, v) == Ok((0, p + 2))
  {
    hide At, GetBs, GetBl;
    GetBsAt(d, p, 0);
  }

  /** The start every release shares: no extended data, no preview, mode, no reactors. */
  lemma StartReads(d: bits, p: nat, v: Version)
    requires At(d, p, PreambleBits(v))
    ensures GetEed(d, p) == Ok(((), p + 2)) && GetGraphics(d, p + 2, v) == Ok(((), p + 3))
    ensures GetBb(d, p + 3) == Ok((0, p + 5)) && GetBl(d, p + 5) == Ok((0, p + 7))
    ensures At(d, p + 7, PreambleFlags(v))
  {
    hide At, GetBs, GetBb, GetBl, GetBll, GetLe, GetHandle, GetRcs, PreambleFlags, FromNat;
    var a := BlBits(0) + PreambleFlags(v);
    AtSplit(d, p, BsBits(0), [false] + (BbBits(0) + a));
    ZeroShortReads(d, p);
    AtSplit(d, p + 2, [false], BbBits(0) + a);
    PreambleLaws.FlagReads(d, p + 2, true, false);
    AtSplit(d, p + 3, BbBits(0), a);
    GetBbAt(d, p + 3, 0);
    AtSplit(d, p + 5, BlBits(0), PreambleFlags(v));
    GetBlAt(d, p + 5, 0);
  }

  /** What the writer's preamble states: nothing hangs on the entity. */
  function Plain(marker: nat): PreambleLaws.Common {
    PreambleLaws.Common([], None, 0, 0, 0, true, false, Zeros(marker), 0, 0, 0, ONE, 0, 0, 0, 0, [false, false, false], 0, 0)
  }

  lemma PlainStyleIsWritten(v: Version, marker: nat)
    requires v.IsR2004Plus()
    ensures PreambleLaws.Style(v, Plain(marker)) == PreambleStyle(v)
  {
    hide FromNat, BsBits, BbBits, BdBits, RcBits, Zeros;
    assert PreambleLaws.HasWeight(0, 0x2000) == PreambleLaws.HasWeight(0, 0x8000) == false;
    assert BsBits(0) + ([] + []) == BsBits(0);
  }

  lemma PlainFlagsAreWritten(v: Version, marker: nat)
    requires v.IsR2004Plus()
    ensures PreambleLaws.FlagsAndStyle(v, Plain(marker)) == PreambleFlags(v)
  {
    hide FromNat, PreambleStyle, PreambleLaws.Style, Zeros;
    PlainStyleIsWritten(v, marker);
    assert [false] + [] == [false];
    assert [] + PreambleStyle(v) == PreambleStyle(v);
  }

  lemma PlainIsWritten(v: Version, marker: nat)
    requires v.IsR2004Plus()
    ensures Plain(marker).Valid(v) && PreambleBits(v) == PreambleLaws.CommonBits(v, Plain(marker))
  {
    hide FromNat, BsBits, BbBits, BlBits, PreambleFlags, PreambleLaws.FlagsAndStyle, Zeros;
    PlainFlagsAreWritten(v, marker);
  }

  lemma ModernPreambleReads(d: bits, p: nat, v: Version, marker: nat)
    requires At(d, p, PreambleBits(v)) && v.IsR2004Plus()
    ensures GetPreamble(d, p, v, marker) == Ok((PLAIN, p + |PreambleBits(v)|))
  {
    hide At, GetPreamble, PreambleBits, PreambleLaws.CommonBits;
    PlainIsWritten(v, marker);
    PreambleLaws.PreambleReads(d, p, v, Plain(marker));
  }

  /** Before R2004 the writer's `Nolinks` bit comes where the reader looks for the colour. */
  lemma NolinksShifts(d: bits, p: nat, v: Version)
    requires At(d, p, PreambleFlags(v)) && v.IsR13R15()
    ensures GetColour(d, p, v) == Ok((256, p + 2))
    ensures GetBd(d, p + 2).Ok? ==> GetBd(d, p + 2).value.1 == p + 68
    ensures |PreambleBits(v)| == 26
  {
    hide GetLe;
    var style := PreambleStyle(v);
    assert PreambleFlags(v) == [true] + style;
    assert style[0] && !style[1] && !style[2];
    var flags, placed := [true] + style, d[p..p + |PreambleFlags(v)|];
    assert placed == flags;
    assert d[p] == placed[0] && d[p + 1] == placed[1] && d[p + 2] == placed[2] && d[p + 3] == placed[3];
    TwoDigits(d, p);
    TwoDigits(d, p + 2);
  }

  lemma TwoDigits(d: bits, p: nat)
    requires p + 2 <= |d|
    ensures GetBb(d, p) == Ok(((if d[p] then 2 else 0) + (if d[p + 1] then 1 else 0), p + 2))
  {
    assert Field(d, p, p + 2) == 2 * Field(d, p, p + 1) + if d[p + 1] then 1 else 0;
    assert Field(d, p, p + 1) == 2 * Field(d, p, p) + if d[p] then 1 else 0;
  }

  lemma OldPreambleOverruns(d: bits, p: nat, v: Version, marker: nat)
    requires At(d, p, PreambleBits(v)) && v.IsR13R15()
    ensures GetPreamble(d, p, v, marker).Ok? ==> GetPreamble(d, p, v, marker).value.1 > p + |PreambleBits(v)|
  {
    hide At, GetEed, GetGraphics, GetBs, GetBl, GetBd, GetRc, GetColour, PreambleBits, PreambleFlags;
    StartReads(d, p, v);
    NolinksShifts(d, p + 7, v);
  }

  /** The preamble reader stops where the writer stopped exactly on the releases from R2004,
      and there it reads the values written. */
  lemma PreambleClosesFromR2004(d: bits, p: nat, v: Version, marker: nat)
    requires At(d, p, PreambleBits(v))
    ensures v.IsR2004Plus() <==> GetPreamble(d, p, v, marker).Ok? && GetPreamble(d, p, v, marker).value.1 == p + |PreambleBits(v)|
    ensures v.IsR2004Plus() ==> GetPreamble(d, p, v, marker).value.0 == PLAIN
  {
    hide At, GetPreamble, PreambleBits;
    if v.IsR2004Plus() {
      ModernPreambleReads(d, p, v, marker);
    } else {
      OldPreambleOverruns(d, p, v, marker);
    }
  }

  // ---- inline strings ----------------------------------------------------

  /** An inline string reads back, and ends where it was written to end, exactly when its
      count with the terminator fits 16 bits. */
  lemma TvReads(d: bits, p: nat, s: seq<byte>)
    requires At(d, p, TvBits(s))
    ensures GetTvInline(d, p) == Ok((s, p + |TvBits(s)|)) <==> |s| < 0xFFFF
  {
    hide At, BytesBits, BsBits, GetBs, GetRcs;
    if s == [] {
      GetBsAt(d, p, 0);
      GetRcsAt(d, p + |BsBits(0)|, []) by {
        NoBytes(d, p + |BsBits(0)|);
      }
    } else {
      var n := (|s| + 1) % 0x1_0000;
      AtSplit(d, p, BsBits(n), BytesBits(s + [0]));
      GetBsAt(d, p, n);
      if |s| < 0xFFFF {
        GetRcsAt(d, p + |BsBits(n)|, s + [0]);
        assert (s + [0])[..|s|] == s;
      }
    }
  }

  lemma NoBytes(d: bits, p: nat)
    requires p <= |d|
    ensures At(d, p, BytesBits([]))
  {
  }

  // ---- BLOCK records -----------------------------------------------------

  const TYPE_BLOCK: u16 := 0x04

  /** The body the block writer appends: the preamble and, before R2007, the name. */
  function BlockBody(v: Version, name: seq<byte>): bits {
    PreambleBits(v) + if v.IsR2007Plus() then [] else TvBits(name)
  }

  /** A `BLOCK` record of the name whose bytes are `name` and whose UTF-16 units `units`. */
  function Block(v: Version, handle: u64, name: seq<byte>, units: seq<u16>): Record {
    Record(TYPE_BLOCK, handle, BlockBody(v, name), if v.IsR2007Plus() then [units] else [], [])
  }

  method WriteBlockBody(w: BitWriter, v: Version, name: seq<byte>)
    requires w.Valid()
    modifies w
    ensures w.Valid() && w.written == old(w.written) + BlockBody(v, name)
  {
    hide PreambleBits, TvBits;
    Assoc(w.written, PreambleBits(v), if v.IsR2007Plus() then [] else TvBits(name));
    WriteCommonEntityPreamble(w, v);
    if !v.IsR2007Plus() {
      WriteTvInline(w, name);
    }
  }

  lemma BlockParts(v: Version, r: Record, name: seq<byte>)
    requires r.body == BlockBody(v, name)
    ensures At(Data(v, r), BodyAt(v, r), PreambleBits(v))
    ensures At(Data(v, r), BodyAt(v, r) + |PreambleBits(v)|, if v.IsR2007Plus() then [] else TvBits(name))
    ensures BodyAt(v, r) + |BlockBody(v, name)| == FieldsEnd(v, r)
  {
    hide At, Data, BodyAt, FieldsEnd, HandlesAt, HandleStreamLength, PreambleBits, TvBits;
    Layout(v, r);
    AtSplit(Data(v, r), BodyAt(v, r), PreambleBits(v), if v.IsR2007Plus() then [] else TvBits(name));
  }

  /** A name too long for its count reads back shorter, if it reads at all. */
  lemma LongNameIsCut(d: bits, p: nat, s: seq<byte>)
    requires At(d, p, TvBits(s)) && |s| >= 0xFFFF
    ensures GetTvInline(d, p).Ok? ==> |GetTvInline(d, p).value.0| < |s|
  {
    hide At, BytesBits, BsBits, GetBs, GetRcs;
    var n := (|s| + 1) % 0x1_0000;
    AtSplit(d, p, BsBits(n), BytesBits(s + [0]));
    GetBsAt(d, p, n);
  }

  lemma BlockFits(v: Version, handle: u64, name: seq<byte>, units: seq<u16>)
    ensures Fits(v, Block(v, handle, name, units))
  {
    hide StreamBits;
  }

  lemma ShortBlock(handle: u64, name: seq<byte>, units: seq<u16>)
    requires |name| < 0xFFFF
    ensures FieldsEnd(R2004, Block(R2004, handle, name, units)) < 0x1_0000_0000
  {
    hide PreambleBits;
    var r := Block(R2004, handle, name, units);
    Pow2Words();
    BeBytesLength(handle, 8);
    ModernPreambleLength();
    assert |HeaderBits(R2004, r, 0)| <= 18 + 32 + 8 + 64;
    assert |TvBits(name)| <= 18 + 8 * 0xFFFF;
  }

  lemma ModernPreambleLength()
    ensures |PreambleBits(R2004)| < 0x100
  {
  }

  /** On R2004 the name reads back inline and ends on the bit the `RL` states, exactly when
      its count fits. */
  lemma BlockClosesOnR2004(handle: u64, name: seq<byte>, units: seq<u16>, marker: nat)
    ensures var r := Block(R2004, handle, name, units);
            var d := Data(R2004, r);
            && SeekPastHeader(d, R2004).Ok?
            && var body := SeekPastHeader(d, R2004).value.1;
            && GetPreamble(d, body, R2004, marker).Ok?
            && GetPrologue(d, R2004).Ok?
            && var size := GetPrologue(d, R2004).value.0.objectSize;
            && size.Some?
            && (GetTvInline(d, GetPreamble(d, body, R2004, marker).value.1) == Ok((name, size.value)) <==> |name| < 0xFFFF)
  {
    hide At, Data, BodyAt, HandlesAt, FieldsEnd, HandleStreamLength, PreambleBits, TvBits, GetPreamble, GetTvInline,
         SeekPastHeader, GetPrologue, Fits;
    var v, r := R2004, Block(R2004, handle, name, units);
    BlockFits(v, handle, name, units);
    BlockParts(v, r, name);
    PrologueReads(v, r);
    NoTrailer(v, r);
    ObjectSizeIsHandleStart(v, r);
    ModernPreambleReads(Data(v, r), BodyAt(v, r), v, marker);
    if |name| < 0xFFFF {
      ShortBlock(handle, name, units);
      TvReads(Data(v, r), BodyAt(v, r) + |PreambleBits(v)|, name);
    } else {
      LongNameIsCut(Data(v, r), BodyAt(v, r) + |PreambleBits(v)|, name);
    }
  }

  lemma NoTrailer(v: Version, r: Record)
    requires !v.IsR2010Plus()
    ensures HandlesAt(v, r) == FieldsEnd(v, r)
  {
  }

  /** The walks over a block record from R2010 on: past the header, over the preamble to the
      string stream, and to the end of the data. */
  lemma BlockWalks(v: Version, handle: u64, name: seq<byte>, units: seq<u16>, marker: nat)
    requires v.IsR2010Plus()
    ensures var r := Block(v, handle, name, units);
            && Fits(v, r)
            && SeekPastHeader(Data(v, r), v) == Ok((Handle(0, |BeBytes(handle)|, handle), BodyAt(v, r)))
            && GetPreamble(Data(v, r), BodyAt(v, r), v, marker) == Ok((PLAIN, FieldsEnd(v, r)))
  {
    hide At, Data, BodyAt, FieldsEnd, HandleStreamLength, PreambleBits, TvBits, GetPreamble, SeekPastHeader,
         GetPrologue, Fits;
    var r := Block(v, handle, name, units);
    BlockFits(v, handle, name, units);
    BlockParts(v, r, name);
    PrologueReads(v, r);
    ModernPreambleReads(Data(v, r), BodyAt(v, r), v, marker);
  }

  lemma BlockNameIsLocated(v: Version, handle: u64, name: seq<byte>, units: seq<u16>)
    requires v.IsR2010Plus() && Fits(v, Block(v, handle, name, units))
    ensures var r := Block(v, handle, name, units);
            && ReplayBits(Data(v, r), v) == Ok(Replayed(BodyAt(v, r), Some(HandlesAt(v, r)), McEnd(v, r)))
            && (Candidate(HandlesAt(v, r), |TuBits(units)|, FieldsEnd(v, r), [units]) in AllCandidates(Data(v, r), BodyAt(v, r), v)
                <==> |TuBits(units)| < 0x8000 && Printable(units))
  {
    hide Data, BodyAt, HandlesAt, FieldsEnd, McEnd, ReplayBits, Fits, AllCandidates, TuBits, StringsBits, Locatable,
         Printable, BlockBody;
    StringStreamIsLocated(v, Block(v, handle, name, units));
    OneString(units);
  }

  /** From R2010 the preamble ends on the string stream's first bit, and the located stream
      holds the name alone, exactly when the name can be located at all. */
  lemma BlockClosesFromR2010(v: Version, handle: u64, name: seq<byte>, units: seq<u16>, marker: nat)
    requires v.IsR2010Plus()
    ensures var r := Block(v, handle, name, units);
            var d := Data(v, r);
            && SeekPastHeader(d, v).Ok? && ReplayBits(d, v).Ok?
            && var body, replay := SeekPastHeader(d, v).value.1, ReplayBits(d, v).value;
            && replay.headerEnd == body && replay.dataEnd.Some?
            && GetPreamble(d, body, v, marker).Ok?
            && var stringsAt := GetPreamble(d, body, v, marker).value.1;
            && (Candidate(replay.dataEnd.value, |TuBits(units)|, stringsAt, [units]) in AllCandidates(d, body, v)
                <==> |TuBits(units)| < 0x8000 && Printable(units))
  {
    hide *;
    BlockWalks(v, handle, name, units, marker);
    BlockNameIsLocated(v, handle, name, units);
  }

  lemma OneString(units: seq<u16>)
    ensures StringsBits([units]) == TuBits(units)
    ensures Locatable([units]) <==> |TuBits(units)| < 0x8000 && Printable(units)
  {
    hide TuBits;
    assert StringsBits([]) == [];
    assert [units][1..] == [];
    PrintableFirst([units]);
  }
}
