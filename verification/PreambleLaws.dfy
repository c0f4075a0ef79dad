/** Any common entity preamble, written down field by field, and what the reader of
    `examples/probe_acis_records.rs` makes of it: a chain of extended data, a preview, a
    data-store flag with its marker, a colour with all it announces. */
module PreambleLaws {
  import opened Bits
  import opened Codes
  import opened Versions
  import opened RecordWriter
  import opened RecordReaders
  import opened Results

  // ---- extended data ------------------------------------------------------------

  /** One link of the chain: the application's handle and the bytes. */
  datatype Link = Link(code: nat, application: u64, data: seq<byte>) {
    predicate Valid() {
      code < 16 && 0 < |data| < 0x1_0000
    }
  }

  predicate AllLinks(links: seq<Link>) {
    forall i :: 0 <= i < |links| ==> links[i].Valid()
  }

  function ChainBits(links: seq<Link>): bits
    requires AllLinks(links)
  {
    if links == [] then BsBits(0)
    else
      var l := links[0];
      BsBits(|l.data|) + (HandleBits(l.code, l.application) + (BytesBits(l.data) + ChainBits(links[1..])))
  }

  /** The reader passes every chain and stops after the size of 0 that ends it. */
  lemma {:induction false} ChainReads(d: bits, p: nat, links: seq<Link>)
    requires AllLinks(links) && At(d, p, ChainBits(links))
    ensures GetEed(d, p) == Ok(((), p + |ChainBits(links)|))
    decreases |links|
  {
    hide At, GetBs, GetHandle, GetRcs, BsBits, HandleBits, BytesBits;
    if links == [] {
      GetBsAt(d, p, 0);
    } else {
      var l, rest := links[0], ChainBits(links[1..]);
      AtSplit(d, p, BsBits(|l.data|), HandleBits(l.code, l.application) + (BytesBits(l.data) + rest));
      var p1 := p + |BsBits(|l.data|)|;
      AtSplit(d, p1, HandleBits(l.code, l.application), BytesBits(l.data) + rest);
      var p2 := p1 + |HandleBits(l.code, l.application)|;
      AtSplit(d, p2, BytesBits(l.data), rest);
      GetBsAt(d, p, |l.data|);
      GetHandleAt(d, p1, l.code, l.application);
      GetRcsAt(d, p2, l.data);
      ChainReads(d, p2 + |BytesBits(l.data)|, links[1..]);
    }
  }

  // ---- the parts that come and go -------------------------------------------------

  /** A long of up to seven bytes, as wide as it is written. */
  function BllBits(v: nat, width: nat): bits {
    FromNat(width, 3) + LeBits(v, width)
  }

  lemma BllReads(d: bits, p: nat, v: nat, width: nat)
    requires width < 8 && v < Pow2(8 * width) && At(d, p, BllBits(v, width))
    ensures GetBll(d, p) == Ok((v, p + |BllBits(v, width)|))
  {
    hide At, FromNat, LeBits, GetBits, GetLe;
    Pow2Small();
    AtSplit(d, p, FromNat(width, 3), LeBits(v, width));
    GetBitsAt(d, p, width, 3);
    GetLeAt(d, p + 3, v, width);
  }

  lemma BitReads(d: bits, p: nat, b: bool, rest: bits)
    requires At(d, p, [b] + rest)
    ensures GetB(d, p) == Ok((b, p + 1)) && At(d, p + 1, rest)
  {
    AtSplit(d, p, [b], rest);
    assert d[p..p + 1][0] == b;
  }

  /** The preview's byte count is a `BLL` from R2010 on and an `RL` before. */
  function PreviewBits(v: Version, preview: Option<seq<byte>>, width: nat): bits {
    match preview
    case None => [false]
    case Some(bytes) => [true] + ((if v.IsR2010Plus() then BllBits(|bytes|, width) else LeBits(|bytes|, 4)) + BytesBits(bytes))
  }

  predicate PreviewFits(v: Version, preview: Option<seq<byte>>, width: nat) {
    preview.Some? ==>
      if v.IsR2010Plus() then width < 8 && |preview.value| < Pow2(8 * width) else |preview.value| < 0x1_0000_0000
  }

  lemma PreviewCountReads(d: bits, p: nat, v: Version, n: nat, width: nat)
    requires if v.IsR2010Plus() then width < 8 && n < Pow2(8 * width) else n < 0x1_0000_0000
    requires At(d, p, if v.IsR2010Plus() then BllBits(n, width) else LeBits(n, 4))
    ensures (if v.IsR2010Plus() then GetBll(d, p) else GetLe(d, p, 4))
         == Ok((n, p + |if v.IsR2010Plus() then BllBits(n, width) else LeBits(n, 4)|))
  {
    hide At, GetBll, GetLe, BllBits, LeBits;
    if v.IsR2010Plus() {
      BllReads(d, p, n, width);
    } else {
      Pow2Words();
      GetLeAt(d, p, n, 4);
    }
  }

  lemma PreviewReads(d: bits, p: nat, v: Version, preview: Option<seq<byte>>, width: nat)
    requires PreviewFits(v, preview, width) && At(d, p, PreviewBits(v, preview, width))
    ensures GetGraphics(d, p, v) == Ok(((), p + |PreviewBits(v, preview, width)|))
  {
    hide At, GetBll, GetLe, GetRcs, BllBits, LeBits, BytesBits, GetB, Pow2;
    if preview.None? {
      assert [false] + [] == [false];
      BitReads(d, p, false, []);
    } else {
      var bytes := preview.value;
      var count := if v.IsR2010Plus() then BllBits(|bytes|, width) else LeBits(|bytes|, 4);
      BitReads(d, p, true, count + BytesBits(bytes));
      AtSplit(d, p + 1, count, BytesBits(bytes));
      PreviewCountReads(d, p + 1, v, |bytes|, width);
      GetRcsAt(d, p + 1 + |count|, bytes);
    }
  }

  function DataStoreBits(v: Version, flag: bool, marker: bits): bits {
    When(v.IsR2013Plus(), [flag] + When(flag, marker))
  }

  lemma DataStoreReads(d: bits, p: nat, v: Version, flag: bool, marker: bits)
    requires At(d, p, DataStoreBits(v, flag, marker))
    ensures GetDsFlag(d, p, v, |marker|) == Ok((v.IsR2013Plus() && flag, p + |DataStoreBits(v, flag, marker)|))
  {
    if v.IsR2013Plus() {
      BitReads(d, p, flag, When(flag, marker));
    }
  }

  /** A colour's word, and the longs its flags announce from R2004 on: bit 13 a transparency,
      bit 15 without bit 14 an RGB value. */
  function ColourBits(v: Version, word: u16, transparency: u32, rgb: u32): bits {
    BsBits(word) + (When(v.IsR2004Plus() && HasWeight(word, 0x2000), BlBits(transparency))
                    + When(v.IsR2004Plus() && HasWeight(word, 0x8000) && !HasWeight(word, 0x4000), BlBits(rgb)))
  }

  predicate HasWeight(word: u16, weight: nat)
    requires weight > 0
  {
    word % (2 * weight) >= weight
  }

  lemma WeightIsDigit(word: u16, weight: nat)
    requires weight > 0
    ensures HasWeight(word, weight) <==> word / weight % 2 == 1
  {
    var q, r := word / weight / 2, word / weight % 2;
    var low := word % weight;
    assert word / weight == 2 * q + r;
    assert word == weight * (word / weight) + low;
    assert word == (2 * weight) * q + (weight * r + low) by {
      assert weight * (2 * q + r) == (2 * weight) * q + weight * r;
    }
    if r == 0 {
      ModUnique(word, 2 * weight, q, low);
    } else {
      ModUnique(word, 2 * weight, q, weight + low);
    }
  }

  lemma FlagsHaveWeights(word: u16)
    ensures HasWeight(word, 0x2000) <==> word / 0x100 / 0x20 % 2 == 1
    ensures HasWeight(word, 0x4000) <==> word / 0x100 / 0x40 % 2 == 1
    ensures HasWeight(word, 0x8000) <==> word / 0x100 / 0x80 % 2 == 1
  {
    hide HasWeight;
    WeightIsDigit(word, 0x2000);
    WeightIsDigit(word, 0x4000);
    WeightIsDigit(word, 0x8000);
  }

  lemma LongWhenReads(d: bits, p: nat, present: bool, v: u32)
    requires At(d, p, When(present, BlBits(v)))
    ensures (if present then GetBl(d, p) else Ok((0, p))) == Ok((if present then v else 0, p + |When(present, BlBits(v))|))
  {
    hide At, GetBl, BlBits;
    if present {
      GetBlAt(d, p, v);
    }
  }

  lemma ColourReads(d: bits, p: nat, v: Version, word: u16, transparency: u32, rgb: u32)
    requires At(d, p, ColourBits(v, word, transparency, rgb))
    ensures GetColour(d, p, v) == Ok((word, p + |ColourBits(v, word, transparency, rgb)|))
  {
    hide At, GetBs, GetBl, BsBits, BlBits, HasWeight, When;
    var x, y := v.IsR2004Plus() && HasWeight(word, 0x2000), v.IsR2004Plus() && HasWeight(word, 0x8000) && !HasWeight(word, 0x4000);
    var a, b := When(x, BlBits(transparency)), When(y, BlBits(rgb));
    AtSplit(d, p, BsBits(word), a + b);
    AtSplit(d, p + |BsBits(word)|, a, b);
    GetBsAt(d, p, word);
    FlagsHaveWeights(word);
    LongWhenReads(d, p + |BsBits(word)|, x, transparency);
    LongWhenReads(d, p + |BsBits(word)| + |a|, y, rgb);
  }

  function MaterialBits(v: Version, material: nat, shadow: byte): bits {
    When(v.IsR2007Plus(), BbBits(material) + RcBits(shadow))
  }

  lemma MaterialReads(d: bits, p: nat, v: Version, material: nat, shadow: byte)
    requires material < 4 && At(d, p, MaterialBits(v, material, shadow))
    ensures GetMaterial(d, p, v) == Ok(((), p + |MaterialBits(v, material, shadow)|))
  {
    hide At, GetBb, GetRc;
    if v.IsR2007Plus() {
      AtSplit(d, p, BbBits(material), RcBits(shadow));
      GetBbAt(d, p, material);
      GetRcAt(d, p + 2, shadow);
    }
  }

  lemma StylesRead(d: bits, p: nat, v: Version, styles: bits)
    requires |styles| == 3 && At(d, p, When(v.IsR2010Plus(), styles))
    ensures GetVisualStyles(d, p, v) == Ok(((), p + |When(v.IsR2010Plus(), styles)|))
  {
  }

  lemma FlagReads(d: bits, p: nat, present: bool, flag: bool)
    requires At(d, p, When(present, [flag]))
    ensures GetFlagWhen(d, p, present) == Ok((present && flag, p + |When(present, [flag])|))
  {
    if present {
      assert d[p..p + 1][0] == flag;
    }
  }

  lemma LineweightReads(d: bits, p: nat, v: Version, lineweight: byte)
    requires At(d, p, When(!v.R14?, RcBits(lineweight)))
    ensures GetLineweight(d, p, v) == Ok((if v.R14? then 0 else lineweight, p + |When(!v.R14?, RcBits(lineweight))|))
  {
    hide At, GetRc;
    if !v.R14? {
      GetRcAt(d, p, lineweight);
    }
  }

  // ---- the whole preamble ------------------------------------------------------------

  /** All that stands before an entity's own fields. */
  datatype Common = Common(
    links: seq<Link>, preview: Option<seq<byte>>, previewWidth: nat, mode: nat, reactors: u32, noDictionary: bool,
    dataStore: bool, marker: bits, colour: u16, transparency: u32, rgb: u32, scale: u64, linetype: nat, plotstyle: nat,
    material: nat, shadow: byte, styles: bits, invisibility: u16, lineweight: byte)
  {
    predicate Valid(v: Version) {
      && AllLinks(links) && PreviewFits(v, preview, previewWidth)
      && mode < 4 && linetype < 4 && plotstyle < 4 && material < 4 && |styles| == 3
    }

    /** What the reader keeps of it; minus zero is written as zero. */
    function Values(v: Version): Preamble {
      Preamble(v.IsR2013Plus() && dataStore, colour, if scale == NEGATIVE_ZERO then 0 else scale,
               invisibility, if v.R14? then 0 else lineweight)
    }
  }

  function CommonBits(v: Version, c: Common): bits
    requires c.Valid(v)
  {
    ChainBits(c.links) + (PreviewBits(v, c.preview, c.previewWidth) + (BbBits(c.mode) + (BlBits(c.reactors) + FlagsAndStyle(v, c))))
  }

  function FlagsAndStyle(v: Version, c: Common): bits {
    When(v.IsR2004Plus(), [c.noDictionary]) + (DataStoreBits(v, c.dataStore, c.marker) + Style(v, c))
  }

  function Style(v: Version, c: Common): bits {
    ColourBits(v, c.colour, c.transparency, c.rgb)
    + (BdBits(c.scale) + (BbBits(c.linetype) + (BbBits(c.plotstyle) + Rest(v, c))))
  }

  function Rest(v: Version, c: Common): bits {
    MaterialBits(v, c.material, c.shadow)
    + (When(v.IsR2010Plus(), c.styles) + (BsBits(c.invisibility) + When(!v.R14?, RcBits(c.lineweight))))
  }

  lemma ScaleReads(d: bits, p: nat, scale: u64)
    requires At(d, p, BdBits(scale))
    ensures GetBd(d, p) == Ok((if scale == NEGATIVE_ZERO then 0 else scale, p + |BdBits(scale)|))
  {
    hide At;
    GetBdAt(d, p, scale);
    if scale == NEGATIVE_ZERO {
      GetBdAt(d, p, 0);
    }
  }

  lemma RestReads(d: bits, p: nat, v: Version, c: Common)
    requires c.Valid(v) && At(d, p, Rest(v, c))
    ensures var p1 := p + |MaterialBits(v, c.material, c.shadow)|;
            var p2 := p1 + |When(v.IsR2010Plus(), c.styles)|;
            var p3 := p2 + |BsBits(c.invisibility)|;
            && GetMaterial(d, p, v) == Ok(((), p1)) && GetVisualStyles(d, p1, v) == Ok(((), p2))
            && GetBs(d, p2) == Ok((c.invisibility, p3))
            && GetLineweight(d, p3, v) == Ok((c.Values(v).lineweight, p + |Rest(v, c)|))
  {
    hide At, GetBs, GetMaterial, GetVisualStyles, GetLineweight, MaterialBits, BsBits, RcBits, When;
    var m, s, i, w := MaterialBits(v, c.material, c.shadow), When(v.IsR2010Plus(), c.styles), BsBits(c.invisibility),
                      When(!v.R14?, RcBits(c.lineweight));
    AtSplit(d, p, m, s + (i + w));
    AtSplit(d, p + |m|, s, i + w);
    AtSplit(d, p + |m| + |s|, i, w);
    MaterialReads(d, p, v, c.material, c.shadow);
    StylesRead(d, p + |m|, v, c.styles);
    GetBsAt(d, p + |m| + |s|, c.invisibility);
    LineweightReads(d, p + |m| + |s| + |i|, v, c.lineweight);
  }

  lemma StyleReads(d: bits, p: nat, v: Version, c: Common)
    requires c.Valid(v) && At(d, p, Style(v, c))
    ensures var p1 := p + |ColourBits(v, c.colour, c.transparency, c.rgb)|;
            var p2 := p1 + |BdBits(c.scale)|;
            && GetColour(d, p, v) == Ok((c.colour, p1)) && GetBd(d, p1) == Ok((c.Values(v).linetypeScale, p2))
            && GetBb(d, p2) == Ok((c.linetype, p2 + 2)) && GetBb(d, p2 + 2) == Ok((c.plotstyle, p2 + 4))
            && At(d, p2 + 4, Rest(v, c)) && |Style(v, c)| == p2 + 4 - p + |Rest(v, c)|
  {
    hide At, GetColour, GetBd, GetBb, ColourBits, BdBits, Rest, FromNat;
    var colour, scale := ColourBits(v, c.colour, c.transparency, c.rgb), BdBits(c.scale);
    var after := BbBits(c.plotstyle) + Rest(v, c);
    AtSplit(d, p, colour, scale + (BbBits(c.linetype) + after));
    AtSplit(d, p + |colour|, scale, BbBits(c.linetype) + after);
    var p2 := p + |colour| + |scale|;
    AtSplit(d, p2, BbBits(c.linetype), after);
    AtSplit(d, p2 + 2, BbBits(c.plotstyle), Rest(v, c));
    ColourReads(d, p, v, c.colour, c.transparency, c.rgb);
    ScaleReads(d, p + |colour|, c.scale);
    GetBbAt(d, p2, c.linetype);
    GetBbAt(d, p2 + 2, c.plotstyle);
  }

  lemma FlagsRead(d: bits, p: nat, v: Version, c: Common)
    requires At(d, p, FlagsAndStyle(v, c))
    ensures var p1 := p + |When(v.IsR2004Plus(), [c.noDictionary])|;
            var p2 := p1 + |DataStoreBits(v, c.dataStore, c.marker)|;
            && GetFlagWhen(d, p, v.IsR2004Plus()) == Ok((v.IsR2004Plus() && c.noDictionary, p1))
            && GetDsFlag(d, p1, v, |c.marker|) == Ok((v.IsR2013Plus() && c.dataStore, p2))
            && At(d, p2, Style(v, c)) && |FlagsAndStyle(v, c)| == p2 - p + |Style(v, c)|
  {
    hide At, GetFlagWhen, GetDsFlag, DataStoreBits, Style, When;
    var x, s := When(v.IsR2004Plus(), [c.noDictionary]), DataStoreBits(v, c.dataStore, c.marker);
    AtSplit(d, p, x, s + Style(v, c));
    AtSplit(d, p + |x|, s, Style(v, c));
    FlagReads(d, p, v.IsR2004Plus(), c.noDictionary);
    DataStoreReads(d, p + |x|, v, c.dataStore, c.marker);
  }

  lemma StartReads(d: bits, p: nat, v: Version, c: Common)
    requires c.Valid(v) && At(d, p, CommonBits(v, c))
    ensures var p1 := p + |ChainBits(c.links)|;
            var p2 := p1 + |PreviewBits(v, c.preview, c.previewWidth)|;
            var p3 := p2 + 2 + |BlBits(c.reactors)|;
            && GetEed(d, p) == Ok(((), p1)) && GetGraphics(d, p1, v) == Ok(((), p2))
            && GetBb(d, p2) == Ok((c.mode, p2 + 2)) && GetBl(d, p2 + 2) == Ok((c.reactors, p3))
            && At(d, p3, FlagsAndStyle(v, c)) && |CommonBits(v, c)| == p3 - p + |FlagsAndStyle(v, c)|
  {
    hide At, GetEed, GetGraphics, GetBb, GetBl, ChainBits, PreviewBits, BlBits, FlagsAndStyle, FromNat, PreviewFits;
    var chain, preview := ChainBits(c.links), PreviewBits(v, c.preview, c.previewWidth);
    var after := BlBits(c.reactors) + FlagsAndStyle(v, c);
    AtSplit(d, p, chain, preview + (BbBits(c.mode) + after));
    AtSplit(d, p + |chain|, preview, BbBits(c.mode) + after);
    var p2 := p + |chain| + |preview|;
    AtSplit(d, p2, BbBits(c.mode), after);
    AtSplit(d, p2 + 2, BlBits(c.reactors), FlagsAndStyle(v, c));
    ChainReads(d, p, c.links);
    PreviewReads(d, p + |chain|, v, c.preview, c.previewWidth);
    GetBbAt(d, p2, c.mode);
    GetBlAt(d, p2 + 2, c.reactors);
  }

  /** Every preamble reads back, on every release, and the reader stops on its last bit. */
  lemma PreambleReads(d: bits, p: nat, v: Version, c: Common)
    requires c.Valid(v) && At(d, p, CommonBits(v, c))
    ensures GetPreamble(d, p, v, |c.marker|) == Ok((c.Values(v), p + |CommonBits(v, c)|))
  {
    hide At, GetEed, GetGraphics, GetBs, GetBb, GetBl, GetBd, GetColour, GetMaterial, GetVisualStyles, GetLineweight, GetFlagWhen,
         GetDsFlag, ChainBits, PreviewBits, BlBits, DataStoreBits, ColourBits, BdBits, BsBits, MaterialBits, RcBits, FromNat,
         CommonBits, FlagsAndStyle, Style, Rest, When, PreviewFits;
    StartReads(d, p, v, c);
    var p3 := p + |CommonBits(v, c)| - |FlagsAndStyle(v, c)|;
    FlagsRead(d, p3, v, c);
    var p5 := p3 + |FlagsAndStyle(v, c)| - |Style(v, c)|;
    StyleReads(d, p5, v, c);
    RestReads(d, p5 + |Style(v, c)| - |Rest(v, c)|, v, c);
  }
}
