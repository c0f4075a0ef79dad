/** The readers of object records: the prologue (`src/object.rs`,
    `examples/dump_line_payload.rs`, `examples/probe_mtext_fields.rs`), the common entity
    preamble (`examples/probe_acis_records.rs`) and inline strings
    (`examples/probe_field_list.rs`). For each a function over the bits, and the cursor
    method proved against it. */
module RecordReaders {
  import opened Bits
  import opened Codes
  import opened BitIo
  import opened Versions
  import opened Results

  // ---- runs of bytes -----------------------------------------------------

  function GetRcs(d: bits, p: nat, n: nat): (r: Read<seq<byte>>)
    ensures r.Ok? ==> |r.value.0| == n && r.value.1 == p + 8 * n && (p <= |d| ==> r.value.1 <= |d|)
    decreases n, p
  {
    if n == 0 then Ok(([], p))
    else
      var (b, q) :- GetRc(d, p);
      var (rest, z) :- GetRcs(d, q, n - 1);
      Ok(([b] + rest, z))
  }

  lemma {:induction false} GetRcsAt(d: bits, p: nat, bs: seq<byte>)
    requires At(d, p, BytesBits(bs))
    ensures GetRcs(d, p, |bs|) == Ok((bs, p + 8 * |bs|))
    decreases |bs|
  {
    if bs != [] {
      assert bs == [bs[0]] + bs[1..];
      BytesBitsCons(bs[0], bs[1..]);
      AtSplit(d, p, RcBits(bs[0]), BytesBits(bs[1..]));
      GetRcAt(d, p, bs[0]);
      GetRcsAt(d, p + 8, bs[1..]);
    }
  }

  ghost predicate Collected(whole: Read<seq<byte>>, done: seq<byte>, rest: Read<seq<byte>>) {
    match rest
    case Ok((bs, q)) => whole == Ok((done + bs, q))
    case Err(e) => whole == Err(e)
  }

  lemma CollectedNone(whole: Read<seq<byte>>)
    ensures Collected(whole, [], whole)
  {
    if whole.Ok? {
      assert [] + whole.value.0 == whole.value.0;
    }
  }

  lemma CollectedOne(whole: Read<seq<byte>>, done: seq<byte>, b: byte, rest: Read<seq<byte>>)
    requires match rest
             case Ok((bs, q)) => Collected(whole, done, Ok(([b] + bs, q)))
             case Err(e) => Collected(whole, done, Err(e))
    ensures Collected(whole, done + [b], rest)
  {
    if rest.Ok? {
      Assoc(done, [b], rest.value.0);
    }
  }

  method ReadRcs(c: BitCursor, n: nat) returns (r: Result<seq<byte>>)
    requires c.Valid()
    modifies c
    ensures c.Valid() && Follows(r, c.PositionBits(), GetRcs(c.Data(), old(c.PositionBits()), n))
  {
    var bs: seq<byte> := [];
    ghost var spec := GetRcs(c.Data(), c.PositionBits(), n);
    CollectedNone(spec);
    for i := 0 to n
      invariant c.Valid()
      invariant Collected(spec, bs, GetRcs(c.Data(), c.PositionBits(), n - i))
    {
      var b :- c.ReadRc();
      CollectedOne(spec, bs, b, GetRcs(c.Data(), c.PositionBits(), n - i - 1));
      bs := bs + [b];
    }
    assert bs + [] == bs;
    return Ok(bs);
  }

  // ---- the prologue ------------------------------------------------------

  function GetObjectType(d: bits, p: nat, v: Version): (r: Read<u16>)
    ensures r.Ok? ==> p < r.value.1 <= |d|
  {
    if v.IsR2010Plus() then
      var (tag, q) :- GetBb(d, p);
      Pow2Words();
      GetLeBound(d, q, 2);
      match tag
      case 0 => GetRc(d, q)
      case 1 => (var (b, z) :- GetRc(d, q); Ok((b + 0x1F0, z)))
      case _ => GetLe(d, q, 2)
    else
      GetBs(d, p)
  }

  /** The forms of a type code from R2010 on: a byte, a byte above 0x1F0, or two bytes under
      either of the last two tags. */
  function TypeForm(tag: nat, code: u16): bits
    requires TagStates(tag, code)
  {
    BbBits(tag) + match tag
                  case 0 => RcBits(code)
                  case 1 => RcBits(code - 0x1F0)
                  case _ => LeBits(code, 2)
  }

  predicate TagStates(tag: nat, code: u16) {
    tag < 4 && (tag == 0 ==> code < 0x100) && (tag == 1 ==> 0x1F0 <= code < 0x2F0)
  }

  lemma TypeFormParts(d: bits, p: nat, tag: nat, rest: bits)
    requires tag < 4 && At(d, p, BbBits(tag) + rest)
    ensures GetBb(d, p) == Ok((tag, p + 2)) && At(d, p + 2, rest)
  {
    hide At, GetBits, FromNat;
    AtSplit(d, p, BbBits(tag), rest);
    GetBbAt(d, p, tag);
  }

  /** Every type code reads back from every form that can state it. */
  lemma TypeFormReads(d: bits, p: nat, v: Version, tag: nat, code: u16)
    requires v.IsR2010Plus() && TagStates(tag, code) && At(d, p, TypeForm(tag, code))
    ensures GetObjectType(d, p, v) == Ok((code, p + |TypeForm(tag, code)|))
  {
    hide At, GetBb, LeBits, GetLe, GetRc, Pow2, ByteBits;
    assert code < Pow2(16) by {
      Pow2Words();
    }
    if tag == 0 {
      TypeFormParts(d, p, 0, RcBits(code));
      GetRcAt(d, p + 2, code);
    } else if tag == 1 {
      var b: byte := code - 0x1F0;
      TypeFormParts(d, p, 1, RcBits(b));
      GetRcAt(d, p + 2, b);
      assert GetRc(d, p + 2) == Ok((b, p + 10)) && |TypeForm(1, code)| == 10;
    } else {
      TypeFormParts(d, p, tag, LeBits(code, 2));
      GetLeAt(d, p + 2, code, 2);
    }
  }

  method ReadObjectType(c: BitCursor, v: Version) returns (r: Result<u16>)
    requires c.Valid()
    modifies c
    ensures c.Valid() && Follows(r, c.PositionBits(), GetObjectType(c.Data(), old(c.PositionBits()), v))
  {
    hide Field, BytesBits, GetBits;
    ghost var spec := GetObjectType(c.Data(), c.PositionBits(), v);
    if v.IsR2010Plus() {
      var tag :- c.ReadBb();
      match tag {
        case 0 =>
          var b :- c.ReadRc();
          return Ok(b);
        case 1 =>
          var b :- c.ReadRc();
          return Ok(b as int + 0x1F0);
        case _ =>
          var w :- c.ReadLe(2);
          return Ok(w);
      }
    } else {
      r := c.ReadBs();
    }
  }

  /** The `MC` reader's loop: groups or-ed in at a growing shift. */
  method ReadMcUnsigned(c: BitCursor, strict: bool) returns (r: Result<u64>)
    requires c.Valid()
    modifies c
    ensures c.Valid() && Follows(r, c.PositionBits(), GetMc(c.Data(), old(c.PositionBits()), strict))
  {
    hide GetRc, BytesBits;
    var value: nat, weight: nat, k := 0, 1, 0;
    ghost var spec := GetGroups(c.Data(), c.PositionBits(), 0, strict);
    while true
      invariant 0 <= k <= 9 && c.Valid()
      invariant Scaled(spec, value, weight, GetGroups(c.Data(), c.PositionBits(), k, strict))
      decreases 9 - k
    {
      ghost var here := GetGroups(c.Data(), c.PositionBits(), k, strict);
      var b :- c.ReadRc();
      var group := b % 0x80;
      if b < 0x80 || (k == 9 && !strict) {
        ScaledLast(spec, value, weight, group, c.PositionBits());
        return Ok(Truncate64(value + weight * group));
      }
      if k == 9 {
        return Err(ModularCharTooLong);
      }
      ScaledGroup(spec, value, weight, group, GetGroups(c.Data(), c.PositionBits(), k + 1, strict));
      value, weight, k := value + weight * group, 0x80 * weight, k + 1;
    }
  }

  lemma ScaledLast(whole: Read<nat>, out: nat, weight: nat, b: nat, q: nat)
    requires Scaled(whole, out, weight, Ok((b, q)))
    ensures weight * b >= 0 && whole == Ok((out + weight * b, q))
  {
    NatProduct(weight, b);
  }

  lemma ScaledGroup(whole: Read<nat>, out: nat, weight: nat, b: nat, rest: Read<nat>)
    requires match rest
             case Ok((v, q)) => Scaled(whole, out, weight, Ok((b + 0x80 * v, q)))
             case Err(e) => Scaled(whole, out, weight, Err(e))
    ensures weight * b >= 0
    ensures Scaled(whole, out + weight * b, 0x80 * weight, rest)
  {
    NatProduct(weight, b);
    if rest.Ok? {
      var v := rest.value.0;
      assert weight * (b + 0x80 * v) == weight * b + 0x80 * weight * v;
    }
  }

  /** What the walker reads before a record's body. */
  datatype Prologue = Prologue(handleStream: Option<u64>, typeCode: u16, objectSize: Option<nat>, handle: Handle)

  function GetPrologue(d: bits, v: Version): (r: Read<Prologue>)
    ensures r.Ok? ==> r.value.1 <= |d|
  {
    var (mc, p1) :- GetMcField(d, v);
    var (typeCode, p2) :- GetObjectType(d, p1, v);
    var (size, p3) :- GetObjectSize(d, p2, v);
    var (handle, p4) :- GetHandle(d, p3);
    Ok((Prologue(mc, typeCode, size, handle), p4))
  }

  function GetMcField(d: bits, v: Version): Read<Option<u64>> {
    if v.IsR2010Plus() then
      var (mc, q) :- GetMc(d, 0, false);
      Ok((Some(mc), q))
    else Ok((None, 0))
  }

  function GetObjectSize(d: bits, p: nat, v: Version): Read<Option<nat>> {
    if v.HasObjectSizeField() then
      var (size, q) :- GetLe(d, p, 4);
      Ok((Some(size), q))
    else Ok((None, p))
  }

  method ReadMcField(c: BitCursor, v: Version) returns (r: Result<Option<u64>>)
    requires c.Valid() && c.PositionBits() == 0
    modifies c
    ensures c.Valid() && Follows(r, c.PositionBits(), GetMcField(c.Data(), v))
  {
    if v.IsR2010Plus() {
      var mc :- ReadMcUnsigned(c, false);
      return Ok(Some(mc));
    }
    return Ok(None);
  }

  method ReadObjectSize(c: BitCursor, v: Version) returns (r: Result<Option<nat>>)
    requires c.Valid()
    modifies c
    ensures c.Valid() && Follows(r, c.PositionBits(), GetObjectSize(c.Data(), old(c.PositionBits()), v))
  {
    if v.HasObjectSizeField() {
      var size :- c.ReadLe(4);
      return Ok(Some(size));
    }
    return Ok(None);
  }

  method ReadPrologue(c: BitCursor, v: Version) returns (r: Result<Prologue>)
    requires c.Valid() && c.PositionBits() == 0
    modifies c
    ensures c.Valid() && Follows(r, c.PositionBits(), GetPrologue(c.Data(), v))
  {
    ghost var spec := GetPrologue(c.Data(), v);
    var mc :- ReadMcField(c, v);
    var typeCode :- ReadObjectType(c, v);
    var size :- ReadObjectSize(c, v);
    var handle :- c.ReadHandle();
    return Ok(Prologue(mc, typeCode, size, handle));
  }

  /** The field walker's own way past the prologue: it skips continued bytes without
      counting them and keeps no value. */
  function SkipMc(d: bits, p: nat): (r: Read<()>)
    ensures r.Ok? ==> p < r.value.1 <= |d|
    decreases |d| - p
  {
    var (b, q) :- GetRc(d, p);
    if b >= 0x80 then SkipMc(d, q) else Ok(((), q))
  }

  function SeekPastHeader(d: bits, v: Version): Read<Handle> {
    var (_, p1) :- if v.IsR2010Plus() then SkipMc(d, 0) else Ok(((), 0));
    var (_, p2) :- GetObjectType(d, p1, v);
    var (_, p3) :- GetObjectSize(d, p2, v);
    GetHandle(d, p3)
  }

  method SkipMcField(c: BitCursor, v: Version) returns (r: Result<()>)
    requires c.Valid() && c.PositionBits() == 0
    modifies c
    ensures c.Valid() && Follows(r, c.PositionBits(), if v.IsR2010Plus() then SkipMc(c.Data(), 0) else Ok(((), 0)))
  {
    if !v.IsR2010Plus() {
      return Ok(());
    }
    ghost var spec := SkipMc(c.Data(), 0);
    var b :- c.ReadRc();
    while b >= 0x80
      invariant c.Valid()
      invariant spec == if b >= 0x80 then SkipMc(c.Data(), c.PositionBits()) else Ok(((), c.PositionBits()))
      decreases 8 * |c.bytes| - c.PositionBits()
    {
      b :- c.ReadRc();
    }
    return Ok(());
  }

  method SeekPastObjectHeader(c: BitCursor, v: Version) returns (r: Result<Handle>)
    requires c.Valid() && c.PositionBits() == 0
    modifies c
    ensures c.Valid() && Follows(r, c.PositionBits(), SeekPastHeader(c.Data(), v))
  {
    ghost var spec := SeekPastHeader(c.Data(), v);
    var _ :- SkipMcField(c, v);
    var _ :- ReadObjectType(c, v);
    var _ :- ReadObjectSize(c, v);
    r := c.ReadHandle();
  }

  /** Wherever both accept the leading `MC`, the two prologue readers agree. */
  lemma {:induction false} SkipMcAgrees(d: bits, p: nat, k: nat)
    requires GetGroups(d, p, k, true).Ok?
    ensures SkipMc(d, p) == Ok(((), GetGroups(d, p, k, true).value.1))
    ensures GetGroups(d, p, k, false) == GetGroups(d, p, k, true)
    decreases 10 - k
  {
    var b := GetRc(d, p).value.0;
    if b >= 0x80 && k < 9 {
      SkipMcAgrees(d, p + 8, k + 1);
    }
  }

  lemma ProloguesAgree(d: bits, v: Version)
    requires v.IsR2010Plus() ==> GetMc(d, 0, true).Ok?
    ensures SeekPastHeader(d, v) == match GetPrologue(d, v)
                                    case Ok((prologue, q)) => Ok((prologue.handle, q))
                                    case Err(e) => Err(e)
  {
    if v.IsR2010Plus() {
      SkipMcAgrees(d, 0, 0);
    }
  }

  // ---- the common entity preamble ----------------------------------------

  datatype Preamble = Preamble(dsBinary: bool, colour: u16, linetypeScale: u64, invisibility: u16, lineweight: byte)

  /** The chain of extended data: size, application handle, bytes, until a size of 0. */
  function GetEed(d: bits, p: nat): (r: Read<()>)
    ensures r.Ok? ==> p < r.value.1 <= |d|
    decreases |d| - p
  {
    var (size, p1) :- GetBs(d, p);
    if size == 0 then Ok(((), p1))
    else
      var (_, p2) :- GetHandle(d, p1);
      var (_, p3) :- GetRcs(d, p2, size);
      GetEed(d, p3)
  }

  function GetGraphics(d: bits, p: nat, v: Version): Read<()> {
    var (present, p1) :- GetB(d, p);
    if !present then Ok(((), p1))
    else
      var (n, p2) :- if v.IsR2010Plus() then GetBll(d, p1) else GetLe(d, p1, 4);
      var (_, p3) :- GetRcs(d, p2, n);
      Ok(((), p3))
  }

  /** `marker` bits after the data-store flag when it is set. */
  function GetDsFlag(d: bits, p: nat, v: Version, marker: nat): Read<bool> {
    if !v.IsR2013Plus() then Ok((false, p))
    else
      var (ds, p1) :- GetB(d, p);
      if !ds then Ok((false, p1))
      else if p1 + marker <= |d| then Ok((true, p1 + marker)) else Err(BitsExhausted)
  }

  function GetColour(d: bits, p: nat, v: Version): Read<u16> {
    var (colour, p1) :- GetBs(d, p);
    var flags := colour / 0x100;
    var (_, p2) :- if v.IsR2004Plus() && flags / 0x20 % 2 == 1 then GetBl(d, p1) else Ok((0, p1));
    var (_, p3) :- if v.IsR2004Plus() && flags / 0x40 % 2 == 0 && flags / 0x80 % 2 == 1 then GetBl(d, p2) else Ok((0, p2));
    Ok((colour, p3))
  }

  function GetFlagWhen(d: bits, p: nat, present: bool): Read<bool> {
    if present then GetB(d, p) else Ok((false, p))
  }

  function GetMaterial(d: bits, p: nat, v: Version): Read<()> {
    if !v.IsR2007Plus() then Ok(((), p))
    else
      var (_, p1) :- GetBb(d, p);
      var (_, p2) :- GetRc(d, p1);
      Ok(((), p2))
  }

  function GetVisualStyles(d: bits, p: nat, v: Version): Read<()> {
    if !v.IsR2010Plus() then Ok(((), p))
    else
      var (_, p1) :- GetB(d, p);
      var (_, p2) :- GetB(d, p1);
      var (_, p3) :- GetB(d, p2);
      Ok(((), p3))
  }

  function GetLineweight(d: bits, p: nat, v: Version): Read<byte> {
    if v.R14? then Ok((0, p)) else GetRc(d, p)
  }

  function GetPreamble(d: bits, p: nat, v: Version, marker: nat): Read<Preamble> {
    var (_, p1) :- GetEed(d, p);
    var (_, p2) :- GetGraphics(d, p1, v);
    var (_, p3) :- GetBb(d, p2);
    var (_, p4) :- GetBl(d, p3);
    var (_, p5) :- GetFlagWhen(d, p4, v.IsR2004Plus());
    var (ds, p6) :- GetDsFlag(d, p5, v, marker);
    var (colour, p7) :- GetColour(d, p6, v);
    var (scale, p8) :- GetBd(d, p7);
    var (_, p9) :- GetBb(d, p8);
    var (_, p10) :- GetBb(d, p9);
    var (_, p11) :- GetMaterial(d, p10, v);
    var (_, p12) :- GetVisualStyles(d, p11, v);
    var (invisibility, p13) :- GetBs(d, p12);
    var (lineweight, p14) :- GetLineweight(d, p13, v);
    Ok((Preamble(ds, colour, scale, invisibility, lineweight), p14))
  }

  method ReadEed(c: BitCursor) returns (r: Result<()>)
    requires c.Valid()
    modifies c
    ensures c.Valid() && Follows(r, c.PositionBits(), GetEed(c.Data(), old(c.PositionBits())))
  {
    ghost var spec := GetEed(c.Data(), c.PositionBits());
    while true
      invariant c.Valid()
      invariant spec == GetEed(c.Data(), c.PositionBits())
      decreases 8 * |c.bytes| - c.PositionBits()
    {
      var size :- c.ReadBs();
      if size == 0 {
        return Ok(());
      }
      var _ :- c.ReadHandle();
      var _ :- ReadRcs(c, size);
    }
  }

  method ReadGraphics(c: BitCursor, v: Version) returns (r: Result<()>)
    requires c.Valid()
    modifies c
    ensures c.Valid() && Follows(r, c.PositionBits(), GetGraphics(c.Data(), old(c.PositionBits()), v))
  {
    var present :- c.ReadB();
    if present {
      var n;
      if v.IsR2010Plus() {
        n :- c.ReadBll();
      } else {
        n :- c.ReadLe(4);
      }
      var _ :- ReadRcs(c, n);
    }
    return Ok(());
  }

  method ReadDsFlag(c: BitCursor, v: Version, marker: nat) returns (r: Result<bool>)
    requires c.Valid()
    modifies c
    ensures c.Valid() && Follows(r, c.PositionBits(), GetDsFlag(c.Data(), old(c.PositionBits()), v, marker))
  {
    if !v.IsR2013Plus() {
      return Ok(false);
    }
    ghost var spec := GetDsFlag(c.Data(), c.PositionBits(), v, marker);
    var ds :- c.ReadB();
    if ds {
      ghost var p := c.PositionBits();
      for i := 0 to marker
        invariant c.Valid() && c.PositionBits() == p + i
      {
        var _ :- c.ReadB();
      }
    }
    return Ok(ds);
  }

  method ReadColour(c: BitCursor, v: Version) returns (r: Result<u16>)
    requires c.Valid()
    modifies c
    ensures c.Valid() && Follows(r, c.PositionBits(), GetColour(c.Data(), old(c.PositionBits()), v))
  {
    var colour :- c.ReadBs();
    if v.IsR2004Plus() {
      var flags := colour / 0x100;
      if flags / 0x20 % 2 == 1 {
        var _ :- c.ReadBl();
      }
      if flags / 0x40 % 2 == 0 && flags / 0x80 % 2 == 1 {
        var _ :- c.ReadBl();
      }
    }
    return Ok(colour);
  }

  method ReadFlagWhen(c: BitCursor, present: bool) returns (r: Result<bool>)
    requires c.Valid()
    modifies c
    ensures c.Valid() && Follows(r, c.PositionBits(), GetFlagWhen(c.Data(), old(c.PositionBits()), present))
  {
    if present {
      r := c.ReadB();
    } else {
      r := Ok(false);
    }
  }

  method ReadMaterial(c: BitCursor, v: Version) returns (r: Result<()>)
    requires c.Valid()
    modifies c
    ensures c.Valid() && Follows(r, c.PositionBits(), GetMaterial(c.Data(), old(c.PositionBits()), v))
  {
    if v.IsR2007Plus() {
      var _ :- c.ReadBb();
      var _ :- c.ReadRc();
    }
    return Ok(());
  }

  method ReadVisualStyles(c: BitCursor, v: Version) returns (r: Result<()>)
    requires c.Valid()
    modifies c
    ensures c.Valid() && Follows(r, c.PositionBits(), GetVisualStyles(c.Data(), old(c.PositionBits()), v))
  {
    if v.IsR2010Plus() {
      var _ :- c.ReadB();
      var _ :- c.ReadB();
      var _ :- c.ReadB();
    }
    return Ok(());
  }

  method ReadLineweight(c: BitCursor, v: Version) returns (r: Result<byte>)
    requires c.Valid()
    modifies c
    ensures c.Valid() && Follows(r, c.PositionBits(), GetLineweight(c.Data(), old(c.PositionBits()), v))
  {
    if v.R14? {
      r := Ok(0);
    } else {
      r := c.ReadRc();
    }
  }

  method ReadPreamble(c: BitCursor, v: Version, marker: nat) returns (r: Result<Preamble>)
    requires c.Valid()
    modifies c
    ensures c.Valid() && Follows(r, c.PositionBits(), GetPreamble(c.Data(), old(c.PositionBits()), v, marker))
  {
    hide GetEed, GetGraphics, GetBb, GetBl, GetFlagWhen, GetDsFlag, GetColour, GetBd, GetMaterial, GetVisualStyles,
         GetBs, GetLineweight, BytesBits;
    ghost var spec := GetPreamble(c.Data(), c.PositionBits(), v, marker);
    var _ :- ReadEed(c);
    var _ :- ReadGraphics(c, v);
    var _ :- c.ReadBb();
    var _ :- c.ReadBl();
    var _ :- ReadFlagWhen(c, v.IsR2004Plus());
    var ds :- ReadDsFlag(c, v, marker);
    var colour :- ReadColour(c, v);
    var scale :- c.ReadBd();
    var _ :- c.ReadBb();
    var _ :- c.ReadBb();
    var _ :- ReadMaterial(c, v);
    var _ :- ReadVisualStyles(c, v);
    var invisibility :- c.ReadBs();
    var lineweight :- ReadLineweight(c, v);
    return Ok(Preamble(ds, colour, scale, invisibility, lineweight));
  }

  // ---- inline strings ----------------------------------------------------

  /** One trailing terminator, if there is one, is not part of the string. */
  function DropTerminator(s: seq<byte>): seq<byte> {
    if s != [] && s[|s| - 1] == 0 then s[..|s| - 1] else s
  }

  function GetTvInline(d: bits, p: nat): Read<seq<byte>> {
    var (n, p1) :- GetBs(d, p);
    var (s, p2) :- GetRcs(d, p1, n);
    Ok((DropTerminator(s), p2))
  }

  method ReadTvInline(c: BitCursor) returns (r: Result<seq<byte>>)
    requires c.Valid()
    modifies c
    ensures c.Valid() && Follows(r, c.PositionBits(), GetTvInline(c.Data(), old(c.PositionBits())))
  {
    var n :- c.ReadBs();
    var s :- ReadRcs(c, n);
    if s != [] && s[|s| - 1] == 0 {
      s := s[..|s| - 1];
    }
    return Ok(s);
  }

  // ---- the handle stream -------------------------------------------------

  /** Handles from `p` for as long as a code byte remains and one reads, after `done`. */
  function GetHandles(d: bits, p: nat, done: seq<Handle>): seq<Handle>
    decreases |d| - p
  {
    if p + 8 > |d| then done
    else match GetHandle(d, p)
      case Err(_) => done
      case Ok((h, q)) => GetHandles(d, q, done + [h])
  }
}
