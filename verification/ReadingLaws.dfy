/** What the readers make of bits that the writers here do not emit: the other forms of each
    code, the refusals, strings of other writers. */
module ReadingLaws {
  import opened Bits
  import opened Codes
  import opened Versions
  import opened RecordReaders
  import opened RecordWriter
  import opened StringStream
  import RecordLaws
  import opened Results

  // ---- forms --------------------------------------------------------------------

  lemma FullFormReads(d: bits, p: nat, v: nat, n: nat)
    requires v < Pow2(8 * n) && At(d, p, BbBits(0) + LeBits(v, n))
    ensures GetBb(d, p) == Ok((0, p + 2)) && GetLe(d, p + 2, n) == Ok((v, p + 2 + 8 * n))
  {
    hide At, GetBits, GetLe, LeBytes, FromNat, BytesBits, Pow2;
    assert Pow2(2) == 4 by {
      Pow2Small();
    }
    AtSplit(d, p, BbBits(0), LeBits(v, n));
    GetBbAt(d, p, 0);
    GetLeAt(d, p + 2, v, n);
  }

  /** Whatever form a short, a long or a double is in, it reads back; a double in eight bytes
      reads back whatever it is, minus zero too. */
  lemma LongFormsRead(d: bits, p: nat, v: nat)
    ensures v < 0x1_0000 && At(d, p, BbBits(0) + LeBits(v, 2)) ==> GetBs(d, p) == Ok((v, p + 18))
    ensures v < 0x1_0000_0000 && At(d, p, BbBits(0) + LeBits(v, 4)) ==> GetBl(d, p) == Ok((v, p + 34))
    ensures v < 0x1_0000_0000_0000_0000 && At(d, p, BbBits(0) + LeBits(v, 8)) ==> GetBd(d, p) == Ok((v, p + 66))
  {
    hide At, GetBb, GetLe, LeBits, BbBits, Pow2;
    Pow2Words();
    if v < 0x1_0000 && At(d, p, BbBits(0) + LeBits(v, 2)) {
      FullFormReads(d, p, v, 2);
    }
    if v < 0x1_0000_0000 && At(d, p, BbBits(0) + LeBits(v, 4)) {
      FullFormReads(d, p, v, 4);
    }
    if v < 0x1_0000_0000_0000_0000 && At(d, p, BbBits(0) + LeBits(v, 8)) {
      FullFormReads(d, p, v, 8);
    }
  }

  lemma ByteFormsRead(d: bits, p: nat, v: byte)
    requires At(d, p, BbBits(1) + RcBits(v))
    ensures GetBs(d, p) == Ok((v, p + 10)) && GetBl(d, p) == Ok((v, p + 10))
  {
    hide At, GetBits, GetLe, FromNat, GetRc, BytesBits;
    Pow2Words();
    AtSplit(d, p, BbBits(1), RcBits(v));
    GetBbAt(d, p, 1);
    GetRcAt(d, p + 2, v);
  }

  lemma ShortFormsRead(d: bits, p: nat)
    ensures At(d, p, BbBits(2)) ==> GetBs(d, p) == Ok((0, p + 2)) && GetBl(d, p) == Ok((0, p + 2)) && GetBd(d, p) == Ok((0, p + 2))
    ensures At(d, p, BbBits(1)) ==> GetBd(d, p) == Ok((ONE, p + 2))
    ensures At(d, p, BbBits(3)) ==> GetBs(d, p) == Ok((256, p + 2))
    ensures At(d, p, BbBits(3)) ==> GetBl(d, p) == Err(ReservedBitPattern) && GetBd(d, p) == Err(ReservedBitPattern)
  {
    hide At, GetBits, GetLe, FromNat;
    Pow2Words();
    if At(d, p, BbBits(1)) {
      GetBbAt(d, p, 1);
    }
    if At(d, p, BbBits(2)) {
      GetBbAt(d, p, 2);
    }
    if At(d, p, BbBits(3)) {
      GetBbAt(d, p, 3);
    }
  }

  /** A handle says in four bits how many bytes it has; any from nine on are refused, and up to
      eight bytes read back with leading zeros too. */
  lemma HandleCountersRead(d: bits, p: nat, code: nat, bs: seq<byte>)
    requires code < 16 && |bs| < 16 && At(d, p, FromNat(code, 4) + FromNat(|bs|, 4))
    ensures |bs| > 8 ==> GetHandle(d, p) == Err(HandleCounterTooLarge)
    ensures |bs| <= 8 && At(d, p + 8, BytesBits(bs)) ==>
              GetHandle(d, p) == Ok((Handle(code, |bs|, OfBeBytes(bs, 0)), p + 8 + 8 * |bs|))
  {
    hide At, BytesBits, FromNat, GetBits, ByteBits, OfBeBytes;
    Pow2Small();
    AtSplit(d, p, FromNat(code, 4), FromNat(|bs|, 4));
    GetBitsAt(d, p, code, 4);
    GetBitsAt(d, p + 4, |bs|, 4);
    if |bs| <= 8 && At(d, p + 8, BytesBits(bs)) {
      GetBeAt(d, p + 8, bs, 0);
    }
  }

  // ---- modular chars ----------------------------------------------------------------

  /** Groups of seven digits, the lowest first, each but the last continued. */
  function Continued(groups: seq<nat>): seq<byte>
    requires forall i :: 0 <= i < |groups| ==> groups[i] < 0x80
  {
    seq(|groups|, i requires 0 <= i < |groups| => groups[i] + if i < |groups| - 1 then 0x80 else 0)
  }

  function Sum(groups: seq<nat>): nat {
    if groups == [] then 0 else groups[0] + 0x80 * Sum(groups[1..])
  }

  lemma {:induction false} GroupsRead(d: bits, p: nat, groups: seq<nat>, k: nat, strict: bool)
    requires groups != [] && k + |groups| <= 10 && forall i :: 0 <= i < |groups| ==> groups[i] < 0x80
    requires At(d, p, BytesBits(Continued(groups)))
    ensures GetGroups(d, p, k, strict) == Ok((Sum(groups), p + 8 * |groups|))
    decreases |groups|
  {
    hide At, BytesBits, FromNat, GetBits, ByteBits, GetRc;
    var bs := Continued(groups);
    var rest := bs[1..];
    assert bs == [bs[0]] + rest;
    BytesBitsCons(bs[0], rest);
    AtSplit(d, p, RcBits(bs[0]), BytesBits(rest));
    GetRcAt(d, p, bs[0]);
    if |groups| > 1 {
      assert rest == Continued(groups[1..]);
      GroupsRead(d, p + 8, groups[1..], k + 1, strict);
    } else {
      assert Sum(groups[1..]) == 0;
    }
  }

  /** Up to ten groups read back into 64 bits, leading zeros or not; after ten that are all
      continued the strict reader refuses and the other stops. */
  lemma ModularCharsRead(d: bits, p: nat, groups: seq<nat>, strict: bool)
    requires 0 < |groups| <= 10 && forall i :: 0 <= i < |groups| ==> groups[i] < 0x80
    requires At(d, p, BytesBits(Continued(groups)))
    ensures GetMc(d, p, strict) == Ok((Sum(groups) % 0x1_0000_0000_0000_0000, p + 8 * |groups|))
  {
    hide GetGroups, Sum, BytesBits;
    GroupsRead(d, p, groups, 0, strict);
  }

  lemma {:induction false} AllContinued(d: bits, p: nat, bs: seq<byte>, k: nat)
    requires bs != [] && k + |bs| == 10 && (forall i :: 0 <= i < |bs| ==> bs[i] >= 0x80) && At(d, p, BytesBits(bs))
    ensures GetGroups(d, p, k, true) == Err(ModularCharTooLong)
    ensures GetGroups(d, p, k, false).Ok? && GetGroups(d, p, k, false).value.1 == p + 8 * |bs|
    decreases |bs|
  {
    hide At, BytesBits, FromNat, GetBits, ByteBits, GetRc;
    assert bs == [bs[0]] + bs[1..];
    BytesBitsCons(bs[0], bs[1..]);
    AtSplit(d, p, RcBits(bs[0]), BytesBits(bs[1..]));
    GetRcAt(d, p, bs[0]);
    if |bs| > 1 {
      AllContinued(d, p + 8, bs[1..], k + 1);
    }
  }

  lemma TenContinuedBytes(d: bits, p: nat, bs: seq<byte>)
    requires |bs| == 10 && (forall i :: 0 <= i < 10 ==> bs[i] >= 0x80) && At(d, p, BytesBits(bs))
    ensures GetMc(d, p, true) == Err(ModularCharTooLong)
    ensures GetMc(d, p, false).Ok? && GetMc(d, p, false).value.1 == p + 80
  {
    hide GetGroups, BytesBits, At;
    AllContinued(d, p, bs, 0);
  }

  // ---- strings of other writers --------------------------------------------------------

  /** An inline string of any bytes reads back; a last NUL, if there is one, is left out. */
  lemma InlineReads(d: bits, p: nat, bs: seq<byte>)
    requires |bs| < 0x1_0000 && At(d, p, BsBits(|bs|) + BytesBits(bs))
    ensures GetTvInline(d, p).Ok? && GetTvInline(d, p).value.1 == p + |BsBits(|bs|)| + 8 * |bs|
    ensures bs != [] && bs[|bs| - 1] == 0 ==> GetTvInline(d, p).value.0 + [0] == bs
    ensures bs == [] || bs[|bs| - 1] != 0 ==> GetTvInline(d, p).value.0 == bs
  {
    hide At, BytesBits, BsBits, GetBs, GetRcs;
    AtSplit(d, p, BsBits(|bs|), BytesBits(bs));
    GetBsAt(d, p, |bs|);
    GetRcsAt(d, p + |BsBits(|bs|)|, bs);
  }

  /** The probe's string reader before R2007: the counted bytes, as they are. */
  lemma NarrowReads(d: bits, p: nat, v: Version, bs: seq<byte>)
    requires !v.IsR2007Plus() && |bs| < 0x1_0000 && At(d, p, BsBits(|bs|) + BytesBits(bs))
    ensures GetTv(d, p, v) == Ok((bs, p + |BsBits(|bs|)| + 8 * |bs|))
  {
    hide At, BytesBits, BsBits, GetBs, GetRcs;
    AtSplit(d, p, BsBits(|bs|), BytesBits(bs));
    GetBsAt(d, p, |bs|);
    GetRcsAt(d, p + |BsBits(|bs|)|, bs);
  }

  /** And from R2007 on: the counted code units, refused if they are no UTF-16. */
  lemma WideReads(d: bits, p: nat, v: Version, units: seq<u16>)
    requires v.IsR2007Plus() && |units| < 0x1_0000 && At(d, p, TuBits(units))
    ensures WellFormed(units) ==> GetTv(d, p, v) == Ok((units, p + |TuBits(units)|))
    ensures !WellFormed(units) ==> GetTv(d, p, v) == Err(NotUtf16)
  {
    hide At, BytesBits, BsBits, GetBs, GetRcs, UnitsOf, UnitBytes;
    var bs := UnitBytes(units);
    AtSplit(d, p, BsBits(|units|), BytesBits(bs));
    GetBsAt(d, p, |units|);
    if units == [] {
      NoUnits();
    } else {
      GetRcsAt(d, p + |BsBits(|units|)|, bs);
      RecordLaws.UnitsRead(units);
    }
  }

  lemma NoUnits()
    ensures UnitBytes([]) == [] && BytesBits([]) == []
  {
  }

  /** The probe's replay on the oldest releases: it knows their prologues, and no data end. */
  lemma OldReplayReads(v: Version, r: Record)
    requires RecordLaws.Fits(v, r) && v.IsR13R15()
    ensures ReplayBits(RecordLaws.Data(v, r), v) == Ok(Replayed(RecordLaws.BodyAt(v, r), None, 0))
  {
    hide RecordLaws.Data, RecordLaws.BodyAt, GetObjectType, GetHandle, GetLe;
    RecordLaws.PrologueReads(v, r);
  }

  /** A character's code point: 21 bits, none of the surrogates. */
  predicate IsScalar(c: nat) {
    c < 0xD800 || 0xE000 <= c < 0x11_0000
  }

  /** UTF-16: one unit below 0x10000, and above it ten bits each in a pair. */
  function UnitsFor(c: nat): seq<u16>
    requires IsScalar(c)
  {
    if c < 0x1_0000 then [c] else [0xD800 + (c - 0x1_0000) / 0x400, 0xDC00 + (c - 0x1_0000) % 0x400]
  }

  function Encoded(text: seq<nat>): seq<u16>
    requires forall i :: 0 <= i < |text| ==> IsScalar(text[i])
  {
    if text == [] then [] else UnitsFor(text[0]) + Encoded(text[1..])
  }

  lemma {:induction false} EncodedIsWellFormed(text: seq<nat>)
    requires forall i :: 0 <= i < |text| ==> IsScalar(text[i])
    ensures WellFormed(Encoded(text))
  {
    if text != [] {
      EncodedIsWellFormed(text[1..]);
      var units := Encoded(text);
      assert units[|UnitsFor(text[0])|..] == Encoded(text[1..]);
    }
  }

  lemma {:induction false} WellFormedIsEncoded(units: seq<u16>) returns (text: seq<nat>)
    requires WellFormed(units)
    ensures (forall i :: 0 <= i < |text| ==> IsScalar(text[i])) && Encoded(text) == units
    decreases |units|
  {
    if units == [] {
      text := [];
    } else if 0xD800 <= units[0] < 0xDC00 {
      var rest := WellFormedIsEncoded(units[2..]);
      var high: nat, low: nat := units[0] - 0xD800, units[1] - 0xDC00;
      var c := 0x1_0000 + 0x400 * high + low;
      text := [c] + rest;
      assert text[1..] == rest && units == [units[0], units[1]] + units[2..];
    } else {
      var rest := WellFormedIsEncoded(units[1..]);
      text := [units[0] as nat] + rest;
      assert text[1..] == rest && units == [units[0]] + units[1..];
    }
  }

  /** From R2007 on a string of code units is accepted exactly when it is some text in UTF-16. */
  lemma WellFormedExactly(units: seq<u16>)
    ensures WellFormed(units) <==>
              exists text: seq<nat> :: (forall i :: 0 <= i < |text| ==> IsScalar(text[i])) && Encoded(text) == units
  {
    if WellFormed(units) {
      var text := WellFormedIsEncoded(units);
    }
    forall text: seq<nat> | (forall i :: 0 <= i < |text| ==> IsScalar(text[i])) && Encoded(text) == units
      ensures WellFormed(units)
    {
      EncodedIsWellFormed(text);
    }
  }
}
