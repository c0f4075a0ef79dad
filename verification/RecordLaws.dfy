/** What the readers make of a record the writer built. */
module RecordLaws {
  import opened Bits
  import opened Codes
  import opened Versions
  import opened RecordWriter
  import opened RecordReaders
  import opened StringStream
  import opened Results

  // ---- where everything sits ---------------------------------------------

  function Data(v: Version, r: Record): bits {
    BytesBits(Payload(v, r))
  }

  function McEnd(v: Version, r: Record): nat {
    8 * |McField(v, r)|
  }

  function BodyAt(v: Version, r: Record): nat {
    McEnd(v, r) + |HeaderBits(v, r, 0)|
  }

  /** One past the body: where the string stream starts when there is one. */
  function FieldsEnd(v: Version, r: Record): nat {
    McEnd(v, r) + DataEnd(v, r)
  }

  /** One past the trailer: where the handle stream starts. */
  function HandlesAt(v: Version, r: Record): nat {
    FieldsEnd(v, r) + |TrailerBits(v, r.strings)|
  }

  lemma Layout(v: Version, r: Record)
    ensures At(Data(v, r), 0, BytesBits(McField(v, r)))
    ensures At(Data(v, r), McEnd(v, r), HeaderBits(v, r, DataEnd(v, r) % 0x1_0000_0000))
    ensures At(Data(v, r), BodyAt(v, r), r.body) && BodyAt(v, r) + |r.body| == FieldsEnd(v, r)
    ensures At(Data(v, r), FieldsEnd(v, r), TrailerBits(v, r.strings))
    ensures At(Data(v, r), HandlesAt(v, r), ReferencesBits(r.references))
    ensures |Data(v, r)| == HandlesAt(v, r) + HandleStreamLength(v, r)
  {
    hide At, BytesBits, Pack, HeaderBits, TrailerBits, ReferencesBits, McField, Zeros;
    var d, m, s := Data(v, r), McEnd(v, r), StreamBits(v, r);
    var size := DataEnd(v, r) % 0x1_0000_0000;
    var fields, tail := FieldBits(v, r, size), TrailerBits(v, r.strings) + ReferencesBits(r.references);
    BytesBitsAppend(McField(v, r), Pack(s));
    assert d == BytesBits(McField(v, r)) + Padded(s);
    AtConcat(BytesBits(McField(v, r)), Padded(s));
    AtSplit(d, m, s, Zeros(PadLength(|s|)));
    EmissionLength(v, r, size);
    AtSplit(d, m, fields, tail);
    AtSplit(d, m, HeaderBits(v, r, size), r.body);
    AtSplit(d, m + |fields|, TrailerBits(v, r.strings), ReferencesBits(r.references));
  }

  // ---- the prologue ------------------------------------------------------

  /** The type code as the release can store it: one byte from R2010 on. */
  function StoredType(v: Version, r: Record): u16 {
    if v.IsR2010Plus() then r.typeCode % 0x100 else r.typeCode
  }

  function ExpectedPrologue(v: Version, r: Record): Prologue {
    Prologue(
      if v.IsR2010Plus() && HandleStreamLength(v, r) < 0x8000_0000_0000_0000 then Some(HandleStreamLength(v, r)) else None,
      StoredType(v, r),
      if v.HasObjectSizeField() then Some(DataEnd(v, r) % 0x1_0000_0000) else None,
      Handle(0, |BeBytes(r.handle)|, r.handle))
  }

  lemma TypeReads(d: bits, p: nat, v: Version, r: Record)
    requires At(d, p, TypeBits(v, r.typeCode))
    ensures GetObjectType(d, p, v) == Ok((StoredType(v, r), p + |TypeBits(v, r.typeCode)|))
  {
    if v.IsR2010Plus() {
      var b := r.typeCode % 0x100;
      AtSplit(d, p, BbBits(0), RcBits(b));
      GetBbAt(d, p, 0);
      GetRcAt(d, p + 2, b);
    } else {
      GetBsAt(d, p, r.typeCode);
    }
  }

  lemma SizeReads(d: bits, p: nat, v: Version, size: u32)
    requires At(d, p, When(v.HasObjectSizeField(), LeBits(size, 4)))
    ensures GetObjectSize(d, p, v)
            == Ok((if v.HasObjectSizeField() then Some(size) else None, p + |When(v.HasObjectSizeField(), LeBits(size, 4))|))
  {
    Pow2Words();
    if v.HasObjectSizeField() {
      GetLeAt(d, p, size, 4);
    }
  }

  lemma HeaderReads(d: bits, p: nat, v: Version, r: Record, size: u32)
    requires At(d, p, HeaderBits(v, r, size))
    ensures GetObjectType(d, p, v).Ok? && GetObjectType(d, p, v).value.0 == StoredType(v, r)
    ensures var q := GetObjectType(d, p, v).value.1;
            GetObjectSize(d, q, v).Ok? && GetObjectSize(d, q, v).value.0 == (if v.HasObjectSizeField() then Some(size) else None)
            && GetHandle(d, GetObjectSize(d, q, v).value.1)
               == Ok((Handle(0, |BeBytes(r.handle)|, r.handle), p + |HeaderBits(v, r, size)|))
  {
    hide At, GetObjectType, GetObjectSize, GetHandle, TypeBits, HandleBits, LeBits;
    var typed, sized, handle := TypeBits(v, r.typeCode), When(v.HasObjectSizeField(), LeBits(size, 4)), HandleBits(0, r.handle);
    AtSplit(d, p, typed, sized + handle);
    AtSplit(d, p + |typed|, sized, handle);
    TypeReads(d, p, v, r);
    SizeReads(d, p + |typed|, v, size);
    GetHandleAt(d, p + |typed| + |sized|, 0, r.handle);
  }

  /** The lengths a record must keep for its size fields to hold them. */
  predicate Fits(v: Version, r: Record) {
    HandleStreamLength(v, r) < 0x8000_0000_0000_0000
  }

  lemma McReads(v: Version, r: Record)
    requires Fits(v, r)
    ensures GetMcField(Data(v, r), v) == Ok((ExpectedPrologue(v, r).handleStream, McEnd(v, r)))
    ensures v.IsR2010Plus() ==> GetMc(Data(v, r), 0, true).Ok?
  {
    hide At, BytesBits, Pack, StreamBits, HandleStreamLength, GetMc;
    Layout(v, r);
    if v.IsR2010Plus() {
      GetMcAt(Data(v, r), 0, HandleStreamLength(v, r), false);
      GetMcAt(Data(v, r), 0, HandleStreamLength(v, r), true);
    }
  }

  /** Both prologue readers stop on the first bit of the body, and the walker's gives back
      the handle, the object size, the handle stream's width and the stored type code. */
  lemma PrologueReads(v: Version, r: Record)
    requires Fits(v, r)
    ensures GetPrologue(Data(v, r), v) == Ok((ExpectedPrologue(v, r), BodyAt(v, r)))
    ensures SeekPastHeader(Data(v, r), v) == Ok((Handle(0, |BeBytes(r.handle)|, r.handle), BodyAt(v, r)))
  {
    hide At, BytesBits, HeaderBits, HandleStreamLength, GetMcField, GetObjectType, GetObjectSize, GetHandle,
         SeekPastHeader, GetMc, McField;
    Layout(v, r);
    McReads(v, r);
    HeaderReads(Data(v, r), McEnd(v, r), v, r, DataEnd(v, r) % 0x1_0000_0000);
    EmissionLength(v, r, DataEnd(v, r) % 0x1_0000_0000);
    ProloguesAgree(Data(v, r), v);
  }

  /** The stored `RL` is the bit where the handle stream starts, counted from the first bit
      of the payload, exactly when that bit's number fits the field. */
  lemma ObjectSizeIsHandleStart(v: Version, r: Record)
    requires v.HasObjectSizeField() && Fits(v, r)
    ensures GetPrologue(Data(v, r), v).Ok?
    ensures GetPrologue(Data(v, r), v).value.0.objectSize == Some(HandlesAt(v, r)) <==> HandlesAt(v, r) < 0x1_0000_0000
  {
    hide GetPrologue, Data, BodyAt, FieldBits, HandleStreamLength;
    PrologueReads(v, r);
  }

  // ---- the string stream -------------------------------------------------

  lemma {:induction false} UnitsRead(units: seq<u16>)
    ensures UnitsOf(UnitBytes(units)) == units
  {
    if units != [] {
      var u, rest := units[0], UnitBytes(units[1..]);
      UnitsRead(units[1..]);
      WordBytes(u);
      assert UnitBytes(units)[2..] == rest;
      assert UnitBytes(units)[..2] == LeBytes(u, 2);
    }
  }

  lemma {:induction false} PrintableIsWellFormed(units: seq<u16>)
    requires Printable(units)
    ensures WellFormed(units)
  {
    if units != [] {
      PrintableIsWellFormed(units[1..]);
    }
  }

  lemma StringReads(d: bits, p: nat, v: Version, units: seq<u16>)
    requires v.IsR2007Plus() && |units| < 0x1_0000 && Printable(units) && At(d, p, TuBits(units))
    ensures GetPrintable(d, p, v) == Some((units, p + |TuBits(units)|))
  {
    hide At, BytesBits, BsBits, GetBs, GetRcs, WellFormed, UnitsOf, UnitBytes;
    var bs := UnitBytes(units);
    AtSplit(d, p, BsBits(|units|), BytesBits(bs));
    GetBsAt(d, p, |units|);
    if units == [] {
      assert bs == [] && BytesBits(bs) == [];
    } else {
      GetRcsAt(d, p + |BsBits(|units|)|, bs);
      UnitsRead(units);
      PrintableIsWellFormed(units);
    }
  }

  lemma {:induction false} StringsBitsBound(strings: seq<seq<u16>>, i: nat)
    requires i < |strings|
    ensures 16 * |strings[i]| < |StringsBits(strings)|
  {
    if i > 0 {
      StringsBitsBound(strings[1..], i - 1);
    }
  }

  /** A run of printable strings reads back and lands on its own end. */
  lemma {:induction false} RunReads(d: bits, p: nat, v: Version, strings: seq<seq<u16>>, n: nat, done: seq<seq<u16>>)
    requires v.IsR2007Plus() && |strings| < n && AllPrintable(strings)
    requires forall i :: 0 <= i < |strings| ==> |strings[i]| < 0x1_0000
    requires At(d, p, StringsBits(strings))
    ensures GetRun(d, p, p + |StringsBits(strings)|, n, v, done) == Some(done + strings)
    decreases |strings|
  {
    hide At, GetPrintable, TuBits;
    if strings == [] {
      assert done + strings == done;
    } else {
      var s, rest := strings[0], strings[1..];
      AtSplit(d, p, TuBits(s), StringsBits(rest));
      StringReads(d, p, v, s);
      RunReads(d, p + |TuBits(s)|, v, rest, n - 1, done + [s]);
      assert done + [s] + rest == done + strings;
    }
  }

  /** The candidate that tells the truth about a record's string stream. */
  function TrueCandidate(v: Version, r: Record): Candidate {
    Candidate(HandlesAt(v, r), |StringsBits(r.strings)|, FieldsEnd(v, r), r.strings)
  }

  /** What the one 16-bit size word and the 32-turn reader can carry. */
  predicate Locatable(strings: seq<seq<u16>>) {
    |StringsBits(strings)| < 0x8000 && |strings| <= 31 && AllPrintable(strings)
  }

  /** The size word at the end of a written string stream. */
  lemma TrailerReads(d: bits, end: nat, size: nat)
    requires 17 <= end <= |d| && At(d, end - 17, LeBits(size % 0x1_0000, 2) + [true])
    ensures d[end - 1]
    ensures GetLe(d, end - 17, 2) == Ok((size % 0x1_0000, end - 1))
  {
    var word := LeBits(size % 0x1_0000, 2);
    Pow2Words();
    AtSplit(d, end - 17, word, [true]);
    GetLeAt(d, end - 17, size % 0x1_0000, 2);
    assert d[end - 1..end][0];
  }

  lemma TrailerLayout(v: Version, r: Record)
    requires v.IsR2010Plus() && r.strings != []
    ensures var d, n := Data(v, r), |StringsBits(r.strings)|;
            At(d, FieldsEnd(v, r), StringsBits(r.strings))
            && HandlesAt(v, r) == FieldsEnd(v, r) + n + 17 <= |d|
            && At(d, HandlesAt(v, r) - 17, LeBits(n % 0x1_0000, 2) + [true])
  {
    hide At, Data, StringsBits, HandleStreamLength, DataEnd;
    Layout(v, r);
    var n := |StringsBits(r.strings)|;
    AtSplit(Data(v, r), FieldsEnd(v, r), StringsBits(r.strings), LeBits(n % 0x1_0000, 2) + [true]);
  }

  lemma StringsAreLong(strings: seq<seq<u16>>)
    requires strings != []
    ensures |StringsBits(strings)| >= 2
  {
  }

  lemma StringsSpell(d: bits, p: nat, v: Version, strings: seq<seq<u16>>)
    requires v.IsR2007Plus() && Locatable(strings) && At(d, p, StringsBits(strings))
    ensures Spells(d, p, p + |StringsBits(strings)|, strings, v)
  {
    hide At, StringsBits, GetRun, AllPrintable, Spells;
    forall i | 0 <= i < |strings|
      ensures |strings[i]| < 0x1_0000
    {
      StringsBitsBound(strings, i);
    }
    RunReads(d, p, v, strings, RUN_TURNS, []);
    RunIsSpelled(d, p, p + |StringsBits(strings)|, RUN_TURNS, v, [], strings);
  }

  /** The written stream of strings that one size word can hold meets what makes a candidate. */
  lemma TruthQualifies(v: Version, r: Record)
    requires v.IsR2010Plus() && r.strings != []
    ensures Qualifies(Data(v, r), BodyAt(v, r), v, TrueCandidate(v, r)) <==> Locatable(r.strings)
  {
    hide At, Data, StringsBits, GetLe, FieldsEnd, HandlesAt, BodyAt, AllPrintable, LeBits, Spells;
    var d, n, end := Data(v, r), |StringsBits(r.strings)|, HandlesAt(v, r);
    assert BodyAt(v, r) <= FieldsEnd(v, r) by {
      Layout(v, r);
    }
    TrailerLayout(v, r);
    StringsAreLong(r.strings);
    TrailerReads(d, end, n);
    if Locatable(r.strings) {
      StringsSpell(d, FieldsEnd(v, r), v, r.strings);
    }
  }

  /** From R2010 on, the replayed data end is the bit after the strings-present flag, and
      the backward search finds the written strings there, with their own size and first
      bit, exactly when the size fits the one word the writer emits and the strings are at
      most 31 and printable. */
  lemma StringStreamIsLocated(v: Version, r: Record)
    requires v.IsR2010Plus() && r.strings != [] && Fits(v, r)
    ensures ReplayBits(Data(v, r), v) == Ok(Replayed(BodyAt(v, r), Some(HandlesAt(v, r)), McEnd(v, r)))
    ensures TrueCandidate(v, r) in AllCandidates(Data(v, r), BodyAt(v, r), v) <==> Locatable(r.strings)
  {
    hide At, Data, StringsBits, GetRun, DataEnd, Qualifies, AllCandidates, Locatable, HeaderBits, HandleStreamLength;
    ReplayReads(v, r);
    CandidatesAreTheQualifyingEnds(Data(v, r), BodyAt(v, r), v, TrueCandidate(v, r));
    TruthQualifies(v, r);
  }

  /** From R2010 on the replay finds the body and the handle stream of every record, with
      strings or without. */
  lemma ReplayReads(v: Version, r: Record)
    requires v.IsR2010Plus() && Fits(v, r)
    ensures ReplayBits(Data(v, r), v) == Ok(Replayed(BodyAt(v, r), Some(HandlesAt(v, r)), McEnd(v, r)))
  {
    hide At, Data, McEnd, HeaderBits, HandleStreamLength, GetMcField, GetObjectType, GetHandle, TrailerBits, FieldBits;
    Layout(v, r);
    McReads(v, r);
    HeaderReads(Data(v, r), McEnd(v, r), v, r, DataEnd(v, r) % 0x1_0000_0000);
    HeaderLength(v, r, DataEnd(v, r) % 0x1_0000_0000);
  }

  lemma HeaderLength(v: Version, r: Record, size: nat)
    ensures |HeaderBits(v, r, size)| == |HeaderBits(v, r, 0)|
  {
  }

  // ---- the handle stream -------------------------------------------------

  function HandlesOf(references: seq<Reference>): seq<Handle> {
    if references == [] then []
    else [Handle(references[0].code, |BeBytes(references[0].value)|, references[0].value)] + HandlesOf(references[1..])
  }

  lemma {:induction false} ReferencesRead(d: bits, p: nat, references: seq<Reference>, done: seq<Handle>)
    requires CodesFit(references) && At(d, p, ReferencesBits(references))
    requires |d| < p + |ReferencesBits(references)| + 8
    ensures GetHandles(d, p, done) == done + HandlesOf(references)
    decreases |references|
  {
    hide At, GetHandle, HandleBits;
    if references == [] {
      assert done + [] == done;
    } else {
      var h, rest := references[0], references[1..];
      var handle := Handle(h.code, |BeBytes(h.value)|, h.value);
      AtSplit(d, p, HandleBits(h.code, h.value), ReferencesBits(rest));
      GetHandleAt(d, p, h.code, h.value);
      assert GetHandle(d, p).value.1 <= |d|;
      ReferencesRead(d, GetHandle(d, p).value.1, rest, done + [handle]);
      Assoc(done, [handle], HandlesOf(rest));
    }
  }

  /** Read from where it starts, the handle stream gives back exactly the references that
      were written, with fewer than eight bits of padding after the last: the reading loop
      stops there of itself. */
  lemma HandleStreamReads(v: Version, r: Record)
    requires CodesFit(r.references)
    ensures GetHandles(Data(v, r), HandlesAt(v, r), []) == HandlesOf(r.references)
    ensures |Data(v, r)| < HandlesAt(v, r) + |ReferencesBits(r.references)| + 8
  {
    hide At, Data, HandlesAt, GetHandles, ReferencesBits, StreamBits;
    Layout(v, r);
    ReferencesRead(Data(v, r), HandlesAt(v, r), r.references, []);
    assert [] + HandlesOf(r.references) == HandlesOf(r.references);
  }
}
