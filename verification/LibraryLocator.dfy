/** The library's own way to a record's string stream (`src/string_stream.rs`), by the end of
    the data area instead of by search, and to its references (`src/object.rs`); what both
    make of a written record; and where the searching probe parts from it. */
module LibraryLocator {
  import opened Bits
  import opened Codes
  import opened BitIo
  import opened Versions
  import opened RecordWriter
  import opened RecordReaders
  import opened StringStream
  import opened RecordLaws
  import opened Results

  // ---- the locator ---------------------------------------------------------

  /** Where the data and string area ends: told by the `RL` on R2007 and by the leading `MC`
      from R2010 on. */
  function DataSectionEnd(d: bits, v: Version): (r: Option<nat>)
    ensures r.Some? ==> r.value <= |d|
  {
    if v.R2007? then
      match GetBs(d, 0)
      case Err(_) => None
      case Ok((_, p)) =>
        match GetLe(d, p, 4)
        case Err(_) => None
        case Ok((size, _)) => if size > |d| then None else Some(size)
    else if !v.IsR2010Plus() then None
    else match GetMc(d, 0, true)
      case Err(_) => None
      case Ok((handles, _)) => if handles <= |d| then Some(|d| - handles) else None
  }

  /** The size a trailer ending at `end` declares and the bit its stream ends on, the first
      bit of the trailer. */
  function Trailer(d: bits, end: nat): Option<(nat, nat)>
    requires 17 <= end
  {
    match GetLe(d, end - 17, 2)
    case Err(_) => None
    case Ok((lo, _)) =>
      if lo < 0x8000 then Some((lo, end - 17))
      else if end < 33 then None
      else match GetLe(d, end - 33, 2)
        case Err(_) => None
        case Ok((hi, _)) => Some((lo - 0x8000 + 0x8000 * hi, end - 33))
  }

  datatype Stream = Stream(start: nat, end: nat)

  function Located(d: bits, v: Version): Option<Stream> {
    match DataSectionEnd(d, v)
    case None => None
    case Some(end) =>
      if end < 17 || !d[end - 1] then None
      else match Trailer(d, end)
        case None => None
        case Some((size, stop)) => if size <= stop then Some(Stream(stop - size, stop)) else None
  }

  /** Where the data fields end: at the strings, or before the flag that says there are none. */
  function DataFieldEnd(d: bits, v: Version): Option<nat> {
    match Located(d, v)
    case Some(stream) => Some(stream.start)
    case None =>
      match DataSectionEnd(d, v)
      case None => None
      case Some(end) => if end > 0 then Some(end - 1) else None
  }

  method FindDataSectionEnd(payload: seq<byte>, v: Version) returns (r: Option<nat>)
    ensures r == DataSectionEnd(BytesBits(payload), v)
  {
    hide GetBs, GetLe, GetMc, BytesBits;
    var c := new BitCursor(payload);
    if v.R2007? {
      var code := c.ReadBs();
      if code.Err? {
        return None;
      }
      var size := c.ReadLe(4);
      if size.Err? || size.value > 8 * |payload| {
        return None;
      }
      return Some(size.value);
    }
    if !v.IsR2010Plus() {
      return None;
    }
    var handles := ReadMcUnsigned(c, true);
    if handles.Err? || handles.value > 8 * |payload| {
      return None;
    }
    return Some(8 * |payload| - handles.value);
  }

  method Locate(payload: seq<byte>, v: Version) returns (r: Option<Stream>)
    ensures r == Located(BytesBits(payload), v)
  {
    hide GetLe, DataSectionEnd, ByteBits;
    var end := FindDataSectionEnd(payload, v);
    if end.None? || end.value < 17 {
      return None;
    }
    var trailerEnd := end.value;
    var flag := payload[(trailerEnd - 1) / 8];
    if !ByteBits(flag)[(trailerEnd - 1) % 8] {
      return None;
    }
    var lo := ReadRsAt(payload, trailerEnd - 17);
    if lo.None? {
      return None;
    }
    var size, endBit := lo.value, trailerEnd - 17;
    if lo.value >= 0x8000 {
      if trailerEnd < 33 {
        return None;
      }
      var hi := ReadRsAt(payload, trailerEnd - 33);
      if hi.None? {
        return None;
      }
      size, endBit := lo.value - 0x8000 + 0x8000 * hi.value, trailerEnd - 33;
    }
    if size > endBit {
      return None;
    }
    return Some(Stream(endBit - size, endBit));
  }

  // ---- where the probe's trailer differs -------------------------------------

  /** The size word of a trailer that ends at `end`, when it can be read. */
  function SizeWord(d: bits, end: nat): Result<nat>
    requires 17 <= end
  {
    var (lo, _) :- GetLe(d, end - 17, 2);
    Ok(lo)
  }

  /** Wherever probe and library both read a trailer they read the same one exactly when its
      size takes one word; of a two-word trailer the probe ends the stream sixteen bits early. */
  lemma TrailersAgreeOnOneWord(d: bits, end: nat)
    requires 17 <= end && TrailerAt(d, end).Some? && Trailer(d, end).Some?
    ensures SizeWord(d, end).Ok?
    ensures TrailerAt(d, end) == Trailer(d, end) <==> SizeWord(d, end).value < 0x8000
    ensures TrailerAt(d, end).value.0 == Trailer(d, end).value.0
    ensures SizeWord(d, end).value >= 0x8000 ==> TrailerAt(d, end).value.1 + 16 == Trailer(d, end).value.1
  {
    hide GetLe;
  }

  /** A one-word trailer is read wherever the word is; of one of two words the library reads
      whatever stands before the end, and the probe only from 49 bits on. */
  lemma TrailersNeedRoom(d: bits, end: nat)
    requires 17 <= end <= |d|
    ensures SizeWord(d, end).Ok?
    ensures SizeWord(d, end).value < 0x8000 ==> TrailerAt(d, end).Some? && Trailer(d, end).Some?
    ensures SizeWord(d, end).value >= 0x8000 ==>
              (TrailerAt(d, end).Some? <==> end >= 49) && (Trailer(d, end).Some? <==> end >= 33)
  {
  }

  /** A stream with a two-word trailer is never among the candidates: whatever strings it
      holds, what the search has at that end starts sixteen bits before it. */
  lemma TwoWordStreamsAreMissed(d: bits, headerEnd: nat, v: Version, end: nat, strings: seq<seq<u16>>)
    requires 17 <= end && SizeWord(d, end).Ok? && SizeWord(d, end).value >= 0x8000
    requires Trailer(d, end).Some? && Trailer(d, end).value.0 <= Trailer(d, end).value.1
    ensures var (size, stop) := Trailer(d, end).value;
            && Candidate(end, size, stop - size, strings) !in AllCandidates(d, headerEnd, v)
            && forall c :: c in AllCandidates(d, headerEnd, v) && c.end == end ==>
                 c.size == size && c.start + 16 == stop - size
  {
    hide GetLe, AllCandidates, Spells, AllPrintable;
    var (size, stop) := Trailer(d, end).value;
    CandidatesAreTheQualifyingEnds(d, headerEnd, v, Candidate(end, size, stop - size, strings));
    forall c | c in AllCandidates(d, headerEnd, v) && c.end == end
      ensures c.size == size && c.start + 16 == stop - size
    {
      CandidatesAreTheQualifyingEnds(d, headerEnd, v, c);
    }
  }

  // ---- what the locator makes of a written record ------------------------------

  lemma SectionEnds(v: Version, r: Record)
    requires v.IsR2010Plus() && Fits(v, r)
    ensures DataSectionEnd(Data(v, r), v) == Some(HandlesAt(v, r))
  {
    hide At, BytesBits, HandlesAt, HandleStreamLength, GetMc, Pack, StreamBits, McBytes;
    Layout(v, r);
    GetMcAt(Data(v, r), 0, HandleStreamLength(v, r), true);
  }

  /** On R2007 the `RL` says where the handle stream starts, so that is where the area ends. */
  lemma SectionEndsOnR2007(r: Record)
    requires Fits(R2007, r)
    ensures DataSectionEnd(Data(R2007, r), R2007) == Some(HandlesAt(R2007, r)) <==> HandlesAt(R2007, r) < 0x1_0000_0000
  {
    hide At, Data, HandlesAt, GetObjectType, GetLe, GetBs, GetHandle, HeaderBits, HandleStreamLength;
    Layout(R2007, r);
    HeaderReads(Data(R2007, r), 0, R2007, r, DataEnd(R2007, r) % 0x1_0000_0000);
    TypeIsBs(Data(R2007, r));
    SizeIsLe(Data(R2007, r), GetObjectType(Data(R2007, r), 0, R2007).value.1);
    NoMcNoTrailer(r);
  }

  lemma TypeIsBs(d: bits)
    ensures GetObjectType(d, 0, R2007) == GetBs(d, 0)
  {
  }

  lemma SizeIsLe(d: bits, p: nat)
    ensures GetObjectSize(d, p, R2007).Ok? ==>
              GetLe(d, p, 4).Ok? && GetObjectSize(d, p, R2007).value.0 == Some(GetLe(d, p, 4).value.0)
  {
  }

  lemma NoMcNoTrailer(r: Record)
    ensures McEnd(R2007, r) == 0 && HandlesAt(R2007, r) == DataEnd(R2007, r)
  {
  }

  /** From R2010 on the library finds the string stream of a written record exactly when its
      size fits the one word the writer emits: whatever the strings are and however many. */
  lemma LibraryFindsTheStream(v: Version, r: Record)
    requires v.IsR2010Plus() && Fits(v, r) && r.strings != []
    ensures Located(Data(v, r), v) == Some(Stream(FieldsEnd(v, r), FieldsEnd(v, r) + |StringsBits(r.strings)|))
            <==> |StringsBits(r.strings)| < 0x8000
  {
    hide At, Data, HandlesAt, FieldsEnd, StringsBits, GetLe, LeBits, DataSectionEnd;
    SectionEnds(v, r);
    TrailerLayout(v, r);
    TrailerReads(Data(v, r), HandlesAt(v, r), |StringsBits(r.strings)|);
  }

  /** With no strings it finds none, and the data fields end one bit before the handles. */
  lemma LibraryFindsNoStream(v: Version, r: Record)
    requires v.IsR2010Plus() && Fits(v, r) && r.strings == []
    ensures Located(Data(v, r), v) == None
    ensures DataFieldEnd(Data(v, r), v) == Some(FieldsEnd(v, r))
  {
    hide Data, HandlesAt, FieldsEnd, GetLe, DataSectionEnd, HandleStreamLength, BytesBits;
    SectionEnds(v, r);
    FlagIsClear(v, r);
  }

  lemma FlagIsClear(v: Version, r: Record)
    requires v.IsR2010Plus() && r.strings == []
    ensures HandlesAt(v, r) == FieldsEnd(v, r) + 1 <= |Data(v, r)| && !Data(v, r)[FieldsEnd(v, r)]
  {
    hide Data, FieldsEnd, HandleStreamLength;
    Layout(v, r);
    assert Data(v, r)[FieldsEnd(v, r)..FieldsEnd(v, r) + 1] == [false];
    assert Data(v, r)[FieldsEnd(v, r)..FieldsEnd(v, r) + 1][0] == Data(v, r)[FieldsEnd(v, r)];
  }

  // ---- references -----------------------------------------------------------------

  /** The object a reference leads to from the object `own`, none for a null one or a code
      that refers to nothing. */
  function Target(h: Handle, own: u64): Option<nat> {
    var target: nat :=
      if 2 <= h.code <= 5 then h.value
      else if h.code == 6 then (own + 1) % 0x1_0000_0000_0000_0000
      else if h.code == 8 then (own - 1) % 0x1_0000_0000_0000_0000
      else if h.code == 0xA then (own + h.value) % 0x1_0000_0000_0000_0000
      else if h.code == 0xC then (own - h.value) % 0x1_0000_0000_0000_0000
      else 0;
    if target != 0 then Some(target) else None
  }

  datatype Resolved = Resolved(target: nat, code: nat)

  function Resolve(h: Handle, own: u64): seq<Resolved> {
    if Target(h, own).Some? then [Resolved(Target(h, own).value, h.code)] else []
  }

  function ResolveAll(handles: seq<Handle>, own: u64): seq<Resolved> {
    if handles == [] then [] else Resolve(handles[0], own) + ResolveAll(handles[1..], own)
  }

  function ReferencesAt(d: bits, v: Version, objectSize: Option<nat>): Option<nat> {
    if v.IsR2007Plus() then DataSectionEnd(d, v) else objectSize
  }

  /** The references of a record, or none when it does not say where they start. */
  function References(d: bits, v: Version, objectSize: Option<nat>, own: u64): Option<seq<Resolved>> {
    match ReferencesAt(d, v, objectSize)
    case None => None
    case Some(start) => if start >= |d| then Some([]) else Some(ResolveAll(GetHandles(d, start, []), own))
  }

  lemma {:induction false} HandlesAfter(d: bits, p: nat, done: seq<Handle>)
    ensures GetHandles(d, p, done) == done + GetHandles(d, p, [])
    decreases |d| - p
  {
    hide GetHandle;
    if p + 8 <= |d| && GetHandle(d, p).Ok? {
      var (h, q) := GetHandle(d, p).value;
      HandlesAfter(d, q, done + [h]);
      HandlesAfter(d, q, [] + [h]);
      Assoc(done, [h], GetHandles(d, q, []));
    }
  }

  lemma NextHandle(d: bits, p: nat, own: u64)
    requires p + 8 <= |d| && GetHandle(d, p).Ok?
    ensures var (h, q) := GetHandle(d, p).value;
            ResolveAll(GetHandles(d, p, []), own) == Resolve(h, own) + ResolveAll(GetHandles(d, q, []), own)
  {
    hide GetHandle, Resolve;
    var (h, q) := GetHandle(d, p).value;
    HandlesAfter(d, q, [h]);
    assert [] + [h] == [h];
    assert ([h] + GetHandles(d, q, []))[1..] == GetHandles(d, q, []);
  }

  method ForEachHandleReference(payload: seq<byte>, v: Version, objectSize: Option<nat>, own: u64)
    returns (r: Option<seq<Resolved>>)
    ensures r == References(BytesBits(payload), v, objectSize, own)
  {
    hide GetHandle, BytesBits, DataSectionEnd, Resolve;
    var start := objectSize;
    if v.IsR2007Plus() {
      start := FindDataSectionEnd(payload, v);
    }
    if start.None? {
      return None;
    }
    if start.value >= 8 * |payload| {
      return Some([]);
    }
    var c := new BitCursor(payload);
    var reached := SkipTo(c, start.value);
    var found: seq<Resolved> := [];
    ghost var all := ResolveAll(GetHandles(c.Data(), start.value, []), own);
    while c.PositionBits() + 8 <= 8 * |payload|
      invariant c.Valid() && fresh(c) && c.bytes == payload
      invariant all == found + ResolveAll(GetHandles(c.Data(), c.PositionBits(), []), own)
      decreases 8 * |payload| - c.PositionBits()
    {
      ghost var p := c.PositionBits();
      var h := c.ReadHandle();
      if h.Err? {
        NoMoreHandles(c.Data(), p, own);
        assert all == found;
        return Some(found);
      }
      NextHandle(c.Data(), p, own);
      Assoc(found, Resolve(h.value, own), ResolveAll(GetHandles(c.Data(), c.PositionBits(), []), own));
      found := found + Resolve(h.value, own);
    }
    NoMoreHandles(c.Data(), c.PositionBits(), own);
    assert all == found;
    return Some(found);
  }

  lemma NoMoreHandles(d: bits, p: nat, own: u64)
    requires p + 8 > |d| || GetHandle(d, p).Err?
    ensures ResolveAll(GetHandles(d, p, []), own) == []
  {
    hide GetHandle;
  }

  /** What was written, as the object `own` refers to it. */
  function Written(references: seq<Reference>, own: u64): seq<Resolved> {
    ResolveAll(HandlesOf(references), own)
  }

  /** The record says where its references start: from R2010 on always, on R2000 to R2007
      as far as the `RL` can say it. */
  lemma ReferencesStart(v: Version, r: Record)
    requires Fits(v, r)
    requires v.IsR2010Plus() || (v.HasObjectSizeField() && HandlesAt(v, r) < 0x1_0000_0000)
    ensures GetPrologue(Data(v, r), v).Ok?
    ensures ReferencesAt(Data(v, r), v, GetPrologue(Data(v, r), v).value.0.objectSize) == Some(HandlesAt(v, r))
  {
    hide Data, HandlesAt, DataSectionEnd, GetPrologue, HandleStreamLength, BodyAt;
    PrologueReads(v, r);
    if v.IsR2010Plus() {
      SectionEnds(v, r);
    } else {
      ObjectSizeIsHandleStart(v, r);
      if v.R2007? {
        SectionEndsOnR2007(r);
      }
    }
  }

  /** The library reads off a written record exactly the references written, in order, each
      resolved against the record's own handle. */
  lemma ReferencesComeBack(v: Version, r: Record)
    requires CodesFit(r.references) && Fits(v, r)
    requires v.IsR2010Plus() || (v.HasObjectSizeField() && HandlesAt(v, r) < 0x1_0000_0000)
    ensures GetPrologue(Data(v, r), v).Ok?
    ensures References(Data(v, r), v, GetPrologue(Data(v, r), v).value.0.objectSize, r.handle)
            == Some(Written(r.references, r.handle))
  {
    hide Data, HandlesAt, GetHandles, HandlesOf, ReferencesAt, GetPrologue, ResolveAll, ReferencesBits;
    ReferencesStart(v, r);
    HandleStreamReads(v, r);
    if HandlesAt(v, r) >= |Data(v, r)| {
      NoMoreHandles(Data(v, r), HandlesAt(v, r), r.handle);
    }
  }

  /** References by absolute handle to objects come back as they are. */
  lemma {:induction false} AbsoluteReferences(references: seq<Reference>, own: u64)
    requires forall i :: 0 <= i < |references| ==> 2 <= references[i].code <= 5 && references[i].value != 0
    ensures |Written(references, own)| == |references|
    ensures forall i :: 0 <= i < |references| ==> Written(references, own)[i] == Resolved(references[i].value, references[i].code)
  {
    if references != [] {
      var rest := references[1..];
      AbsoluteReferences(rest, own);
      assert HandlesOf(references)[1..] == HandlesOf(rest);
      assert Written(references, own) == [Resolved(references[0].value, references[0].code)] + Written(rest, own);
    }
  }

  // ---- what a reference means, from the writer's side ------------------------------------

  const TWO64: int := 0x1_0000_0000_0000_0000

  /** The ways to refer to an object: by its handle with a code that says what holds it, as
      the next or the last before the own one, or by the distance up or down. */
  datatype Way = Outright(code: nat) | Next | Previous | Up | Down

  /** A way serves from `own` to `target`; distances go round at 2^64. */
  predicate Serves(way: Way, own: u64, target: u64) {
    match way
    case Outright(code) => 2 <= code <= 5
    case Next => target == own + 1
    case Previous => target + 1 == own || (own == 0 && target + 1 == TWO64)
    case Up => true
    case Down => true
  }

  function Distance(low: u64, high: u64): u64 {
    if low <= high then high - low else high + TWO64 - low
  }

  /** The reference to write. */
  function Chosen(way: Way, own: u64, target: u64): Reference {
    match way
    case Outright(code) => Reference(code, target)
    case Next => Reference(6, 0)
    case Previous => Reference(8, 0)
    case Up => Reference(0xA, Distance(own, target))
    case Down => Reference(0xC, Distance(target, own))
  }

  function AllChosen(ways: seq<Way>, own: u64, targets: seq<u64>): seq<Reference>
    requires |ways| == |targets|
  {
    seq(|ways|, i requires 0 <= i < |ways| => Chosen(ways[i], own, targets[i]))
  }

  lemma WrittenUnfolds(references: seq<Reference>, own: u64)
    requires references != []
    ensures Written(references, own) == Resolve(HandlesOf(references)[0], own) + Written(references[1..], own)
    ensures HandlesOf(references)[0].code == references[0].code && HandlesOf(references)[0].value == references[0].value
  {
    hide Resolve;
    assert HandlesOf(references)[1..] == HandlesOf(references[1..]);
  }

  lemma ChosenLeads(way: Way, own: u64, target: u64, h: Handle)
    requires target != 0 && Serves(way, own, target)
    requires h.code == Chosen(way, own, target).code && h.value == Chosen(way, own, target).value
    ensures Resolve(h, own) == [Resolved(target, h.code)]
  {
    TargetLeads(h, own, target);
  }

  /** Every list of objects, each referred to in whatever way serves, comes back as those
      objects under the codes of the ways. */
  lemma {:induction false} ChosenReferencesLead(ways: seq<Way>, own: u64, targets: seq<u64>)
    requires |ways| == |targets|
    requires forall i :: 0 <= i < |ways| ==> targets[i] != 0 && Serves(ways[i], own, targets[i])
    ensures var references := AllChosen(ways, own, targets);
            && |Written(references, own)| == |ways|
            && forall i :: 0 <= i < |ways| ==> Written(references, own)[i] == Resolved(targets[i], references[i].code)
    decreases |ways|
  {
    hide Written, Resolve, Chosen, Serves;
    var references := AllChosen(ways, own, targets);
    if ways != [] {
      ChosenReferencesLead(ways[1..], own, targets[1..]);
      ChosenLeads(ways[0], own, targets[0], HandlesOf(references)[0]);
      WrittenUnfolds(references, own);
      assert references[1..] == AllChosen(ways[1..], own, targets[1..]);
    } else {
      NothingWritten(own);
    }
  }

  lemma NothingWritten(own: u64)
    ensures Written([], own) == []
  {
  }

  /** The object that a reference with this code and value leads to, in 64 bits. */
  predicate Leads(code: nat, value: u64, own: u64, target: u64) {
    || (2 <= code <= 5 && target == value)
    || (code == 6 && (target == own + 1 || target + TWO64 == own + 1))
    || (code == 8 && (target + 1 == own || target + 1 == own + TWO64))
    || (code == 0xA && (target == own + value || target + TWO64 == own + value))
    || (code == 0xC && (target + value == own || target + value == own + TWO64))
  }

  lemma Wraps(x: int)
    requires -TWO64 <= x < 2 * TWO64
    ensures x % TWO64 == if x < 0 then x + TWO64 else if x < TWO64 then x else x - TWO64
  {
  }

  lemma TargetLeads(h: Handle, own: u64, x: u64)
    requires h.value < TWO64
    ensures Target(h, own) == Some(x) <==> x != 0 && Leads(h.code, h.value, own, x)
  {
    Wraps(own + 1);
    Wraps(own - 1);
    Wraps(own + h.value);
    Wraps(own - h.value);
  }

  lemma TargetIsHandle(h: Handle, own: u64)
    requires h.value < TWO64
    ensures Target(h, own).Some? ==> Target(h, own).value < TWO64
    ensures h.code !in {2, 3, 4, 5, 6, 8, 0xA, 0xC} ==> Target(h, own) == None
  {
  }

  /** A reference gives the one object it leads to, and nothing exactly when that is none or
      the null one: every code but these eight leads nowhere. */
  lemma LeadsExactly(reference: Reference, own: u64, target: u64)
    ensures Written([reference], own) == [Resolved(target, reference.code)] <==>
              target != 0 && Leads(reference.code, reference.value, own, target)
    ensures Written([reference], own) == [] <==>
              forall x: u64 :: Leads(reference.code, reference.value, own, x) ==> x == 0
    ensures reference.code !in {2, 3, 4, 5, 6, 8, 0xA, 0xC} ==> Written([reference], own) == []
  {
    hide Target, Leads, Written;
    WrittenUnfolds([reference], own);
    NothingWritten(own);
    var h := HandlesOf([reference])[0];
    assert [reference][1..] == [];
    assert Written([reference], own) == Resolve(h, own) + [];
    TargetIsHandle(h, own);
    forall x: u64
      ensures Target(h, own) == Some(x) <==> x != 0 && Leads(reference.code, reference.value, own, x)
    {
      TargetLeads(h, own, x);
    }
    if Target(h, own).Some? {
      var x := Target(h, own).value;
      TargetLeads(h, own, x);
      assert Written([reference], own)[0] == Resolved(x, h.code);
    }
  }
}
