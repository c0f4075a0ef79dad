/** The handle map, handle to byte offset (`src/handle_map.rs`): sections of delta-coded
    pairs, each restarting from zero, written greedily and parsed back. */
module HandleMap {
  import opened Bits
  import opened Codes
  import opened BitIo
  import opened RecordReaders
  import opened Results

  datatype Entry = Entry(handle: u64, offset: nat)

  const MAX_ENTRIES: nat := 1_000_000
  const MAX_SECTION: nat := 2032

  // ---- 64-bit arithmetic ---------------------------------------------------

  const TWO63: int := 0x8000_0000_0000_0000
  const TWO64: int := 0x1_0000_0000_0000_0000

  type i64 = x: int | -0x8000_0000_0000_0000 <= x < 0x8000_0000_0000_0000

  /** An unsigned 64-bit pattern read as signed. */
  function Signed(x: u64): i64 {
    if x < TWO63 then x else x - TWO64
  }

  function Unsigned(x: i64): u64 {
    if x >= 0 then x else x + TWO64
  }

  /** A sum or difference of two signed numbers, wrapped. */
  function Wrapped(x: int): i64
    requires -TWO64 <= x < TWO64
  {
    if x < -TWO63 then x + TWO64 else if x >= TWO63 then x - TWO64 else x
  }

  lemma DeltaUndone(last: i64, next: i64)
    ensures Wrapped(last + Wrapped(next - last)) == next
  {
  }

  lemma SignedUndone(x: u64)
    ensures Unsigned(Signed(x)) == x
  {
  }

  // ---- signed modular chars --------------------------------------------------

  function Magnitude(x: int): nat {
    if x < 0 then -x else x
  }

  function SignedMcBytes(x: i64): (r: seq<byte>)
    ensures |r| > 0
  {
    McBytes(Magnitude(x), x < 0)
  }

  /** Magnitude and sign from the `k`-th group on. */
  function GetSignedGroups(d: bits, p: nat, k: nat): (r: Read<(nat, bool)>)
    ensures r.Ok? ==> p < r.value.1 <= |d|
    decreases 10 - k, p
  {
    var (b, q) :- GetRc(d, p);
    if b < 0x80 then Ok(((b % 0x40, b / 0x40 % 2 == 1), q))
    else if k >= 9 then Ok(((b % 0x80, false), q))
    else
      var (rest, z) :- GetSignedGroups(d, q, k + 1);
      Ok(((b % 0x80 + 0x80 * rest.0, rest.1), z))
  }

  function OfMagnitude(magnitude: u64, negative: bool): Result<i64> {
    if negative && magnitude <= TWO63 then Ok(0 - (magnitude as int))
    else if !negative && magnitude < TWO63 then Ok(magnitude)
    else Err(ModularCharTooLong)
  }

  function GetSignedMc(d: bits, p: nat): (r: Read<i64>)
    ensures r.Ok? ==> p < r.value.1 <= |d|
  {
    var (groups, q) :- GetSignedGroups(d, p, 0);
    var v :- OfMagnitude(Truncate64(groups.0), groups.1);
    Ok((v, q))
  }

  lemma {:induction false} GetSignedGroupsAt(d: bits, p: nat, v: nat, negative: bool, k: nat)
    requires k + |McBytes(v, negative)| <= 10 && At(d, p, BytesBits(McBytes(v, negative)))
    ensures GetSignedGroups(d, p, k) == Ok(((v, negative), p + 8 * |McBytes(v, negative)|))
    decreases v
  {
    hide At, BytesBits, GetRc;
    if v < 0x40 {
      var b: byte := v + if negative then 0x40 else 0;
      BytesBitsOne(b);
      GetRcAt(d, p, b);
    } else {
      var b: byte, rest := 0x80 + v % 0x80, McBytes(v / 0x80, negative);
      BytesBitsCons(b, rest);
      AtSplit(d, p, RcBits(b), BytesBits(rest));
      GetRcAt(d, p, b);
      GetSignedGroupsAt(d, p + 8, v / 0x80, negative, k + 1);
    }
  }

  /** Every signed 64-bit value, the least one included, survives its modular char. */
  lemma GetSignedMcAt(d: bits, p: nat, x: i64)
    requires At(d, p, BytesBits(SignedMcBytes(x)))
    ensures GetSignedMc(d, p) == Ok((x, p + 8 * |SignedMcBytes(x)|))
  {
    hide At, BytesBits, McBytes, GetSignedGroups;
    McAtMostTen(Magnitude(x), x < 0);
    GetSignedGroupsAt(d, p, Magnitude(x), x < 0, 0);
  }

  /** And of any magnitude in 64 bits with a sign exactly those read that are signed 64-bit
      values. */
  lemma MagnitudeReads(d: bits, p: nat, magnitude: u64, negative: bool)
    requires At(d, p, BytesBits(McBytes(magnitude, negative)))
    ensures var x := if negative then 0 - (magnitude as int) else magnitude as int;
            GetSignedMc(d, p) == if -TWO63 <= x < TWO63 then Ok((x, p + 8 * |McBytes(magnitude, negative)|))
                                 else Err(ModularCharTooLong)
  {
    hide At, BytesBits, McBytes, GetSignedGroups;
    McAtMostTen(magnitude, negative);
    GetSignedGroupsAt(d, p, magnitude, negative, 0);
  }

  method ReadSignedMc(c: BitCursor) returns (r: Result<i64>)
    requires c.Valid()
    modifies c
    ensures c.Valid()
    ensures match GetSignedMc(c.Data(), old(c.PositionBits()))
            case Ok((v, q)) => r == Ok(v) && c.PositionBits() == q
            case Err(e) => r == Err(e)
  {
    hide GetRc, BytesBits, OfMagnitude;
    var value: nat, weight: nat, k := 0, 1, 0;
    ghost var spec := GetSignedGroups(c.Data(), c.PositionBits(), 0);
    while true
      invariant 0 <= k <= 9 && c.Valid()
      invariant ScaledSigned(spec, value, weight, GetSignedGroups(c.Data(), c.PositionBits(), k))
      decreases 9 - k
    {
      var b :- c.ReadRc();
      if b < 0x80 {
        LastSigned(spec, value, weight, b % 0x40, b / 0x40 % 2 == 1, c.PositionBits());
        r := OfMagnitude(Truncate64(value + weight * (b % 0x40)), b / 0x40 % 2 == 1);
        return;
      }
      if k == 9 {
        LastSigned(spec, value, weight, b % 0x80, false, c.PositionBits());
        r := OfMagnitude(Truncate64(value + weight * (b % 0x80)), false);
        return;
      }
      NextSigned(spec, value, weight, b % 0x80, GetSignedGroups(c.Data(), c.PositionBits(), k + 1));
      value, weight, k := value + weight * (b % 0x80), 0x80 * weight, k + 1;
    }
  }

  ghost predicate ScaledSigned(whole: Read<(nat, bool)>, out: nat, weight: nat, rest: Read<(nat, bool)>) {
    match rest
    case Ok(((v, sign), q)) => whole == Ok(((out + weight * v, sign), q))
    case Err(e) => whole == Err(e)
  }

  lemma LastSigned(whole: Read<(nat, bool)>, out: nat, weight: nat, b: nat, sign: bool, q: nat)
    requires ScaledSigned(whole, out, weight, Ok(((b, sign), q)))
    ensures weight * b >= 0 && whole == Ok(((out + weight * b, sign), q))
  {
    NatProduct(weight, b);
  }

  lemma NextSigned(whole: Read<(nat, bool)>, out: nat, weight: nat, b: nat, rest: Read<(nat, bool)>)
    requires match rest
             case Ok(((v, sign), q)) => ScaledSigned(whole, out, weight, Ok(((b + 0x80 * v, sign), q)))
             case Err(e) => ScaledSigned(whole, out, weight, Err(e))
    ensures weight * b >= 0
    ensures ScaledSigned(whole, out + weight * b, 0x80 * weight, rest)
  {
    NatProduct(weight, b);
    if rest.Ok? {
      var v := rest.value.0.0;
      assert weight * (b + 0x80 * v) == weight * b + 0x80 * weight * v;
    }
  }

  // ---- what is written --------------------------------------------------------

  predicate OffsetsFit(entries: seq<Entry>) {
    forall i :: 0 <= i < |entries| ==> entries[i].offset < TWO64
  }

  function Delta(e: Entry, lastOffset: i64): i64
    requires e.offset < TWO64
  {
    Wrapped(Signed(e.offset) - lastOffset)
  }

  function PairBytes(e: Entry, lastHandle: u64, lastOffset: i64): (r: seq<byte>)
    requires e.offset < TWO64 && lastHandle <= e.handle
    ensures |r| > 1
  {
    UmcBytes(e.handle - lastHandle) + SignedMcBytes(Delta(e, lastOffset))
  }

  /** How many entries the next section takes: until a handle goes back or the section is
      full. */
  function Taken(entries: seq<Entry>, lastHandle: u64, lastOffset: i64, used: nat): (n: nat)
    requires OffsetsFit(entries)
    ensures n <= |entries|
  {
    if entries == [] || entries[0].handle < lastHandle then 0
    else
      var e := entries[0];
      var pair := PairBytes(e, lastHandle, lastOffset);
      if used + |pair| + 2 > MAX_SECTION then 0
      else 1 + Taken(entries[1..], e.handle, Signed(e.offset), used + |pair|)
  }

  predicate Ascending(entries: seq<Entry>, lastHandle: u64) {
    entries == [] || (lastHandle <= entries[0].handle && Ascending(entries[1..], entries[0].handle))
  }

  function PairsBytes(entries: seq<Entry>, lastHandle: u64, lastOffset: i64): seq<byte>
    requires OffsetsFit(entries) && Ascending(entries, lastHandle)
  {
    if entries == [] then []
    else
      PairBytes(entries[0], lastHandle, lastOffset) + PairsBytes(entries[1..], entries[0].handle, Signed(entries[0].offset))
  }

  function BeWord(v: u16): seq<byte> {
    [v / 0x100, v % 0x100]
  }

  function Section(pairs: seq<byte>, crc: Crc): seq<byte> {
    var counted := BeWord((|pairs| + 2) % 0x1_0000) + pairs;
    counted + BeWord(crc(counted))
  }

  lemma PairLength(e: Entry, lastHandle: u64, lastOffset: i64)
    requires e.offset < TWO64 && lastHandle <= e.handle
    ensures |PairBytes(e, lastHandle, lastOffset)| <= 20
  {
    hide UmcBytes, McBytes;
    var delta := Delta(e, lastOffset);
    UmcAtMostTen(e.handle - lastHandle);
    McAtMostTen(Magnitude(delta), delta < 0);
  }

  lemma SectionTakesOne(entries: seq<Entry>)
    requires OffsetsFit(entries) && entries != []
    ensures Taken(entries, 0, 0, 0) > 0
  {
    PairLength(entries[0], 0, 0);
  }

  lemma {:induction false} TakenAscends(entries: seq<Entry>, lastHandle: u64, lastOffset: i64, used: nat)
    requires OffsetsFit(entries) && used + 2 <= MAX_SECTION
    ensures var n := Taken(entries, lastHandle, lastOffset, used);
            && Ascending(entries[..n], lastHandle)
            && used + |PairsBytes(entries[..n], lastHandle, lastOffset)| + 2 <= MAX_SECTION
    decreases |entries|
  {
    var n := Taken(entries, lastHandle, lastOffset, used);
    if n > 0 {
      var e := entries[0];
      var pair := PairBytes(e, lastHandle, lastOffset);
      TakenAscends(entries[1..], e.handle, Signed(e.offset), used + |pair|);
      assert entries[..n][1..] == entries[1..][..n - 1];
    }
  }

  /** The whole map: sections, then an empty one. */
  function MapBytes(entries: seq<Entry>, crc: Crc): seq<byte>
    requires OffsetsFit(entries)
    decreases |entries|
  {
    if entries == [] then Section([], crc)
    else
      SectionTakesOne(entries);
      TakenAscends(entries, 0, 0, 0);
      var n := Taken(entries, 0, 0, 0);
      Section(PairsBytes(entries[..n], 0, 0), crc) + MapBytes(entries[n..], crc)
  }

  method WriteUmc(v: u64) returns (r: seq<byte>)
    ensures r == UmcBytes(v)
  {
    r := [];
    var x: nat := v;
    while x >= 0x80
      invariant r + UmcBytes(x) == UmcBytes(v)
    {
      r := r + [0x80 + x % 0x80];
      x := x / 0x80;
    }
    r := r + [x];
  }

  method JoinLimbs(limbs: seq<byte>, sign: byte) returns (r: seq<byte>)
    requires limbs != [] && sign < 0xC0 && forall i :: 0 <= i < |limbs| ==> limbs[i] < 0x80
    ensures r == LimbBytes(limbs, sign)
  {
    r := [];
    var i := 0;
    while i < |limbs| - 1
      invariant 0 <= i < |limbs|
      invariant r + LimbBytes(limbs[i..], sign) == LimbBytes(limbs, sign)
    {
      assert limbs[i..][1..] == limbs[i + 1..];
      r := r + [0x80 + limbs[i]];
      i := i + 1;
    }
    assert limbs[i..] == [limbs[i]];
    r := r + if limbs[i] < 0x40 then [limbs[i] + sign] else [0x80 + limbs[i], sign];
  }

  method WriteSignedMc(x: i64) returns (r: seq<byte>)
    ensures r == SignedMcBytes(x)
  {
    hide Limbs, LimbBytes;
    var v, sign := Magnitude(x), if x < 0 then 0x40 else 0;
    if v < 0x40 {
      return [v + sign];
    }
    LimbBytesAreMc(v, x < 0);
    var limbs := CutLimbs(v);
    r := JoinLimbs(limbs, sign);
  }

  /** Where the section loop stands: `n` of `total` entries are in `pairs`. */
  ghost predicate InSection(entries: seq<Entry>, n: nat, total: nat, lastHandle: u64, lastOffset: i64, pairs: seq<byte>) {
    && n <= total <= |entries| && OffsetsFit(entries)
    && total == n + Taken(entries[n..], lastHandle, lastOffset, |pairs|)
    && Ascending(entries[..total], 0) && Ascending(entries[n..total], lastHandle)
    && pairs + PairsBytes(entries[n..total], lastHandle, lastOffset) == PairsBytes(entries[..total], 0, 0)
  }

  lemma SectionStarts(entries: seq<Entry>)
    requires OffsetsFit(entries)
    ensures InSection(entries, 0, Taken(entries, 0, 0, 0), 0, 0, [])
  {
    TakenAscends(entries, 0, 0, 0);
    var total := Taken(entries, 0, 0, 0);
    assert entries[0..] == entries && entries[0..total] == entries[..total];
  }

  lemma SectionGrows(entries: seq<Entry>, n: nat, total: nat, lastHandle: u64, lastOffset: i64, pairs: seq<byte>)
    requires InSection(entries, n, total, lastHandle, lastOffset, pairs)
    requires n < |entries| && entries[n].handle >= lastHandle
    requires |pairs| + |PairBytes(entries[n], lastHandle, lastOffset)| + 2 <= MAX_SECTION
    ensures InSection(entries, n + 1, total, entries[n].handle, Signed(entries[n].offset),
                      pairs + PairBytes(entries[n], lastHandle, lastOffset))
  {
    hide PairBytes;
    var e, pair := entries[n], PairBytes(entries[n], lastHandle, lastOffset);
    assert entries[n..][1..] == entries[n + 1..];
    assert entries[n..total][1..] == entries[n + 1..total];
    Assoc(pairs, pair, PairsBytes(entries[n + 1..total], e.handle, Signed(e.offset)));
  }

  lemma SectionEnds(entries: seq<Entry>, n: nat, total: nat, lastHandle: u64, lastOffset: i64, pairs: seq<byte>)
    requires InSection(entries, n, total, lastHandle, lastOffset, pairs)
    requires n == |entries| || entries[n].handle < lastHandle
             || |pairs| + |PairBytes(entries[n], lastHandle, lastOffset)| + 2 > MAX_SECTION
    ensures n == total && Ascending(entries[..n], 0) && pairs == PairsBytes(entries[..n], 0, 0)
  {
    hide PairBytes;
    assert entries[n..total] == [];
  }

  method WriteSection(entries: seq<Entry>) returns (pairs: seq<byte>, n: nat)
    requires OffsetsFit(entries)
    ensures n == Taken(entries, 0, 0, 0)
    ensures Ascending(entries[..n], 0) && pairs == PairsBytes(entries[..n], 0, 0)
  {
    hide UmcBytes, SignedMcBytes, InSection, Taken, Ascending, PairsBytes, Delta;
    var lastHandle: u64, lastOffset: i64 := 0, 0;
    ghost var total := Taken(entries, 0, 0, 0);
    pairs, n := [], 0;
    SectionStarts(entries);
    while n < |entries| && entries[n].handle >= lastHandle
      invariant n <= |entries|
      invariant InSection(entries, n, total, lastHandle, lastOffset, pairs)
    {
      var e := entries[n];
      var handleDelta := WriteUmc(e.handle - lastHandle);
      var offsetDelta := WriteSignedMc(Delta(e, lastOffset));
      var pair := handleDelta + offsetDelta;
      if |pairs| + |pair| + 2 > MAX_SECTION {
        break;
      }
      SectionGrows(entries, n, total, lastHandle, lastOffset, pairs);
      pairs := pairs + pair;
      lastHandle, lastOffset := e.handle, Signed(e.offset);
      n := n + 1;
    }
    SectionEnds(entries, n, total, lastHandle, lastOffset, pairs);
  }

  lemma MapStep(entries: seq<Entry>, n: nat, crc: Crc)
    requires OffsetsFit(entries) && entries != [] && n == Taken(entries, 0, 0, 0)
    requires Ascending(entries[..n], 0)
    ensures n > 0 && MapBytes(entries, crc) == Section(PairsBytes(entries[..n], 0, 0), crc) + MapBytes(entries[n..], crc)
  {
    hide Taken, PairsBytes, Ascending, Section;
    SectionTakesOne(entries);
  }

  method WriteHandleMap(entries: seq<Entry>, crc: Crc) returns (out: seq<byte>)
    requires OffsetsFit(entries)
    ensures out == MapBytes(entries, crc)
  {
    hide Taken, PairsBytes, Ascending, Section;
    out := [];
    var at := 0;
    while at < |entries|
      invariant 0 <= at <= |entries|
      invariant out + MapBytes(entries[at..], crc) == MapBytes(entries, crc)
    {
      var pairs, n := WriteSection(entries[at..]);
      MapStep(entries[at..], n, crc);
      assert entries[at..][n..] == entries[at + n..];
      Assoc(out, Section(pairs, crc), MapBytes(entries[at + n..], crc));
      out := out + Section(pairs, crc);
      at := at + n;
    }
    out := out + Section([], crc);
  }

  // ---- what is read -------------------------------------------------------------

  datatype Parsed = Parsed(entries: seq<Entry>) | TooShort | PastEnd | TooMany

  /** The pairs of one section after `done`; reading stops at the first that does not
      decode. */
  function GetPairs(d: bits, p: nat, lastHandle: u64, lastOffset: i64, done: seq<Entry>): Parsed
    decreases |d| - p
  {
    if p + 8 > |d| then Parsed(done)
    else match GetMc(d, p, false)
      case Err(_) => Parsed(done)
      case Ok((handleDelta, p1)) =>
        match GetSignedMc(d, p1)
        case Err(_) => Parsed(done)
        case Ok((offsetDelta, p2)) =>
          var handle, offset := (lastHandle + handleDelta) % TWO64, Wrapped(lastOffset + offsetDelta);
          if |done| >= MAX_ENTRIES then TooMany
          else GetPairs(d, p2, handle, offset, done + [Entry(handle, Unsigned(offset))])
  }

  function ParseSections(bytes: seq<byte>, at: nat, done: seq<Entry>): Parsed
    decreases |bytes| - at
  {
    if at + 2 > |bytes| then Parsed(done)
    else
      var size := Word(bytes[at + 1], bytes[at]);
      var next := at + 2 + size;
      if size == 0 then Parsed(done)
      else if size < 2 then TooShort
      else if next > |bytes| then PastEnd
      else match GetPairs(BytesBits(bytes[at + 2..next - 2]), 0, 0, 0, done)
        case Parsed(entries) => ParseSections(bytes, next, entries)
        case failed => failed
  }

  method ReadPairs(payload: seq<byte>, done: seq<Entry>) returns (r: Parsed)
    ensures r == GetPairs(BytesBits(payload), 0, 0, 0, done)
  {
    hide GetMc, GetSignedMc, BytesBits, Wrapped;
    var c := new BitCursor(payload);
    var lastHandle: u64, lastOffset: i64, entries := 0, 0, done;
    ghost var spec := GetPairs(c.Data(), 0, 0, 0, done);
    while c.PositionBits() + 8 <= 8 * |payload|
      invariant fresh(c) && c.Valid() && c.bytes == payload
      invariant spec == GetPairs(c.Data(), c.PositionBits(), lastHandle, lastOffset, entries)
      decreases 8 * |payload| - c.PositionBits()
    {
      var handleDelta := ReadMcUnsigned(c, false);
      if handleDelta.Err? {
        break;
      }
      var offsetDelta := ReadSignedMc(c);
      if offsetDelta.Err? {
        break;
      }
      if |entries| >= MAX_ENTRIES {
        return TooMany;
      }
      lastHandle := (lastHandle + handleDelta.value) % TWO64;
      lastOffset := Wrapped(lastOffset + offsetDelta.value);
      entries := entries + [Entry(lastHandle, Unsigned(lastOffset))];
    }
    return Parsed(entries);
  }

  method Parse(bytes: seq<byte>) returns (r: Parsed)
    ensures r == ParseSections(bytes, 0, [])
  {
    hide GetPairs;
    var at, entries: seq<Entry> := 0, [];
    while at + 2 <= |bytes|
      invariant at <= |bytes|
      invariant ParseSections(bytes, 0, []) == ParseSections(bytes, at, entries)
    {
      var size := Word(bytes[at + 1], bytes[at]);
      if size == 0 {
        break;
      }
      if size < 2 {
        return TooShort;
      }
      var next := at + 2 + size;
      if next > |bytes| {
        return PastEnd;
      }
      var pairs := ReadPairs(bytes[at + 2..next - 2], entries);
      if !pairs.Parsed? {
        return pairs;
      }
      at, entries := next, pairs.entries;
    }
    return Parsed(entries);
  }

  // ---- parsing undoes writing ------------------------------------------------------

  /** `entries` after `done`, or the refusal once there would be more than the cap. */
  function Within(done: seq<Entry>, entries: seq<Entry>): Parsed {
    if |done| + |entries| <= MAX_ENTRIES then Parsed(done + entries) else TooMany
  }

  lemma PairReads(d: bits, p: nat, e: Entry, lastHandle: u64, lastOffset: i64)
    requires e.offset < TWO64 && lastHandle <= e.handle
    requires At(d, p, BytesBits(PairBytes(e, lastHandle, lastOffset)))
    ensures GetMc(d, p, false) == Ok((e.handle - lastHandle, p + 8 * |UmcBytes(e.handle - lastHandle)|))
    ensures GetSignedMc(d, p + 8 * |UmcBytes(e.handle - lastHandle)|)
            == Ok((Delta(e, lastOffset), p + 8 * |PairBytes(e, lastHandle, lastOffset)|))
  {
    hide At, BytesBits, UmcBytes, SignedMcBytes, GetMc, GetSignedMc;
    var h, o := UmcBytes(e.handle - lastHandle), SignedMcBytes(Delta(e, lastOffset));
    BytesBitsAppend(h, o);
    AtSplit(d, p, BytesBits(h), BytesBits(o));
    GetUmcAt(d, p, e.handle - lastHandle);
    GetSignedMcAt(d, p + 8 * |h|, Delta(e, lastOffset));
  }

  /** A pair that breaks off within its first number: nothing but continued bytes. */
  predicate BreaksOff(rest: seq<byte>) {
    |rest| < 10 && forall i :: 0 <= i < |rest| ==> rest[i] >= 0x80
  }

  lemma {:induction false} NoGroups(d: bits, p: nat, rest: seq<byte>, k: nat)
    requires k + |rest| < 10 && BreaksOff(rest) && At(d, p, BytesBits(rest)) && |d| == p + 8 * |rest|
    ensures GetGroups(d, p, k, false).Err?
    decreases |rest|
  {
    hide At, BytesBits;
    if rest != [] {
      assert rest == [rest[0]] + rest[1..];
      BytesBitsCons(rest[0], rest[1..]);
      AtSplit(d, p, RcBits(rest[0]), BytesBits(rest[1..]));
      GetRcAt(d, p, rest[0]);
      NoGroups(d, p + 8, rest[1..], k + 1);
    }
  }

  lemma {:induction false} PairsRead(
    d: bits, p: nat, entries: seq<Entry>, rest: seq<byte>, lastHandle: u64, lastOffset: i64, done: seq<Entry>)
    requires OffsetsFit(entries) && Ascending(entries, lastHandle) && BreaksOff(rest)
    requires At(d, p, BytesBits(PairsBytes(entries, lastHandle, lastOffset) + rest))
    requires |d| == p + 8 * (|PairsBytes(entries, lastHandle, lastOffset)| + |rest|)
    requires |done| <= MAX_ENTRIES
    ensures GetPairs(d, p, lastHandle, lastOffset, done) == Within(done, entries)
    decreases |entries|
  {
    hide At, BytesBits, PairBytes, GetGroups, GetSignedMc, UmcBytes;
    if entries == [] {
      assert done + [] == done && [] + rest == rest;
      NoGroups(d, p, rest, 0);
    } else {
      hide GetMc;
      var e := entries[0];
      var pair, more := PairBytes(e, lastHandle, lastOffset), PairsBytes(entries[1..], e.handle, Signed(e.offset));
      Assoc(pair, more, rest);
      BytesBitsAppend(pair, more + rest);
      AtSplit(d, p, BytesBits(pair), BytesBits(more + rest));
      PairReads(d, p, e, lastHandle, lastOffset);
      DeltaUndone(lastOffset, Signed(e.offset));
      SignedUndone(e.offset);
      if |done| < MAX_ENTRIES {
        PairsRead(d, p + 8 * |pair|, entries[1..], rest, e.handle, Signed(e.offset), done + [e]);
        Assoc(done, [e], entries[1..]);
        assert [e] + entries[1..] == entries;
      }
    }
  }

  /** A section's payload is found between its count and its checksum. */
  lemma SectionParses(bytes: seq<byte>, at: nat, pairs: seq<byte>, crc: Crc, done: seq<Entry>)
    requires |pairs| + 2 < 0x1_0000
    requires at + |Section(pairs, crc)| <= |bytes| && bytes[at..at + |Section(pairs, crc)|] == Section(pairs, crc)
    ensures ParseSections(bytes, at, done) == match GetPairs(BytesBits(pairs), 0, 0, 0, done)
                                              case Parsed(entries) => ParseSections(bytes, at + |pairs| + 4, entries)
                                              case failed => failed
    ensures |Section(pairs, crc)| == |pairs| + 4
  {
    hide GetPairs, BytesBits;
    var section, size := Section(pairs, crc), |pairs| + 2;
    var slice := bytes[at..at + |section|];
    assert slice[0] == bytes[at] == section[0] == size / 0x100;
    assert slice[1] == bytes[at + 1] == section[1] == size % 0x100;
    var found := bytes[at + 2..at + 2 + |pairs|];
    forall i | 0 <= i < |pairs|
      ensures found[i] == pairs[i]
    {
      assert found[i] == slice[2 + i] == section[2 + i];
    }
    assert found == pairs;
  }

  lemma EmptySectionParses(bytes: seq<byte>, at: nat, crc: Crc, done: seq<Entry>)
    requires at <= |bytes| && bytes[at..] == Section([], crc)
    ensures ParseSections(bytes, at, done) == Parsed(done)
  {
    hide BytesBits, Section;
    SectionParses(bytes, at, [], crc, done);
    NoPairs(done);
  }

  lemma {:induction false} SectionsParse(bytes: seq<byte>, at: nat, entries: seq<Entry>, crc: Crc, done: seq<Entry>)
    requires OffsetsFit(entries) && |done| <= MAX_ENTRIES
    requires |bytes| == at + |MapBytes(entries, crc)| && bytes[at..] == MapBytes(entries, crc)
    ensures ParseSections(bytes, at, done) == Within(done, entries)
    decreases |entries|
  {
    hide GetPairs, BytesBits, Section, Taken, PairsBytes, Ascending, ParseSections;
    if entries == [] {
      EmptySectionParses(bytes, at, crc, done);
      assert done + [] == done;
    } else {
      SectionTakesOne(entries);
      TakenAscends(entries, 0, 0, 0);
      var n := Taken(entries, 0, 0, 0);
      var first, rest := entries[..n], entries[n..];
      var pairs := PairsBytes(first, 0, 0);
      var section := Section(pairs, crc);
      assert bytes[at..at + |section|] == bytes[at..][..|section|] == section;
      assert bytes[at + |section|..] == bytes[at..][|section|..] == MapBytes(rest, crc);
      SectionParses(bytes, at, pairs, crc, done);
      PairsRead(BytesBits(pairs), 0, first, [], 0, 0, done) by {
        assert pairs + [] == pairs;
        Whole(BytesBits(pairs));
      }
      if |done| + n <= MAX_ENTRIES {
        SectionsParse(bytes, at + |section|, rest, crc, done + first);
        Assoc(done, first, rest);
        assert first + rest == entries;
      }
    }
  }

  lemma Whole(d: bits)
    ensures At(d, 0, d)
  {
  }

  lemma NoPairs(done: seq<Entry>)
    ensures GetPairs(BytesBits([]), 0, 0, 0, done) == Parsed(done)
  {
  }

  /** Parsing a written map gives back its entries, whatever order the handles come in and
      wherever the sections break, exactly when they are within the cap. */
  lemma ParseUndoesWrite(entries: seq<Entry>, crc: Crc)
    requires OffsetsFit(entries)
    ensures ParseSections(MapBytes(entries, crc), 0, []) == Parsed(entries) <==> |entries| <= MAX_ENTRIES
    ensures |entries| > MAX_ENTRIES ==> ParseSections(MapBytes(entries, crc), 0, []) == TooMany
  {
    hide MapBytes, ParseSections;
    assert MapBytes(entries, crc)[0..] == MapBytes(entries, crc);
    SectionsParse(MapBytes(entries, crc), 0, entries, crc, []);
    assert [] + entries == entries;
  }

  // ---- maps of other writers ----------------------------------------------------------

  /** A section whose last pair breaks off gives the pairs before it, and what follows the
      section is read on. */
  lemma BrokenSectionParses(bytes: seq<byte>, at: nat, entries: seq<Entry>, rest: seq<byte>, crc: Crc, done: seq<Entry>)
    requires OffsetsFit(entries) && Ascending(entries, 0) && BreaksOff(rest) && |done| <= MAX_ENTRIES
    requires var pairs := PairsBytes(entries, 0, 0) + rest;
             && |pairs| + 2 < 0x1_0000
             && at + |Section(pairs, crc)| <= |bytes| && bytes[at..at + |Section(pairs, crc)|] == Section(pairs, crc)
    ensures ParseSections(bytes, at, done)
            == if |done| + |entries| <= MAX_ENTRIES
               then ParseSections(bytes, at + |PairsBytes(entries, 0, 0)| + |rest| + 4, done + entries) else TooMany
  {
    hide GetPairs, BytesBits, Section, PairsBytes, ParseSections, BreaksOff, Ascending, OffsetsFit;
    var pairs := PairsBytes(entries, 0, 0) + rest;
    SectionParses(bytes, at, pairs, crc, done);
    Whole(BytesBits(pairs));
    PairsRead(BytesBits(pairs), 0, entries, rest, 0, 0, done);
  }

  /** Where a map ends: at an empty section or a single byte, and it is refused at a section
      that counts less than its checksum or more than there is. */
  lemma MapEnds(bytes: seq<byte>, at: nat, n: u16, done: seq<Entry>)
    requires at <= |bytes|
    ensures |bytes| - at < 2 ==> ParseSections(bytes, at, done) == Parsed(done)
    ensures |bytes| - at >= 2 && bytes[at..at + 2] == BeWord(n) && n == 0 ==> ParseSections(bytes, at, done) == Parsed(done)
    ensures |bytes| - at >= 2 && bytes[at..at + 2] == BeWord(n) && n == 1 ==> ParseSections(bytes, at, done) == TooShort
    ensures |bytes| - at >= 2 && bytes[at..at + 2] == BeWord(n) && 2 <= n && n > |bytes| - at - 2 ==>
              ParseSections(bytes, at, done) == PastEnd
  {
    if |bytes| - at >= 2 && bytes[at..at + 2] == BeWord(n) {
      assert bytes[at] == bytes[at..at + 2][0] && bytes[at + 1] == bytes[at..at + 2][1];
    }
  }
}
