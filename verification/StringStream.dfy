/** The trailer locator of `examples/probe_string_stream.rs`: every bit that could end a
    record's string stream is tried, and kept when the stream it implies is a run of
    printable strings that lands on its own trailer. */
module StringStream {
  import opened Bits
  import opened Codes
  import opened BitIo
  import opened Versions
  import opened RecordReaders
  import opened Results

  // ---- one string --------------------------------------------------------

  function UnitsOf(bs: seq<byte>): (r: seq<u16>)
    requires |bs| % 2 == 0
    ensures |r| == |bs| / 2
  {
    if bs == [] then [] else [Word(bs[0], bs[1])] + UnitsOf(bs[2..])
  }

  /** Units that decode as UTF-16: surrogates only in pairs, the high one first. */
  predicate WellFormed(units: seq<u16>) {
    if units == [] then true
    else if 0xD800 <= units[0] < 0xDC00 then
      |units| > 1 && 0xDC00 <= units[1] < 0xE000 && WellFormed(units[2..])
    else !(0xDC00 <= units[0] < 0xE000) && WellFormed(units[1..])
  }

  function Text(bs: seq<byte>, wide: bool): Result<seq<u16>>
    requires wide ==> |bs| % 2 == 0
  {
    if !wide then Ok(bs)
    else if WellFormed(UnitsOf(bs)) then Ok(UnitsOf(bs)) else Err(NotUtf16)
  }

  function ByteCount(units: nat, v: Version): nat {
    if v.IsR2007Plus() then 2 * units else units
  }

  /** A string as its code units; before R2007 its bytes. */
  function GetTv(d: bits, p: nat, v: Version): (r: Read<seq<u16>>)
    ensures r.Ok? ==> p < r.value.1 <= |d|
  {
    var (n, p1) :- GetBs(d, p);
    if n == 0 then Ok(([], p1))
    else
      var (bs, p2) :- GetRcs(d, p1, ByteCount(n, v));
      var text :- Text(bs, v.IsR2007Plus());
      Ok((text, p2))
  }

  method ReadTv(c: BitCursor, v: Version) returns (r: Result<seq<u16>>)
    requires c.Valid()
    modifies c
    ensures c.Valid() && Follows(r, c.PositionBits(), GetTv(c.Data(), old(c.PositionBits()), v))
  {
    hide Text, GetRcs, GetBs, BytesBits;
    ghost var spec := GetTv(c.Data(), c.PositionBits(), v);
    var n :- c.ReadBs();
    if n == 0 {
      return Ok([]);
    }
    var bs :- ReadRcs(c, ByteCount(n, v));
    r := Text(bs, v.IsR2007Plus());
  }

  // ---- a run of strings --------------------------------------------------

  predicate Printable(s: seq<u16>) {
    forall i :: 0 <= i < |s| ==> ' ' as int <= s[i] <= '~' as int
  }

  function GetPrintable(d: bits, p: nat, v: Version): (r: Option<(seq<u16>, nat)>)
    ensures r.Some? ==> p < r.value.1 <= |d|
  {
    match GetTv(d, p, v)
    case Err(_) => None
    case Ok((s, q)) => if Printable(s) then Some((s, q)) else None
  }

  method ReadPrintable(c: BitCursor, v: Version) returns (r: Option<seq<u16>>)
    requires c.Valid()
    modifies c
    ensures c.Valid()
    ensures match GetPrintable(c.Data(), old(c.PositionBits()), v)
            case None => r == None
            case Some((s, q)) => r == Some(s) && c.PositionBits() == q
  {
    var s := ReadTv(c, v);
    if s.Err? || !Printable(s.value) {
      return None;
    }
    return Some(s.value);
  }

  /** At most `n` loop turns: strings from `p` put after `done`, each printable, landing
      exactly on `stop`. */
  function GetRun(d: bits, p: nat, stop: nat, n: nat, v: Version, done: seq<seq<u16>>): Option<seq<seq<u16>>>
    decreases n, p
  {
    if n == 0 then None
    else if p == stop then Some(done)
    else if p > stop then None
    else match GetPrintable(d, p, v)
      case None => None
      case Some((s, q)) => GetRun(d, q, stop, n - 1, v, done + [s])
  }

  const RUN_TURNS: nat := 32

  function StringRun(d: bits, start: nat, stop: nat, v: Version): Option<seq<seq<u16>>> {
    if start > |d| then None else GetRun(d, start, stop, RUN_TURNS, v, [])
  }

  method SkipTo(c: BitCursor, bit: nat) returns (ok: bool)
    requires c.Valid() && c.PositionBits() == 0
    modifies c
    ensures c.Valid() && ok == (bit <= |c.Data()|)
    ensures ok ==> c.PositionBits() == bit
  {
    while c.PositionBits() < bit
      invariant c.Valid() && c.PositionBits() <= bit
      decreases bit - c.PositionBits()
    {
      var b := c.ReadB();
      if b.Err? {
        return false;
      }
    }
    return true;
  }

  method ReadRun(c: BitCursor, stop: nat, n: nat, v: Version) returns (r: Option<seq<seq<u16>>>)
    requires c.Valid()
    modifies c
    ensures r == GetRun(c.Data(), old(c.PositionBits()), stop, n, v, [])
  {
    hide GetPrintable, BytesBits;
    var strings: seq<seq<u16>> := [];
    ghost var spec := GetRun(c.Data(), c.PositionBits(), stop, n, v, []);
    for i := 0 to n
      invariant c.Valid()
      invariant spec == GetRun(c.Data(), c.PositionBits(), stop, n - i, v, strings)
    {
      if c.PositionBits() == stop {
        return Some(strings);
      }
      if c.PositionBits() > stop {
        return None;
      }
      var s := ReadPrintable(c, v);
      if s.None? {
        return None;
      }
      strings := strings + [s.value];
    }
    return None;
  }

  method ReadStringRun(payload: seq<byte>, start: nat, stop: nat, v: Version) returns (r: Option<seq<seq<u16>>>)
    ensures r == StringRun(BytesBits(payload), start, stop, v)
  {
    var c := new BitCursor(payload);
    var reached := SkipTo(c, start);
    if !reached {
      return None;
    }
    r := ReadRun(c, stop, RUN_TURNS, v);
  }

  // ---- candidates --------------------------------------------------------

  datatype Candidate = Candidate(end: nat, size: nat, start: nat, strings: seq<seq<u16>>)

  /** The size a trailer ending at `end` declares and the bit its stream must stop at. A
      two-word trailer that would begin before the record has no stream. */
  function TrailerAt(d: bits, end: nat): Option<(nat, nat)>
    requires 17 <= end
  {
    match GetLe(d, end - 17, 2)
    case Err(_) => None
    case Ok((lo, _)) =>
      if lo < 0x8000 then Some((lo, end - 17))
      else if end < 49 then None
      else match GetLe(d, end - 33, 2)
        case Err(_) => None
        case Ok((hi, _)) => Some((lo - 0x8000 + 0x8000 * hi, end - 49))
  }

  function CandidateAt(d: bits, headerEnd: nat, end: nat, v: Version): (r: Option<Candidate>)
    requires headerEnd + 18 <= end <= |d|
    ensures r.Some? ==> r.value.end == end
  {
    if !d[end - 1] then None
    else match TrailerAt(d, end)
      case None => None
      case Some((size, stop)) =>
        if stop < size || stop - size < headerEnd || size == 0 then None
        else match StringRun(d, stop - size, stop, v)
          case None => None
          case Some(strings) => Some(Candidate(end, size, stop - size, strings))
  }

  /** How many ends there are to try, from `headerEnd + 18` to the last bit. */
  function Ends(total: nat, headerEnd: nat): nat {
    if headerEnd + 18 <= total then total - headerEnd - 17 else 0
  }

  /** What `f` yields for 0, 1, ... below `n`. */
  function FirstKept<T>(f: nat -> Option<T>, n: nat): seq<T> {
    if n == 0 then []
    else match f(n - 1)
      case None => FirstKept(f, n - 1)
      case Some(x) => FirstKept(f, n - 1) + [x]
  }

  lemma {:induction false} FirstKeptMembership<T>(f: nat -> Option<T>, n: nat, x: T)
    ensures x in FirstKept(f, n) <==> exists k: nat :: k < n && f(k) == Some(x)
  {
    if n > 0 {
      FirstKeptMembership(f, n - 1, x);
    }
  }

  function EndCandidate(d: bits, headerEnd: nat, v: Version): nat -> Option<Candidate> {
    (n: nat) => if headerEnd + 18 + n <= |d| then CandidateAt(d, headerEnd, headerEnd + 18 + n, v) else None
  }

  function AllCandidates(d: bits, headerEnd: nat, v: Version): seq<Candidate> {
    FirstKept(EndCandidate(d, headerEnd, v), Ends(|d|, headerEnd))
  }

  method ReadRsAt(payload: seq<byte>, bit: nat) returns (r: Option<nat>)
    ensures r == match GetLe(BytesBits(payload), bit, 2) case Err(_) => None case Ok((v, _)) => Some(v)
  {
    var c := new BitCursor(payload);
    var reached := SkipTo(c, bit);
    if !reached {
      return None;
    }
    var word := c.ReadLe(2);
    match word {
      case Ok(v) => return Some(v);
      case Err(_) => return None;
    }
  }

  method ReadTrailer(payload: seq<byte>, end: nat) returns (r: Option<(nat, nat)>)
    requires 17 <= end
    ensures r == TrailerAt(BytesBits(payload), end)
  {
    hide GetLe, BytesBits;
    var lo := ReadRsAt(payload, end - 17);
    if lo.None? {
      return None;
    }
    if lo.value < 0x8000 {
      return Some((lo.value, end - 17));
    }
    if end < 49 {
      return None;
    }
    var hi := ReadRsAt(payload, end - 33);
    if hi.None? {
      return None;
    }
    return Some((lo.value - 0x8000 + 0x8000 * hi.value, end - 49));
  }

  method TryEnd(payload: seq<byte>, headerEnd: nat, end: nat, v: Version) returns (r: Option<Candidate>)
    requires headerEnd + 18 <= end <= 8 * |payload|
    ensures r == CandidateAt(BytesBits(payload), headerEnd, end, v)
  {
    hide TrailerAt, StringRun, ByteBits;
    var flag := payload[(end - 1) / 8];
    if !ByteBits(flag)[(end - 1) % 8] {
      return None;
    }
    var trailer := ReadTrailer(payload, end);
    if trailer.None? {
      return None;
    }
    var (size, stop) := trailer.value;
    if stop < size || stop - size < headerEnd || size == 0 {
      return None;
    }
    var strings := ReadStringRun(payload, stop - size, stop, v);
    if strings.None? {
      return None;
    }
    return Some(Candidate(end, size, stop - size, strings.value));
  }

  method Candidates(payload: seq<byte>, headerEnd: nat, v: Version) returns (out: seq<Candidate>)
    ensures out == AllCandidates(BytesBits(payload), headerEnd, v)
  {
    hide CandidateAt, BytesBits;
    out := [];
    ghost var f := EndCandidate(BytesBits(payload), headerEnd, v);
    for n := 0 to Ends(8 * |payload|, headerEnd)
      invariant out == FirstKept(f, n)
    {
      var candidate := TryEnd(payload, headerEnd, headerEnd + 18 + n, v);
      assert candidate == f(n);
      if candidate.Some? {
        out := out + [candidate.value];
      }
    }
  }

  // ---- what a candidate is ------------------------------------------------

  predicate AllPrintable(strings: seq<seq<u16>>) {
    forall i :: 0 <= i < |strings| ==> forall k :: 0 <= k < |strings[i]| ==> 0x20 <= strings[i][k] <= 0x7E
  }

  /** Read one after the other from `p`, the strings end on `stop`. */
  predicate Spells(d: bits, p: nat, stop: nat, strings: seq<seq<u16>>, v: Version)
    decreases |strings|
  {
    if strings == [] then p == stop
    else match GetTv(d, p, v)
      case Err(_) => false
      case Ok((s, q)) => s == strings[0] && Spells(d, q, stop, strings[1..], v)
  }

  lemma {:induction false} SpellingAdvances(d: bits, p: nat, stop: nat, strings: seq<seq<u16>>, v: Version)
    requires Spells(d, p, stop, strings, v)
    ensures strings != [] ==> p < stop
    decreases |strings|
  {
    hide GetTv;
    if strings != [] {
      SpellingAdvances(d, GetTv(d, p, v).value.1, stop, strings[1..], v);
    }
  }

  /** A run that is read spells its strings, and a spelled run of few printable strings is
      read. */
  lemma {:induction false} RunIsSpelled(d: bits, p: nat, stop: nat, n: nat, v: Version, done: seq<seq<u16>>, strings: seq<seq<u16>>)
    ensures GetRun(d, p, stop, n, v, done) == Some(done + strings)
            <==> Spells(d, p, stop, strings, v) && |strings| < n && AllPrintable(strings)
    decreases |strings|
  {
    hide GetTv, Printable;
    if Spells(d, p, stop, strings, v) {
      SpellingAdvances(d, p, stop, strings, v);
    }
    if strings == [] {
      RunGrows(d, p, stop, n, v, done);
      assert done + [] == done;
    } else if n > 0 && p < stop && GetPrintable(d, p, v).Some? {
      var (s, q) := GetPrintable(d, p, v).value;
      RunGrows(d, q, stop, n - 1, v, done + [s]);
      if s == strings[0] {
        RunIsSpelled(d, q, stop, n - 1, v, done + [s], strings[1..]);
        Assoc(done, [s], strings[1..]);
        assert [s] + strings[1..] == strings;
        assert AllPrintable(strings) <==> Printable(s) && AllPrintable(strings[1..]) by {
          PrintableFirst(strings);
        }
      } else {
        assert GetRun(d, p, stop, n, v, done).Some? ==> GetRun(d, p, stop, n, v, done).value[|done|] == s;
        assert (done + strings)[|done|] == strings[0];
      }
    } else if AllPrintable(strings) {
      PrintableFirst(strings);
    }
  }

  lemma PrintableFirst(strings: seq<seq<u16>>)
    requires strings != []
    ensures AllPrintable(strings) <==> Printable(strings[0]) && AllPrintable(strings[1..])
  {
    assert forall i :: 0 < i < |strings| ==> strings[i] == strings[1..][i - 1];
    assert strings == [strings[0]] + strings[1..];
  }

  /** What is read before a run stays in front of it; an unread bit makes it longer. */
  lemma {:induction false} RunGrows(d: bits, p: nat, stop: nat, n: nat, v: Version, done: seq<seq<u16>>)
    ensures var r := GetRun(d, p, stop, n, v, done);
            r.Some? ==> n > 0 && |done| <= |r.value| && r.value[..|done|] == done && (r.value == done <==> p == stop)
    decreases n
  {
    hide GetPrintable;
    var r := GetRun(d, p, stop, n, v, done);
    if r.Some? && p != stop {
      var (s, q) := GetPrintable(d, p, v).value;
      RunGrows(d, q, stop, n - 1, v, done + [s]);
      assert r.value[..|done|] == r.value[..|done| + 1][..|done|];
    }
  }

  /** A stream between the record's header and a trailer that ends at `end`: the
      strings-present flag is set, the size word before it gives the stream's bits, which are
      some, and they are at most 31 printable strings and nothing else. */
  predicate Qualifies(d: bits, headerEnd: nat, v: Version, c: Candidate) {
    && headerEnd + 18 <= c.end <= |d| && d[c.end - 1]
    && TrailerAt(d, c.end) == Some((c.size, c.start + c.size))
    && c.size > 0 && headerEnd <= c.start
    && |c.strings| < RUN_TURNS && AllPrintable(c.strings)
    && Spells(d, c.start, c.start + c.size, c.strings, v)
  }

  lemma TrailerStops(d: bits, end: nat)
    requires 17 <= end <= |d| && TrailerAt(d, end).Some?
    ensures TrailerAt(d, end).value.1 <= |d|
  {
  }

  lemma CandidateQualifies(d: bits, headerEnd: nat, v: Version, c: Candidate)
    requires headerEnd + 18 <= c.end <= |d|
    ensures CandidateAt(d, headerEnd, c.end, v) == Some(c) <==> Qualifies(d, headerEnd, v, c)
  {
    hide TrailerAt, GetRun, Spells, AllPrintable;
    if d[c.end - 1] && TrailerAt(d, c.end).Some? {
      var (size, stop) := TrailerAt(d, c.end).value;
      TrailerStops(d, c.end);
      if size <= stop {
        RunIsSpelled(d, stop - size, stop, RUN_TURNS, v, [], c.strings);
        assert [] + c.strings == c.strings;
      }
    }
  }

  lemma EndCandidateQualifies(d: bits, headerEnd: nat, v: Version, c: Candidate, k: nat)
    ensures EndCandidate(d, headerEnd, v)(k) == Some(c)
            <==> Qualifies(d, headerEnd, v, c) && c.end == headerEnd + 18 + k
  {
    hide CandidateAt, TrailerAt, Spells, AllPrintable;
    var end := headerEnd + 18 + k;
    if end <= |d| {
      assert EndCandidate(d, headerEnd, v)(k) == CandidateAt(d, headerEnd, end, v);
      if c.end == end {
        CandidateQualifies(d, headerEnd, v, c);
      }
    }
  }

  /** The candidates are exactly the streams that qualify. */
  lemma CandidatesAreTheQualifyingEnds(d: bits, headerEnd: nat, v: Version, c: Candidate)
    ensures c in AllCandidates(d, headerEnd, v) <==> Qualifies(d, headerEnd, v, c)
  {
    hide CandidateAt, FirstKept, EndCandidate, TrailerAt, Spells, AllPrintable;
    var f, n := EndCandidate(d, headerEnd, v), Ends(|d|, headerEnd);
    FirstKeptMembership(f, n, c);
    if k: nat :| k < n && f(k) == Some(c) {
      EndCandidateQualifies(d, headerEnd, v, c, k);
    } else if Qualifies(d, headerEnd, v, c) {
      EndCandidateQualifies(d, headerEnd, v, c, c.end - headerEnd - 18);
    }
  }

  // ---- replay ------------------------------------------------------------

  datatype Replayed = Replayed(headerEnd: nat, dataEnd: Option<nat>, mcBits: nat)

  /** The probe's replay of the prologue, which reads the `RL` on R2000 only. */
  function ReplayBits(d: bits, v: Version): Result<Replayed> {
    var (mc, p1) :- GetMcField(d, v);
    var (_, p2) :- GetObjectType(d, p1, v);
    var (_, p3) :- GetReplaySize(d, p2, v);
    var (_, p4) :- GetHandle(d, p3);
    Ok(Replayed(p4, EndBefore(|d|, mc), p1))
  }

  function GetReplaySize(d: bits, p: nat, v: Version): Read<nat> {
    if v.R2000? then GetLe(d, p, 4) else Ok((0, p))
  }

  function EndBefore(total: nat, handleStream: Option<u64>): Option<nat> {
    if handleStream.Some? && handleStream.value <= total then Some(total - handleStream.value) else None
  }

  method ReadReplaySize(c: BitCursor, v: Version) returns (r: Result<nat>)
    requires c.Valid()
    modifies c
    ensures c.Valid() && Follows(r, c.PositionBits(), GetReplaySize(c.Data(), old(c.PositionBits()), v))
  {
    if v.R2000? {
      r := c.ReadLe(4);
    } else {
      r := Ok(0);
    }
  }

  method Replay(payload: seq<byte>, v: Version) returns (r: Result<Replayed>)
    ensures r == ReplayBits(BytesBits(payload), v)
  {
    var c := new BitCursor(payload);
    ghost var spec := ReplayBits(c.Data(), v);
    var mc :- ReadMcField(c, v);
    var mcBits := c.PositionBits();
    var _ :- ReadObjectType(c, v);
    var _ :- ReadReplaySize(c, v);
    var _ :- c.ReadHandle();
    return Ok(Replayed(c.PositionBits(), EndBefore(8 * |payload|, mc), mcBits));
  }
}
