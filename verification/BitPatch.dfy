/** Finding a byte string at any bit offset and writing bytes there in place: `bit_find`,
    `put_bits` and the patch of `examples/probe_code_page.rs`. */
module BitPatch {
  import opened Bits
  import opened Codes
  import opened Versions

  /** Eight bits across two bytes, the first shifted left and the second right. */
  function Across(high: byte, low: byte, shift: nat): nat
    requires shift < 8
  {
    high * Pow2(shift) % 0x100 + Shr(low, 8 - shift)
  }

  lemma ShiftedMod(v: nat, p: nat, q: nat)
    requires p > 0 && q > 0
    ensures v * p % (q * p) == v % q * p
  {
    var d, m := v / q, v % q;
    assert v * p == (q * p) * d + m * p by {
      assert v == q * d + m;
      assert (q * d + m) * p == q * d * p + m * p;
      assert q * d * p == (q * p) * d;
    }
    assert m * p < q * p;
    ModUnique(v * p, q * p, d, m * p);
  }

  /** The shifts cut out exactly the bits that start `shift` into the first byte. */
  lemma AcrossIsField(high: byte, low: byte, shift: nat)
    requires 0 < shift < 8
    ensures Across(high, low, shift) < 0x100
    ensures ByteBits(Across(high, low, shift)) == ByteBits(high)[shift..] + ByteBits(low)[..shift]
  {
    hide Field, FromNat, Pow2, Shr;
    var a, b := ByteBits(high), ByteBits(low);
    var t := a[shift..] + b[..shift];
    FieldSplit(t, 0, 8 - shift, 8);
    assert a[shift..8] == t[0..8 - shift];
    FieldLocal(a, shift, 8, t, 0);
    LowField(high, 8, 8 - shift);
    assert b[0..shift] == t[8 - shift..8];
    FieldLocal(b, 0, shift, t, 8 - shift);
    FieldOfNumber(low, 8, 8 - shift, shift);
    Pow2Small();
    assert 8 - shift + shift == 8;
    ShrBound(low, 8 - shift, shift);
    SmallMod(Shr(low, 8 - shift), Pow2(shift));
    Pow2Add(8 - shift, shift);
    ShiftedMod(high, Pow2(shift), Pow2(8 - shift));
    FromNatOfField(t);
    FieldBound(t, 0, 8);
  }

  lemma {:induction false} ShrBound(v: nat, s: nat, t: nat)
    requires v < Pow2(s + t)
    ensures Shr(v, s) < Pow2(t)
    decreases s
  {
    if s > 0 {
      ShrBound(v / 2, s - 1, t);
    }
  }

  // ---- finding ------------------------------------------------------------------

  function ByteAt(hay: seq<byte>, i: nat, shift: nat): nat
    requires shift < 8 && (i + 1 < |hay| || (i < |hay| && shift == 0))
  {
    if shift == 0 then hay[i] else Across(hay[i], hay[i + 1], shift)
  }

  lemma ByteAtIsEightBits(hay: seq<byte>, i: nat, shift: nat)
    requires i + 1 < |hay| && shift < 8
    ensures ByteAt(hay, i, shift) < 0x100
    ensures ByteBits(ByteAt(hay, i, shift)) == BytesBits(hay)[8 * i + shift..8 * i + shift + 8]
  {
    hide FromNat, Across;
    if shift > 0 {
      AcrossIsField(hay[i], hay[i + 1], shift);
    }
    var part := BytesBits(hay)[8 * i + shift..8 * i + shift + 8];
    forall k | 0 <= k < 8
      ensures part[k] == if shift + k < 8 then ByteBits(hay[i])[shift + k] else ByteBits(hay[i + 1])[shift + k - 8]
    {
      if shift + k < 8 {
        assert (8 * i + (shift + k)) / 8 == i && (8 * i + (shift + k)) % 8 == shift + k;
      } else {
        assert (8 * (i + 1) + (shift + k - 8)) / 8 == i + 1 && (8 * (i + 1) + (shift + k - 8)) % 8 == shift + k - 8;
      }
    }
  }

  /** The needle's bits are in the hay from bit `p`. */
  predicate OccursAt(hay: seq<byte>, needle: seq<byte>, p: nat) {
    At(BytesBits(hay), p, BytesBits(needle))
  }

  lemma MatchingByte(hay: seq<byte>, needle: seq<byte>, i: nat, shift: nat, k: nat)
    requires i + |needle| < |hay| && shift < 8 && k < |needle|
    ensures var d, at := BytesBits(hay), 8 * i + shift + 8 * k;
            ByteAt(hay, i + k, shift) == needle[k] <==> d[at..at + 8] == BytesBits(needle)[8 * k..8 * k + 8]
  {
    hide ByteBits, ByteAt, BytesBits;
    ByteAtIsEightBits(hay, i + k, shift);
    OneByte(needle, k);
    if ByteBits(ByteAt(hay, i + k, shift)) == ByteBits(needle[k]) {
      ByteBitsInjective(ByteAt(hay, i + k, shift), needle[k]);
    }
  }

  lemma Eighth(d: bits, p: nat, n: nat, k: nat)
    requires p + 8 * n <= |d| && k < n
    ensures d[p..p + 8 * n][8 * k..8 * k + 8] == d[p + 8 * k..p + 8 * k + 8]
  {
    SliceOfSlice(d, p, p + 8 * n, 8 * k, 8 * k + 8);
  }

  predicate MatchesAt(hay: seq<byte>, needle: seq<byte>, i: nat, shift: nat)
    requires i + |needle| < |hay| && shift < 8
  {
    forall k :: 0 <= k < |needle| ==> ByteAt(hay, i + k, shift) == needle[k]
  }

  lemma MatchIsOccurrence(hay: seq<byte>, needle: seq<byte>, i: nat, shift: nat)
    requires i + |needle| < |hay| && shift < 8
    ensures MatchesAt(hay, needle, i, shift) <==> OccursAt(hay, needle, 8 * i + shift)
  {
    hide ByteBits, ByteAt, BytesBits;
    var d, p, n := BytesBits(hay), 8 * i + shift, |needle|;
    var part, e := d[p..p + 8 * n], BytesBits(needle);
    EqualByBytes(part, e, n);
    if MatchesAt(hay, needle, i, shift) {
      forall k | 0 <= k < n
        ensures part[8 * k..8 * k + 8] == e[8 * k..8 * k + 8]
      {
        MatchingByte(hay, needle, i, shift, k);
        Eighth(d, p, n, k);
      }
    }
    if OccursAt(hay, needle, p) {
      forall k | 0 <= k < n
        ensures ByteAt(hay, i + k, shift) == needle[k]
      {
        MatchingByte(hay, needle, i, shift, k);
        Eighth(d, p, n, k);
      }
    }
  }

  lemma OneByte(bs: seq<byte>, k: nat)
    requires k < |bs|
    ensures BytesBits(bs)[8 * k..8 * k + 8] == ByteBits(bs[k])
  {
    forall j | 0 <= j < 8
      ensures BytesBits(bs)[8 * k..8 * k + 8][j] == ByteBits(bs[k])[j]
    {
      assert (8 * k + j) / 8 == k && (8 * k + j) % 8 == j;
    }
  }

  lemma EqualByBytes(a: bits, b: bits, n: nat)
    requires |a| == |b| == 8 * n
    ensures a == b <==> forall k :: 0 <= k < n ==> a[8 * k..8 * k + 8] == b[8 * k..8 * k + 8]
  {
    if forall k :: 0 <= k < n ==> a[8 * k..8 * k + 8] == b[8 * k..8 * k + 8] {
      forall i | 0 <= i < 8 * n
        ensures a[i] == b[i]
      {
        var k := i / 8;
        assert a[8 * k..8 * k + 8][i % 8] == b[8 * k..8 * k + 8][i % 8];
      }
    }
  }

  /** The order the offsets are found in: by their place in the byte, then by the byte. */
  predicate FoundBefore(p: nat, q: nat) {
    p % 8 < q % 8 || (p % 8 == q % 8 && p < q)
  }

  /** Exactly the offsets below eight times the difference in length at which the needle
      occurs, none twice. An occurrence that ends with the hay is not among them. */
  method BitFind(hay: seq<byte>, needle: seq<byte>) returns (found: seq<nat>)
    ensures forall p: nat :: p in found <==> needle != [] && p < 8 * (|hay| - |needle|) && OccursAt(hay, needle, p)
    ensures forall a, b :: 0 <= a < b < |found| ==> FoundBefore(found[a], found[b])
  {
    hide OccursAt, ByteAt;
    found := [];
    if needle == [] || |hay| < |needle| + 1 {
      return;
    }
    var n := |hay| - |needle|;
    for shift := 0 to 8
      invariant forall p: nat :: p in found <==> p < 8 * n && p % 8 < shift && OccursAt(hay, needle, p)
      invariant forall a, b :: 0 <= a < b < |found| ==> FoundBefore(found[a], found[b])
    {
      for i := 0 to n
        invariant forall p: nat :: p in found <==> p < 8 * n && (p % 8 < shift || (p % 8 == shift && p / 8 < i)) && OccursAt(hay, needle, p)
        invariant forall a, b :: 0 <= a < b < |found| ==> FoundBefore(found[a], found[b])
      {
        MatchIsOccurrence(hay, needle, i, shift);
        var k := 0;
        while k < |needle| && ByteAt(hay, i + k, shift) == needle[k]
          invariant 0 <= k <= |needle|
          invariant forall j :: 0 <= j < k ==> ByteAt(hay, i + j, shift) == needle[j]
        {
          k := k + 1;
        }
        ghost var before := found;
        if k == |needle| {
          Appended(found, i * 8 + shift);
          found := found + [i * 8 + shift];
        }
        forall p: nat
          ensures p in found <==> p < 8 * n && (p % 8 < shift || (p % 8 == shift && p / 8 < i + 1)) && OccursAt(hay, needle, p)
        {
          assert p in found <==> p in before || (k == |needle| && p == i * 8 + shift);
          assert p % 8 == shift && p / 8 == i <==> p == i * 8 + shift;
        }
      }
    }
  }

  lemma Appended(found: seq<nat>, p: nat)
    requires forall q: nat :: q in found ==> FoundBefore(q, p)
    requires forall a, b :: 0 <= a < b < |found| ==> FoundBefore(found[a], found[b])
    ensures forall a, b :: 0 <= a < b < |found + [p]| ==> FoundBefore((found + [p])[a], (found + [p])[b])
  {
    hide FoundBefore;
    assert forall a :: 0 <= a < |found| ==> found[a] in found;
  }

  // ---- writing -----------------------------------------------------------------------

  /** `d` with `e` written over it from bit `p`. */
  function Overwritten(d: bits, p: nat, e: bits): (r: bits)
    requires p + |e| <= |d|
    ensures |r| == |d| && At(r, p, e)
    ensures forall i :: 0 <= i < |d| && !(p <= i < p + |e|) ==> r[i] == d[i]
  {
    d[..p] + e + d[p + |e|..]
  }

  lemma OverwrittenTwice(d: bits, p: nat, a: bits, b: bits)
    requires p + |a| + |b| <= |d|
    ensures Overwritten(Overwritten(d, p, a), p + |a|, b) == Overwritten(d, p, a + b)
  {
    assert Overwritten(Overwritten(d, p, a), p + |a|, b) == d[..p] + a + b + d[p + |a| + |b|..];
    Assoc(d[..p], a, b);
  }

  lemma OverwrittenBefore(d: bits, p: nat, a: bits, b: bits)
    requires p + |a| + |b| <= |d|
    ensures Overwritten(Overwritten(d, p + |a|, b), p, a) == Overwritten(d, p, a + b)
  {
    assert Overwritten(Overwritten(d, p + |a|, b), p, a) == Overwritten(d, p, a + b);
  }

  method PutBits(buf: array<byte>, bit: nat, value: byte)
    requires bit + 8 <= 8 * buf.Length
    modifies buf
    ensures BytesBits(buf[..]) == Overwritten(BytesBits(old(buf[..])), bit, ByteBits(value))
  {
    hide BytesBits, ByteBits;
    ghost var before, e := BytesBits(buf[..]), ByteBits(value);
    for k := 0 to 8
      invariant BytesBits(buf[..]) == Overwritten(before, bit, e[..k])
    {
      var at := bit + k;
      ghost var was := buf[..];
      var b := if ByteBits(value)[k] then SetBit(buf[at / 8], at % 8) else ClearBit(buf[at / 8], at % 8);
      BytesBitsUpdate(was, at / 8, b, at % 8, e[k]);
      buf[at / 8] := b;
      assert buf[..] == was[at / 8 := b];
      assert 8 * (at / 8) + at % 8 == at;
      OneMore(before, bit, e, k);
    }
    assert e[..8] == e;
  }

  lemma OneMore(d: bits, p: nat, e: bits, k: nat)
    requires p + |e| <= |d| && k < |e|
    ensures Overwritten(d, p, e[..k])[p + k := e[k]] == Overwritten(d, p, e[..k + 1])
  {
  }

  const PATCH: seq<byte> := [0xE9, 0xB0, 0xC0, 0xFC]

  /** How a string is read: by the page in force, or by a page of its own in the byte before
      its characters. */
  datatype Via = InForce | OwnPage

  const HEADER_PAGE_AT: nat := 0x13

  /** What is written from which bit on over the string at `at`. */
  function PatchAt(via: Via, at: nat): nat
    requires via.OwnPage? ==> at >= 8
  {
    if via.OwnPage? then at - 8 else at
  }

  function PatchBytes(via: Via, page: u16): seq<byte>
    requires via.OwnPage? ==> page < 0x100
  {
    if via.OwnPage? then [page] + PATCH else PATCH
  }

  function FirstPatched(d: bits, via: Via, at: nat, page: u16): (r: bits)
    requires at + 32 <= |d| && (via.OwnPage? ==> at >= 8 && page < 0x100)
    ensures |r| == |d|
  {
    Overwritten(d, PatchAt(via, at), BytesBits(PatchBytes(via, page)))
  }

  /** The stream patched for a page: the string, its own page byte where it has one, and,
      where the stream is the file, the header's page. */
  function Patched(d: bits, v: Version, via: Via, at: nat, page: u16, drawingPage: u16): (r: bits)
    requires at + 32 <= |d| && (via.OwnPage? ==> at >= 8 && page < 0x100)
    requires !v.IsR2004Family() ==> 8 * HEADER_PAGE_AT + 16 <= |d|
    ensures |r| == |d|
  {
    var patched := FirstPatched(d, via, at, page);
    if v.IsR2004Family() then patched
    else Overwritten(patched, 8 * HEADER_PAGE_AT, LeBits(if via.OwnPage? then drawingPage else page, 2))
  }

  method PatchString(buf: array<byte>, at: nat)
    requires at + 32 <= 8 * buf.Length
    modifies buf
    ensures BytesBits(buf[..]) == Overwritten(BytesBits(old(buf[..])), at, BytesBits(PATCH))
  {
    hide BytesBits, ByteBits, Overwritten;
    ghost var before := BytesBits(buf[..]);
    NothingWritten(before, at);
    for k := 0 to |PATCH|
      invariant BytesBits(buf[..]) == Overwritten(before, at, BytesBits(PATCH[..k]))
    {
      PutBits(buf, at + 8 * k, PATCH[k]);
      BytesBitsSnoc(PATCH, k);
      OverwrittenTwice(before, at, BytesBits(PATCH[..k]), ByteBits(PATCH[k]));
    }
    assert PATCH[..|PATCH|] == PATCH;
  }

  method PatchHeader(buf: array<byte>, page: u16)
    requires HEADER_PAGE_AT + 2 <= buf.Length
    modifies buf
    ensures BytesBits(buf[..]) == Overwritten(BytesBits(old(buf[..])), 8 * HEADER_PAGE_AT, LeBits(page, 2))
  {
    hide BytesBits, ByteBits, Overwritten, LeBits;
    ghost var before := buf[..];
    var low: byte, high: byte := page % 0x100, page / 0x100;
    buf[HEADER_PAGE_AT], buf[HEADER_PAGE_AT + 1] := low, high;
    assert buf[..] == before[..HEADER_PAGE_AT] + ([low, high] + before[HEADER_PAGE_AT + 2..]);
    TwoBytesOverwritten(before, HEADER_PAGE_AT, low, high);
    LeBitsAreBytes(page);
  }

  /** Patch the stream in place; a page that is no byte cannot be a string's own. */
  method Patch(buf: array<byte>, v: Version, via: Via, at: nat, page: u16, drawingPage: u16) returns (ok: bool)
    requires at + 32 <= 8 * buf.Length && (via.OwnPage? ==> at >= 8)
    requires !v.IsR2004Family() ==> HEADER_PAGE_AT + 2 <= buf.Length
    modifies buf
    ensures ok <==> via.InForce? || page < 0x100
    ensures ok ==> BytesBits(buf[..]) == Patched(BytesBits(old(buf[..])), v, via, at, page, drawingPage)
  {
    hide BytesBits, ByteBits, Overwritten, LeBits;
    ghost var before := BytesBits(buf[..]);
    PatchString(buf, at);
    var headerPage := page;
    if via.OwnPage? {
      if page >= 0x100 {
        return false;
      }
      PutBits(buf, at - 8, page);
      BytesBitsAppend([page], PATCH);
      BytesBitsOne(page);
      OverwrittenBefore(before, at - 8, ByteBits(page), BytesBits(PATCH));
      headerPage := drawingPage;
    }
    if !v.IsR2004Family() {
      PatchHeader(buf, headerPage);
    }
    return true;
  }

  lemma LeBitsAreBytes(w: u16)
    ensures LeBits(w, 2) == BytesBits([w % 0x100, w / 0x100])
  {
    WordBytes(w);
  }

  lemma TwoBytesOverwritten(bs: seq<byte>, k: nat, low: byte, high: byte)
    requires k + 2 <= |bs|
    ensures BytesBits(bs[..k] + ([low, high] + bs[k + 2..])) == Overwritten(BytesBits(bs), 8 * k, BytesBits([low, high]))
  {
    hide BytesBits;
    var front, back := bs[..k], bs[k + 2..];
    assert bs == front + (bs[k..k + 2] + back);
    BytesBitsAppend(front, bs[k..k + 2] + back);
    BytesBitsAppend(bs[k..k + 2], back);
    BytesBitsAppend(front, [low, high] + back);
    BytesBitsAppend([low, high], back);
    var d := BytesBits(bs);
    assert d[..8 * k] == BytesBits(front);
    assert d[8 * k + 16..] == BytesBits(back);
    Assoc(BytesBits(front), BytesBits([low, high]), BytesBits(back));
  }

  lemma NothingWritten(d: bits, p: nat)
    requires p <= |d|
    ensures Overwritten(d, p, BytesBits([])) == d
  {
  }

  /** The bits a patch may change: the four bytes, the page byte before them, and the header's
      page outside the R2004 family. */
  predicate Touched(v: Version, via: Via, at: nat, i: nat) {
    || at <= i < at + 32
    || (via.OwnPage? && at - 8 <= i < at)
    || (!v.IsR2004Family() && 8 * HEADER_PAGE_AT <= i < 8 * HEADER_PAGE_AT + 16)
  }

  /** No bit of the string or of its page byte is one of the header's page. */
  predicate Apart(v: Version, via: Via, at: nat, n: nat) {
    v.IsR2004Family() || at + 8 * n <= 8 * HEADER_PAGE_AT
    || 8 * HEADER_PAGE_AT + 16 <= at - (if via.OwnPage? then 8 else 0)
  }

  /** Over a string found in the stream the patch reads as its own four bytes and then the
      string's old rest, after its new page where it has one; no bit has moved but those the
      patch is for. */
  lemma PatchedStringReads(hay: seq<byte>, needle: seq<byte>, v: Version, via: Via, at: nat, page: u16, drawingPage: u16)
    requires |needle| >= 4 && OccursAt(hay, needle, at)
    requires via.OwnPage? ==> at >= 8 && page < 0x100
    requires !v.IsR2004Family() ==> HEADER_PAGE_AT + 2 <= |hay|
    ensures var d := BytesBits(hay);
            var r := Patched(d, v, via, at, page, drawingPage);
            && (Apart(v, via, at, |needle|) ==> At(r, at, BytesBits(PATCH + needle[4..])))
            && (Apart(v, via, at, |needle|) && via.OwnPage? ==> At(r, at - 8, BytesBits([page])))
            && (!v.IsR2004Family() ==> At(r, 8 * HEADER_PAGE_AT, LeBits(if via.OwnPage? then drawingPage else page, 2)))
            && forall i :: 0 <= i < |d| && !Touched(v, via, at, i) ==> r[i] == d[i]
  {
    hide BytesBits, LeBits, Overwritten;
    var d, rest := BytesBits(hay), PATCH + needle[4..];
    var r, first := Patched(d, v, via, at, page, drawingPage), FirstPatched(d, via, at, page);
    PatchStands(d, via, at, page);
    PatchOverString(d, needle, at, first);
    if Apart(v, via, at, |needle|) {
      StaysPut(first, r, at, BytesBits(rest));
      if via.OwnPage? {
        StaysPut(first, r, at - 8, BytesBits([page]));
      }
    }
  }

  lemma PatchStands(d: bits, via: Via, at: nat, page: u16)
    requires at + 32 <= |d| && (via.OwnPage? ==> at >= 8 && page < 0x100)
    ensures var first := FirstPatched(d, via, at, page);
            && At(first, at, BytesBits(PATCH)) && (via.OwnPage? ==> At(first, at - 8, BytesBits([page])))
            && forall i :: 0 <= i < |d| && !(PatchAt(via, at) <= i < at + 32) ==> first[i] == d[i]
  {
    hide BytesBits;
    if via.OwnPage? {
      BytesBitsAppend([page], PATCH);
      AtSplit(FirstPatched(d, via, at, page), at - 8, BytesBits([page]), BytesBits(PATCH));
    }
  }

  lemma PatchOverString(d: bits, needle: seq<byte>, at: nat, patched: bits)
    requires |needle| >= 4 && At(d, at, BytesBits(needle)) && |patched| == |d| && At(patched, at, BytesBits(PATCH))
    requires forall i :: at + 32 <= i < |d| ==> patched[i] == d[i]
    ensures At(patched, at, BytesBits(PATCH + needle[4..]))
  {
    hide BytesBits;
    var rest := needle[4..];
    assert needle == needle[..4] + rest;
    BytesBitsAppend(needle[..4], rest);
    AtSplit(d, at, BytesBits(needle[..4]), BytesBits(rest));
    BytesBitsAppend(PATCH, rest);
    assert patched[at + 32..at + 32 + 8 * |rest|] == d[at + 32..at + 32 + 8 * |rest|];
    AtJoin(patched, at, BytesBits(PATCH), BytesBits(rest));
  }

  lemma StaysPut(d: bits, r: bits, at: nat, e: bits)
    requires |d| == |r| && At(d, at, e) && forall i :: at <= i < at + |e| ==> r[i] == d[i]
    ensures At(r, at, e)
  {
    assert r[at..at + |e|] == d[at..at + |e|];
  }
}
