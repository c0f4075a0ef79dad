/** Any flat file's header and framed sections, whoever wrote them: what the readers take for
    one, exactly, and what they report of it. */
module FrameLaws {
  import opened Bits
  import opened Codes
  import opened Versions
  import opened FlatFile
  import opened ObjectStream
  import opened Results

  lemma {:induction false} LeBytesOfOf(bs: seq<byte>)
    ensures LeBytes(OfLeBytes(bs), |bs|) == bs
  {
    if bs != [] {
      LeBytesOfOf(bs[1..]);
      assert bs == [bs[0]] + bs[1..];
      FirstByte(bs[0], OfLeBytes(bs[1..]));
    }
  }

  lemma FirstByte(low: byte, rest: nat)
    ensures (low + 0x100 * rest) % 0x100 == low && (low + 0x100 * rest) / 0x100 == rest
  {
  }

  lemma {:induction false} OfLeBytesBound(bs: seq<byte>)
    ensures OfLeBytes(bs) < Pow2(8 * |bs|)
  {
    hide Pow2;
    Pow2Small();
    if bs != [] {
      OfLeBytesBound(bs[1..]);
      Pow2Add(8, 8 * |bs[1..]|);
    }
  }

  /** A 32-bit number is read exactly where its four bytes stand. */
  lemma RlIsItsBytes(bytes: seq<byte>, at: nat, n: u32)
    requires at + 4 <= |bytes|
    ensures RlAt(bytes, at) == n <==> bytes[at..at + 4] == LeBytes(n, 4)
  {
    hide LeBytes, OfLeBytes;
    LeBytesOfOf(bytes[at..at + 4]);
    OfLeBytesBound(bytes[at..at + 4]);
    Pow2Words();
    OfLeBytesOf(n, 4);
  }

  lemma WordIsItsBytes(low: byte, high: byte, w: u16)
    ensures Word(low, high) == w <==> [low, high] == LeBytes(w, 2)
  {
    hide LeBytes;
    WordBytes(w);
    WordBytes(Word(low, high));
    var a, b := w % 0x100, w / 0x100;
    assert LeBytes(w, 2) == [a, b];
    assert [low, high] == [a, b] <==> low == a && high == b by {
      assert [low, high][0] == low && [low, high][1] == high;
    }
  }

  // ---- framed sections -------------------------------------------------------------

  /** A section as some writer framed it, with whatever it put for checksum and end. */
  function Frames(sentinels: Sentinels, data: seq<byte>, sum: u16, end: seq<byte>): seq<byte> {
    sentinels.start + LeBytes(|data|, 4) + data + LeBytes(sum, 2) + end
  }

  lemma FramesParts(sentinels: Sentinels, data: seq<byte>, sum: u16, end: seq<byte>)
    requires sentinels.Valid() && |end| == 16
    ensures var bytes, e := Frames(sentinels, data, sum, end), 20 + |data|;
            && |bytes| == e + 18 && bytes[..16] == sentinels.start && bytes[16..20] == LeBytes(|data|, 4)
            && bytes[20..e] == data && bytes[16..e] == LeBytes(|data|, 4) + data
            && bytes[e..e + 2] == LeBytes(sum, 2) && bytes[e + 2..] == end
            && [bytes[e], bytes[e + 1]] == bytes[e..e + 2]
  {
    hide LeBytes;
  }

  /** A section is taken apart exactly when it is framed behind its start sentinel with its own
      size, and the report says whether checksum and end are the right ones. */
  lemma UnframesExactly(bytes: seq<byte>, sentinels: Sentinels, crc: Crc, f: Frame)
    requires sentinels.Valid()
    ensures Unframe(bytes, sentinels, crc) == Some(f) <==>
              exists sum: u16, end: seq<byte> ::
                && |f.data| < 0x1_0000_0000 && |end| == 16 && bytes == Frames(sentinels, f.data, sum, end)
                && (f.crcOk <==> sum == crc(LeBytes(|f.data|, 4) + f.data))
                && (f.endOk <==> end == sentinels.end)
  {
    hide LeBytes, RlAt, Frames;
    if Unframe(bytes, sentinels, crc) == Some(f) {
      var e := 20 + |f.data|;
      var sum, end := Word(bytes[e], bytes[e + 1]), bytes[e + 2..];
      RlIsItsBytes(bytes, 16, |f.data|);
      WordIsItsBytes(bytes[e], bytes[e + 1], sum);
      assert bytes[16..e] == bytes[16..20] + bytes[20..e];
      Together(bytes, sentinels, f.data, sum, end);
    }
    forall sum: u16, end: seq<byte> |
      && |f.data| < 0x1_0000_0000 && |end| == 16 && bytes == Frames(sentinels, f.data, sum, end)
      && (f.crcOk <==> sum == crc(LeBytes(|f.data|, 4) + f.data)) && (f.endOk <==> end == sentinels.end)
      ensures Unframe(bytes, sentinels, crc) == Some(f)
    {
      FramesParts(sentinels, f.data, sum, end);
      RlIsItsBytes(bytes, 16, |f.data|);
      WordIsItsBytes(bytes[20 + |f.data|], bytes[21 + |f.data|], sum);
    }
  }

  lemma Together(bytes: seq<byte>, sentinels: Sentinels, data: seq<byte>, sum: u16, end: seq<byte>)
    requires sentinels.Valid() && |bytes| == 38 + |data|
    requires bytes[..16] == sentinels.start && bytes[16..20] == LeBytes(|data|, 4) && bytes[20..20 + |data|] == data
    requires [bytes[20 + |data|], bytes[21 + |data|]] == LeBytes(sum, 2) && bytes[22 + |data|..] == end
    ensures bytes == Frames(sentinels, data, sum, end)
  {
    hide LeBytes;
    var e := 20 + |data|;
    assert bytes == bytes[..16] + bytes[16..20] + bytes[20..e] + bytes[e..e + 2] + bytes[e + 2..];
    assert bytes[e..e + 2] == [bytes[e], bytes[e + 1]];
  }

  // ---- parts of a byte string ---------------------------------------------------------

  /** One part after the other stand where both stand. */
  lemma TwoSlices(bytes: seq<byte>, at: nat, a: seq<byte>, b: seq<byte>, x: nat, y: nat)
    requires x == at + |a| && y == x + |b| <= |bytes|
    ensures bytes[at..y] == a + b <==> bytes[at..x] == a && bytes[x..y] == b
  {
    var part := bytes[at..y];
    assert part == part[..|a|] + part[|a|..];
    assert part[..|a|] == bytes[at..x] && part[|a|..] == bytes[x..y];
    assert (a + b)[..|a|] == a && (a + b)[|a|..] == b;
  }

  // ---- headers ------------------------------------------------------------------------

  function LocatorsBytes(locators: seq<Locator>): (r: seq<byte>)
    ensures |r| == 9 * |locators|
  {
    if locators == [] then [] else locators[0].Bytes() + LocatorsBytes(locators[1..])
  }

  /** A header: the release, fifteen bytes of no interest here, the count and the locators. */
  function HeaderBytes(v: Version, gap: seq<byte>, locators: seq<Locator>): seq<byte> {
    Magic(v) + gap + LeBytes(|locators|, 4) + LocatorsBytes(locators)
  }

  lemma LocatorIsItsBytes(bytes: seq<byte>, at: nat, l: Locator)
    requires at + 9 <= |bytes|
    ensures Locator(bytes[at], RlAt(bytes, at + 1), RlAt(bytes, at + 5)) == l <==> bytes[at..at + 9] == l.Bytes()
  {
    hide LeBytes, RlAt;
    RlIsItsBytes(bytes, at + 1, l.seeker);
    RlIsItsBytes(bytes, at + 5, l.size);
    var part := bytes[at..at + 9];
    assert part == [bytes[at]] + bytes[at + 1..at + 5] + bytes[at + 5..at + 9];
    assert l.Bytes()[0] == l.number && l.Bytes()[1..5] == LeBytes(l.seeker, 4) && l.Bytes()[5..9] == LeBytes(l.size, 4);
    assert part[0] == bytes[at] && part[1..5] == bytes[at + 1..at + 5] && part[5..9] == bytes[at + 5..at + 9];
  }

  lemma {:induction false} LocatorsAreTheirBytes(bytes: seq<byte>, at: nat, locators: seq<Locator>)
    requires at + 9 * |locators| <= |bytes|
    ensures LocatorsAt(bytes, at, |locators|) == locators <==> bytes[at..at + 9 * |locators|] == LocatorsBytes(locators)
    decreases |locators|
  {
    hide RlAt, Locator.Bytes;
    if locators != [] {
      var l, rest := locators[0], locators[1..];
      var first := Locator(bytes[at], RlAt(bytes, at + 1), RlAt(bytes, at + 5));
      assert LocatorsAt(bytes, at, |locators|) == [first] + LocatorsAt(bytes, at + 9, |rest|);
      assert LocatorsBytes(locators) == l.Bytes() + LocatorsBytes(rest);
      hide LocatorsAt, LocatorsBytes;
      LocatorIsItsBytes(bytes, at, l);
      LocatorsAreTheirBytes(bytes, at + 9, rest);
      TwoSlices(bytes, at, l.Bytes(), LocatorsBytes(rest), at + 9, at + 9 * |locators|);
      SameFromFirst(first, LocatorsAt(bytes, at + 9, |rest|), locators);
    }
  }

  lemma SameFromFirst(first: Locator, more: seq<Locator>, locators: seq<Locator>)
    requires locators != []
    ensures [first] + more == locators <==> first == locators[0] && more == locators[1..]
  {
    assert ([first] + more)[1..] == more;
  }

  lemma MagicIsRelease(magic: seq<byte>, v: Version)
    requires |magic| == 6
    ensures FromMagic(magic) == Some(v) <==> magic == Magic(v)
  {
  }

  lemma HeaderParts(v: Version, gap: seq<byte>, locators: seq<Locator>, bytes: seq<byte>)
    requires |gap| == 15
    ensures HeaderBytes(v, gap, locators) <= bytes <==>
              && |bytes| >= 25 + 9 * |locators| && bytes[..6] == Magic(v) && bytes[6..21] == gap
              && bytes[21..25] == LeBytes(|locators|, 4) && bytes[25..25 + 9 * |locators|] == LocatorsBytes(locators)
  {
    hide LeBytes, LocatorsBytes, Magic;
    var magic, count, rest, end := Magic(v), LeBytes(|locators|, 4), LocatorsBytes(locators), 25 + 9 * |locators|;
    assert HeaderBytes(v, gap, locators) == magic + gap + count + rest;
    hide HeaderBytes;
    if |bytes| >= end {
      TwoSlices(bytes, 0, magic, gap, 6, 21);
      TwoSlices(bytes, 0, magic + gap, count, 21, 25);
      TwoSlices(bytes, 0, magic + gap + count, rest, 25, end);
      assert bytes[..end] == bytes[0..end] && bytes[..6] == bytes[0..6];
    }
  }

  /** A file has a header exactly when it begins with one: the release's six characters, and
      from byte 0x15 on as many locators as are counted there. */
  lemma HeadersExactly(bytes: seq<byte>, h: FlatHeader)
    ensures GetHeader(bytes) == Some(h) <==>
              exists gap: seq<byte> ::
                |gap| == 15 && |h.locators| < 0x1_0000_0000 && HeaderBytes(h.version, gap, h.locators) <= bytes
  {
    hide LeBytes, RlAt, HeaderBytes, FromMagic, Magic, LocatorsAt, LocatorsBytes;
    if |bytes| >= 25 {
      MagicIsRelease(bytes[..6], h.version);
      if |h.locators| < 0x1_0000_0000 {
        RlIsItsBytes(bytes, 21, |h.locators|);
      }
      if |bytes| >= 25 + 9 * |h.locators| {
        LocatorsAreTheirBytes(bytes, 25, h.locators);
      }
      HeaderParts(h.version, bytes[6..21], h.locators, bytes);
    }
    forall gap: seq<byte> | |gap| == 15 && HeaderBytes(h.version, gap, h.locators) <= bytes
      ensures |bytes| >= 25 + 9 * |h.locators| && gap == bytes[6..21]
    {
      HeaderParts(h.version, gap, h.locators, bytes);
    }
  }

  /** What the flat fixture's header says besides: byte 0x0C is 1, the code page is 30, and the
      sixteen bytes behind the checksum close it. */
  lemma FixtureHeaderSays(v: Version, objects: seq<byte>, map_: seq<byte>, crc: Crc, headerCrc: Crc)
    ensures var file := FlatBytes(v, objects, map_, crc, headerCrc);
            && file[0x0C] == 1 && Word(file[0x13], file[0x14]) == 30
            && file[0x36..0x46] == [0x95, 0xA0, 0x4E, 0x28, 0x99, 0x82, 0x1A, 0xE5, 0x5E, 0x41, 0xE0, 0x5F, 0x9D, 0x3A, 0x4D, 0x00]
  {
    hide FlatBytes, Magic, Framed, LeBytes, Locator.Bytes;
    var file := FlatBytes(v, objects, map_, crc, headerCrc);
    EverythingSits(v, objects, map_, crc, headerCrc);
    var head := HeadRegions(v, LocatorsOf(OBJECTS_AT + |objects|, |map_|));
    var tail := TailRegions(headerCrc(file[..CRC_AT]), objects, map_, crc);
    assert Sits(file, head[1].at, head[1].bytes) && Sits(file, head[2].at, head[2].bytes) && Sits(file, tail[1].at, tail[1].bytes);
    assert file[0x0C] == file[0x0C..0x0D][0];
    WordSits(file, 0x13, 30);
  }

  /** The first locator with the number decides, whatever others have it too. */
  lemma {:induction false} FirstLocatorDecides(bytes: seq<byte>, locators: seq<Locator>, number: byte, i: nat)
    requires i < |locators| && locators[i].number == number && forall k :: 0 <= k < i ==> locators[k].number != number
    ensures var l := locators[i];
            ReadSection(bytes, locators, number)
            == if l.seeker + l.size > |bytes| then Truncated else Found(bytes[l.seeker..l.seeker + l.size])
    decreases i
  {
    if i > 0 {
      FirstLocatorDecides(bytes, locators[1..], number, i - 1);
    }
  }

  lemma {:induction false} NoLocatorNoSection(bytes: seq<byte>, locators: seq<Locator>, number: byte)
    ensures ReadSection(bytes, locators, number).Missing? <==> forall k :: 0 <= k < |locators| ==> locators[k].number != number
  {
    if locators != [] {
      NoLocatorNoSection(bytes, locators[1..], number);
      assert forall k :: 0 < k < |locators| ==> locators[k] == locators[1..][k - 1];
    }
  }
}
