/** The bit codes of section 2 of the Open Design Specification for .dwg files v5.4.1 as
    functions: `XxBits` is what the writer appends for a value, `GetXx(d, p)` is what the
    cursor reads from the bits `d` at bit `p`. Each lemma says that reading undoes writing
    wherever the written bits sit. */
module Codes {
  import opened Bits
  import opened Results

  datatype BitError =
    | BitsExhausted
    | ReservedBitPattern
    | HandleCounterTooLarge
    | ModularCharTooLong
    | NotUtf16

  type Result<+T> = Outcome<T, BitError>

  /** A value read and the bit after it. */
  type Read<+T> = Result<(T, nat)>

  // ---- fixed-width fields ------------------------------------------------

  function GetBits(d: bits, p: nat, n: nat): Read<nat> {
    if p + n <= |d| then Ok((Field(d, p, p + n), p + n)) else Err(BitsExhausted)
  }

  lemma GetBitsAt(d: bits, p: nat, v: nat, n: nat)
    requires v < Pow2(n) && At(d, p, FromNat(v, n))
    ensures GetBits(d, p, n) == Ok((v, p + n))
  {
    FieldLocal(d, p, p + n, FromNat(v, n), 0);
    FieldOfFromNat(v, n);
  }

  function GetB(d: bits, p: nat): Read<bool> {
    if p < |d| then Ok((d[p], p + 1)) else Err(BitsExhausted)
  }

  lemma GetBIsOneBit(d: bits, p: nat)
    ensures GetB(d, p) == match GetBits(d, p, 1) case Ok((v, q)) => Ok((v != 0, q)) case Err(e) => Err(e)
  {
    if p < |d| {
      assert Field(d, p, p + 1) == 2 * Field(d, p, p) + if d[p] then 1 else 0;
    }
  }

  function BbBits(v: nat): bits {
    FromNat(v, 2)
  }

  function GetBb(d: bits, p: nat): (r: Read<nat>)
    ensures r.Ok? ==> r.value.0 < 4 && r.value.1 == p + 2 <= |d|
  {
    var (v, q) :- GetBits(d, p, 2);
    FieldBound(d, p, p + 2);
    Pow2Small();
    Ok((v, q))
  }

  function RcBits(v: byte): bits {
    ByteBits(v)
  }

  function GetRc(d: bits, p: nat): (r: Read<byte>)
    ensures r.Ok? ==> r.value.1 == p + 8 <= |d|
  {
    var (v, q) :- GetBits(d, p, 8);
    FieldBound(d, p, p + 8);
    Pow2Small();
    Ok((v, q))
  }

  lemma GetBbAt(d: bits, p: nat, v: nat)
    requires v < 4 && At(d, p, BbBits(v))
    ensures GetBb(d, p) == Ok((v, p + 2))
  {
    Pow2Small();
    GetBitsAt(d, p, v, 2);
  }

  lemma GetRcAt(d: bits, p: nat, v: byte)
    requires At(d, p, RcBits(v))
    ensures GetRc(d, p) == Ok((v, p + 8))
  {
    Pow2Small();
    GetBitsAt(d, p, v, 8);
  }

  // ---- little-endian raw numbers: RS, RL, RD -----------------------------

  function LeBytes(v: nat, n: nat): (r: seq<byte>)
    ensures |r| == n
    decreases n, v
  {
    if n == 0 then [] else [v % 0x100] + LeBytes(v / 0x100, n - 1)
  }

  function OfLeBytes(bs: seq<byte>): nat {
    if bs == [] then 0 else bs[0] + 0x100 * OfLeBytes(bs[1..])
  }

  function Word(low: byte, high: byte): u16 {
    low as int + 0x100 * (high as int)
  }

  lemma WordBytes(w: u16)
    ensures LeBytes(w, 2) == [w % 0x100, w / 0x100] && Word(w % 0x100, w / 0x100) == w
  {
    assert LeBytes(w, 2) == [w % 0x100] + LeBytes(w / 0x100, 1);
    assert LeBytes(w / 0x100, 1) == [w / 0x100 % 0x100] + LeBytes(w / 0x100 / 0x100, 0);
  }

  function LeBits(v: nat, n: nat): (s: bits)
    ensures |s| == 8 * n
  {
    BytesBits(LeBytes(v, n))
  }

  function GetLe(d: bits, p: nat, n: nat): (r: Read<nat>)
    ensures r.Ok? ==> r.value.1 == p + 8 * n
    ensures r.Ok? <==> n == 0 || p + 8 * n <= |d|
    decreases n, p
  {
    if n == 0 then Ok((0, p))
    else
      var (lo, p1) :- GetRc(d, p);
      var (hi, p2) :- GetLe(d, p1, n - 1);
      Ok((lo + 0x100 * hi, p2))
  }

  lemma {:induction false} GetLeBound(d: bits, p: nat, n: nat)
    ensures GetLe(d, p, n).Ok? ==> GetLe(d, p, n).value.0 < Pow2(8 * n)
    decreases n
  {
    if n > 0 && GetRc(d, p).Ok? {
      GetLeBound(d, p + 8, n - 1);
      Pow2Add(8, 8 * (n - 1));
      Pow2Small();
    }
  }

  lemma Pow2Words()
    ensures Pow2(15) == 0x8000 && Pow2(16) == 0x1_0000 && Pow2(30) == 0x4000_0000
    ensures Pow2(32) == 0x1_0000_0000 && Pow2(63) == 0x8000_0000_0000_0000
    ensures Pow2(64) == 0x1_0000_0000_0000_0000
  {
    Pow2Small();
    Pow2Add(8, 7);
    Pow2Add(8, 8);
    Pow2Add(15, 15);
    Pow2Add(16, 16);
    Pow2Add(32, 32);
    assert Pow2(64) == 2 * Pow2(63);
  }

  lemma BytesBitsCons(b: byte, rest: seq<byte>)
    ensures BytesBits([b] + rest) == ByteBits(b) + BytesBits(rest)
  {
    BytesBitsAppend([b], rest);
    BytesBitsOne(b);
  }

  lemma {:induction false} GetLeAt(d: bits, p: nat, v: nat, n: nat)
    requires v < Pow2(8 * n) && At(d, p, LeBits(v, n))
    ensures GetLe(d, p, n) == Ok((v, p + 8 * n))
    decreases n
  {
    hide At, BytesBits, GetRc;
    if n > 0 {
      BytesBitsCons(v % 0x100, LeBytes(v / 0x100, n - 1));
      AtSplit(d, p, RcBits(v % 0x100), LeBits(v / 0x100, n - 1));
      GetRcAt(d, p, v % 0x100);
      ByteFits(v, n);
      GetLeAt(d, p + 8, v / 0x100, n - 1);
    }
  }

  lemma ByteFits(v: nat, n: nat)
    requires n > 0 && v < Pow2(8 * n)
    ensures v / 0x100 < Pow2(8 * (n - 1))
  {
    Pow2Add(8, 8 * (n - 1));
    Pow2Small();
  }

  lemma {:induction false} OfLeBytesOf(v: nat, n: nat)
    requires v < Pow2(8 * n)
    ensures OfLeBytes(LeBytes(v, n)) == v
  {
    if n > 0 {
      ByteFits(v, n);
      OfLeBytesOf(v / 0x100, n - 1);
    }
  }

  // ---- BS, BL, BLL -------------------------------------------------------

  function BsBits(v: u16): bits {
    if v == 0 then BbBits(2)
    else if v == 256 then BbBits(3)
    else if v < 256 then BbBits(1) + RcBits(v)
    else BbBits(0) + LeBits(v, 2)
  }

  function GetBs(d: bits, p: nat): (r: Read<u16>)
    ensures r.Ok? ==> p < r.value.1 <= |d|
  {
    var (tag, q) :- GetBb(d, p);
    Pow2Words();
    GetLeBound(d, q, 2);
    match tag
    case 0 => GetLe(d, q, 2)
    case 1 => GetRc(d, q)
    case 2 => Ok((0, q))
    case _ => Ok((256, q))
  }

  lemma GetBsAt(d: bits, p: nat, v: u16)
    requires At(d, p, BsBits(v))
    ensures GetBs(d, p) == Ok((v, p + |BsBits(v)|))
  {
    hide BytesBits, FromNat, GetBits, LeBytes, Pow2;
    Pow2Words();
    if v == 0 {
      GetBbAt(d, p, 2);
    } else if v == 256 {
      GetBbAt(d, p, 3);
    } else if v < 256 {
      AtSplit(d, p, BbBits(1), RcBits(v));
      GetBbAt(d, p, 1);
      GetRcAt(d, p + 2, v);
    } else {
      AtSplit(d, p, BbBits(0), LeBits(v, 2));
      GetBbAt(d, p, 0);
      GetLeAt(d, p + 2, v, 2);
    }
  }

  function BlBits(v: u32): bits {
    if v == 0 then BbBits(2)
    else if v < 256 then BbBits(1) + RcBits(v)
    else BbBits(0) + LeBits(v, 4)
  }

  function GetBl(d: bits, p: nat): (r: Read<u32>)
    ensures r.Ok? ==> p < r.value.1 <= |d|
  {
    var (tag, q) :- GetBb(d, p);
    Pow2Words();
    GetLeBound(d, q, 4);
    match tag
    case 0 => GetLe(d, q, 4)
    case 1 => GetRc(d, q)
    case 2 => Ok((0, q))
    case _ => Err(ReservedBitPattern)
  }

  lemma GetBlAt(d: bits, p: nat, v: u32)
    requires At(d, p, BlBits(v))
    ensures GetBl(d, p) == Ok((v, p + |BlBits(v)|))
  {
    hide BytesBits, FromNat, GetBits, LeBytes, Pow2;
    Pow2Words();
    if v == 0 {
      GetBbAt(d, p, 2);
    } else if v < 256 {
      AtSplit(d, p, BbBits(1), RcBits(v));
      GetBbAt(d, p, 1);
      GetRcAt(d, p + 2, v);
    } else {
      AtSplit(d, p, BbBits(0), LeBits(v, 4));
      GetBbAt(d, p, 0);
      GetLeAt(d, p + 2, v, 4);
    }
  }

  function GetBll(d: bits, p: nat): (r: Read<nat>)
    ensures r.Ok? ==> p < r.value.1 <= |d|
  {
    var (n, q) :- GetBits(d, p, 3);
    GetLe(d, q, n)
  }

  // ---- BD: a double is carried as its IEEE 754 bit pattern ---------------

  const ONE: u64 := 0x3FF0_0000_0000_0000
  const NEGATIVE_ZERO: u64 := 0x8000_0000_0000_0000

  /** The writer compares with `==`, under which minus zero is zero. */
  function BdBits(v: u64): bits {
    if v == ONE then BbBits(1)
    else if v == 0 || v == NEGATIVE_ZERO then BbBits(2)
    else BbBits(0) + LeBits(v, 8)
  }

  function GetBd(d: bits, p: nat): (r: Read<u64>)
    ensures r.Ok? ==> p < r.value.1 <= |d|
  {
    var (tag, q) :- GetBb(d, p);
    Pow2Words();
    GetLeBound(d, q, 8);
    match tag
    case 0 => GetLe(d, q, 8)
    case 1 => Ok((ONE, q))
    case 2 => Ok((0, q))
    case _ => Err(ReservedBitPattern)
  }

  /** A BD reads back the double written unless that double is minus zero. */
  lemma GetBdAt(d: bits, p: nat, v: u64)
    requires At(d, p, BdBits(v))
    ensures GetBd(d, p).Ok? && GetBd(d, p).value.1 == p + |BdBits(v)|
    ensures GetBd(d, p).value.0 == v <==> v != NEGATIVE_ZERO
  {
    hide BytesBits, FromNat, GetBits, LeBytes, Pow2;
    Pow2Words();
    if v == ONE {
      GetBbAt(d, p, 1);
    } else if v == 0 || v == NEGATIVE_ZERO {
      GetBbAt(d, p, 2);
    } else {
      AtSplit(d, p, BbBits(0), LeBits(v, 8));
      GetBbAt(d, p, 0);
      GetLeAt(d, p + 2, v, 8);
    }
  }

  // ---- modular chars -----------------------------------------------------

  /** A signed MC: 7-bit groups, low first; the last byte keeps bit 6 for the sign. */
  function McBytes(v: nat, negative: bool): (r: seq<byte>)
    ensures |r| > 0
  {
    if v < 0x40 then [v + if negative then 0x40 else 0]
    else [0x80 + v % 0x80] + McBytes(v / 0x80, negative)
  }

  function Limbs(v: nat): (r: seq<byte>)
    ensures v > 0 ==> r != []
  {
    if v == 0 then [] else [v % 0x80] + Limbs(v / 0x80)
  }

  /** What the writer's limb loop emits: a last limb whose bit 6 is set is continued by a
      terminator that carries only the sign. */
  function LimbBytes(limbs: seq<byte>, sign: byte): seq<byte>
    requires limbs != [] && sign < 0xC0 && forall i :: 0 <= i < |limbs| ==> limbs[i] < 0x80
  {
    if |limbs| > 1 then [0x80 + limbs[0]] + LimbBytes(limbs[1..], sign)
    else if limbs[0] < 0x40 then [limbs[0] + sign]
    else [0x80 + limbs[0], sign]
  }

  lemma {:induction false} LimbBytesAreMc(v: nat, negative: bool)
    requires v > 0
    ensures forall i :: 0 <= i < |Limbs(v)| ==> Limbs(v)[i] < 0x80
    ensures LimbBytes(Limbs(v), if negative then 0x40 else 0) == McBytes(v, negative)
  {
    if v >= 0x80 {
      LimbBytesAreMc(v / 0x80, negative);
      assert Limbs(v)[1..] == Limbs(v / 0x80);
    } else if v >= 0x40 {
      assert Limbs(v) == [v];
      assert McBytes(v, negative) == [0x80 + v] + McBytes(0, negative);
    } else {
      assert Limbs(v) == [v];
    }
  }

  /** An unsigned MC: every byte carries seven digits. */
  function UmcBytes(v: nat): (r: seq<byte>)
    ensures |r| > 0
  {
    if v < 0x80 then [v] else [0x80 + v % 0x80] + UmcBytes(v / 0x80)
  }

  /** The groups of an unsigned MC from the `k`-th on. A `strict` reader refuses ten
      continued groups; the others stop there. */
  function GetGroups(d: bits, p: nat, k: nat, strict: bool): (r: Read<nat>)
    ensures r.Ok? ==> p < r.value.1 <= |d|
    decreases 10 - k, p
  {
    var (b, q) :- GetRc(d, p);
    var group := b % 0x80;
    if b < 0x80 || (k >= 9 && !strict) then Ok((group, q))
    else if k >= 9 then Err(ModularCharTooLong)
    else
      var (rest, z) :- GetGroups(d, q, k + 1, strict);
      Ok((group + 0x80 * rest, z))
  }

  function Truncate64(v: nat): (r: u64)
    ensures v < 0x1_0000_0000_0000_0000 ==> r == v
  {
    v % 0x1_0000_0000_0000_0000
  }

  /** The unsigned reading of an MC into 64 bits. */
  function GetMc(d: bits, p: nat, strict: bool): (r: Read<u64>)
    ensures r.Ok? ==> p < r.value.1 <= |d|
  {
    var (v, q) :- GetGroups(d, p, 0, strict);
    Ok((Truncate64(v), q))
  }

  lemma {:induction false} McBytesLength(v: nat, negative: bool, n: nat)
    requires n > 0 && v < 0x40 * Pow2(7 * (n - 1))
    ensures |McBytes(v, negative)| <= n
  {
    if v >= 0x40 {
      Pow2Add(7, 7 * (n - 2));
      Pow2Small();
      McBytesLength(v / 0x80, negative, n - 1);
    }
  }

  lemma {:induction false} UmcBytesLength(v: nat, n: nat)
    requires n > 0 && v < Pow2(7 * n)
    ensures |UmcBytes(v)| <= n
  {
    Pow2Add(7, 7 * (n - 1));
    Pow2Small();
    if v >= 0x80 {
      UmcBytesLength(v / 0x80, n - 1);
    }
  }

  lemma {:induction false} GetGroupsOfMc(d: bits, p: nat, v: nat, k: nat, strict: bool)
    requires k + |McBytes(v, false)| <= 10 && At(d, p, BytesBits(McBytes(v, false)))
    ensures GetGroups(d, p, k, strict) == Ok((v, p + 8 * |McBytes(v, false)|))
    decreases v
  {
    hide BytesBits, FromNat, GetBits, ByteBits;
    if v < 0x40 {
      BytesBitsOne(v);
      GetRcAt(d, p, v);
    } else {
      var b: byte, rest := 0x80 + v % 0x80, McBytes(v / 0x80, false);
      BytesBitsCons(b, rest);
      AtSplit(d, p, RcBits(b), BytesBits(rest));
      GetRcAt(d, p, b);
      GetGroupsOfMc(d, p + 8, v / 0x80, k + 1, strict);
    }
  }

  lemma {:induction false} GetGroupsOfUmc(d: bits, p: nat, v: nat, k: nat)
    requires k + |UmcBytes(v)| <= 10 && At(d, p, BytesBits(UmcBytes(v)))
    ensures GetGroups(d, p, k, false) == Ok((v, p + 8 * |UmcBytes(v)|))
    decreases v
  {
    hide BytesBits, FromNat, GetBits, ByteBits;
    if v < 0x80 {
      BytesBitsOne(v);
      GetRcAt(d, p, v);
    } else {
      var b: byte, rest := 0x80 + v % 0x80, UmcBytes(v / 0x80);
      BytesBitsCons(b, rest);
      AtSplit(d, p, RcBits(b), BytesBits(rest));
      GetRcAt(d, p, b);
      GetGroupsOfUmc(d, p + 8, v / 0x80, k + 1);
    }
  }

  lemma McAtMostTen(v: nat, negative: bool)
    requires v < 0x1_0000_0000_0000_0000
    ensures |McBytes(v, negative)| <= 10
  {
    Pow2Words();
    McBytesLength(v, negative, 10);
  }

  lemma UmcAtMostTen(v: u64)
    ensures |UmcBytes(v)| <= 10
  {
    Pow2Words();
    Pow2Monotone(64, 70);
    UmcBytesLength(v, 10);
  }

  /** What the signed writer emits for a value below 2^63 the unsigned readers read back:
      the writer spends a whole terminator rather than let bit 6 carry a digit. */
  lemma GetMcAt(d: bits, p: nat, v: nat, strict: bool)
    requires v < 0x8000_0000_0000_0000 && At(d, p, BytesBits(McBytes(v, false)))
    ensures GetMc(d, p, strict) == Ok((v, p + 8 * |McBytes(v, false)|))
  {
    McAtMostTen(v, false);
    GetGroupsOfMc(d, p, v, 0, strict);
  }

  lemma GetUmcAt(d: bits, p: nat, v: u64)
    requires At(d, p, BytesBits(UmcBytes(v)))
    ensures GetMc(d, p, false) == Ok((v, p + 8 * |UmcBytes(v)|))
  {
    UmcAtMostTen(v);
    GetGroupsOfUmc(d, p, v, 0);
  }

  // ---- handles -----------------------------------------------------------

  datatype Handle = Handle(code: nat, counter: nat, value: nat)

  /** The bytes of `v`, high first, as many as it needs. */
  function BeBytes(v: nat): seq<byte> {
    if v == 0 then [] else BeBytes(v / 0x100) + [v % 0x100]
  }

  function HandleBits(code: nat, value: u64): bits {
    FromNat(code, 4) + FromNat(|BeBytes(value)|, 4) + BytesBits(BeBytes(value))
  }

  function GetBe(d: bits, p: nat, n: nat, high: nat): (r: Read<nat>)
    ensures r.Ok? ==> r.value.1 == p + 8 * n && (n > 0 ==> r.value.1 <= |d|)
    decreases n, p
  {
    if n == 0 then Ok((high, p))
    else
      var (b, q) :- GetRc(d, p);
      GetBe(d, q, n - 1, 0x100 * high + b)
  }

  function GetHandle(d: bits, p: nat): (r: Read<Handle>)
    ensures r.Ok? ==> p + 8 <= r.value.1 <= |d|
  {
    var (code, p1) :- GetBits(d, p, 4);
    var (counter, p2) :- GetBits(d, p1, 4);
    if counter > 8 then Err(HandleCounterTooLarge)
    else
      var (value, p3) :- GetBe(d, p2, counter, 0);
      Ok((Handle(code, counter, value), p3))
  }

  function OfBeBytes(bs: seq<byte>, high: nat): nat {
    if bs == [] then high else OfBeBytes(bs[1..], 0x100 * high + bs[0])
  }

  lemma {:induction false} GetBeAt(d: bits, p: nat, bs: seq<byte>, high: nat)
    requires At(d, p, BytesBits(bs))
    ensures GetBe(d, p, |bs|, high) == Ok((OfBeBytes(bs, high), p + 8 * |bs|))
    decreases |bs|
  {
    hide BytesBits, FromNat, GetBits, ByteBits;
    if bs != [] {
      assert bs == [bs[0]] + bs[1..];
      BytesBitsCons(bs[0], bs[1..]);
      AtSplit(d, p, RcBits(bs[0]), BytesBits(bs[1..]));
      GetRcAt(d, p, bs[0]);
      GetBeAt(d, p + 8, bs[1..], 0x100 * high + bs[0]);
    }
  }

  lemma {:induction false} OfBeBytesSnoc(bs: seq<byte>, b: byte, high: nat)
    ensures OfBeBytes(bs + [b], high) == 0x100 * OfBeBytes(bs, high) + b
    decreases |bs|
  {
    if bs != [] {
      assert (bs + [b])[1..] == bs[1..] + [b];
      OfBeBytesSnoc(bs[1..], b, 0x100 * high + bs[0]);
    }
  }

  lemma {:induction false} OfBeBytesOf(v: nat)
    ensures OfBeBytes(BeBytes(v), 0) == v
  {
    if v > 0 {
      OfBeBytesOf(v / 0x100);
      OfBeBytesSnoc(BeBytes(v / 0x100), v % 0x100, 0);
    }
  }

  lemma {:induction false} BeBytesLength(v: nat, n: nat)
    requires v < Pow2(8 * n)
    ensures |BeBytes(v)| <= n
  {
    if v > 0 {
      Pow2Add(8, 8 * (n - 1));
      Pow2Small();
      BeBytesLength(v / 0x100, n - 1);
    }
  }

  lemma GetHandleAt(d: bits, p: nat, code: nat, value: u64)
    requires code < 16 && At(d, p, HandleBits(code, value))
    ensures GetHandle(d, p) == Ok((Handle(code, |BeBytes(value)|, value), p + |HandleBits(code, value)|))
  {
    hide BytesBits, FromNat, GetBits, ByteBits;
    var payload := BeBytes(value);
    var n := |payload|;
    assert n <= 8 by {
      Pow2Words();
      BeBytesLength(value, 8);
    }
    assert Pow2(4) == 16 by {
      Pow2Small();
    }
    AtSplit(d, p, FromNat(code, 4) + FromNat(n, 4), BytesBits(payload));
    AtSplit(d, p, FromNat(code, 4), FromNat(n, 4));
    GetBitsAt(d, p, code, 4);
    GetBitsAt(d, p + 4, n, 4);
    GetBeAt(d, p + 8, payload, 0);
    OfBeBytesOf(value);
  }
}
