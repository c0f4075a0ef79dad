/** Bit sequences, most significant bit first, and the byte strings that carry them
    (section 2 of the Open Design Specification for .dwg files v5.4.1). */
module Bits {
  type byte = x: int | 0 <= x < 0x100
  type u16 = x: int | 0 <= x < 0x1_0000
  type u32 = x: int | 0 <= x < 0x1_0000_0000
  type u64 = x: int | 0 <= x < 0x1_0000_0000_0000_0000
  type bits = seq<bool>

  /** A 16-bit CRC is a function of the bytes it covers. */
  type Crc = seq<byte> -> u16

  function Pow2(n: nat): (p: nat)
    ensures p >= 1
  {
    if n == 0 then 1 else 2 * Pow2(n - 1)
  }

  lemma {:induction false} Pow2Add(a: nat, b: nat)
    ensures Pow2(a + b) == Pow2(a) * Pow2(b)
  {
    if b > 0 {
      Pow2Add(a, b - 1);
    }
  }

  lemma {:induction false} Pow2Monotone(a: nat, b: nat)
    requires a <= b
    ensures Pow2(a) <= Pow2(b)
  {
    if a < b {
      Pow2Monotone(a, b - 1);
    }
  }

  lemma Pow2Small()
    ensures Pow2(1) == 2 && Pow2(2) == 4 && Pow2(3) == 8 && Pow2(4) == 16
    ensures Pow2(5) == 32 && Pow2(6) == 64 && Pow2(7) == 128 && Pow2(8) == 256
  {
    assert Pow2(4) == 16;
    assert Pow2(8) == 256;
  }

  /** The unsigned number in the binary digits `lo` to `hi` of `s`. */
  function Field(s: bits, lo: nat, hi: nat): nat
    requires lo <= hi <= |s|
    decreases hi
  {
    if lo == hi then 0 else 2 * Field(s, lo, hi - 1) + if s[hi - 1] then 1 else 0
  }

  lemma EmptyField(s: bits, p: nat)
    requires p <= |s|
    ensures Field(s, p, p) == 0
  {
  }

  /** Logical shift right. */
  function Shr(v: nat, n: nat): nat
    decreases n, v
  {
    if n == 0 then v else Shr(v / 2, n - 1)
  }

  /** The low `n` binary digits of `v`. */
  function FromNat(v: nat, n: nat): (s: bits)
    ensures |s| == n
  {
    seq(n, i requires 0 <= i < n => Shr(v, n - 1 - i) % 2 == 1)
  }

  lemma FromNatStep(v: nat, n: nat)
    requires n > 0
    ensures FromNat(v, n) == FromNat(v / 2, n - 1) + [v % 2 == 1]
  {
    var whole, front := FromNat(v, n), FromNat(v / 2, n - 1);
    forall i | 0 <= i < n - 1
      ensures whole[i] == front[i]
    {
      assert Shr(v, n - 1 - i) == Shr(v / 2, n - 2 - i);
    }
    assert whole[n - 1] == (Shr(v, 0) % 2 == 1);
  }

  lemma {:induction false} FieldBound(s: bits, lo: nat, hi: nat)
    requires lo <= hi <= |s|
    ensures Field(s, lo, hi) < Pow2(hi - lo)
    decreases hi
  {
    if lo < hi {
      FieldBound(s, lo, hi - 1);
    }
  }

  lemma SliceOfSlice<T>(s: seq<T>, a: nat, b: nat, lo: nat, hi: nat)
    requires a <= b <= |s| && lo <= hi <= b - a
    ensures s[a..b][lo..hi] == s[a + lo..a + hi]
  {
    var left, right := s[a..b][lo..hi], s[a + lo..a + hi];
    assert forall i :: 0 <= i < hi - lo ==> left[i] == right[i];
  }

  /** A field depends on its own digits only. */
  lemma {:induction false} FieldLocal(s: bits, lo: nat, hi: nat, t: bits, k: nat)
    requires lo <= hi <= |s| && k + (hi - lo) <= |t|
    requires s[lo..hi] == t[k..k + (hi - lo)]
    ensures Field(s, lo, hi) == Field(t, k, k + (hi - lo))
    decreases hi
  {
    if lo < hi {
      var n := hi - lo;
      assert s[lo..hi][n - 1] == t[k..k + n][n - 1];
      SliceOfSlice(s, lo, hi, 0, n - 1);
      SliceOfSlice(t, k, k + n, 0, n - 1);
      FieldLocal(s, lo, hi - 1, t, k);
    }
  }

  lemma {:induction false} FieldSplit(s: bits, lo: nat, mid: nat, hi: nat)
    requires lo <= mid <= hi <= |s|
    ensures Field(s, lo, hi) == Field(s, lo, mid) * Pow2(hi - mid) + Field(s, mid, hi)
    decreases hi
  {
    if mid < hi {
      FieldSplit(s, lo, mid, hi - 1);
      TwiceProduct(Field(s, lo, mid), Pow2(hi - 1 - mid));
    }
  }

  lemma TwiceProduct(x: int, p: int)
    ensures x * (2 * p) == 2 * (x * p)
  {
  }

  /** Keeping the low `t` digits of a number is a mask. */
  lemma {:induction false} LowField(v: nat, n: nat, t: nat)
    requires t <= n
    ensures Field(FromNat(v, n), n - t, n) == v % Pow2(t)
    decreases t
  {
    if t > 0 {
      var whole := FromNat(v, n);
      FromNatStep(v, n);
      LowField(v / 2, n - 1, t - 1);
      assert Field(whole, n - t, n - 1) == v / 2 % Pow2(t - 1) by {
        FieldLocal(whole, n - t, n - 1, FromNat(v / 2, n - 1), n - t);
      }
      HalfMod(v, Pow2(t - 1));
    }
  }

  /** Dropping the low `s` digits of a number and keeping the next `t` is a shift and a mask. */
  lemma {:induction false} FieldOfNumber(v: nat, n: nat, s: nat, t: nat)
    requires s + t <= n
    ensures Field(FromNat(v, n), n - s - t, n - s) == Shr(v, s) % Pow2(t)
    decreases s
  {
    if s > 0 {
      FromNatStep(v, n);
      FieldOfNumber(v / 2, n - 1, s - 1, t);
      FieldLocal(FromNat(v, n), n - s - t, n - s, FromNat(v / 2, n - 1), n - s - t);
    } else {
      LowField(v, n, t);
    }
  }

  lemma {:induction false} FieldOfFromNat(v: nat, n: nat)
    requires v < Pow2(n)
    ensures Field(FromNat(v, n), 0, n) == v
  {
    hide Field, FromNat;
    LowField(v, n, n);
    SmallMod(v, Pow2(n));
  }

  lemma SmallMod(v: nat, m: nat)
    requires v < m
    ensures v % m == v
  {
  }

  lemma {:induction false} FromNatOfField(s: bits)
    ensures FromNat(Field(s, 0, |s|), |s|) == s
  {
    if s != [] {
      var n := |s| - 1;
      FromNatOfField(s[..n]);
      FieldLocal(s[..n], 0, n, s, 0);
      FromNatStep(Field(s, 0, |s|), |s|);
    }
  }

  lemma HalfMod(v: nat, p: nat)
    requires p > 0
    ensures v % (2 * p) == 2 * (v / 2 % p) + v % 2
  {
    var h := v / 2;
    assert h == p * (h / p) + h % p;
    assert v == (2 * p) * (h / p) + (2 * (h % p) + v % 2);
    ModUnique(v, 2 * p, h / p, 2 * (h % p) + v % 2);
  }

  lemma NatProduct(a: nat, b: nat)
    ensures a * b >= 0
  {
  }

  lemma ModUnique(v: nat, m: nat, q: nat, r: nat)
    requires m > 0 && v == m * q + r && r < m
    ensures v % m == r && v / m == q
  {
    var q', r' := v / m, v % m;
    assert m * (q - q') == r' - r by {
      assert m * q - m * q' == m * (q - q');
    }
    SmallMultiple(m, q - q');
  }

  lemma SmallMultiple(m: int, d: int)
    requires -m < m * d < m
    ensures d == 0
  {
  }

  /** Setting one clear digit adds its weight. */
  lemma {:induction false} FieldSet(s: bits, k: nat, hi: nat)
    requires k < hi <= |s| && !s[k]
    ensures Field(s[k := true], 0, hi) == Field(s, 0, hi) + Pow2(hi - 1 - k)
    decreases hi
  {
    var t := s[k := true];
    if k < hi - 1 {
      FieldSet(s, k, hi - 1);
    } else {
      assert s[0..k] == t[0..0 + (k - 0)];
      FieldLocal(s, 0, k, t, 0);
    }
  }

  function ByteBits(b: byte): (s: bits)
    ensures |s| == 8
  {
    FromNat(b, 8)
  }

  function OfByteBits(s: bits): (b: byte)
    requires |s| == 8
    ensures ByteBits(b) == s
  {
    FieldBound(s, 0, 8);
    Pow2Small();
    FromNatOfField(s);
    Field(s, 0, 8)
  }

  lemma ByteBitsInjective(a: byte, b: byte)
    requires ByteBits(a) == ByteBits(b)
    ensures a == b
  {
    Pow2Small();
    FieldOfFromNat(a, 8);
    FieldOfFromNat(b, 8);
  }

  lemma ByteOfBits(b: byte)
    ensures Field(ByteBits(b), 0, 8) == b
  {
    Pow2Small();
    FieldOfFromNat(b, 8);
  }

  lemma SetDigit(b: byte, k: nat)
    requires k < 8 && !ByteBits(b)[k]
    ensures b + Pow2(7 - k) < 0x100 && ByteBits(b + Pow2(7 - k)) == ByteBits(b)[k := true]
  {
    hide Field, FromNat, Pow2;
    var s := ByteBits(b)[k := true];
    ByteOfBits(b);
    FieldSet(ByteBits(b), k, 8);
    FieldBound(s, 0, 8);
    Pow2Small();
    FromNatOfField(s);
  }

  lemma ClearDigit(b: byte, k: nat)
    requires k < 8 && ByteBits(b)[k]
    ensures b >= Pow2(7 - k) && ByteBits(b - Pow2(7 - k)) == ByteBits(b)[k := false]
  {
    hide Field, FromNat, Pow2;
    var s := ByteBits(b)[k := false];
    assert s[k := true] == ByteBits(b);
    ByteOfBits(b);
    FieldSet(s, k, 8);
    FromNatOfField(s);
  }

  /** `b` with its digit `k` (0 the highest) or-ed in. */
  function SetBit(b: byte, k: nat): (r: byte)
    requires k < 8
    ensures ByteBits(r) == ByteBits(b)[k := true]
  {
    if ByteBits(b)[k] then b
    else
      SetDigit(b, k);
      b + Pow2(7 - k)
  }

  /** `b` with its digit `k` masked out. */
  function ClearBit(b: byte, k: nat): (r: byte)
    requires k < 8
    ensures ByteBits(r) == ByteBits(b)[k := false]
  {
    if !ByteBits(b)[k] then b
    else
      ClearDigit(b, k);
      b - Pow2(7 - k)
  }

  lemma ZeroByteBits()
    ensures ByteBits(0) == Zeros(8)
  {
    forall i | 0 <= i < 8
      ensures !ByteBits(0)[i]
    {
      ShrZero(7 - i);
    }
  }

  lemma {:induction false} ShrZero(n: nat)
    ensures Shr(0, n) == 0
  {
    if n > 0 {
      ShrZero(n - 1);
    }
  }

  function BytesBits(bs: seq<byte>): (s: bits)
    ensures |s| == 8 * |bs|
  {
    seq(8 * |bs|, i requires 0 <= i < 8 * |bs| => ByteBits(bs[i / 8])[i % 8])
  }

  lemma BytesBitsAppend(a: seq<byte>, b: seq<byte>)
    ensures BytesBits(a + b) == BytesBits(a) + BytesBits(b)
  {
    var l, r := BytesBits(a + b), BytesBits(a) + BytesBits(b);
    forall i | 0 <= i < |l|
      ensures l[i] == r[i]
    {
      if i >= 8 * |a| {
        assert (i - 8 * |a|) / 8 == i / 8 - |a| && (i - 8 * |a|) % 8 == i % 8;
      }
    }
  }

  lemma BytesBitsOne(b: byte)
    ensures BytesBits([b]) == ByteBits(b)
  {
  }

  lemma BytesBitsInjective(a: seq<byte>, b: seq<byte>)
    requires BytesBits(a) == BytesBits(b)
    ensures a == b
  {
    forall i | 0 <= i < |a|
      ensures a[i] == b[i]
    {
      forall k | 0 <= k < 8
        ensures ByteBits(a[i])[k] == ByteBits(b[i])[k]
      {
        assert BytesBits(a)[8 * i + k] == BytesBits(b)[8 * i + k];
      }
      assert ByteBits(a[i]) == ByteBits(b[i]);
      ByteBitsInjective(a[i], b[i]);
    }
  }

  lemma BytesBitsSnoc(bs: seq<byte>, i: nat)
    requires i < |bs|
    ensures BytesBits(bs[..i + 1]) == BytesBits(bs[..i]) + ByteBits(bs[i])
  {
    assert bs[..i + 1] == bs[..i] + [bs[i]];
    BytesBitsAppend(bs[..i], [bs[i]]);
    BytesBitsOne(bs[i]);
  }

  lemma Assoc<T>(a: seq<T>, b: seq<T>, c: seq<T>)
    ensures a + b + c == a + (b + c)
  {
  }

  /** Replacing one byte replaces its eight bits. */
  lemma BytesBitsUpdate(bs: seq<byte>, j: nat, b: byte, k: nat, v: bool)
    requires j < |bs| && k < 8 && ByteBits(b) == ByteBits(bs[j])[k := v]
    ensures BytesBits(bs[j := b]) == BytesBits(bs)[8 * j + k := v]
  {
  }

  function PadLength(n: nat): (k: nat)
    ensures k < 8 && (n + k) % 8 == 0
  {
    (8 - n % 8) % 8
  }

  function Zeros(n: nat): (s: bits)
    ensures |s| == n && forall i :: 0 <= i < n ==> !s[i]
  {
    seq(n, _ => false)
  }

  /** `s` with clear bits up to the next byte boundary. */
  function Padded(s: bits): (r: bits)
    ensures |r| % 8 == 0 && |s| <= |r| < |s| + 8 && s <= r
  {
    s + Zeros(PadLength(|s|))
  }

  /** The bytes that carry `p`. */
  function Grouped(p: bits): (r: seq<byte>)
    requires |p| % 8 == 0
    ensures BytesBits(r) == p
  {
    if p == [] then []
    else
      var first, rest := OfByteBits(p[..8]), Grouped(p[8..]);
      BytesBitsAppend([first], rest);
      BytesBitsOne(first);
      assert p == p[..8] + p[8..];
      [first] + rest
  }

  /** The bytes that carry `s`, the last one padded with clear bits. */
  function Pack(s: bits): (r: seq<byte>)
    ensures BytesBits(r) == Padded(s)
  {
    Grouped(Padded(s))
  }

  lemma PackUnique(s: bits, r: seq<byte>)
    requires BytesBits(r) == Padded(s)
    ensures r == Pack(s)
  {
    BytesBitsInjective(r, Pack(s));
  }

  /** `e` sits in `d` from bit `p`. */
  predicate At(d: bits, p: nat, e: bits) {
    p + |e| <= |d| && d[p..p + |e|] == e
  }

  lemma AtSplit(d: bits, p: nat, a: bits, b: bits)
    requires At(d, p, a + b)
    ensures At(d, p, a) && At(d, p + |a|, b)
  {
    assert a == (a + b)[..|a|] == d[p..p + |a|];
    assert b == (a + b)[|a|..] == d[p + |a|..p + |a| + |b|];
  }

  lemma AtJoin(d: bits, p: nat, a: bits, b: bits)
    requires At(d, p, a) && At(d, p + |a|, b)
    ensures At(d, p, a + b)
  {
    assert d[p..p + |a| + |b|] == d[p..p + |a|] + d[p + |a|..p + |a| + |b|];
  }

  lemma AtConcat(a: bits, b: bits)
    ensures At(a + b, 0, a) && At(a + b, |a|, b)
  {
  }
}
