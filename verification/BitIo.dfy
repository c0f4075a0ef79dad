/** The bit writer and the bit cursor as the mutable objects they are, each method proved
    against the bit codes of `Codes`. */
module BitIo {
  import opened Bits
  import opened Codes
  import opened Results

  /** The 7-bit limbs of a number, low first. */
  method CutLimbs(v: nat) returns (limbs: seq<byte>)
    ensures limbs == Limbs(v)
  {
    limbs := [];
    var rest := v;
    while rest != 0
      invariant limbs + Limbs(rest) == Limbs(v)
      decreases rest
    {
      limbs, rest := limbs + [rest % 0x80], rest / 0x80;
    }
  }

  class BitWriter {
    var bytes: seq<byte>
    // Digits already used in the last byte; 0 when no byte is in progress.
    var bitPos: nat

    // The bits written so far.
    ghost var written: bits

    ghost predicate Valid()
      reads this
    {
      Holds(bytes, bitPos, written)
    }

    /** The last byte's unused digits are clear, so that or-ing a digit in sets it. */
    static ghost predicate Holds(bytes: seq<byte>, bitPos: nat, written: bits) {
      && bitPos < 8
      && |BytesBits(bytes)| == |written| + (8 - bitPos) % 8
      && BytesBits(bytes) == written + Zeros((8 - bitPos) % 8)
    }

    constructor ()
      ensures Valid() && written == []
    {
      bytes, bitPos, written := [], 0, [];
    }

    function PositionBits(): (n: nat)
      requires Valid()
      reads this
      ensures n == |written|
    {
      if bytes == [] then 0
      else if bitPos == 0 then 8 * |bytes|
      else 8 * (|bytes| - 1) + bitPos
    }

    /** Append one digit by setting it in the byte in progress. */
    method PushBit(bit: bool)
      requires Valid()
      modifies this
      ensures Valid() && written == old(written) + [bit]
    {
      hide BytesBits, ByteBits, SetBit;
      if bitPos == 0 {
        BytesBitsAppend(bytes, [0]);
        BytesBitsOne(0);
        ZeroByteBits();
        bytes := bytes + [0];
      }
      var last := |bytes| - 1;
      assert BytesBits(bytes) == written + Zeros(8 - bitPos);
      DigitPlaced(bytes, bitPos, written, bit);
      if bit {
        bytes := bytes[last := SetBit(bytes[last], bitPos)];
      }
      written := written + [bit];
      bitPos := bitPos + 1;
      if bitPos == 8 {
        bitPos := 0;
      }
    }

    method WriteBits(value: nat, n: nat)
      requires Valid()
      modifies this
      ensures Valid() && written == old(written) + FromNat(value, n)
    {
      ghost var start := written;
      var i := n;
      while i > 0
        invariant 0 <= i <= n && Valid()
        invariant written == start + FromNat(value, n)[..n - i]
      {
        i := i - 1;
        PushBit(Shr(value, i) % 2 == 1);
        assert FromNat(value, n)[..n - i] == FromNat(value, n)[..n - i - 1] + [FromNat(value, n)[n - i - 1]];
      }
    }

    method WriteB(v: bool)
      requires Valid()
      modifies this
      ensures Valid() && written == old(written) + [v]
    {
      PushBit(v);
    }

    method WriteBb(v: nat)
      requires Valid() && v < 4
      modifies this
      ensures Valid() && written == old(written) + BbBits(v)
    {
      WriteBits(v, 2);
    }

    method WriteRc(v: byte)
      requires Valid()
      modifies this
      ensures Valid() && written == old(written) + RcBits(v)
    {
      WriteBits(v, 8);
    }

    /** A two-bit tag, then `n` bytes, low first: the long form of BS, BL and BD. */
    method WriteTagged(tag: nat, v: nat, n: nat)
      requires Valid() && tag < 4
      modifies this
      ensures Valid() && written == old(written) + (BbBits(tag) + LeBits(v, n))
    {
      WriteBb(tag);
      WriteLe(v, n);
    }

    /** The `n` low bytes of `v`, low first: RS, RL, RD and the long forms of BS, BL, BD. */
    method WriteLe(v: nat, n: nat)
      requires Valid()
      modifies this
      ensures Valid() && written == old(written) + LeBits(v, n)
    {
      var i, x := 0, v;
      ghost var start := written;
      while i < n
        invariant i <= n && Valid()
        invariant start + LeBits(v, n) == written + LeBits(x, n - i)
      {
        BytesBitsCons(x % 0x100, LeBytes(x / 0x100, n - i - 1));
        assert written + LeBits(x, n - i) == written + RcBits(x % 0x100) + LeBits(x / 0x100, n - i - 1);
        WriteRc(x % 0x100);
        i, x := i + 1, x / 0x100;
      }
      assert LeBits(x, 0) == [];
    }

    method WriteBs(v: u16)
      requires Valid()
      modifies this
      ensures Valid() && written == old(written) + BsBits(v)
    {
      hide FromNat, BytesBits, LeBytes;
      if v == 0 {
        WriteBb(2);
      } else if v == 256 {
        WriteBb(3);
      } else if v < 256 {
        WriteBb(1);
        WriteRc(v);
      } else {
        WriteTagged(0, v, 2);
      }
    }

    method WriteBl(v: u32)
      requires Valid()
      modifies this
      ensures Valid() && written == old(written) + BlBits(v)
    {
      if v == 0 {
        WriteBb(2);
      } else if v < 256 {
        WriteBb(1);
        WriteRc(v);
      } else {
        WriteTagged(0, v, 4);
      }
    }

    method WriteBd(v: u64)
      requires Valid()
      modifies this
      ensures Valid() && written == old(written) + BdBits(v)
    {
      if v == ONE {
        WriteBb(1);
      } else if v == 0 || v == NEGATIVE_ZERO {
        WriteBb(2);
      } else {
        WriteTagged(0, v, 8);
      }
    }

    method WriteByteString(bs: seq<byte>)
      requires Valid()
      modifies this
      ensures Valid() && written == old(written) + BytesBits(bs)
    {
      ghost var start := written;
      for i := 0 to |bs|
        invariant Valid()
        invariant written == start + BytesBits(bs[..i])
      {
        WriteRc(bs[i]);
        Assoc(start, BytesBits(bs[..i]), ByteBits(bs[i]));
        BytesBitsSnoc(bs, i);
      }
      assert bs[..|bs|] == bs;
    }

    /** The signed MC of `v` or of its negation: the value is cut into 7-bit limbs, and a
        last limb whose bit 6 is set is followed by a terminator of its own. */
    method WriteMc(v: nat, negative: bool)
      requires Valid()
      modifies this
      ensures Valid() && written == old(written) + BytesBits(McBytes(v, negative))
    {
      hide BytesBits, LimbBytes, Limbs, ByteBits;
      var sign := if negative then 0x40 else 0;
      if v < 0x40 {
        BytesBitsOne(v + sign);
        WriteRc(v + sign);
        return;
      }
      var limbs := CutLimbs(v);
      LimbBytesAreMc(v, negative);
      hide McBytes;
      EmitLimbs(limbs, sign);
    }

    method EmitLimbs(limbs: seq<byte>, sign: byte)
      requires Valid()
      requires limbs != [] && sign < 0xC0 && forall i :: 0 <= i < |limbs| ==> limbs[i] < 0x80
      modifies this
      ensures Valid() && written == old(written) + BytesBits(LimbBytes(limbs, sign))
    {
      hide BytesBits, ByteBits;
      ghost var start := written;
      ghost var whole := BytesBits(LimbBytes(limbs, sign));
      var i := 0;
      while i < |limbs| - 1
        invariant 0 <= i < |limbs| && Valid()
        invariant start + whole == written + BytesBits(LimbBytes(limbs[i..], sign))
      {
        assert limbs[i..][1..] == limbs[i + 1..];
        ghost var rest := LimbBytes(limbs[i + 1..], sign);
        Assoc(written, ByteBits(0x80 + limbs[i]), BytesBits(rest));
        BytesBitsCons(0x80 + limbs[i], rest);
        WriteRc(0x80 + limbs[i]);
        i := i + 1;
      }
      assert limbs[i..] == [limbs[i]];
      EmitLast(limbs[i], sign);
    }

    method EmitLast(limb: byte, sign: byte)
      requires Valid() && limb < 0x80 && sign < 0xC0
      modifies this
      ensures Valid() && written == old(written) + BytesBits(LimbBytes([limb], sign))
    {
      hide BytesBits, ByteBits;
      if limb < 0x40 {
        BytesBitsOne(limb + sign);
        WriteRc(limb + sign);
      } else {
        BytesBitsCons(0x80 + limb, [sign]);
        assert [0x80 + limb] + [sign] == LimbBytes([limb], sign);
        BytesBitsOne(sign);
        WriteRc(0x80 + limb);
        WriteRc(sign);
      }
    }

    method WriteHandle(code: nat, value: u64)
      requires Valid() && code < 16
      modifies this
      ensures Valid() && written == old(written) + HandleBits(code, value)
    {
      var payload := BeBytes(value);
      Assoc(written, FromNat(code, 4) + FromNat(|payload|, 4), BytesBits(payload));
      WriteNibbles(code, |payload|);
      WriteByteString(payload);
    }

    method WriteNibbles(high: nat, low: nat)
      requires Valid()
      modifies this
      ensures Valid() && written == old(written) + (FromNat(high, 4) + FromNat(low, 4))
    {
      WriteBits(high, 4);
      WriteBits(low, 4);
    }

    /** Finish: the bytes, the last one padded with clear bits. */
    method IntoBytes() returns (r: seq<byte>)
      requires Valid()
      ensures r == Pack(written)
    {
      hide Pack, BytesBits;
      r := bytes;
      PackUnique(written, r);
    }
  }
  /** Setting a digit of the last byte, or leaving it clear, appends it to the bits. */
  lemma DigitPlaced(bytes: seq<byte>, bitPos: nat, written: bits, bit: bool)
    requires bytes != [] && bitPos < 8 && BytesBits(bytes) == written + Zeros(8 - bitPos)
    ensures var last := |bytes| - 1;
            BytesBits(if bit then bytes[last := SetBit(bytes[last], bitPos)] else bytes)
            == written + [bit] + Zeros(7 - bitPos)
  {
    var last := |bytes| - 1;
    assert |written| == 8 * last + bitPos;
    if bit {
      BytesBitsUpdate(bytes, last, SetBit(bytes[last], bitPos), bitPos, true);
    }
  }

  /** A cursor's result and the position it stops at are those of the pure reading. */
  ghost predicate Follows<T>(r: Result<T>, pos: nat, spec: Read<T>) {
    match spec
    case Ok((v, q)) => r == Ok(v) && pos == q
    case Err(e) => r == Err(e)
  }

  class BitCursor {
    const bytes: seq<byte>
    var bytePos: nat
    var bitPos: nat

    ghost predicate Valid()
      reads this
    {
      bitPos < 8 && 8 * bytePos + bitPos <= 8 * |bytes|
    }

    ghost function Data(): bits {
      BytesBits(bytes)
    }

    constructor (bytes: seq<byte>)
      ensures Valid() && this.bytes == bytes && PositionBits() == 0
    {
      this.bytes := bytes;
      bytePos, bitPos := 0, 0;
    }

    function PositionBits(): nat
      reads this
    {
      8 * bytePos + bitPos
    }

    /** Read `n` digits, up to a whole byte's remainder at a time. */
    method ReadBits(n: nat) returns (r: Result<nat>)
      requires Valid()
      modifies this
      ensures Valid() && Follows(r, PositionBits(), GetBits(Data(), old(PositionBits()), n))
      ensures r.Err? ==> PositionBits() == old(PositionBits())
    {
      hide BytesBits, Field;
      if 8 * |bytes| - PositionBits() < n {
        return Err(BitsExhausted);
      }
      var out: nat, taken := 0, 0;
      ghost var p, d := PositionBits(), Data();
      EmptyField(d, p);
      while taken < n
        invariant 0 <= taken <= n && Valid() && PositionBits() == p + taken
        invariant out == Field(d, p, p + taken)
      {
        var avail := 8 - bitPos;
        var take := if n - taken < avail then n - taken else avail;
        out := TakeChunk(out, take, p);
        taken := taken + take;
      }
      return Ok(out);
    }

    /** Shift the next `take` digits of the current byte into `high`, the digits from `p`. */
    method TakeChunk(high: nat, take: nat, ghost p: nat) returns (out: nat)
      requires Valid() && bytePos < |bytes| && 0 < take <= 8 - bitPos
      requires p <= PositionBits() && high == Field(Data(), p, PositionBits())
      modifies this
      ensures Valid() && PositionBits() == old(PositionBits()) + take
      ensures out == Field(Data(), p, PositionBits())
    {
      hide BytesBits, Field, CutChunk, Pow2;
      ghost var q := PositionBits();
      var chunk := CutChunk(bytes, bytePos, bitPos, take);
      AppendField(Data(), p, q, q + take, high, chunk);
      out := high * Pow2(take) + chunk;
      bitPos := bitPos + take;
      if bitPos == 8 {
        bytePos, bitPos := bytePos + 1, 0;
      }
    }

    method ReadB() returns (r: Result<bool>)
      requires Valid()
      modifies this
      ensures Valid() && Follows(r, PositionBits(), GetB(Data(), old(PositionBits())))
    {
      GetBIsOneBit(Data(), PositionBits());
      var v :- ReadBits(1);
      return Ok(v != 0);
    }

    method ReadBb() returns (r: Result<nat>)
      requires Valid()
      modifies this
      ensures Valid() && Follows(r, PositionBits(), GetBb(Data(), old(PositionBits())))
    {
      r := ReadBits(2);
    }

    method ReadRc() returns (r: Result<byte>)
      requires Valid()
      modifies this
      ensures Valid() && Follows(r, PositionBits(), GetRc(Data(), old(PositionBits())))
    {
      ghost var spec := GetRc(Data(), PositionBits());
      var v :- ReadBits(8);
      return Ok(v);
    }

    /** `n` bytes, low first: RS, RL, RD, and the long forms of BS, BL, BLL and BD. */
    method ReadLe(n: nat) returns (r: Result<nat>)
      requires Valid()
      modifies this
      ensures Valid() && Follows(r, PositionBits(), GetLe(Data(), old(PositionBits()), n))
    {
      hide BytesBits, GetBits;
      var out: nat, weight: nat, i := 0, 1, 0;
      ghost var spec := GetLe(Data(), PositionBits(), n);
      while i < n
        invariant 0 <= i <= n && Valid()
        invariant Scaled(spec, out, weight, GetLe(Data(), PositionBits(), n - i))
      {
        var b :- ReadRc();
        ScaledByte(spec, out, weight, b, GetLe(Data(), PositionBits(), n - i - 1));
        out, weight, i := out + weight * b, 0x100 * weight, i + 1;
      }
      return Ok(out);
    }

    method ReadBs() returns (r: Result<u16>)
      requires Valid()
      modifies this
      ensures Valid() && Follows(r, PositionBits(), GetBs(Data(), old(PositionBits())))
    {
      ghost var spec := GetBs(Data(), PositionBits());
      var tag :- ReadBb();
      match tag {
        case 0 =>
          var v :- ReadLe(2);
          return Ok(v);
        case 1 =>
          var v :- ReadRc();
          return Ok(v);
        case 2 => return Ok(0);
        case _ => return Ok(256);
      }
    }

    method ReadBl() returns (r: Result<u32>)
      requires Valid()
      modifies this
      ensures Valid() && Follows(r, PositionBits(), GetBl(Data(), old(PositionBits())))
    {
      ghost var spec := GetBl(Data(), PositionBits());
      var tag :- ReadBb();
      match tag {
        case 0 =>
          var v :- ReadLe(4);
          return Ok(v);
        case 1 =>
          var v :- ReadRc();
          return Ok(v);
        case 2 => return Ok(0);
        case _ => return Err(ReservedBitPattern);
      }
    }

    method ReadBll() returns (r: Result<nat>)
      requires Valid()
      modifies this
      ensures Valid() && Follows(r, PositionBits(), GetBll(Data(), old(PositionBits())))
    {
      var n :- ReadBits(3);
      r := ReadLe(n);
    }

    method ReadBd() returns (r: Result<u64>)
      requires Valid()
      modifies this
      ensures Valid() && Follows(r, PositionBits(), GetBd(Data(), old(PositionBits())))
    {
      ghost var spec := GetBd(Data(), PositionBits());
      var tag :- ReadBb();
      match tag {
        case 0 =>
          var v :- ReadLe(8);
          return Ok(v);
        case 1 => return Ok(ONE);
        case 2 => return Ok(0);
        case _ => return Err(ReservedBitPattern);
      }
    }

    method ReadHandle() returns (r: Result<Handle>)
      requires Valid()
      modifies this
      ensures Valid() && Follows(r, PositionBits(), GetHandle(Data(), old(PositionBits())))
    {
      ghost var d := Data();
      var code :- ReadBits(4);
      var counter :- ReadBits(4);
      if counter > 8 {
        return Err(HandleCounterTooLarge);
      }
      var value :- ReadBe(counter);
      return Ok(Handle(code, counter, value));
    }

    method ReadBe(n: nat) returns (r: Result<nat>)
      requires Valid()
      modifies this
      ensures Valid() && Follows(r, PositionBits(), GetBe(Data(), old(PositionBits()), n, 0))
    {
      r := Ok(0);
      var value: nat := 0;
      ghost var spec := GetBe(Data(), PositionBits(), n, 0);
      for i := 0 to n
        invariant Valid()
        invariant spec == GetBe(Data(), PositionBits(), n - i, value)
      {
        var b :- ReadRc();
        value := 0x100 * value + b;
      }
      return Ok(value);
    }
  }

  /** `whole` is what remains to be read, `rest`, scaled and added to what was read. */
  ghost predicate Scaled(whole: Read<nat>, out: nat, weight: nat, rest: Read<nat>) {
    match rest
    case Ok((v, q)) => whole == Ok((out + weight * v, q))
    case Err(e) => whole == Err(e)
  }

  lemma ScaledByte(whole: Read<nat>, out: nat, weight: nat, b: nat, rest: Read<nat>)
    requires match rest
             case Ok((v, q)) => Scaled(whole, out, weight, Ok((b + 0x100 * v, q)))
             case Err(e) => Scaled(whole, out, weight, Err(e))
    ensures weight * b >= 0
    ensures Scaled(whole, out + weight * b, 0x100 * weight, rest)
  {
    NatProduct(weight, b);
    if rest.Ok? {
      var v := rest.value.0;
      assert weight * (b + 0x100 * v) == weight * b + 0x100 * weight * v;
    }
  }

  /** The number read so far, shifted, takes in the next field. */
  lemma AppendField(d: bits, p: nat, q: nat, r: nat, high: nat, low: nat)
    requires p <= q <= r <= |d| && high == Field(d, p, q) && low == Field(d, q, r)
    ensures high * Pow2(r - q) >= 0 && high * Pow2(r - q) + low == Field(d, p, r)
  {
    FieldSplit(d, p, q, r);
    NatProduct(high, Pow2(r - q));
  }

  lemma FieldInByte(bytes: seq<byte>, bytePos: nat, bitPos: nat, take: nat)
    requires bytePos < |bytes| && bitPos + take <= 8
    ensures BytesBits(bytes)[8 * bytePos + bitPos..8 * bytePos + bitPos + take]
            == ByteBits(bytes[bytePos])[bitPos..bitPos + take]
  {
    var p := 8 * bytePos + bitPos;
    var field, inByte := BytesBits(bytes)[p..p + take], ByteBits(bytes[bytePos])[bitPos..bitPos + take];
    forall i | 0 <= i < take
      ensures field[i] == inByte[i]
    {
      assert (p + i) / 8 == bytePos && (p + i) % 8 == bitPos + i;
    }
  }

  lemma ChunkIsField(bytes: seq<byte>, bytePos: nat, bitPos: nat, take: nat)
    requires bytePos < |bytes| && bitPos + take <= 8
    ensures Shr(bytes[bytePos], 8 - bitPos - take) % Pow2(take)
            == Field(BytesBits(bytes), 8 * bytePos + bitPos, 8 * bytePos + bitPos + take)
  {
    hide BytesBits, Field, FromNat, Pow2, Shr;
    var p, b, shift := 8 * bytePos + bitPos, bytes[bytePos], 8 - bitPos - take;
    FieldInByte(bytes, bytePos, bitPos, take);
    FieldOfNumber(b, 8, shift, take);
    assert 8 - shift - take == bitPos && 8 - shift == bitPos + take;
    FieldLocal(BytesBits(bytes), p, p + take, ByteBits(b), bitPos);
  }

  /** Shifting and masking a byte cuts a field out of the bits. */
  function CutChunk(bytes: seq<byte>, bytePos: nat, bitPos: nat, take: nat): (chunk: nat)
    requires bytePos < |bytes| && bitPos + take <= 8
    ensures chunk == Field(BytesBits(bytes), 8 * bytePos + bitPos, 8 * bytePos + bitPos + take)
  {
    ChunkIsField(bytes, bytePos, bitPos, take);
    Shr(bytes[bytePos], 8 - bitPos - take) % Pow2(take)
  }
}
