/** The LZ77 dialect of the R2004 family (section 4.7 of the Open Design Specification for
    .dwg files v5.4.1): the decompressor of `src/lz77.rs`, the literal encoder of
    `src/lz77_encode.rs` and the one of `benches/lz77.rs`. */
module Lz77 {
  import opened Bits
  import opened Results

  datatype LzError = StreamTruncated | InvalidOpcode | InvalidOffset | OutputLimit | BackrefTooLong | UnencodableLength(n: nat)

  type LzResult<+T> = Outcome<T, LzError>

  datatype Limits = Limits(maxOutput: nat, maxBackref: nat)

  const TERMINATOR: byte := 0x11

  // ---- lengths and offsets -----------------------------------------------------

  function ReadByte(input: seq<byte>, pos: nat): (r: LzResult<(byte, nat)>)
    ensures r.Ok? ==> r.value.1 == pos + 1 <= |input|
  {
    if pos >= |input| then Err(StreamTruncated) else Ok((input[pos], pos + 1))
  }

  /** Zero bytes add 255 each; the byte that ends them adds itself. */
  function RunTotal(input: seq<byte>, pos: nat, total: nat): (r: LzResult<(nat, nat)>)
    ensures r.Ok? ==> pos < r.value.1 <= |input| && r.value.0 > total
    decreases |input| - pos
  {
    var (b, next) :- ReadByte(input, pos);
    if b == 0 then RunTotal(input, next, total + 0xFF) else Ok((total + b, next))
  }

  /** A literal length, or none when the byte is an opcode, which is then left unread. */
  function LiteralLength(input: seq<byte>, pos: nat): (r: LzResult<(Option<nat>, nat)>)
    ensures r.Ok? ==> pos <= r.value.1 <= |input|
  {
    var (b, next) :- ReadByte(input, pos);
    if b == 0 then
      var (total, after) :- RunTotal(input, next, 0x0F);
      Ok((Some(total + 3), after))
    else if b >= 0x10 then Ok((None, pos))
    else Ok((Some(b + 3), next))
  }

  function LongCount(input: seq<byte>, pos: nat): (r: LzResult<(nat, nat)>)
    ensures r.Ok? ==> pos < r.value.1 <= |input|
  {
    var (b, next) :- ReadByte(input, pos);
    if b != 0 then Ok((b as nat, next)) else RunTotal(input, next, 0xFF)
  }

  /** The bytes to copy, in the opcode's low bits or, when those are 0, after it. */
  function CountInOpcode(op: byte, mask: nat, input: seq<byte>, pos: nat): (r: LzResult<(nat, nat)>)
    requires mask == 0x07 || mask == 0x1F
    ensures r.Ok? ==> pos <= r.value.1 && (pos <= |input| ==> r.value.1 <= |input|)
  {
    var count := op % (mask + 1);
    if count != 0 then Ok((count + 2, pos))
    else
      var (total, next) :- RunTotal(input, pos, 0);
      Ok((total + mask + 2, next))
  }

  /** An offset of fourteen bits and a literal count of two. */
  function TwoByteOffset(input: seq<byte>, pos: nat): (r: LzResult<(nat, nat, nat)>)
    ensures r.Ok? ==> r.value.1 < 4 && r.value.2 == pos + 2 <= |input| && r.value.0 < 0x4000
  {
    var (first, p) :- ReadByte(input, pos);
    var (second, q) :- ReadByte(input, p);
    Ok((first / 4 + 64 * (second as nat), first % 4, q))
  }

  /** A back-reference: how many bytes, from how far back, and how many literals follow. */
  datatype Backref = Backref(count: nat, offset: nat, literals: nat)

  function ReadBackref(op: byte, input: seq<byte>, pos: nat): (r: LzResult<(Backref, nat)>)
    requires op >= 0x10 && op != TERMINATOR && pos <= |input|
    ensures r.Ok? ==> pos <= r.value.1 <= |input| && r.value.0.offset > 0
  {
    if op == 0x10 then
      var (count, p) :- LongCount(input, pos);
      var (offset, literals, q) :- TwoByteOffset(input, p);
      Ok((Backref(count + 9, offset + 0x4000, literals), q))
    else if op < 0x20 then
      var (count, p) :- CountInOpcode(op, 0x07, input, pos);
      var (offset, literals, q) :- TwoByteOffset(input, p);
      Ok((Backref(count, op / 8 % 2 * 0x4000 + offset + 0x4000, literals), q))
    else if op == 0x20 then
      var (count, p) :- LongCount(input, pos);
      var (offset, literals, q) :- TwoByteOffset(input, p);
      Ok((Backref(count + 0x21, offset + 1, literals), q))
    else if op < 0x40 then
      var (count, p) :- CountInOpcode(op, 0x1F, input, pos);
      var (offset, literals, q) :- TwoByteOffset(input, p);
      Ok((Backref(count, offset + 1, literals), q))
    else
      var (op2, p) :- ReadByte(input, pos);
      Ok((Backref(op / 16 - 1, 4 * (op2 as nat) + op / 4 % 4 + 1, op % 4), p))
  }

  // ---- decompression -----------------------------------------------------------------

  function CopyLiteral(input: seq<byte>, pos: nat, out: seq<byte>, n: nat, limits: Limits): (r: LzResult<(seq<byte>, nat)>)
    requires pos <= |input|
    ensures r.Ok? ==> r.value.1 == pos + n <= |input| && r.value.0 == out + input[pos..pos + n]
    ensures r.Ok? ==> |r.value.0| <= limits.maxOutput
  {
    if |out| + n > limits.maxOutput then Err(OutputLimit)
    else if pos + n > |input| then Err(StreamTruncated)
    else Ok((out + input[pos..pos + n], pos + n))
  }

  /** Copy `n` bytes from `start` on, byte by byte, so that a copy may read what it wrote. */
  function Copied(out: seq<byte>, start: nat, n: nat): (r: seq<byte>)
    requires start < |out|
    ensures |r| == |out| + n && out <= r
    decreases n
  {
    if n == 0 then out else Copied(out + [out[start]], start + 1, n - 1)
  }

  /** What a back-reference copies repeats what stands `offset` bytes before it, however far
      it reaches into its own output. */
  lemma {:induction false} CopyRepeats(out: seq<byte>, offset: nat, n: nat, k: nat)
    requires 0 < offset <= |out| <= k < |out| + n
    ensures Copied(out, |out| - offset, n)[k] == Copied(out, |out| - offset, n)[k - offset]
    decreases n
  {
    var start := |out| - offset;
    var more := out + [out[start]];
    if k > |out| {
      CopyRepeats(more, offset, n - 1, k);
    } else {
      var all := Copied(more, start + 1, n - 1);
      assert all[..|more|] == more;
      assert all[k] == all[..|more|][k] && all[start] == all[..|more|][start];
    }
  }

  function ApplyBackref(out: seq<byte>, b: Backref, limits: Limits): LzResult<seq<byte>> {
    if b.offset == 0 then Err(InvalidOffset)
    else if b.count > limits.maxBackref then Err(BackrefTooLong)
    else if |out| + b.count > limits.maxOutput then Err(OutputLimit)
    else if b.offset > |out| then Err(InvalidOffset)
    else Ok(Copied(out, |out| - b.offset, b.count))
  }

  function LiteralCount(input: seq<byte>, pos: nat, literals: nat): (r: LzResult<(nat, nat)>)
    requires pos <= |input|
    ensures r.Ok? ==> pos <= r.value.1 <= |input|
  {
    if literals != 0 then Ok((literals, pos))
    else
      var (n, next) :- LiteralLength(input, pos);
      Ok((if n.Some? then n.value else 0, next))
  }

  /** From an opcode on. */
  function Opcodes(input: seq<byte>, pos: nat, out: seq<byte>, limits: Limits): LzResult<seq<byte>>
    requires pos <= |input|
    decreases |input| - pos
  {
    var (op, p) :- ReadByte(input, pos);
    if op < 0x10 then Err(InvalidOpcode)
    else if op == TERMINATOR then Ok(out)
    else
      var (b, q) :- ReadBackref(op, input, p);
      var (literals, s) :- LiteralCount(input, q, b.literals);
      var copied :- ApplyBackref(out, b, limits);
      var (more, t) :- CopyLiteral(input, s, copied, literals, limits);
      Opcodes(input, t, more, limits)
  }

  function Decompressed(input: seq<byte>, limits: Limits): LzResult<seq<byte>> {
    var (n, p) :- LiteralLength(input, 0);
    var (out, q) :- CopyLiteral(input, p, [], if n.Some? then n.value else 0, limits);
    Opcodes(input, q, out, limits)
  }

  method CopyBackref(out0: seq<byte>, start: nat, n: nat) returns (out: seq<byte>)
    requires start < |out0|
    ensures out == Copied(out0, start, n)
  {
    out := out0;
    for i := 0 to n
      invariant |out| == |out0| + i && Copied(out0, start, n) == Copied(out, start + i, n - i)
    {
      out := out + [out[start + i]];
    }
  }

  method ReadRun(input: seq<byte>, at: nat, start: nat) returns (r: LzResult<(nat, nat)>)
    ensures r == RunTotal(input, at, start)
  {
    var pos, total := at, start;
    while pos < |input| && input[pos] == 0
      invariant RunTotal(input, at, start) == RunTotal(input, pos, total)
      decreases |input| - pos
    {
      pos, total := pos + 1, total + 0xFF;
    }
    if pos >= |input| {
      return Err(StreamTruncated);
    }
    return Ok((total + input[pos], pos + 1));
  }

  method Decompress(input: seq<byte>, limits: Limits) returns (r: LzResult<seq<byte>>)
    ensures r == Decompressed(input, limits)
  {
    hide LiteralLength, CopyLiteral, ReadBackref, LiteralCount;
    var first :- LiteralLength(input, 0);
    var start :- CopyLiteral(input, first.1, [], if first.0.Some? then first.0.value else 0, limits);
    var (out, pos) := start;
    ghost var spec := Opcodes(input, pos, out, limits);
    while true
      invariant pos <= |input| && spec == Opcodes(input, pos, out, limits)
      decreases |input| - pos
    {
      var read :- ReadByte(input, pos);
      var (op, p) := read;
      if op < 0x10 {
        return Err(InvalidOpcode);
      }
      if op == TERMINATOR {
        break;
      }
      var backref :- ReadBackref(op, input, p);
      var (b, q) := backref;
      var count :- LiteralCount(input, q, b.literals);
      if b.count > limits.maxBackref {
        return Err(BackrefTooLong);
      }
      if |out| + b.count > limits.maxOutput {
        return Err(OutputLimit);
      }
      if b.offset > |out| {
        return Err(InvalidOffset);
      }
      out := CopyBackref(out, |out| - b.offset, b.count);
      var more :- CopyLiteral(input, count.1, out, count.0, limits);
      out, pos := more.0, more.1;
    }
    return Ok(out);
  }

  /** Nothing decompresses to more than the limit. */
  lemma {:induction false} OpcodesStayWithinLimit(input: seq<byte>, pos: nat, out: seq<byte>, limits: Limits)
    requires pos <= |input| && |out| <= limits.maxOutput
    ensures var r := Opcodes(input, pos, out, limits); r.Ok? ==> |r.value| <= limits.maxOutput && out <= r.value
    decreases |input| - pos
  {
    hide ReadBackref, LiteralCount;
    var r := Opcodes(input, pos, out, limits);
    if r.Ok? && input[pos] != TERMINATOR {
      var (b, q) := ReadBackref(input[pos], input, pos + 1).value;
      var (literals, s) := LiteralCount(input, q, b.literals).value;
      var copied := ApplyBackref(out, b, limits).value;
      var (more, t) := CopyLiteral(input, s, copied, literals, limits).value;
      OpcodesStayWithinLimit(input, t, more, limits);
      assert out <= copied <= more;
    }
  }

  lemma OutputStaysWithinLimit(input: seq<byte>, limits: Limits)
    ensures var r := Decompressed(input, limits); r.Ok? ==> |r.value| <= limits.maxOutput
  {
    hide LiteralLength, Opcodes;
    if Decompressed(input, limits).Ok? {
      var (n, p) := LiteralLength(input, 0).value;
      var (out, q) := CopyLiteral(input, p, [], if n.Some? then n.value else 0, limits).value;
      OpcodesStayWithinLimit(input, q, out, limits);
    }
  }

  // ---- the literal prefix -------------------------------------------------------------------

  /** The bytes that stand for a remainder from 15 on: 255 to each zero, then what is left. */
  function Extension(remainder: nat): (r: seq<byte>)
    requires remainder > 0
    ensures |r| > 0 && r[|r| - 1] != 0
  {
    if remainder <= 0xFF then [remainder] else [0] + Extension(remainder - 0xFF)
  }

  function LengthPrefix(n: nat): seq<byte>
    requires n >= 3
  {
    if n <= 0x12 then [n - 3] else [0] + Extension(n - 18)
  }

  lemma {:induction false} ExtensionReads(input: seq<byte>, pos: nat, remainder: nat, total: nat)
    requires remainder > 0 && pos + |Extension(remainder)| <= |input|
    requires input[pos..pos + |Extension(remainder)|] == Extension(remainder)
    ensures RunTotal(input, pos, total) == Ok((total + remainder, pos + |Extension(remainder)|))
    decreases remainder
  {
    var e := Extension(remainder);
    assert input[pos] == input[pos..pos + |e|][0] == e[0];
    if remainder > 0xFF {
      assert input[pos + 1..pos + |e|] == input[pos..pos + |e|][1..] == Extension(remainder - 0xFF);
      ExtensionReads(input, pos + 1, remainder - 0xFF, total + 0xFF);
    }
  }

  /** A zero for every whole 255 before the last byte, which is never zero: the length of the
      prefix in closed form. */
  lemma {:induction false} ExtensionLength(remainder: nat)
    requires remainder > 0
    ensures |Extension(remainder)| == 1 + (remainder - 1) / 0xFF
    ensures Extension(remainder)[|Extension(remainder)| - 1] == 1 + (remainder - 1) % 0xFF
    ensures forall i :: 0 <= i < |Extension(remainder)| - 1 ==> Extension(remainder)[i] == 0
  {
    if remainder > 0xFF {
      ExtensionLength(remainder - 0xFF);
    }
  }

  /** From four on the prefix reads back as the length, up to the first literal. Three is
      written as the byte that opens an extension. */
  lemma PrefixReads(input: seq<byte>, pos: nat, n: nat)
    requires n >= 4 && pos + |LengthPrefix(n)| <= |input| && input[pos..pos + |LengthPrefix(n)|] == LengthPrefix(n)
    ensures LiteralLength(input, pos) == Ok((Some(n), pos + |LengthPrefix(n)|))
  {
    var prefix := LengthPrefix(n);
    assert input[pos] == input[pos..pos + |prefix|][0] == prefix[0];
    if n > 0x12 {
      assert input[pos + 1..pos + |prefix|] == input[pos..pos + |prefix|][1..] == prefix[1..] == Extension(n - 18);
      ExtensionReads(input, pos + 1, n - 18, 0x0F);
    }
  }

  lemma PrefixLength(n: nat)
    requires n >= 3
    ensures |LengthPrefix(n)| == if n <= 18 then 1 else 2 + (n - 19) / 0xFF
    ensures n > 18 ==> 1 <= LengthPrefix(n)[|LengthPrefix(n)| - 1] == 1 + (n - 19) % 0xFF <= 0xFF
  {
    if n > 18 {
      ExtensionLength(n - 18);
    }
  }

  function LiteralStream(literals: seq<byte>): seq<byte>
    requires |literals| >= 3
  {
    LengthPrefix(|literals|) + (literals + [TERMINATOR])
  }

  /** A literal stream decompresses to its literals and stops at the terminator. */
  lemma LiteralsDecompress(literals: seq<byte>, limits: Limits)
    requires |literals| >= 4
    ensures Decompressed(LiteralStream(literals), limits)
            == if |literals| <= limits.maxOutput then Ok(literals) else Err(OutputLimit)
  {
    hide LengthPrefix, LiteralLength;
    var stream, n, at := LiteralStream(literals), |literals|, |LengthPrefix(|literals|)|;
    assert stream[0..0 + at] == LengthPrefix(n);
    PrefixReads(stream, 0, n);
    assert stream[at..at + n] == literals;
    assert [] + literals == literals;
    assert stream[at + n] == TERMINATOR;
  }

  // ---- the encoder of the library ------------------------------------------------------------

  function Compressed(input: seq<byte>): LzResult<seq<byte>> {
    if input == [] then Ok([TERMINATOR])
    else if |input| <= 3 then Err(UnencodableLength(|input|))
    else Ok(LiteralStream(input))
  }

  method Compress(input: seq<byte>) returns (r: LzResult<seq<byte>>)
    ensures r == Compressed(input)
  {
    var n := |input|;
    if n == 0 {
      return Ok([TERMINATOR]);
    }
    if 1 <= n <= 3 {
      return Err(UnencodableLength(n));
    }
    var out: seq<byte>;
    if n <= 18 {
      out := [n - 3];
    } else {
      out := [0];
      var remaining := n - 18;
      while remaining > 0xFF
        invariant remaining > 0 && out + Extension(remaining) == LengthPrefix(n)
      {
        Assoc(out, [0], Extension(remaining - 0xFF));
        out := out + [0];
        remaining := remaining - 0xFF;
      }
      out := out + [remaining];
    }
    Assoc(out, input, [TERMINATOR]);
    out := out + input;
    out := out + [TERMINATOR];
    r := Ok(out);
  }

  /** Decompressing undoes compressing for every input that can be compressed and is within
      the output limit, and only the lengths one to three cannot be. */
  lemma DecompressUndoesCompress(input: seq<byte>, limits: Limits)
    ensures Compressed(input).Err? <==> 1 <= |input| <= 3
    ensures Compressed(input).Ok? ==>
              (Decompressed(Compressed(input).value, limits) == Ok(input) <==> |input| <= limits.maxOutput)
  {
    hide LiteralStream;
    if |input| >= 4 {
      LiteralsDecompress(input, limits);
    }
  }

  // ---- the encoder of the benchmark -----------------------------------------------------------

  function Counting(n: nat): seq<byte> {
    seq(n, i requires 0 <= i < n => i % 0x100)
  }

  method WritePrefix(n: nat) returns (s: seq<byte>)
    requires n >= 3
    ensures s == LengthPrefix(n)
  {
    if 3 <= n <= 0x12 {
      return [n - 3];
    }
    var remainder := n - 3;
    var running := 0x0F;
    s := [0];
    while running + 0xFF < remainder
      invariant 0x0F <= running < remainder && s + Extension(remainder - running) == LengthPrefix(n)
    {
      Assoc(s, [0], Extension(remainder - running - 0xFF));
      s := s + [0];
      running := running + 0xFF;
    }
    var terminating := remainder - running;
    s := s + [terminating];
  }

  /** The benchmark asks for at least three literals. */
  method BuildLiteralStream(n: nat) returns (s: seq<byte>)
    requires n >= 3
    ensures s == LiteralStream(Counting(n))
  {
    hide LengthPrefix;
    s := WritePrefix(n);
    ghost var prefix := s;
    for i := 0 to n
      invariant s == prefix + Counting(n)[..i]
    {
      s := s + [i % 0x100];
    }
    assert Counting(n)[..n] == Counting(n);
    Assoc(prefix, Counting(n), [TERMINATOR]);
    s := s + [TERMINATOR];
  }

  /** The benchmark's stream decompresses to what it holds exactly from four literals on:
      the prefix of three is read as an extension that runs past the end. */
  lemma BenchmarkStreamDecompresses(n: nat, limits: Limits)
    requires 3 <= n <= limits.maxOutput && limits.maxOutput >= 274
    ensures Decompressed(LiteralStream(Counting(n)), limits) == Ok(Counting(n)) <==> n >= 4
    ensures n == 3 ==> Decompressed(LiteralStream(Counting(n)), limits) == Err(StreamTruncated)
  {
    if n >= 4 {
      hide LiteralStream, Decompressed;
      LiteralsDecompress(Counting(n), limits);
    } else {
      var stream := LiteralStream(Counting(3));
      assert stream == [0, 0, 1, 2, 0x11];
      assert RunTotal(stream, 2, 0x10E) == Ok((0x10F, 3));
      assert RunTotal(stream, 1, 0x0F) == RunTotal(stream, 2, 0x10E);
      assert LiteralLength(stream, 0) == Ok((Some(0x112), 3));
    }
  }
}
