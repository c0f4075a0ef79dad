/** The streams of the LZ77 dialect, written down: every opcode class with all it can state, and
    literals between. The decompressor accepts exactly these streams and gives what they
    expand to. */
module Lz77Streams {
  import opened Bits
  import opened Lz77
  import opened Results

  /** The part stands in the input at `pos`. */
  predicate Stands(input: seq<byte>, pos: nat, part: seq<byte>) {
    pos + |part| <= |input| && input[pos..pos + |part|] == part
  }

  lemma StandsSplit(input: seq<byte>, pos: nat, a: seq<byte>, b: seq<byte>)
    ensures Stands(input, pos, a + b) <==> Stands(input, pos, a) && Stands(input, pos + |a|, b)
  {
    var whole := input[..];
    if pos + |a| + |b| <= |input| {
      assert input[pos..pos + |a + b|] == input[pos..pos + |a|] + input[pos + |a|..pos + |a| + |b|];
      assert (a + b)[..|a|] == a && (a + b)[|a|..] == b;
      if input[pos..pos + |a + b|] == a + b {
        assert input[pos..pos + |a|] == input[pos..pos + |a + b|][..|a|];
        assert input[pos + |a|..pos + |a| + |b|] == input[pos..pos + |a + b|][|a|..];
      }
    }
  }

  lemma StandsByte(input: seq<byte>, pos: nat, b: byte)
    ensures Stands(input, pos, [b]) <==> pos < |input| && input[pos] == b
  {
    if pos < |input| {
      assert input[pos..pos + 1] == [input[pos]];
    }
  }

  // ---- the opcode classes --------------------------------------------------------------

  datatype Class = FarRun | Far | NearRun | Near | Short

  /** What a class can state. */
  predicate CanState(c: Class, b: Backref) {
    && b.literals < 4
    && match c
       case FarRun => b.count >= 10 && 0x4000 <= b.offset < 0x8000
       case Far => (4 <= b.count < 10 && 0x4000 <= b.offset < 0x8000) || (b.count >= 3 && 0x8000 <= b.offset < 0xC000)
       case NearRun => b.count >= 0x22 && 1 <= b.offset <= 0x4000
       case Near => 3 <= b.count <= 0x21 && 1 <= b.offset <= 0x4000
       case Short => 3 <= b.count <= 14 && 1 <= b.offset <= 0x400
  }

  /** A count in one byte, or from 256 on an extension. */
  function CountBytes(n: nat): seq<byte>
    requires n > 0
  {
    if n < 0x100 then [n] else [0] + Extension(n - 0xFF)
  }

  /** Fourteen bits of offset above two of literal count, the low byte first. */
  function OffsetBytes(offset: nat, literals: nat): seq<byte>
    requires offset < 0x4000 && literals < 4
  {
    var word := 4 * offset + literals;
    [word % 0x100, word / 0x100]
  }

  function BackrefBytes(c: Class, b: Backref): (r: seq<byte>)
    requires CanState(c, b)
    ensures r != [] && r[0] >= 0x10 && r[0] != TERMINATOR
  {
    match c
    case FarRun => [0x10] + CountBytes(b.count - 9) + OffsetBytes(b.offset - 0x4000, b.literals)
    case Far =>
      var high, low := if b.offset < 0x8000 then 0x10 else 0x18, (b.offset - 0x4000) % 0x4000;
      (if b.count < 10 then [high + b.count - 2] else [high] + Extension(b.count - 9)) + OffsetBytes(low, b.literals)
    case NearRun => [0x20] + CountBytes(b.count - 0x21) + OffsetBytes(b.offset - 1, b.literals)
    case Near => [0x20 + b.count - 2] + OffsetBytes(b.offset - 1, b.literals)
    case Short => [0x10 * (b.count + 1) + 4 * ((b.offset - 1) % 4) + b.literals, (b.offset - 1) / 4]
  }

  // ---- one class after the other ----------------------------------------------------------

  lemma {:induction false} RunTotalIs(input: seq<byte>, pos: nat, total: nat)
    requires RunTotal(input, pos, total).Ok?
    ensures var (n, q) := RunTotal(input, pos, total).value;
            n > total && q == pos + |Extension(n - total)| && Stands(input, pos, Extension(n - total))
    decreases |input| - pos
  {
    var (n, q) := RunTotal(input, pos, total).value;
    if input[pos] == 0 {
      RunTotalIs(input, pos + 1, total + 0xFF);
      assert Extension(n - total) == [0] + Extension(n - total - 0xFF);
      StandsByte(input, pos, 0);
      StandsSplit(input, pos, [0], Extension(n - total - 0xFF));
    } else {
      StandsByte(input, pos, input[pos]);
      assert Extension(n - total) == [input[pos]];
    }
  }

  /** A run is read exactly where its extension stands. */
  lemma RunReads(input: seq<byte>, pos: nat, total: nat, n: nat, q: nat)
    ensures RunTotal(input, pos, total) == Ok((total + n, q)) <==>
              n > 0 && Stands(input, pos, Extension(n)) && q == pos + |Extension(n)|
  {
    hide RunTotal, Extension;
    if RunTotal(input, pos, total).Ok? {
      RunTotalIs(input, pos, total);
    }
    if n > 0 && Stands(input, pos, Extension(n)) {
      ExtensionReads(input, pos, n, total);
    }
  }

  lemma CountReads(input: seq<byte>, pos: nat, n: nat, q: nat)
    ensures LongCount(input, pos) == Ok((n, q)) <==> n > 0 && Stands(input, pos, CountBytes(n)) && q == pos + |CountBytes(n)|
  {
    hide RunTotal, Extension, Stands;
    if n >= 0x100 {
      RunReads(input, pos + 1, 0xFF, n - 0xFF, q);
      StandsSplit(input, pos, [0], Extension(n - 0xFF));
      StandsByte(input, pos, 0);
    } else if n > 0 {
      StandsByte(input, pos, n);
      NoShortRun(input, pos + 1, n, q);
    } else {
      NoShortRun(input, pos + 1, n, q);
    }
  }

  lemma NoShortRun(input: seq<byte>, pos: nat, n: nat, q: nat)
    requires n <= 0xFF
    ensures RunTotal(input, pos, 0xFF) != Ok((n, q))
  {
    hide RunTotal;
  }

  lemma OffsetReads(input: seq<byte>, pos: nat, offset: nat, literals: nat, q: nat)
    ensures TwoByteOffset(input, pos) == Ok((offset, literals, q)) <==>
              offset < 0x4000 && literals < 4 && Stands(input, pos, OffsetBytes(offset, literals)) && q == pos + 2
  {
    if offset < 0x4000 && literals < 4 {
      var word := 4 * offset + literals;
      var a, b := word % 0x100, word / 0x100;
      assert OffsetBytes(offset, literals) == [a] + [b];
      StandsSplit(input, pos, [a], [b]);
      StandsByte(input, pos, a);
      StandsByte(input, pos + 1, b);
    }
  }

  function ClassOf(op: byte): Class {
    if op == 0x10 then FarRun else if op < 0x20 then Far else if op == 0x20 then NearRun else if op < 0x40 then Near else Short
  }

  lemma ClassIsInOpcode(c: Class, b: Backref)
    requires CanState(c, b)
    ensures ClassOf(BackrefBytes(c, b)[0]) == c
  {
  }

  /** What is read, with the class fixed: the reference written there, and the place after it. */
  predicate Written(input: seq<byte>, pos: nat, c: Class, b: Backref, q: nat) {
    CanState(c, b) && Stands(input, pos, BackrefBytes(c, b)) && q == pos + |BackrefBytes(c, b)|
  }

  lemma ThreeStand(input: seq<byte>, pos: nat, a: byte, b: seq<byte>, c: seq<byte>)
    ensures Stands(input, pos, [a] + b + c) <==>
              pos < |input| && input[pos] == a && Stands(input, pos + 1, b) && Stands(input, pos + 1 + |b|, c)
  {
    hide Stands;
    StandsSplit(input, pos, [a] + b, c);
    StandsSplit(input, pos, [a], b);
    StandsByte(input, pos, a);
  }

  lemma FarRunReads(input: seq<byte>, pos: nat, b: Backref, q: nat)
    requires pos < |input| && input[pos] == 0x10
    ensures ReadBackref(0x10, input, pos + 1) == Ok((b, q)) <==> Written(input, pos, FarRun, b, q)
  {
    hide Stands, CountBytes, OffsetBytes, LongCount, TwoByteOffset;
    var r := ReadBackref(0x10, input, pos + 1);
    if r.Ok? {
      var (n, p) := LongCount(input, pos + 1).value;
      var (o, l, e) := TwoByteOffset(input, p).value;
      CountReads(input, pos + 1, n, p);
      OffsetReads(input, p, o, l, e);
      ThreeStand(input, pos, 0x10, CountBytes(n), OffsetBytes(o, l));
    }
    if CanState(FarRun, b) {
      var n, o := b.count - 9, b.offset - 0x4000;
      CountReads(input, pos + 1, n, pos + 1 + |CountBytes(n)|);
      OffsetReads(input, pos + 1 + |CountBytes(n)|, o, b.literals, q);
      OffsetLength(o, b.literals);
      ThreeStand(input, pos, 0x10, CountBytes(n), OffsetBytes(o, b.literals));
    }
  }

  lemma OffsetLength(offset: nat, literals: nat)
    requires offset < 0x4000 && literals < 4
    ensures |OffsetBytes(offset, literals)| == 2
  {
  }

  lemma NearRunReads(input: seq<byte>, pos: nat, b: Backref, q: nat)
    requires pos < |input| && input[pos] == 0x20
    ensures ReadBackref(0x20, input, pos + 1) == Ok((b, q)) <==> Written(input, pos, NearRun, b, q)
  {
    hide Stands, CountBytes, OffsetBytes, LongCount, TwoByteOffset;
    var r := ReadBackref(0x20, input, pos + 1);
    if r.Ok? {
      var (n, p) := LongCount(input, pos + 1).value;
      var (o, l, e) := TwoByteOffset(input, p).value;
      CountReads(input, pos + 1, n, p);
      OffsetReads(input, p, o, l, e);
      ThreeStand(input, pos, 0x20, CountBytes(n), OffsetBytes(o, l));
    }
    if CanState(NearRun, b) {
      var n, o := b.count - 0x21, b.offset - 1;
      CountReads(input, pos + 1, n, pos + 1 + |CountBytes(n)|);
      OffsetReads(input, pos + 1 + |CountBytes(n)|, o, b.literals, q);
      OffsetLength(o, b.literals);
      ThreeStand(input, pos, 0x20, CountBytes(n), OffsetBytes(o, b.literals));
    }
  }

  lemma OneThenOffset(input: seq<byte>, pos: nat, op: byte, offset: nat, literals: nat)
    requires offset < 0x4000 && literals < 4
    ensures Stands(input, pos, [op] + OffsetBytes(offset, literals)) <==>
              pos < |input| && input[pos] == op && Stands(input, pos + 1, OffsetBytes(offset, literals))
    ensures |[op] + OffsetBytes(offset, literals)| == 3
  {
    hide Stands;
    StandsSplit(input, pos, [op], OffsetBytes(offset, literals));
    StandsByte(input, pos, op);
  }

  lemma NearReads(input: seq<byte>, pos: nat, b: Backref, q: nat)
    requires pos < |input| && 0x20 < input[pos] < 0x40
    ensures ReadBackref(input[pos], input, pos + 1) == Ok((b, q)) <==> Written(input, pos, Near, b, q)
  {
    hide Stands, OffsetBytes, TwoByteOffset;
    var op := input[pos];
    var r := ReadBackref(op, input, pos + 1);
    if r.Ok? {
      var (o, l, e) := TwoByteOffset(input, pos + 1).value;
      OffsetReads(input, pos + 1, o, l, e);
      OneThenOffset(input, pos, op, o, l);
    }
    if CanState(Near, b) {
      OffsetReads(input, pos + 1, b.offset - 1, b.literals, q);
      OneThenOffset(input, pos, 0x20 + b.count - 2, b.offset - 1, b.literals);
    }
  }

  lemma FarOpcode(op: byte)
    requires 0x11 < op < 0x20
    ensures op == 0x10 + 8 * (op / 8 % 2) + op % 8 && op / 8 % 2 < 2 && (op % 8 == 0 <==> op == 0x18)
    ensures op / 8 % 2 == 0 ==> op % 8 >= 2
  {
  }

  lemma FarIsWritten(input: seq<byte>, pos: nat, b: Backref, q: nat)
    requires pos < |input| && 0x11 < input[pos] < 0x20 && ReadBackref(input[pos], input, pos + 1) == Ok((b, q))
    ensures Written(input, pos, Far, b, q)
  {
    hide Stands, OffsetBytes, TwoByteOffset, RunTotal, Extension;
    var op := input[pos];
    FarOpcode(op);
    var (n, p) := CountInOpcode(op, 0x07, input, pos + 1).value;
    var (o, l, e) := TwoByteOffset(input, p).value;
    OffsetReads(input, p, o, l, e);
    assert (b.offset - 0x4000) % 0x4000 == o;
    OffsetLength(o, l);
    if op == 0x18 {
      RunReads(input, pos + 1, 0, n - 9, p);
      ThreeStand(input, pos, 0x18, Extension(n - 9), OffsetBytes(o, l));
    } else {
      OneThenOffset(input, pos, op, o, l);
    }
  }

  lemma WrittenIsFar(input: seq<byte>, pos: nat, b: Backref, q: nat)
    requires pos < |input| && 0x11 < input[pos] < 0x20 && Written(input, pos, Far, b, q)
    ensures ReadBackref(input[pos], input, pos + 1) == Ok((b, q))
  {
    hide Stands, OffsetBytes, TwoByteOffset, CountInOpcode, ReadBackref, Extension;
    var low := (b.offset - 0x4000) % 0x4000;
    FarCountReads(input, pos, b);
    var p := pos + 1 + if b.count < 10 then 0 else |Extension(b.count - 9)|;
    OffsetReads(input, p, low, b.literals, p + 2);
    OffsetLength(low, b.literals);
    FarOffset(input[pos], b);
    FarUnfolds(input[pos], input, pos + 1, b.count, p, low, b.literals, p + 2);
    FarLength(b);
  }

  lemma FarUnfolds(op: byte, input: seq<byte>, pos: nat, count: nat, p: nat, offset: nat, literals: nat, q: nat)
    requires 0x11 < op < 0x20 && pos <= |input|
    requires CountInOpcode(op, 0x07, input, pos) == Ok((count, p)) && TwoByteOffset(input, p) == Ok((offset, literals, q))
    ensures ReadBackref(op, input, pos) == Ok((Backref(count, op / 8 % 2 * 0x4000 + offset + 0x4000, literals), q))
  {
    hide CountInOpcode, TwoByteOffset;
  }

  lemma FarLength(b: Backref)
    requires CanState(Far, b)
    ensures |BackrefBytes(Far, b)| == 3 + if b.count < 10 then 0 else |Extension(b.count - 9)|
  {
    hide Extension;
    OffsetLength((b.offset - 0x4000) % 0x4000, b.literals);
  }

  /** The count of a far reference, and where its offset stands. */
  lemma FarCountReads(input: seq<byte>, pos: nat, b: Backref)
    requires pos < |input| && 0x11 < input[pos] < 0x20 && CanState(Far, b) && Stands(input, pos, BackrefBytes(Far, b))
    ensures var p := pos + 1 + if b.count < 10 then 0 else |Extension(b.count - 9)|;
            && CountInOpcode(input[pos], 0x07, input, pos + 1) == Ok((b.count, p))
            && Stands(input, p, OffsetBytes((b.offset - 0x4000) % 0x4000, b.literals))
    ensures input[pos] == (if b.offset < 0x8000 then 0x10 else 0x18) + if b.count < 10 then b.count - 2 else 0
  {
    hide Stands, OffsetBytes, RunTotal, Extension;
    var high, low := if b.offset < 0x8000 then 0x10 else 0x18, (b.offset - 0x4000) % 0x4000;
    if b.count < 10 {
      OneThenOffset(input, pos, high + b.count - 2, low, b.literals);
    } else {
      var run := Extension(b.count - 9);
      ThreeStand(input, pos, high, run, OffsetBytes(low, b.literals));
      RunReads(input, pos + 1, 0, b.count - 9, pos + 1 + |run|);
    }
  }

  lemma FarOffset(op: byte, b: Backref)
    requires CanState(Far, b) && op == (if b.offset < 0x8000 then 0x10 else 0x18) + if b.count < 10 then b.count - 2 else 0
    ensures op / 8 % 2 * 0x4000 + (b.offset - 0x4000) % 0x4000 + 0x4000 == b.offset
  {
  }

  lemma TwoStand(input: seq<byte>, pos: nat, a: byte, b: byte)
    ensures Stands(input, pos, [a, b]) <==> pos + 1 < |input| && input[pos] == a && input[pos + 1] == b
  {
    hide Stands;
    assert [a, b] == [a] + [b];
    StandsSplit(input, pos, [a], [b]);
    StandsByte(input, pos, a);
    StandsByte(input, pos + 1, b);
  }

  lemma ShortReads(input: seq<byte>, pos: nat, b: Backref, q: nat)
    requires pos < |input| && 0x40 <= input[pos]
    ensures ReadBackref(input[pos], input, pos + 1) == Ok((b, q)) <==> Written(input, pos, Short, b, q)
  {
    hide Stands;
    if pos + 1 < |input| {
      ShortOpcode(input[pos], input[pos + 1]);
    }
    if CanState(Short, b) {
      var op, next := 0x10 * (b.count + 1) + 4 * ((b.offset - 1) % 4) + b.literals, (b.offset - 1) / 4;
      TwoStand(input, pos, op, next);
      ShortDigits(b.count + 1, (b.offset - 1) % 4, b.literals);
    }
  }

  lemma ShortDigits(high: nat, middle: nat, low: nat)
    requires high < 16 && middle < 4 && low < 4
    ensures var op := 0x10 * high + 4 * middle + low; op / 16 == high && op / 4 % 4 == middle && op % 4 == low
  {
  }

  lemma ShortOpcode(op: byte, op2: byte)
    requires op >= 0x40
    ensures op == 0x10 * (op / 16) + 4 * (op / 4 % 4) + op % 4 && op / 4 % 4 < 4
    ensures (4 * op2 + op / 4 % 4) / 4 == op2 && (4 * op2 + op / 4 % 4) % 4 == op / 4 % 4
  {
  }

  /** A reference is read exactly where the bytes of one class that state it stand. */
  lemma BackrefReadsExactly(input: seq<byte>, pos: nat, b: Backref, q: nat)
    requires pos < |input| && input[pos] >= 0x10 && input[pos] != TERMINATOR
    ensures ReadBackref(input[pos], input, pos + 1) == Ok((b, q)) <==> exists c: Class :: Written(input, pos, c, b, q)
  {
    hide ReadBackref, BackrefBytes, CanState;
    forall c: Class | Written(input, pos, c, b, q)
      ensures c == ClassOf(input[pos])
    {
      ClassIsInOpcode(c, b);
      var part := BackrefBytes(c, b);
      assert input[pos] == input[pos..pos + |part|][0];
    }
    match ClassOf(input[pos])
    case FarRun => FarRunReads(input, pos, b, q);
    case Far =>
      if Written(input, pos, Far, b, q) {
        WrittenIsFar(input, pos, b, q);
      }
      if ReadBackref(input[pos], input, pos + 1) == Ok((b, q)) {
        FarIsWritten(input, pos, b, q);
      }
    case NearRun => NearRunReads(input, pos, b, q);
    case Near => NearReads(input, pos, b, q);
    case Short => ShortReads(input, pos, b, q);
  }

  // ---- streams ---------------------------------------------------------------------------

  /** A reference in one of the forms, and the literals after it. */
  datatype Token = Token(form: Class, count: nat, offset: nat, literals: seq<byte>) {
    /** Up to three literals are counted in the reference's own bits. */
    function Ref(): Backref {
      Backref(count, offset, if |literals| < 4 then |literals| else 0)
    }

    predicate Valid() {
      CanState(form, Ref())
    }
  }

  predicate AllValid(tokens: seq<Token>) {
    forall i :: 0 <= i < |tokens| ==> tokens[i].Valid()
  }

  function LongPrefix(literals: seq<byte>): seq<byte> {
    if |literals| < 4 then [] else LengthPrefix(|literals|)
  }

  function TokensBytes(tokens: seq<Token>): (r: seq<byte>)
    requires AllValid(tokens)
    ensures r != [] && r[0] >= 0x10
  {
    if tokens == [] then [TERMINATOR]
    else
      var t := tokens[0];
      BackrefBytes(t.form, t.Ref()) + (LongPrefix(t.literals) + (t.literals + TokensBytes(tokens[1..])))
  }

  /** A stream opens with no literals or with four and more: fewer have no prefix. */
  function StreamBytes(first: seq<byte>, tokens: seq<Token>): seq<byte>
    requires AllValid(tokens) && (first == [] || |first| >= 4)
  {
    LongPrefix(first) + (first + TokensBytes(tokens))
  }

  /** The tokens account for the output from `p` on: what a reference copies is equal, byte for
      byte, to what stands `offset` before it, and then come its literals. */
  ghost predicate Expands(out: seq<byte>, p: nat, tokens: seq<Token>)
    decreases |tokens|
  {
    if tokens == [] then p == |out|
    else
      var t := tokens[0];
      var end := p + t.count + |t.literals|;
      && 0 < t.offset <= p && end <= |out|
      && (forall k :: p <= k < p + t.count ==> out[k] == out[k - t.offset])
      && out[p + t.count..end] == t.literals
      && Expands(out, end, tokens[1..])
  }

  predicate WithinBackrefs(tokens: seq<Token>, limits: Limits) {
    forall i :: 0 <= i < |tokens| ==> tokens[i].count <= limits.maxBackref
  }

  // ---- literals ----------------------------------------------------------------------------

  lemma LengthReads(input: seq<byte>, pos: nat, n: nat, q: nat)
    ensures LiteralLength(input, pos) == Ok((Some(n), q)) <==>
              n >= 4 && Stands(input, pos, LengthPrefix(n)) && q == pos + |LengthPrefix(n)|
    ensures LiteralLength(input, pos) == Ok((None, q)) <==> pos < |input| && input[pos] >= 0x10 && q == pos
  {
    hide RunTotal, Extension, Stands;
    if n >= 4 {
      if n > 0x12 {
        StandsSplit(input, pos, [0], Extension(n - 18));
        StandsByte(input, pos, 0);
        RunReads(input, pos + 1, 0x0F, n - 18, q);
      } else {
        StandsByte(input, pos, n - 3);
        NoRunTo(input, pos + 1, n - 3, q);
      }
    } else if n >= 3 {
      NoRunTo(input, pos + 1, n - 3, q);
    }
  }

  lemma NoRunTo(input: seq<byte>, pos: nat, n: nat, q: nat)
    requires n <= 0x0F
    ensures RunTotal(input, pos, 0x0F) != Ok((n, q))
  {
    hide RunTotal;
  }

  /** How many literals follow a reference with the bits `bits`, and where they begin. */
  lemma LiteralCountReads(input: seq<byte>, pos: nat, bits: nat, n: nat, q: nat)
    requires pos <= |input| && bits < 4
    ensures bits != 0 ==> (LiteralCount(input, pos, bits) == Ok((n, q)) <==> n == bits && q == pos)
    ensures bits == 0 ==> (LiteralCount(input, pos, bits) == Ok((n, q)) <==>
                             || (n >= 4 && Stands(input, pos, LengthPrefix(n)) && q == pos + |LengthPrefix(n)|)
                             || (n == 0 && pos < |input| && input[pos] >= 0x10 && q == pos))
  {
    hide LiteralLength, Stands, LengthPrefix;
    LengthReads(input, pos, n, q);
    if LiteralLength(input, pos).Ok? {
      var (m, e) := LiteralLength(input, pos).value;
      if m.Some? {
        LengthReads(input, pos, m.value, e);
      }
    }
  }

  // ---- copies --------------------------------------------------------------------------------

  /** The output goes on with a copy exactly when it repeats what stands `offset` before. */
  lemma {:induction false} CopiedExactly(out: seq<byte>, offset: nat, n: nat, final: seq<byte>)
    requires 0 < offset <= |out| && |out| + n <= |final| && out <= final
    ensures Copied(out, |out| - offset, n) <= final <==>
              forall k :: |out| <= k < |out| + n ==> final[k] == final[k - offset]
    decreases n
  {
    if n > 0 {
      var more := out + [out[|out| - offset]];
      assert final[|out| - offset] == out[|out| - offset];
      if final[|out|] == out[|out| - offset] {
        assert more <= final;
        CopiedExactly(more, offset, n - 1, final);
      } else {
        var copied := Copied(more, |out| - offset + 1, n - 1);
        assert more <= copied;
        assert copied[|out|] == more[|out|];
      }
    }
  }

  // ---- the decompressor on streams ------------------------------------------------------------

  lemma TokenStands(input: seq<byte>, pos: nat, tokens: seq<Token>)
    requires tokens != [] && AllValid(tokens) && Stands(input, pos, TokensBytes(tokens))
    ensures var t := tokens[0];
            var q := pos + |BackrefBytes(t.form, t.Ref())|;
            var s := q + |LongPrefix(t.literals)|;
            && Written(input, pos, t.form, t.Ref(), q) && Stands(input, q, LongPrefix(t.literals))
            && Stands(input, s, t.literals) && Stands(input, s + |t.literals|, TokensBytes(tokens[1..]))
            && s + |t.literals| == pos + |TokensBytes(tokens)| - |TokensBytes(tokens[1..])|
            && pos < |input| && input[pos] == BackrefBytes(t.form, t.Ref())[0]
            && s + |t.literals| < |input| && input[s + |t.literals|] >= 0x10
  {
    hide BackrefBytes, LongPrefix, CanState, Stands;
    var t, rest := tokens[0], TokensBytes(tokens[1..]);
    var first := BackrefBytes(t.form, t.Ref());
    var s := pos + |first| + |LongPrefix(t.literals)|;
    StandsSplit(input, pos, first, LongPrefix(t.literals) + (t.literals + rest));
    StandsSplit(input, pos + |first|, LongPrefix(t.literals), t.literals + rest);
    StandsSplit(input, s, t.literals, rest);
    StandsFirst(input, pos, first);
    StandsFirst(input, s + |t.literals|, rest);
  }

  lemma StandsFirst(input: seq<byte>, pos: nat, part: seq<byte>)
    requires part != [] && Stands(input, pos, part)
    ensures pos < |input| && input[pos] == part[0]
  {
    assert input[pos] == input[pos..pos + |part|][0];
  }

  /** Why a token is refused: the length of its copy before all, then the output it would make,
      then its reach. */
  function Refusal(t: Token, p: nat, limits: Limits): LzError {
    if t.count > limits.maxBackref then BackrefTooLong
    else if p + t.count > limits.maxOutput then OutputLimit
    else if t.offset > p then InvalidOffset
    else OutputLimit
  }

  lemma TokenStep(input: seq<byte>, pos: nat, tokens: seq<Token>, out: seq<byte>, limits: Limits)
    requires tokens != [] && AllValid(tokens) && Stands(input, pos, TokensBytes(tokens)) && |out| <= limits.maxOutput
    ensures var t := tokens[0];
            var e := pos + |TokensBytes(tokens)| - |TokensBytes(tokens[1..])|;
            && 0 <= e <= |input| && Stands(input, e, TokensBytes(tokens[1..]))
            && if t.offset <= |out| && t.count <= limits.maxBackref && |out| + t.count + |t.literals| <= limits.maxOutput
               then Opcodes(input, pos, out, limits) == Opcodes(input, e, Copied(out, |out| - t.offset, t.count) + t.literals, limits)
               else Opcodes(input, pos, out, limits) == Err(Refusal(t, |out|, limits))
  {
    hide BackrefBytes, CanState, ReadBackref, LiteralCount, Written, TokensBytes, Stands, Copied, LongPrefix;
    var t := tokens[0];
    TokenStands(input, pos, tokens);
    var q := pos + |BackrefBytes(t.form, t.Ref())|;
    var s := q + |LongPrefix(t.literals)|;
    BackrefReadsExactly(input, pos, t.Ref(), q);
    OffsetIsPositive(t);
    LiteralsFollow(input, q, t);
    StandsAt(input, s, t.literals);
    assert ReadBackref(input[pos], input, pos + 1) == Ok((t.Ref(), q));
    assert LiteralCount(input, q, t.Ref().literals) == Ok((|t.literals|, s));
  }

  lemma StandsAt(input: seq<byte>, pos: nat, part: seq<byte>)
    requires Stands(input, pos, part)
    ensures pos + |part| <= |input| && input[pos..pos + |part|] == part
  {
  }

  lemma LiteralsFollow(input: seq<byte>, q: nat, t: Token)
    requires Stands(input, q, LongPrefix(t.literals))
    requires var e := q + |LongPrefix(t.literals)| + |t.literals|; e < |input| && input[e] >= 0x10
    ensures LiteralCount(input, q, t.Ref().literals) == Ok((|t.literals|, q + |LongPrefix(t.literals)|))
  {
    hide Stands, LengthPrefix, LiteralCount;
    LiteralCountReads(input, q, t.Ref().literals, |t.literals|, q + |LongPrefix(t.literals)|);
  }

  lemma OffsetIsPositive(t: Token)
    requires t.Valid()
    ensures t.offset > 0
  {
  }

  /** From a place where tokens stand the decompressor ends with just the outputs that the
      tokens expand to, as far as the limits allow. */
  lemma {:induction false} TokensDecompress(
    input: seq<byte>, pos: nat, tokens: seq<Token>, out: seq<byte>, final: seq<byte>, limits: Limits)
    requires AllValid(tokens) && Stands(input, pos, TokensBytes(tokens)) && |out| <= limits.maxOutput
    ensures Opcodes(input, pos, out, limits) == Ok(final) <==>
              out <= final && Expands(final, |out|, tokens) && WithinBackrefs(tokens, limits) && |final| <= limits.maxOutput
    decreases |tokens|
  {
    hide TokensBytes, Opcodes, Stands, Copied, Expands;
    if tokens == [] {
      TerminatorEnds(input, pos, tokens, out, limits);
      NoneExpands(tokens, out, final);
    } else {
      var t := tokens[0];
      var e := pos + |TokensBytes(tokens)| - |TokensBytes(tokens[1..])|;
      TokenStep(input, pos, tokens, out, limits);
      OffsetIsPositive(t);
      assert forall i :: 0 < i < |tokens| ==> tokens[i] == tokens[1..][i - 1];
      if t.offset <= |out| && t.count <= limits.maxBackref && |out| + t.count + |t.literals| <= limits.maxOutput {
        var more := Copied(out, |out| - t.offset, t.count) + t.literals;
        TokensDecompress(input, e, tokens[1..], more, final, limits);
        GoesOn(out, t, final);
        ExpandsStep(final, |out|, tokens);
      } else if Expands(final, |out|, tokens) {
        ExpandsGrows(final, |out|, tokens);
      }
    }
  }

  lemma TerminatorEnds(input: seq<byte>, pos: nat, tokens: seq<Token>, out: seq<byte>, limits: Limits)
    requires tokens == [] && Stands(input, pos, TokensBytes(tokens))
    ensures Opcodes(input, pos, out, limits) == Ok(out)
  {
    StandsByte(input, pos, TERMINATOR);
  }

  lemma ExpandsStep(out: seq<byte>, p: nat, tokens: seq<Token>)
    requires tokens != []
    ensures var t := tokens[0];
            var end := p + t.count + |t.literals|;
            Expands(out, p, tokens) <==>
              && 0 < t.offset <= p && end <= |out|
              && (forall k :: p <= k < p + t.count ==> out[k] == out[k - t.offset])
              && out[p + t.count..end] == t.literals
              && Expands(out, end, tokens[1..])
  {
  }

  lemma NoneExpands(tokens: seq<Token>, out: seq<byte>, final: seq<byte>)
    requires tokens == []
    ensures out <= final && Expands(final, |out|, tokens) <==> out == final
  {
    assert final[..|final|] == final;
  }

  lemma GoesOn(out: seq<byte>, t: Token, final: seq<byte>)
    requires 0 < t.offset <= |out|
    ensures var more := Copied(out, |out| - t.offset, t.count) + t.literals;
            && |more| == |out| + t.count + |t.literals|
            && (more <= final <==>
                  && out <= final && |more| <= |final|
                  && (forall k :: |out| <= k < |out| + t.count ==> final[k] == final[k - t.offset])
                  && final[|out| + t.count..|more|] == t.literals)
  {
    hide Copied;
    var copied := Copied(out, |out| - t.offset, t.count);
    var more := copied + t.literals;
    if |more| <= |final| {
      if out <= final {
        CopiedExactly(out, t.offset, t.count, final);
      }
      assert final[..|more|] == final[..|copied|] + final[|copied|..|more|];
      if more <= final {
        assert final[..|more|] == more;
        assert more[..|copied|] == copied && more[|copied|..] == t.literals;
        assert final[..|copied|] == final[..|more|][..|copied|];
        assert final[|copied|..|more|] == final[..|more|][|copied|..];
        assert copied <= final;
        assert out <= copied;
        assert out <= final by {
          assert final[..|out|] == copied[..|out|];
        }
      }
    }
  }

  lemma {:induction false} ExpandsGrows(out: seq<byte>, p: nat, tokens: seq<Token>)
    requires Expands(out, p, tokens)
    ensures p <= |out|
    ensures tokens != [] ==> tokens[0].offset <= p && p + tokens[0].count + |tokens[0].literals| <= |out|
  {
  }

  // ---- every accepted input is a stream ----------------------------------------------------------

  lemma {:induction false} TokensRead(input: seq<byte>, pos: nat, out: seq<byte>, limits: Limits) returns (tokens: seq<Token>)
    requires pos <= |input| && Opcodes(input, pos, out, limits).Ok?
    ensures AllValid(tokens) && Stands(input, pos, TokensBytes(tokens))
    decreases |input| - pos
  {
    hide ReadBackref, LiteralCount, BackrefBytes, LengthPrefix, CanState, Stands;
    if input[pos] == TERMINATOR {
      tokens := [];
      StandsByte(input, pos, TERMINATOR);
    } else {
      var (b, q) := ReadBackref(input[pos], input, pos + 1).value;
      var (n, s) := LiteralCount(input, q, b.literals).value;
      var copied := ApplyBackref(out, b, limits).value;
      var (more, e) := CopyLiteral(input, s, copied, n, limits).value;
      var rest := TokensRead(input, e, more, limits);
      BackrefReadsExactly(input, pos, b, q);
      var form: Class :| Written(input, pos, form, b, q);
      LiteralsAre(form, b);
      LiteralCountReads(input, q, b.literals, n, s);
      var t := Token(form, b.count, b.offset, input[s..e]);
      assert t.Ref() == b;
      tokens := [t] + rest;
      assert tokens[1..] == rest;
      PartStands(input, s, e);
      PrefixStands(input, q, t.literals, s);
      StandsSplit(input, s, t.literals, TokensBytes(rest));
      StandsSplit(input, q, LongPrefix(t.literals), t.literals + TokensBytes(rest));
      StandsSplit(input, pos, BackrefBytes(form, b), LongPrefix(t.literals) + (t.literals + TokensBytes(rest)));
    }
  }

  lemma LiteralsAre(form: Class, b: Backref)
    requires CanState(form, b)
    ensures b.literals < 4
  {
  }

  lemma PartStands(input: seq<byte>, s: nat, e: nat)
    requires s <= e <= |input|
    ensures Stands(input, s, input[s..e]) && |input[s..e]| == e - s
  {
  }

  lemma PrefixStands(input: seq<byte>, q: nat, literals: seq<byte>, s: nat)
    requires if |literals| < 4 then s == q && q <= |input|
             else Stands(input, q, LengthPrefix(|literals|)) && s == q + |LengthPrefix(|literals|)|
    ensures Stands(input, q, LongPrefix(literals)) && s == q + |LongPrefix(literals)|
  {
  }

  /** An output comes of a stream when the stream opens with it and its tokens account for the
      rest, within the limits. */
  ghost predicate Yields(first: seq<byte>, tokens: seq<Token>, out: seq<byte>, limits: Limits) {
    && AllValid(tokens) && (first == [] || |first| >= 4)
    && first <= out && Expands(out, |first|, tokens)
    && WithinBackrefs(tokens, limits) && |out| <= limits.maxOutput
  }

  lemma StreamDecompresses(input: seq<byte>, first: seq<byte>, tokens: seq<Token>, out: seq<byte>, limits: Limits)
    requires AllValid(tokens) && (first == [] || |first| >= 4) && StreamBytes(first, tokens) <= input
    ensures Decompressed(input, limits) == Ok(out) <==> Yields(first, tokens, out, limits)
  {
    hide TokensBytes, Opcodes, Stands, LengthPrefix, LiteralLength, Expands;
    var p := |LongPrefix(first)|;
    WholeStands(input, StreamBytes(first, tokens));
    StandsSplit(input, 0, LongPrefix(first), first + TokensBytes(tokens));
    StandsSplit(input, p, first, TokensBytes(tokens));
    StandsAt(input, p, first);
    StandsAt(input, p + |first|, TokensBytes(tokens));
    assert input[p + |first|] == TokensBytes(tokens)[0];
    LengthReads(input, 0, |first|, p);
    assert [] + first == first;
    if |first| <= limits.maxOutput {
      TokensDecompress(input, p + |first|, tokens, first, out, limits);
    }
  }

  lemma WholeStands(input: seq<byte>, part: seq<byte>)
    requires part <= input
    ensures Stands(input, 0, part)
  {
  }

  lemma StreamRead(input: seq<byte>, limits: Limits) returns (first: seq<byte>, tokens: seq<Token>)
    requires Decompressed(input, limits).Ok?
    ensures AllValid(tokens) && (first == [] || |first| >= 4) && StreamBytes(first, tokens) <= input
  {
    hide TokensBytes, Opcodes, Stands, LengthPrefix, LiteralLength;
    var (n, p) := LiteralLength(input, 0).value;
    var (out, q) := CopyLiteral(input, p, [], if n.Some? then n.value else 0, limits).value;
    LengthReads(input, 0, if n.Some? then n.value else 0, p);
    first := input[p..q];
    tokens := TokensRead(input, q, out, limits);
    PartStands(input, p, q);
    PrefixStands(input, 0, first, p);
    StandsSplit(input, p, first, TokensBytes(tokens));
    StandsSplit(input, 0, LongPrefix(first), first + TokensBytes(tokens));
    StandsAt(input, 0, StreamBytes(first, tokens));
  }

  /** What decompresses, and to what: exactly the inputs that begin with a stream, to the
      output that its references and literals make. */
  lemma DecompressesExactly(input: seq<byte>, out: seq<byte>, limits: Limits)
    ensures Decompressed(input, limits) == Ok(out) <==>
              exists first: seq<byte>, tokens: seq<Token> ::
                Yields(first, tokens, out, limits) && StreamBytes(first, tokens) <= input
  {
    hide Decompressed, StreamBytes, Expands;
    if Decompressed(input, limits) == Ok(out) {
      var first, tokens := StreamRead(input, limits);
      StreamDecompresses(input, first, tokens, out, limits);
    }
    forall first: seq<byte>, tokens: seq<Token> | Yields(first, tokens, out, limits) && StreamBytes(first, tokens) <= input
      ensures Decompressed(input, limits) == Ok(out)
    {
      StreamDecompresses(input, first, tokens, out, limits);
    }
  }
}
