/** The interleaved pages of R2007, their repair in place (`verify_interleaved` of
    `src/reed_solomon.rs`) and the check that `examples/probe_r2007_rs.rs` makes of a page: byte
    `i` of codeword `j` of `blocks` stands at `blocks * i + j`. */
module ReedSolomon {
  import Bits
  import opened GaloisField
  import opened RsDecoder
  import opened ErrorWords
  import opened RsLaws
  import opened RsEncoder
  import opened Results

  // ---- the index map -------------------------------------------------------------

  function Index(blocks: nat, i: nat, j: nat): (p: nat)
    ensures p >= j
  {
    Bits.NatProduct(blocks, i);
    blocks * i + j
  }

  function Span(blocks: nat): nat {
    blocks * CODEWORD_BYTES
  }

  /** Every place in the page is one byte of one codeword. */
  lemma IndexIsOneToOne(blocks: nat, i: nat, j: nat)
    requires i < CODEWORD_BYTES && j < blocks
    ensures Index(blocks, i, j) < Span(blocks)
    ensures Index(blocks, i, j) / blocks == i && Index(blocks, i, j) % blocks == j
  {
    Bits.ModUnique(Index(blocks, i, j), blocks, i, j);
    RowInside(blocks, i, j);
  }

  lemma ProductGrows(m: nat, a: nat, b: nat)
    requires a <= b
    ensures m * a <= m * b
  {
  }

  lemma RowInside(blocks: nat, i: nat, j: nat)
    requires i < CODEWORD_BYTES && j < blocks
    ensures blocks * i + j < blocks * CODEWORD_BYTES
  {
    ProductGrows(blocks, i + 1, CODEWORD_BYTES);
  }

  lemma IndexIsOnto(blocks: nat, p: nat)
    requires p < Span(blocks)
    ensures blocks > 0 && p / blocks < CODEWORD_BYTES && p % blocks < blocks && Index(blocks, p / blocks, p % blocks) == p
  {
    QuotientBelow(p, blocks, CODEWORD_BYTES);
  }

  lemma QuotientBelow(p: nat, m: nat, n: nat)
    requires m > 0 && p < m * n
    ensures p / m < n
  {
    if p / m >= n {
      ProductGrows(m, n, p / m);
    }
  }

  function Codeword(page: Word, blocks: nat, j: nat): (cw: Word)
    requires j < blocks && Span(blocks) <= |page|
    ensures |cw| == CODEWORD_BYTES
    ensures forall i :: 0 <= i < CODEWORD_BYTES ==> Index(blocks, i, j) < |page| && cw[i] == page[Index(blocks, i, j)]
  {
    assert forall i :: 0 <= i < CODEWORD_BYTES ==> Index(blocks, i, j) < |page| by {
      forall i | 0 <= i < CODEWORD_BYTES
        ensures Index(blocks, i, j) < |page|
      {
        IndexIsOneToOne(blocks, i, j);
      }
    }
    seq(CODEWORD_BYTES, i requires 0 <= i < CODEWORD_BYTES => page[Index(blocks, i, j)])
  }

  predicate AreCodewords(codewords: seq<Word>) {
    forall j :: 0 <= j < |codewords| ==> |codewords[j]| == CODEWORD_BYTES
  }

  function ByteOf(codewords: seq<Word>, p: nat): bv8
    requires AreCodewords(codewords) && p < Span(|codewords|)
  {
    IndexIsOnto(|codewords|, p);
    codewords[p % |codewords|][p / |codewords|]
  }

  function Interleaved(codewords: seq<Word>): (page: Word)
    requires AreCodewords(codewords)
    ensures |page| == Span(|codewords|)
  {
    seq(Span(|codewords|), p requires 0 <= p < Span(|codewords|) => ByteOf(codewords, p))
  }

  function Codewords(page: Word, blocks: nat): (r: seq<Word>)
    requires |page| == Span(blocks)
    ensures |r| == blocks && AreCodewords(r)
  {
    seq(blocks, j requires 0 <= j < blocks => Codeword(page, blocks, j))
  }

  /** Taking a page apart and interleaving again gives the page, and the other way round. */
  lemma InterleavingUndoes(page: Word, blocks: nat)
    requires |page| == Span(blocks)
    ensures Interleaved(Codewords(page, blocks)) == page
  {
    hide Index, Span;
    var again := Interleaved(Codewords(page, blocks));
    forall p | 0 <= p < Span(blocks)
      ensures again[p] == page[p]
    {
      IndexIsOnto(blocks, p);
    }
  }

  lemma DeinterleavingUndoes(codewords: seq<Word>)
    requires AreCodewords(codewords)
    ensures Codewords(Interleaved(codewords), |codewords|) == codewords
  {
    hide Index, Span;
    var n, page := |codewords|, Interleaved(codewords);
    forall j | 0 <= j < n
      ensures Codeword(page, n, j) == codewords[j]
    {
      forall i | 0 <= i < CODEWORD_BYTES
        ensures Codeword(page, n, j)[i] == codewords[j][i]
      {
        IndexIsOneToOne(n, i, j);
      }
    }
  }

  /** A page is its codewords and what comes after them. */
  lemma SamePage(a: Word, b: Word, blocks: nat)
    requires |a| == |b| && Span(blocks) <= |a| && a[Span(blocks)..] == b[Span(blocks)..]
    requires forall j :: 0 <= j < blocks ==> Codeword(a, blocks, j) == Codeword(b, blocks, j)
    ensures a == b
  {
    hide Index, Span;
    forall p | 0 <= p < |a|
      ensures a[p] == b[p]
    {
      if p < Span(blocks) {
        IndexIsOnto(blocks, p);
        assert Codeword(a, blocks, p % blocks)[p / blocks] == Codeword(b, blocks, p % blocks)[p / blocks];
      } else {
        assert a[p] == a[Span(blocks)..][p - Span(blocks)];
        assert b[p] == b[Span(blocks)..][p - Span(blocks)];
      }
    }
  }

  // ---- damage to one codeword -------------------------------------------------------

  function DamagedAt(j: nat, e: nat): (p: nat)
    ensures p < CODEWORD_BYTES
  {
    (j * 37 + e * 59 + 11) % CODEWORD_BYTES
  }

  lemma RemainderMoves(x: nat, c: nat)
    requires 0 < c < 2 * CODEWORD_BYTES && c != CODEWORD_BYTES
    ensures (x + c) % CODEWORD_BYTES != x % CODEWORD_BYTES
  {
  }

  /** Errors fewer than eight apart fall on different bytes. */
  lemma DamageSpreads(j: nat, e: nat, f: nat)
    requires e < f < e + 8
    ensures DamagedAt(j, e) != DamagedAt(j, f)
  {
    RemainderMoves(j * 37 + e * 59 + 11, 59 * (f - e));
  }

  /** The bytes that damage of `n` errors falls on. */
  function DamagedBytes(j: nat, n: nat): set<nat> {
    set e | 0 <= e < n :: DamagedAt(j, e)
  }

  lemma {:induction false} DamageIsCounted(j: nat, n: nat)
    requires n <= 8
    ensures |DamagedBytes(j, n)| == n
  {
    hide DamagedAt;
    if n > 0 {
      DamageIsCounted(j, n - 1);
      forall e | 0 <= e < n - 1
        ensures DamagedAt(j, e) != DamagedAt(j, n - 1)
      {
        DamageSpreads(j, e, n - 1);
      }
      assert DamagedBytes(j, n) == DamagedBytes(j, n - 1) + {DamagedAt(j, n - 1)};
    }
  }

  lemma MaskIsDamage(e: nat)
    requires e < 8
    ensures Add(0xA5, e as bv8) != 0
  {
  }

  lemma DamageIsSeen(x: bv8, mask: bv8)
    requires mask != 0
    ensures Add(x, mask) != x
  {
    hide Add;
    AddTwice(x, mask);
    AddZero(x);
  }

  /** As many errors as the code corrects, each on a byte of its own and each a real one. */
  method DamageCodeword(damaged: array<bv8>, code: Code, j: nat)
    requires damaged.Length == CODEWORD_BYTES
    modifies damaged
    ensures Differing(old(damaged[..]), damaged[..]) == DamagedBytes(j, code.Parity() / 2)
    ensures |Differing(old(damaged[..]), damaged[..])| == code.Parity() / 2
  {
    hide Add, DamagedAt;
    var errors := code.Parity() / 2;
    for e := 0 to errors
      invariant forall p :: 0 <= p < CODEWORD_BYTES ==> (damaged[p] != old(damaged[p]) <==> p in DamagedBytes(j, e))
    {
      var pos := DamagedAt(j, e);
      assert pos !in DamagedBytes(j, e) by {
        forall f | 0 <= f < e
          ensures DamagedAt(j, f) != pos
        {
          DamageSpreads(j, f, e);
        }
      }
      MaskIsDamage(e);
      DamageIsSeen(damaged[pos], Add(0xA5, e as bv8));
      damaged[pos] := Add(damaged[pos], Add(0xA5, e as bv8));
      assert DamagedBytes(j, e + 1) == DamagedBytes(j, e) + {pos};
    }
    DamageIsCounted(j, errors);
    assert Differing(old(damaged[..]), damaged[..]) == DamagedBytes(j, errors);
  }

  // ---- damage to a page ----------------------------------------------------------------

  /** The byte of codeword `j` that damage to the page falls on. */
  function DamagedRow(j: nat): (i: nat)
    ensures i < CODEWORD_BYTES
  {
    (j * 101 + 3) % CODEWORD_BYTES
  }

  /** One byte of a codeword changed. */
  function Struck(cw: Word, j: nat): (r: Word)
    requires |cw| == CODEWORD_BYTES
    ensures |r| == |cw| && Differing(cw, r) == {DamagedRow(j)}
  {
    DamageIsSeen(cw[DamagedRow(j)], 0x5A);
    cw[DamagedRow(j) := Add(cw[DamagedRow(j)], 0x5A)]
  }

  /** Every codeword of the page is struck once, each on its own byte. */
  method DamagePage(damaged: array<bv8>, blocks: nat)
    requires damaged.Length == Span(blocks)
    modifies damaged
    ensures forall j :: 0 <= j < blocks ==> Codeword(damaged[..], blocks, j) == Struck(Codeword(old(damaged[..]), blocks, j), j)
  {
    hide Add, DamagedRow, Struck, Span, Index;
    ghost var before := damaged[..];
    for j := 0 to blocks
      invariant forall q :: 0 <= q < blocks ==>
        Codeword(damaged[..], blocks, q) == if q < j then Struck(Codeword(before, blocks, q), q) else Codeword(before, blocks, q)
    {
      IndexIsOneToOne(blocks, DamagedRow(j), j);
      var at := Index(blocks, DamagedRow(j), j);
      ghost var was := damaged[..];
      damaged[at] := Add(damaged[at], 0x5A);
      assert damaged[..] == was[at := damaged[at]];
      OneStroke(was, blocks, DamagedRow(j), j, damaged[at]);
      StruckIs(Codeword(was, blocks, j), j);
    }
  }

  lemma StruckIs(cw: Word, j: nat)
    requires |cw| == CODEWORD_BYTES
    ensures Struck(cw, j) == cw[DamagedRow(j) := Add(cw[DamagedRow(j)], 0x5A)]
  {
    hide Add;
  }

  /** Writing one byte of the page writes one byte of one codeword. */
  lemma OneStroke(page: Word, blocks: nat, i: nat, j: nat, b: bv8)
    requires Span(blocks) <= |page| && i < CODEWORD_BYTES && j < blocks
    ensures Index(blocks, i, j) < Span(blocks)
    ensures var after := page[Index(blocks, i, j) := b];
            && after[Span(blocks)..] == page[Span(blocks)..]
            && forall q :: 0 <= q < blocks ==>
                 Codeword(after, blocks, q) == if q == j then Codeword(page, blocks, j)[i := b] else Codeword(page, blocks, q)
  {
    hide Span, Index;
    IndexIsOneToOne(blocks, i, j);
    var after := page[Index(blocks, i, j) := b];
    forall q | 0 <= q < blocks
      ensures Codeword(after, blocks, q) == if q == j then Codeword(page, blocks, j)[i := b] else Codeword(page, blocks, q)
    {
      forall k | 0 <= k < CODEWORD_BYTES
        ensures Index(blocks, k, q) == Index(blocks, i, j) <==> k == i && q == j
      {
        IndexIsOneToOne(blocks, k, q);
      }
    }
  }

  // ---- repair -------------------------------------------------------------------------------

  /** What stands in the page after a check: a codeword is written back when bytes of it
      were corrected. */
  function Repaired(code: Code, cw: Word): (r: Word)
    requires |cw| == CODEWORD_BYTES
    ensures |r| == CODEWORD_BYTES
  {
    match Verified(code, cw)
    case None => cw
    case Some((fixed, n)) => if n > 0 then fixed else cw
  }

  function Corrections(code: Code, page: Word, blocks: nat, n: nat): nat
    requires Span(blocks) <= |page| && n <= blocks
  {
    if n == 0 then 0
    else
      var c := Verified(code, Codeword(page, blocks, n - 1));
      Corrections(code, page, blocks, n - 1) + if c.Some? then c.value.1 else 0
  }

  method WriteBack(page: array<bv8>, blocks: nat, j: nat, cw: Word)
    requires j < blocks && Span(blocks) <= page.Length && |cw| == CODEWORD_BYTES
    modifies page
    ensures page[Span(blocks)..] == old(page[Span(blocks)..])
    ensures forall q :: 0 <= q < blocks ==>
              Codeword(page[..], blocks, q) == if q == j then cw else Codeword(old(page[..]), blocks, q)
  {
    hide Span, Index;
    ghost var before := page[..];
    assert before[Span(blocks)..] == page[Span(blocks)..];
    for i := 0 to CODEWORD_BYTES
      invariant page[Span(blocks)..] == before[Span(blocks)..]
      invariant forall q :: 0 <= q < blocks && q != j ==> Codeword(page[..], blocks, q) == Codeword(before, blocks, q)
      invariant forall k :: 0 <= k < i ==> Codeword(page[..], blocks, j)[k] == cw[k]
    {
      IndexIsOneToOne(blocks, i, j);
      ghost var was := page[..];
      assert was[Span(blocks)..] == page[Span(blocks)..];
      OneStroke(was, blocks, i, j, cw[i]);
      page[Index(blocks, i, j)] := cw[i];
      assert page[..] == was[Index(blocks, i, j) := cw[i]];
      assert page[Span(blocks)..] == page[..][Span(blocks)..];
    }
    assert Codeword(page[..], blocks, j) == cw;
  }

  predicate RepairedUpTo(code: Code, before: Word, after: Word, blocks: nat, n: nat)
    requires Span(blocks) <= |before| == |after| && n <= blocks
  {
    forall j :: 0 <= j < blocks ==>
      Codeword(after, blocks, j) == if j < n then Repaired(code, Codeword(before, blocks, j)) else Codeword(before, blocks, j)
  }

  lemma RepairStep(code: Code, before: Word, was: Word, now: Word, blocks: nat, j: nat)
    requires Span(blocks) <= |before| == |was| == |now| && j < blocks && RepairedUpTo(code, before, was, blocks, j)
    requires forall q :: 0 <= q < blocks ==>
               Codeword(now, blocks, q) == if q == j then Repaired(code, Codeword(before, blocks, j)) else Codeword(was, blocks, q)
    ensures RepairedUpTo(code, before, now, blocks, j + 1)
  {
    hide Codeword, Repaired, Span;
  }

  lemma UpTo(code: Code, before: Word, now: Word, blocks: nat, n: nat, j: nat)
    requires Span(blocks) <= |before| == |now| && j < blocks && n <= blocks && RepairedUpTo(code, before, now, blocks, n)
    ensures Codeword(now, blocks, j) == if j < n then Repaired(code, Codeword(before, blocks, j)) else Codeword(before, blocks, j)
  {
    hide Codeword, Repaired, Span;
  }

  lemma NothingRepaired(code: Code, page: Word, blocks: nat)
    requires Span(blocks) <= |page|
    ensures RepairedUpTo(code, page, page, blocks, 0)
  {
    hide Repaired;
  }

  method ReadCodeword(page: array<bv8>, blocks: nat, j: nat) returns (codeword: array<bv8>)
    requires j < blocks && Span(blocks) <= page.Length
    ensures fresh(codeword) && codeword[..] == Codeword(page[..], blocks, j)
  {
    hide Span, Index;
    forall i | 0 <= i < CODEWORD_BYTES
      ensures Index(blocks, i, j) < Span(blocks)
    {
      IndexIsOneToOne(blocks, i, j);
    }
    codeword := new bv8[CODEWORD_BYTES];
    for i := 0 to CODEWORD_BYTES
      invariant forall k :: 0 <= k < i ==> codeword[k] == page[Index(blocks, k, j)]
    {
      codeword[i] := page[Index(blocks, i, j)];
    }
  }

  /** Check and correct the page in place: every codeword becomes what its check makes of it
      and the bytes after the block stay; a refused codeword stops the pass, the ones before
      it corrected and the rest untouched. */
  method VerifyInterleaved(code: Code, page: array<bv8>, blocks: nat) returns (r: Option<nat>)
    modifies page
    ensures Span(blocks) > page.Length ==> r == None && page[..] == old(page[..])
    ensures Span(blocks) <= page.Length ==> page[Span(blocks)..] == old(page[Span(blocks)..])
    ensures r.Some? ==>
              && Span(blocks) <= page.Length && r.value == Corrections(code, old(page[..]), blocks, blocks)
              && RepairedUpTo(code, old(page[..]), page[..], blocks, blocks)
              && forall j :: 0 <= j < blocks ==> Verified(code, Codeword(old(page[..]), blocks, j)).Some?
    ensures r.None? && Span(blocks) <= page.Length ==>
              exists n :: 0 <= n < blocks && Verified(code, Codeword(old(page[..]), blocks, n)).None?
                          && RepairedUpTo(code, old(page[..]), page[..], blocks, n)
  {
    hide Span, Index, Codeword, RepairedUpTo, Verified;
    if Span(blocks) > page.Length {
      return None;
    }
    ghost var before := page[..];
    assert before[Span(blocks)..] == page[Span(blocks)..];
    var corrected := 0;
    NothingRepaired(code, before, blocks);
    for j := 0 to blocks
      invariant page[Span(blocks)..] == before[Span(blocks)..]
      invariant RepairedUpTo(code, before, page[..], blocks, j)
      invariant forall q :: 0 <= q < j ==> Verified(code, Codeword(before, blocks, q)).Some?
      invariant corrected == Corrections(code, before, blocks, j)
    {
      ghost var was := page[..];
      UpTo(code, before, was, blocks, j, j);
      var codeword := ReadCodeword(page, blocks, j);
      var n := Verify(code, codeword);
      assert page[..] == was;
      if n.None? {
        return None;
      }
      if n.value > 0 {
        WriteBack(page, blocks, j, codeword[..]);
        corrected := corrected + n.value;
      }
      RepairStep(code, before, was, page[..], blocks, j);
    }
    r := Some(corrected);
  }

  /** How many bytes of the first `n` codewords differ. */
  function WrongBytes(raw: Word, bad: Word, blocks: nat, n: nat): nat
    requires Span(blocks) <= |raw| == |bad| && n <= blocks
  {
    if n == 0 then 0
    else WrongBytes(raw, bad, blocks, n - 1) + |Differing(Codeword(raw, blocks, n - 1), Codeword(bad, blocks, n - 1))|
  }

  /** Damage within reach: no codeword has more wrong bytes than the code corrects. */
  ghost predicate WithinReach(code: Code, raw: Word, bad: Word, blocks: nat)
    requires Span(blocks) <= |raw| == |bad|
  {
    forall j :: 0 <= j < blocks ==>
      && IsCodeword(code, Codeword(raw, blocks, j))
      && |Differing(Codeword(raw, blocks, j), Codeword(bad, blocks, j))| <= code.Parity() / 2
  }

  lemma {:induction false} WrongBytesAreCorrected(code: Code, raw: Word, bad: Word, blocks: nat, n: nat)
    requires Span(blocks) <= |raw| == |bad| && n <= blocks && WithinReach(code, raw, bad, blocks)
    ensures Corrections(code, bad, blocks, n) == WrongBytes(raw, bad, blocks, n)
    ensures forall j :: 0 <= j < n ==> Verified(code, Codeword(bad, blocks, j)).Some?
                                       && Repaired(code, Codeword(bad, blocks, j)) == Codeword(raw, blocks, j)
  {
    hide Span, Codeword, IsCodeword, Verified, Differing;
    if n > 0 {
      WrongBytesAreCorrected(code, raw, bad, blocks, n - 1);
      var cw, was := Codeword(raw, blocks, n - 1), Codeword(bad, blocks, n - 1);
      VerifiesExactly(code, was, cw, |Differing(cw, was)|);
      if |Differing(cw, was)| == 0 {
        NothingDiffersAlone(cw, was);
      }
    }
  }

  /** A page damaged within reach, whatever the damage and however it is spread, comes back byte
      for byte, with as many corrections as bytes were wrong. */
  lemma PageIsMended(code: Code, raw: Word, bad: Word, after: Word, blocks: nat)
    requires Span(blocks) <= |raw| == |bad| == |after| && WithinReach(code, raw, bad, blocks)
    requires RepairedUpTo(code, bad, after, blocks, blocks) && after[Span(blocks)..] == raw[Span(blocks)..]
    ensures after == raw && Corrections(code, bad, blocks, blocks) == WrongBytes(raw, bad, blocks, blocks)
  {
    hide Span, Codeword, IsCodeword, Verified, Differing, WithinReach, Repaired, RepairedUpTo;
    WrongBytesAreCorrected(code, raw, bad, blocks, blocks);
    forall j | 0 <= j < blocks
      ensures Codeword(after, blocks, j) == Codeword(raw, blocks, j)
    {
      UpTo(code, bad, after, blocks, blocks, j);
    }
    SamePage(after, raw, blocks);
  }

  // ---- the check of a page ----------------------------------------------------------------

  /** The codewords of the page. */
  ghost function Intact(code: Code, page: Word, blocks: nat, n: nat): (r: set<nat>)
    requires Span(blocks) <= |page| && n <= blocks
    ensures forall j :: j in r <==> 0 <= j < n && IsCodeword(code, Codeword(page, blocks, j))
  {
    set j | 0 <= j < n && IsCodeword(code, Codeword(page, blocks, j))
  }

  lemma IntactGrows(code: Code, page: Word, blocks: nat, n: nat)
    requires Span(blocks) <= |page| && n < blocks
    ensures |Intact(code, page, blocks, n + 1)| ==
            |Intact(code, page, blocks, n)| + if IsCodeword(code, Codeword(page, blocks, n)) then 1 else 0
  {
    hide IsCodeword, Codeword, Span;
    assert Intact(code, page, blocks, n + 1) ==
           Intact(code, page, blocks, n) + if IsCodeword(code, Codeword(page, blocks, n)) then {n} else {};
  }

  /** The check of one codeword: accepted as it is, encoded again from its message, and mended
      when as many bytes are damaged as the code corrects. A codeword passes all three, and
      other bytes none. */
  method CheckCodeword(code: Code, original: Word, j: nat) returns (intact: bool, reencoded: bool, corrected: bool)
    requires |original| == CODEWORD_BYTES
    ensures intact == reencoded == corrected == IsCodeword(code, original)
  {
    hide Verified, IsCodeword, Differing, DamagedBytes;
    var cw := new bv8[CODEWORD_BYTES](i requires 0 <= i < CODEWORD_BYTES => original[i]);
    assert cw[..] == original;
    var n := Verify(code, cw);
    VerifiesExactly(code, original, original, 0);
    NothingDiffers(original);
    intact := n == Some(0);
    if intact {
      VerifiesExactly(code, original, cw[..], 0);
      NothingDiffersAlone(cw[..], original);
    }
    var again := EncodeWith(code, original[..MessageBytes(code)]);
    reencoded := again == Some(original);
    if IsCodeword(code, original) && again.Some? {
      MessageDeterminesCodeword(code, original, again.value);
    }
    var errors := code.Parity() / 2;
    var damaged := new bv8[CODEWORD_BYTES](i requires 0 <= i < CODEWORD_BYTES => original[i]);
    assert damaged[..] == original;
    DamageCodeword(damaged, code, j);
    ghost var bad := damaged[..];
    VerifiesExactly(code, bad, original, errors);
    n := Verify(code, damaged);
    corrected := n == Some(errors) && damaged[..] == original;
  }

  lemma NothingDiffers(a: Word)
    ensures |Differing(a, a)| == 0
  {
    assert Differing(a, a) == {};
  }

  lemma NothingDiffersAlone(a: Word, b: Word)
    requires |a| == |b| && |Differing(a, b)| == 0
    ensures a == b
  {
    forall i | 0 <= i < |a|
      ensures a[i] == b[i]
    {
      assert i !in Differing(a, b);
    }
  }

  datatype Tally = Tally(intact: nat, reencoded: nat, corrected: nat)

  /** The check of all codewords of a page counts its codewords three times. */
  method CheckCodewords(code: Code, raw: Word, blocks: nat) returns (t: Tally)
    requires |raw| == Span(blocks)
    ensures var n := |Intact(code, raw, blocks, blocks)|; t == Tally(n, n, n)
  {
    hide Span, Codeword, Intact, IsCodeword;
    t := Tally(0, 0, 0);
    NothingIntact(code, raw, blocks);
    for j := 0 to blocks
      invariant var n := |Intact(code, raw, blocks, j)|; t == Tally(n, n, n)
    {
      var intact, reencoded, corrected := CheckCodeword(code, Codeword(raw, blocks, j), j);
      IntactGrows(code, raw, blocks, j);
      t := Tally(
        t.intact + if intact then 1 else 0,
        t.reencoded + if reencoded then 1 else 0,
        t.corrected + if corrected then 1 else 0);
    }
  }

  lemma NothingIntact(code: Code, raw: Word, blocks: nat)
    requires |raw| == Span(blocks)
    ensures |Intact(code, raw, blocks, 0)| == 0
  {
    assert Intact(code, raw, blocks, 0) == {};
  }

  /** A codeword struck once is mended, and what is mended to the old bytes was a codeword. */
  lemma StruckIsMended(code: Code, cw: Word, j: nat)
    requires |cw| == CODEWORD_BYTES
    ensures IsCodeword(code, cw) <==> Verified(code, Struck(cw, j)) == Some((cw, 1))
    ensures IsCodeword(code, cw) <==> Repaired(code, Struck(cw, j)) == cw
  {
    hide Verified, IsCodeword, Struck, DamagedRow;
    var bad := Struck(cw, j);
    VerifiesExactly(code, bad, cw, 1);
    assert |Differing(cw, bad)| == 1;
    if Repaired(code, bad) == cw {
      assert bad != cw by {
        assert DamagedRow(j) in Differing(cw, bad);
      }
      VerifiesExactly(code, bad, cw, Verified(code, bad).value.1);
    }
  }

  lemma {:induction false} OneCorrectionEach(code: Code, page: Word, struck: Word, blocks: nat, n: nat)
    requires Span(blocks) <= |page| == |struck| && n <= blocks
    requires forall j :: 0 <= j < blocks ==> IsCodeword(code, Codeword(page, blocks, j))
    requires forall j :: 0 <= j < blocks ==> Codeword(struck, blocks, j) == Struck(Codeword(page, blocks, j), j)
    ensures Corrections(code, struck, blocks, n) == n
  {
    hide Struck, Span, Codeword, IsCodeword, Verified;
    if n > 0 {
      OneCorrectionEach(code, page, struck, blocks, n - 1);
      StruckIsMended(code, Codeword(page, blocks, n - 1), n - 1);
    }
  }

  /** A page struck once in every codeword comes back byte for byte, with one correction for
      each, exactly when all of it are codewords. */
  method CheckInterleaving(code: Code, raw: Word, blocks: nat) returns (interleaved: bool)
    requires |raw| == Span(blocks)
    ensures interleaved <==> forall j :: 0 <= j < blocks ==> IsCodeword(code, Codeword(raw, blocks, j))
  {
    hide Span, Struck, DamagedRow, Index, IsCodeword, Verified, Repaired, RepairedUpTo, Codeword;
    var damaged := new bv8[|raw|](i requires 0 <= i < |raw| => raw[i]);
    assert damaged[..] == raw;
    DamagePage(damaged, blocks);
    ghost var struck := damaged[..];
    var n := VerifyInterleaved(code, damaged, blocks);
    ghost var after := damaged[..];
    forall j | 0 <= j < blocks
      ensures IsCodeword(code, Codeword(raw, blocks, j)) <==>
              Verified(code, Codeword(struck, blocks, j)) == Some((Codeword(raw, blocks, j), 1))
      ensures n.Some? ==> (IsCodeword(code, Codeword(raw, blocks, j)) <==> Codeword(after, blocks, j) == Codeword(raw, blocks, j))
    {
      StruckIsMended(code, Codeword(raw, blocks, j), j);
      if n.Some? {
        UpTo(code, struck, after, blocks, blocks, j);
      }
    }
    if forall j :: 0 <= j < blocks ==> IsCodeword(code, Codeword(raw, blocks, j)) {
      OneCorrectionEach(code, raw, struck, blocks, blocks);
      if n.Some? {
        SamePage(after, raw, blocks);
      }
    }
    interleaved := n == Some(blocks) && damaged[..] == raw;
  }
}
