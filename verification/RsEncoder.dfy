/** The encoder of `src/reed_solomon_encode.rs`: the parity it appends makes the one codeword
    that starts with the message. */
module RsEncoder {
  import opened GaloisField
  import opened RsDecoder
  import opened ErrorWords
  import opened RsLocator
  import opened RsLaws
  import opened Results

  function MessageBytes(code: Code): nat {
    CODEWORD_BYTES - code.Parity()
  }

  /** A value times `x`, `m` times over. */
  function Lifted(code: Code, a: bv8, x: bv8, m: nat): bv8 {
    if m == 0 then a else Mul(code, Lifted(code, a, x, m - 1), x)
  }

  lemma {:induction false} NothingLifted(code: Code, x: bv8, m: nat)
    ensures Lifted(code, 0, x, m) == 0
  {
    hide Mul;
    if m > 0 {
      NothingLifted(code, x, m - 1);
      MulIsZero(code, 0, x);
    }
  }

  lemma EvalUnfolds(code: Code, c: Word, x: bv8)
    ensures Eval(code, c, x) == Add(Mul(code, Eval(code, Tail(c), x), x), At(c, 0))
  {
    hide Mul, Add;
    if c == [] {
      MulIsZero(code, 0, x);
      AddZero(0);
    }
  }

  /** What a correction does to the value. */
  lemma {:induction false} EvalCorrects(code: Code, c: Word, b: Word, m: nat, scale: bv8, x: bv8)
    ensures Eval(code, Corrected(code, c, b, m, scale), x)
         == Add(Eval(code, c, x), Mul(code, scale, Lifted(code, Eval(code, b, x), x, m)))
    decreases |c| + |b| + m
  {
    hide Mul, Add, Corrected, Eval;
    if |c| + |b| + m == 0 {
      NothingEvaluated(code, x);
      MulIsZero(code, scale, 0);
      AddZero(0);
    } else {
      CorrectedUnfolds(code, c, b, m, scale);
      EvalUnfolds(code, Corrected(code, c, b, m, scale), x);
      EvalUnfolds(code, c, x);
      var rest := Eval(code, Tail(c), x);
      if m > 0 {
        EvalCorrects(code, Tail(c), b, m - 1, scale, x);
        var y := Lifted(code, Eval(code, b, x), x, m - 1);
        AddZero(At(c, 0));
        MulDistributes(code, rest, Mul(code, scale, y), x);
        MulAssociates(code, scale, y, x);
        AddAssociates(Mul(code, rest, x), Mul(code, scale, Mul(code, y, x)), At(c, 0));
      } else {
        EvalCorrects(code, Tail(c), Tail(b), 0, scale, x);
        EvalUnfolds(code, b, x);
        var y := Eval(code, Tail(b), x);
        MulDistributes(code, rest, Mul(code, scale, y), x);
        MulAssociates(code, scale, y, x);
        MulSpreads(code, scale, Mul(code, y, x), At(b, 0));
        FourRegroup(Mul(code, rest, x), Mul(code, scale, Mul(code, y, x)), At(c, 0), Mul(code, scale, At(b, 0)));
      }
    }
  }

  lemma NothingEvaluated(code: Code, x: bv8)
    ensures Corrected(code, [], [], 0, x) == [] && Eval(code, [], x) == 0
    ensures forall scale :: Corrected(code, [], [], 0, scale) == []
  {
  }

  // ---- the generator -----------------------------------------------------------------

  ghost predicate HasRoots(code: Code, g: Word, n: nat) {
    forall j :: 1 <= j <= n ==> Eval(code, g, Power(code, j)) == 0
  }

  /** The polynomial with the first powers of 2 for roots, as many as there are parity bytes. */
  method Generator(code: Code) returns (g: Word)
    ensures |g| == code.Parity() + 1 && g[0] == 1 && HasRoots(code, g, code.Parity())
  {
    hide Mul, Add, Eval, Corrected, AlphaInverse, Power;
    g := [1];
    for j := 1 to code.Parity() + 1
      invariant |g| == j && g[0] == 1 && HasRoots(code, g, j - 1)
    {
      var root := AlphaInverse(code, j);
      ghost var was := g;
      g := AddScaled(code, g, g, 1, root);
      FirstTermStays(code, was, was, 1, root);
      RootIsAdded(code, was, j);
    }
  }

  lemma RootIsAdded(code: Code, g: Word, j: nat)
    requires 1 <= j < ORDER && HasRoots(code, g, j - 1)
    ensures HasRoots(code, Corrected(code, g, g, 1, AlphaInverse(code, j)), j)
  {
    hide Mul, Add, Eval, Corrected, AlphaInverse, Power;
    var root := AlphaInverse(code, j);
    forall i | 1 <= i <= j
      ensures Eval(code, Corrected(code, g, g, 1, root), Power(code, i)) == 0
    {
      var x := Power(code, i);
      var y := Eval(code, g, x);
      EvalCorrects(code, g, g, 1, root, x);
      LiftedOnce(code, y, x);
      MulCommutes(code, y, x);
      MulAssociates(code, root, x, y);
      if i < j {
        MulIsZero(code, Mul(code, root, x), y);
        AddZero(0);
      } else {
        AlphasCancel(code, j);
        MulByOne(code, y);
        AddZero(y);
      }
    }
  }

  lemma LiftedOnce(code: Code, y: bv8, x: bv8)
    ensures Lifted(code, y, x, 1) == Mul(code, y, x)
  {
    hide Mul;
    assert Lifted(code, y, x, 0) == y;
  }

  // ---- division by the generator ----------------------------------------------------------

  function Zeros(n: nat): (r: Word)
    ensures |r| == n && AllZero(r)
  {
    seq(n, _ => 0)
  }

  /** What is left to divide: the bytes from the `i`-th on. */
  function Left(work: Word, i: nat): (r: Word)
    requires i <= |work|
    ensures |r| == |work|
  {
    Zeros(i) + work[i..]
  }

  ghost predicate SameSyndromes(code: Code, a: Word, b: Word) {
    forall j :: 1 <= j <= code.Parity() ==> Eval(code, a, Power(code, j)) == Eval(code, b, Power(code, j))
  }

  lemma DivisionKeepsSyndromes(code: Code, g: Word, a: Word, m: nat, scale: bv8)
    requires HasRoots(code, g, code.Parity())
    ensures SameSyndromes(code, Corrected(code, a, g, m, scale), a)
  {
    hide Mul, Add, Eval, Corrected, Power;
    forall j | 1 <= j <= code.Parity()
      ensures Eval(code, Corrected(code, a, g, m, scale), Power(code, j)) == Eval(code, a, Power(code, j))
    {
      EvalCorrects(code, a, g, m, scale, Power(code, j));
      NothingLifted(code, Power(code, j), m);
      MulIsZero(code, scale, 0);
      AddZero(Eval(code, a, Power(code, j)));
    }
  }

  /** One step of the division, in place: the leading byte times the generator goes off the
      bytes after it. */
  method DivideStep(code: Code, g: Word, work: array<bv8>, i: nat)
    requires g != [] && g[0] == 1 && i + |g| <= work.Length
    modifies work
    ensures work[..i + 1] == old(work[..i + 1])
    ensures Left(work[..], i + 1) == Corrected(code, Left(old(work[..]), i), g, i, old(work[i]))
  {
    hide Mul, Add;
    ghost var was := work[..];
    var coef := work[i];
    if coef != 0 {
      for j := 1 to |g|
        invariant forall q :: 0 <= q < work.Length ==>
          work[q] == if i < q < i + j then Add(was[q], Mul(code, coef, g[q - i])) else was[q]
      {
        work[i + j] := Add(work[i + j], Mul(code, coef, g[j]));
      }
    }
    var now, before := work[..], Left(was, i);
    assert forall q :: 0 <= q < |now| && !(i < q < i + |g|) ==> now[q] == was[q];
    forall q | 0 <= q < |now|
      ensures Left(now, i + 1)[q] == Corrected(code, before, g, i, coef)[q]
    {
      MulIsZero(code, coef, At(g, q - i));
      AddZero(before[q]);
      MulByOne(code, coef);
    }
  }

  lemma SumOfSameIsCodeword(code: Code, a: Word, b: Word)
    requires |a| == |b| == CODEWORD_BYTES && SameSyndromes(code, a, b)
    ensures IsCodeword(code, Plus(a, b))
  {
    hide Plus, Add, Eval, Moment, Power, Syndromes;
    SyndromesAreMoments(code, Plus(a, b));
    forall j | 0 <= j < code.Parity()
      ensures Syndromes(code, Plus(a, b))[j] == 0
    {
      EvalIsMoment(code, a, j + 1);
      EvalIsMoment(code, b, j + 1);
      MomentAdds(code, a, b, j + 1);
      AddZero(Moment(code, a, j + 1));
    }
  }

  /** The division by the generator leaves the syndromes as they were. */
  method Divide(code: Code, g: Word, work: array<bv8>, k: nat)
    requires g != [] && g[0] == 1 && HasRoots(code, g, code.Parity()) && k + |g| <= work.Length + 1
    modifies work
    ensures SameSyndromes(code, Left(work[..], k), old(work[..]))
  {
    hide Corrected, SameSyndromes, HasRoots;
    ghost var first := work[..];
    assert Left(work[..], 0) == first;
    SameAsItself(code, first);
    for i := 0 to k
      invariant SameSyndromes(code, Left(work[..], i), first)
    {
      ghost var was := work[..];
      DivideStep(code, g, work, i);
      DivisionKeepsSyndromes(code, g, Left(was, i), i, was[i]);
      SameAsSame(code, Left(work[..], i + 1), Left(was, i), first);
    }
  }

  /** The codeword of a message: the message and its parity. */
  method EncodeWith(code: Code, message: Word) returns (r: Option<Word>)
    ensures r.Some? <==> |message| == MessageBytes(code)
    ensures r.Some? ==> IsCodeword(code, r.value) && r.value[..|message|] == message
  {
    hide Corrected, Syndromes, SameSyndromes, HasRoots, Eval, Left;
    var k := MessageBytes(code);
    if |message| != k {
      return None;
    }
    var g := Generator(code);
    var first := message + Zeros(code.Parity());
    var work := new bv8[CODEWORD_BYTES](i requires 0 <= i < CODEWORD_BYTES => first[i]);
    assert work[..] == first;
    Divide(code, g, work, k);
    SumOfSameIsCodeword(code, Left(work[..], k), first);
    MessageAndParity(message, work[..]);
    r := Some(message + work[..][k..]);
  }

  lemma SameAsItself(code: Code, a: Word)
    ensures SameSyndromes(code, a, a)
  {
  }

  lemma SameAsSame(code: Code, a: Word, b: Word, c: Word)
    requires SameSyndromes(code, a, b) && SameSyndromes(code, b, c)
    ensures SameSyndromes(code, a, c)
  {
    hide Eval, Power;
  }

  lemma MessageAndParity(message: Word, work: Word)
    requires |message| <= |work|
    ensures Plus(Left(work, |message|), message + Zeros(|work| - |message|)) == message + work[|message|..]
  {
    hide Add;
    forall i | 0 <= i < |work|
      ensures Plus(Left(work, |message|), message + Zeros(|work| - |message|))[i] == (message + work[|message|..])[i]
    {
      AddZero((message + work[|message|..])[i]);
    }
  }

  /** No two codewords start with the same message. */
  lemma MessageDeterminesCodeword(code: Code, a: Word, b: Word)
    requires IsCodeword(code, a) && IsCodeword(code, b)
    requires a[..MessageBytes(code)] == b[..MessageBytes(code)]
    ensures a == b
  {
    hide Syndromes;
    if a != b {
      CodewordsAreFarApart(code, a, b);
      var k := MessageBytes(code);
      forall i | 0 <= i < k
        ensures a[i] == b[i]
      {
        assert a[..k][i] == b[..k][i];
      }
      Fewer(Differing(a, b), Parities(k, code.Parity()));
    }
  }

  /** The places of the parity bytes. */
  ghost function Parities(k: nat, n: nat): (r: set<nat>)
    ensures |r| <= n && forall i :: i in r <==> k <= i < k + n
  {
    if n == 0 then {} else Parities(k, n - 1) + {k + n - 1}
  }
}
