/** What Berlekamp-Massey finds: for syndromes that a word with few places other than 0 makes,
    a polynomial whose roots are those places and no others. */
module RsLocator {
  import opened GaloisField
  import opened RsDecoder
  import opened ErrorWords

  // ---- a polynomial applied to the moments of a word ----------------------------

  function Tail(c: Word): (r: Word)
    ensures |r| == if c == [] then 0 else |c| - 1
  {
    if c == [] then [] else c[1..]
  }

  /** The moments from the `k`-th down, each times a coefficient. */
  function Combined(code: Code, c: Word, w: Word, k: nat): bv8
    decreases |c|
  {
    if c == [] || k == 0 then 0 else Add(Mul(code, c[0], Moment(code, w, k)), Combined(code, c[1..], w, k - 1))
  }

  /** A word with each place multiplied by the polynomial's value there. */
  function Valued(code: Code, w: Word, c: Word): (r: Word)
    ensures |r| == |w|
  {
    seq(|w|, i requires 0 <= i < |w| => Mul(code, w[i], Eval(code, c, AlphaInverse(code, i))))
  }

  function Untwisted(code: Code, w: Word): (r: Word)
    ensures |r| == |w|
  {
    seq(|w|, i requires 0 <= i < |w| => Mul(code, w[i], AlphaInverse(code, i)))
  }

  lemma AlphasCancel(code: Code, i: nat)
    requires i < ORDER
    ensures Mul(code, AlphaInverse(code, i), Power(code, i)) == 1
  {
    hide Mul, Power;
    PowerModulo(code, ORDER - i);
    MulOfPowers(code, ORDER - i, i);
    PowerModulo(code, ORDER - i + i);
    NoDoubling(code);
  }

  lemma TwistUndoes(code: Code, w: Word)
    requires |w| <= ORDER
    ensures Twisted(code, Untwisted(code, w)) == w
  {
    hide Mul, Power, AlphaInverse;
    forall i | 0 <= i < |w|
      ensures Mul(code, Mul(code, w[i], AlphaInverse(code, i)), Power(code, i)) == w[i]
    {
      MulAssociates(code, w[i], AlphaInverse(code, i), Power(code, i));
      AlphasCancel(code, i);
      MulByOne(code, w[i]);
    }
  }

  lemma ValuedUnfolds(code: Code, w: Word, c: Word)
    requires c != []
    ensures Valued(code, w, c) == Plus(Untwisted(code, Valued(code, w, c[1..])), Times(code, c[0], w))
  {
    hide Mul, Add, AlphaInverse;
    forall i | 0 <= i < |w|
      ensures Valued(code, w, c)[i] == Plus(Untwisted(code, Valued(code, w, c[1..])), Times(code, c[0], w))[i]
    {
      var y := AlphaInverse(code, i);
      var rest := Eval(code, c[1..], y);
      MulSpreads(code, w[i], Mul(code, rest, y), c[0]);
      MulAssociates(code, w[i], rest, y);
      MulCommutes(code, w[i], c[0]);
    }
  }

  lemma ValuedByNothing(code: Code, w: Word)
    ensures AllZero(Valued(code, w, []))
  {
    hide Mul;
    forall i | 0 <= i < |w|
      ensures Valued(code, w, [])[i] == 0
    {
      MulIsZero(code, w[i], 0);
    }
  }

  lemma {:induction false} CombinedIsMoment(code: Code, c: Word, w: Word, k: nat)
    requires |w| <= ORDER && |c| <= k
    ensures Combined(code, c, w, k) == Moment(code, Valued(code, w, c), k)
    decreases |c|
  {
    hide Mul, Add, Moment, Valued, Plus, Times, Twisted, Untwisted;
    if c == [] {
      ValuedByNothing(code, w);
      MomentOfNothing(code, Valued(code, w, []), k);
    } else {
      CombinedIsMoment(code, c[1..], w, k - 1);
      var rest := Untwisted(code, Valued(code, w, c[1..]));
      ValuedUnfolds(code, w, c);
      MomentAdds(code, rest, Times(code, c[0], w), k);
      MomentScales(code, c[0], w, k);
      MomentTwists(code, rest, k - 1);
      TwistUndoes(code, Valued(code, w, c[1..]));
      AddAssociates(Moment(code, rest, k), Mul(code, c[0], Moment(code, w, k)), 0);
    }
  }

  lemma CombinedUnfolds(code: Code, c: Word, w: Word, k: nat)
    requires k > 0
    ensures Combined(code, c, w, k) == Add(Mul(code, At(c, 0), Moment(code, w, k)), Combined(code, Tail(c), w, k - 1))
  {
    hide Mul, Add, Moment;
    if c == [] {
      MulIsZero(code, 0, Moment(code, w, k));
      AddZero(0);
    }
  }

  lemma CorrectedAt(code: Code, c: Word, b: Word, m: nat, scale: bv8, i: nat)
    requires i < |Corrected(code, c, b, m, scale)|
    ensures Corrected(code, c, b, m, scale)[i] == Add(At(c, i), Mul(code, scale, At(b, i - m)))
  {
    hide Mul, Add, At;
  }

  lemma CorrectedUnfolds(code: Code, c: Word, b: Word, m: nat, scale: bv8)
    requires |c| + |b| + m > 0
    ensures var r := Corrected(code, c, b, m, scale);
            && r != []
            && r[0] == Add(At(c, 0), if m == 0 then Mul(code, scale, At(b, 0)) else 0)
            && r[1..] == if m == 0 then Corrected(code, Tail(c), Tail(b), 0, scale) else Corrected(code, Tail(c), b, m - 1, scale)
  {
    hide Mul, Add, Corrected;
    MulIsZero(code, scale, 0);
    CorrectedAt(code, c, b, m, scale, 0);
    var r, b', m' := Corrected(code, c, b, m, scale), if m == 0 then Tail(b) else b, if m == 0 then 0 else m - 1;
    forall i | 0 <= i < |r| - 1
      ensures r[1..][i] == Corrected(code, Tail(c), b', m', scale)[i]
    {
      CorrectedAt(code, c, b, m, scale, i + 1);
      CorrectedAt(code, Tail(c), b', m', scale, i);
    }
  }

  /** What a correction does to the moments combined. */
  lemma {:induction false} CombinedCorrects(code: Code, c: Word, b: Word, m: nat, scale: bv8, w: Word, k: nat)
    requires |c| <= k && |b| + m <= k
    ensures Combined(code, Corrected(code, c, b, m, scale), w, k)
         == Add(Combined(code, c, w, k), Mul(code, scale, Combined(code, b, w, k - m)))
    decreases |c| + |b| + m
  {
    hide Mul, Add, Moment, Corrected, Combined;
    if |c| + |b| + m == 0 {
      NothingCombined(code, w, k);
      MulIsZero(code, scale, 0);
      AddZero(0);
    } else {
      CorrectedUnfolds(code, c, b, m, scale);
      CombinedUnfolds(code, Corrected(code, c, b, m, scale), w, k);
      CombinedUnfolds(code, c, w, k);
      var s, rest := Moment(code, w, k), Combined(code, Tail(c), w, k - 1);
      if m > 0 {
        CombinedCorrects(code, Tail(c), b, m - 1, scale, w, k - 1);
        AddZero(At(c, 0));
        AddAssociates(Mul(code, At(c, 0), s), rest, Mul(code, scale, Combined(code, b, w, k - m)));
      } else {
        CombinedCorrects(code, Tail(c), Tail(b), 0, scale, w, k - 1);
        CombinedUnfolds(code, b, w, k);
        SumsRegroup(code, At(c, 0), At(b, 0), scale, s, rest, Combined(code, Tail(b), w, k - 1));
      }
    }
  }

  lemma NothingCombined(code: Code, w: Word, k: nat)
    ensures Combined(code, [], w, k) == 0
  {
  }

  lemma SumsRegroup(code: Code, c: bv8, b: bv8, scale: bv8, s: bv8, x: bv8, y: bv8)
    ensures Add(Mul(code, Add(c, Mul(code, scale, b)), s), Add(x, Mul(code, scale, y)))
         == Add(Add(Mul(code, c, s), x), Mul(code, scale, Add(Mul(code, b, s), y)))
  {
    hide Mul, Add;
    MulDistributes(code, c, Mul(code, scale, b), s);
    MulAssociates(code, scale, b, s);
    MulSpreads(code, scale, Mul(code, b, s), y);
    FourRegroup(Mul(code, c, s), Mul(code, scale, Mul(code, b, s)), x, Mul(code, scale, y));
  }

  lemma FourRegroup(p: bv8, q: bv8, x: bv8, y: bv8)
    ensures Add(Add(p, q), Add(x, y)) == Add(Add(p, x), Add(q, y))
  {
    hide Add;
    AddAssociates(Add(p, q), x, y);
    AddAssociates(p, q, x);
    AddAssociates(Add(p, x), q, y);
  }

  // ---- the discrepancy --------------------------------------------------------------

  /** The syndromes are the first moments of the word. */
  ghost predicate Made(code: Code, syn: seq<bv8>, w: Word) {
    forall n :: 0 <= n < |syn| ==> syn[n] == Moment(code, w, n + 1)
  }

  lemma {:induction false} PredictedCombines(code: Code, syn: seq<bv8>, c: Word, w: Word, n: nat, l: nat, i: nat)
    requires Made(code, syn, w) && n < |syn| && 0 < |c| <= l + 1 && l <= n && 1 <= i <= |c|
    ensures Predicted(code, syn, c, n, l, i) == Combined(code, c[i..], w, n + 1 - i)
    decreases |c| - i
  {
    hide Mul, Add, Moment;
    if i < |c| {
      PredictedCombines(code, syn, c, w, n, l, i + 1);
      assert c[i..][1..] == c[i + 1..];
    }
  }

  lemma DiscrepancyCombines(code: Code, syn: seq<bv8>, c: Word, w: Word, n: nat, l: nat)
    requires Made(code, syn, w) && n < |syn| && 0 < |c| <= l + 1 && l <= n && c[0] == 1
    ensures Discrepancy(code, syn, c, n, l) == Combined(code, c, w, n + 1)
  {
    hide Mul, Add, Moment;
    PredictedCombines(code, syn, c, w, n, l, 1);
    MulByOne(code, Moment(code, w, n + 1));
  }

  // ---- what every step keeps ------------------------------------------------------------

  /** The moments with numbers from `from` to `n` combine to 0. */
  ghost predicate Annuls(code: Code, c: Word, w: Word, from: int, n: int) {
    forall k: nat :: from < k <= n ==> Combined(code, c, w, k) == 0
  }

  ghost predicate Good(code: Code, w: Word, st: State, n: nat) {
    && st.c != [] && st.c[0] == 1 && |st.c| <= st.l + 1
    && st.l <= n && st.l <= |Support(w)|
    && Annuls(code, st.c, w, st.l, n)
    && st.b != [] && st.m > 0 && st.last != 0 && |st.b| + st.m + st.l <= n + 2
    && (st.l > 0 ==> HoldsLast(code, w, st, n))
  }

  /** The polynomial from before the last lengthening, and where it failed. */
  ghost predicate HoldsLast(code: Code, w: Word, st: State, n: nat) {
    && st.m <= n && st.l <= n - st.m + 1
    && Annuls(code, st.b, w, n - st.m + 1 - st.l, n - st.m)
    && Combined(code, st.b, w, n - st.m + 1) == st.last
  }

  /** A polynomial that annuls `n - l` moments and fails at the next is longer than that. */
  lemma FailureIsLate(code: Code, w: Word, c: Word, l: nat, n: nat)
    requires |w| <= ORDER && 0 < |c| <= l + 1 && l <= n && Annuls(code, c, w, l, n)
    requires Combined(code, c, w, n + 1) != 0
    ensures n + 1 - l <= |Support(w)|
  {
    hide Moment, Combined, Valued;
    if |Support(w)| <= n - l {
      AnnulledIsNothing(code, w, c, l, n);
      MomentOfNothing(code, Valued(code, w, c), n + 1);
      CombinedIsMoment(code, c, w, n + 1);
    }
  }

  lemma AnnulledIsNothing(code: Code, w: Word, c: Word, l: nat, n: nat)
    requires |w| <= ORDER && |c| <= l + 1 && Annuls(code, c, w, l, n) && l + |Support(w)| <= n
    ensures AllZero(Valued(code, w, c))
  {
    hide Moment, Combined, Valued;
    var u := Valued(code, w, c);
    ValuedSupport(code, w, c);
    forall k: nat | l + 1 <= k < l + 1 + |Support(w)|
      ensures Moment(code, u, k) == 0
    {
      CombinedIsMoment(code, c, w, k);
    }
    FewErrorsShow(code, u, l + 1, |Support(w)|);
  }

  lemma ValuedSupport(code: Code, w: Word, c: Word)
    ensures |Support(Valued(code, w, c))| <= |Support(w)|
  {
    hide Mul, Eval, AlphaInverse;
    forall i | i in Support(Valued(code, w, c))
      ensures i in Support(w)
    {
      MulIsZero(code, w[i], Eval(code, c, AlphaInverse(code, i)));
    }
    Fewer(Support(Valued(code, w, c)), Support(w));
  }

  /** The scale makes the correction cancel the discrepancy. */
  lemma ScaleCancels(code: Code, d: bv8, last: bv8)
    requires last != 0
    ensures Add(d, Mul(code, Mul(code, d, Inv(code, last)), last)) == 0
  {
    hide Mul, Inv, Add;
    InverseUndoes(code, last);
    MulAssociates(code, d, Inv(code, last), last);
    MulByOne(code, d);
    AddZero(d);
  }

  lemma CorrectionAnnuls(code: Code, w: Word, st: State, n: nat, d: bv8, l: nat)
    requires Good(code, w, st, n) && d == Combined(code, st.c, w, n + 1) && st.l <= l && n + 1 <= st.l + l
    ensures Annuls(code, Corrected(code, st.c, st.b, st.m, Mul(code, d, Inv(code, st.last))), w, l, n + 1)
  {
    hide Mul, Inv, Add, Corrected, Combined;
    var scale := Mul(code, d, Inv(code, st.last));
    forall k: nat | l < k <= n + 1
      ensures Combined(code, Corrected(code, st.c, st.b, st.m, scale), w, k) == 0
    {
      CombinedCorrects(code, st.c, st.b, st.m, scale, w, k);
      if k <= n {
        MulIsZero(code, scale, 0);
        AddZero(0);
      } else {
        ScaleCancels(code, d, st.last);
      }
    }
  }

  lemma FirstTermStays(code: Code, c: Word, b: Word, m: nat, scale: bv8)
    requires c != [] && m > 0
    ensures Corrected(code, c, b, m, scale)[0] == c[0]
  {
    hide Mul, Add;
    MulIsZero(code, scale, 0);
    AddZero(c[0]);
  }

  lemma StepStaysGood(code: Code, syn: seq<bv8>, w: Word, st: State, n: nat)
    requires |w| <= ORDER && Made(code, syn, w) && n < |syn| && Good(code, w, st, n)
    ensures Good(code, w, Next(code, syn, n, st), n + 1)
  {
    hide Mul, Inv, Corrected, Combined, Discrepancy, Moment;
    var d := Discrepancy(code, syn, st.c, n, st.l);
    DiscrepancyCombines(code, syn, st.c, w, n, st.l);
    if d != 0 {
      FirstTermStays(code, st.c, st.b, st.m, Mul(code, d, Inv(code, st.last)));
      if 2 * st.l <= n {
        CorrectionAnnuls(code, w, st, n, d, n + 1 - st.l);
        FailureIsLate(code, w, st.c, st.l, n);
      } else {
        CorrectionAnnuls(code, w, st, n, d, st.l);
      }
    }
  }

  lemma {:induction false} RunStaysGood(code: Code, syn: seq<bv8>, w: Word, st: State, n: nat)
    requires |w| <= ORDER && Made(code, syn, w) && n <= |syn| && Good(code, w, st, n)
    ensures Good(code, w, Run(code, syn, n, st), |syn|)
    decreases |syn| - n
  {
    hide Next, Made;
    if n < |syn| {
      StepStaysGood(code, syn, w, st, n);
      RunStaysGood(code, syn, w, Next(code, syn, n, st), n + 1);
    }
  }

  // ---- roots ------------------------------------------------------------------------------

  /** The polynomial divided by the one with the single root `r`. */
  function Quotient(code: Code, c: Word, r: bv8): (q: Word)
    ensures |q| == |Tail(c)|
  {
    if |c| <= 1 then [] else [Eval(code, c[1..], r)] + Quotient(code, c[1..], r)
  }

  lemma {:induction false} QuotientDivides(code: Code, c: Word, r: bv8, x: bv8)
    ensures Add(Eval(code, c, x), Eval(code, c, r)) == Mul(code, Eval(code, Quotient(code, c, r), x), Add(x, r))
  {
    hide Mul, Add;
    if |c| <= 1 {
      ShortQuotient(code, c, r, x);
    } else {
      var rest := c[1..];
      QuotientDivides(code, rest, r, x);
      var q := Quotient(code, rest, r);
      assert Quotient(code, c, r)[1..] == q;
      DivisionStep(code, c[0], Eval(code, rest, x), Eval(code, rest, r), Eval(code, q, x), x, r);
    }
  }

  lemma ShortQuotient(code: Code, c: Word, r: bv8, x: bv8)
    requires |c| <= 1
    ensures Eval(code, c, x) == Eval(code, c, r)
    ensures Add(Eval(code, c, x), Eval(code, c, r)) == 0 == Mul(code, 0, Add(x, r))
  {
    hide Mul, Add;
    MulIsZero(code, 0, x);
    MulIsZero(code, 0, r);
    MulIsZero(code, 0, Add(x, r));
    AddZero(Eval(code, c, x));
    if c != [] {
      assert c[1..] == [];
    }
  }

  lemma DivisionStep(code: Code, c: bv8, e: bv8, f: bv8, q: bv8, x: bv8, r: bv8)
    requires Add(e, f) == Mul(code, q, Add(x, r))
    ensures Add(Add(Mul(code, e, x), c), Add(Mul(code, f, r), c)) == Mul(code, Add(Mul(code, q, x), f), Add(x, r))
  {
    hide Mul, Add;
    var ex, fx, fr := Mul(code, e, x), Mul(code, f, x), Mul(code, f, r);
    MulDistributes(code, Mul(code, q, x), f, Add(x, r));
    MulSpreads(code, f, x, r);
    MulAssociates(code, q, x, Add(x, r));
    MulCommutes(code, x, Add(x, r));
    MulAssociates(code, q, Add(x, r), x);
    MulDistributes(code, e, f, x);
    assert Mul(code, Mul(code, q, x), Add(x, r)) == Add(ex, fx);
    AddAssociates(ex, fx, Add(fx, fr));
    AddTwice(fx, fr);
    AddAssociates(fx, fx, fr);
    FourRegroup(ex, c, fr, c);
    AddZero(c);
    AddZero(Add(ex, fr));
  }

  lemma InversesDiffer(code: Code, i: nat, j: nat)
    requires i < ORDER && j < ORDER && i != j
    ensures Add(AlphaInverse(code, i), AlphaInverse(code, j)) != 0
  {
    hide Power, Add;
    PowersDiffer(code, (ORDER - i) % ORDER, (ORDER - j) % ORDER);
    AddTwice(AlphaInverse(code, i), AlphaInverse(code, j));
  }

  lemma EvalAtNothing(code: Code, c: Word)
    ensures Eval(code, c, 0) == At(c, 0)
  {
    hide Mul, Add;
    if c != [] {
      MulIsZero(code, Eval(code, c[1..], 0), 0);
      AddZero(c[0]);
    }
  }

  /** A polynomial has fewer roots than coefficients. */
  lemma {:induction false} RootsAreFew(code: Code, c: Word, roots: set<nat>)
    requires At(c, 0) != 0 && forall i :: i in roots ==> i < ORDER && IsRoot(code, c, i)
    ensures |roots| < |c|
    decreases |c|
  {
    hide Mul, Add, AlphaInverse, Quotient, Eval;
    if j :| j in roots {
      var r := AlphaInverse(code, j);
      var q := Quotient(code, c, r);
      EvalAtNothing(code, c);
      EvalAtNothing(code, q);
      QuotientDivides(code, c, r, 0);
      AddZero(Eval(code, c, 0));
      MulIsZero(code, Eval(code, q, 0), Add(0, r));
      forall i | i in roots - {j}
        ensures IsRoot(code, q, i)
      {
        QuotientDivides(code, c, r, AlphaInverse(code, i));
        AddZero(0);
        InversesDiffer(code, i, j);
        MulIsZero(code, Eval(code, q, AlphaInverse(code, i)), Add(AlphaInverse(code, i), r));
      }
      RootsAreFew(code, q, roots - {j});
    }
  }

  // ---- the locator ------------------------------------------------------------------------

  lemma ErrorsAreRoots(code: Code, w: Word, c: Word, i: nat)
    requires AllZero(Valued(code, w, c)) && i in Support(w)
    ensures IsRoot(code, c, i)
  {
    hide Mul, Eval, AlphaInverse;
    assert Valued(code, w, c)[i] == 0;
    MulIsZero(code, w[i], Eval(code, c, AlphaInverse(code, i)));
  }

  /** The locator has one coefficient more than there are errors, and its roots are their
      places. */
  lemma LocatorLocates(code: Code, syn: seq<bv8>, w: Word)
    requires |w| <= ORDER && Made(code, syn, w) && 2 * |Support(w)| <= |syn|
    ensures |Locator(code, syn)| == |Support(w)| + 1
    ensures forall i :: 0 <= i < ORDER ==> (IsRoot(code, Locator(code, syn), i) <==> i in Support(w))
  {
    hide Made, Run, IsRoot, Valued, Combined;
    var st := Run(code, syn, 0, START);
    RunStaysGood(code, syn, w, START, 0);
    AnnulledIsNothing(code, w, st.c, st.l, |syn|);
    forall i | i in Support(w)
      ensures IsRoot(code, st.c, i)
    {
      ErrorsAreRoots(code, w, st.c, i);
    }
    RootsAreFew(code, st.c, Support(w));
    assert Truncated(st.c, st.l + 1) == st.c;
    forall i | 0 <= i < ORDER && IsRoot(code, st.c, i)
      ensures i in Support(w)
    {
      if i !in Support(w) {
        RootsAreFew(code, st.c, Support(w) + {i});
      }
    }
  }
}
