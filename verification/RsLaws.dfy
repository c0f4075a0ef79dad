/** What the Reed-Solomon check does: it finds the codeword within reach of the word it is
    given, all of it and nothing else. */
module RsLaws {
  import opened GaloisField
  import opened RsDecoder
  import opened ErrorWords
  import opened RsLocator
  import opened RsMagnitudes
  import opened Results

  /** The places where two words differ. */
  function Differing(a: Word, b: Word): (r: set<nat>)
    requires |a| == |b|
    ensures forall i :: i in r <==> 0 <= i < |a| && a[i] != b[i]
  {
    set i: nat | i < |a| && a[i] != b[i]
  }

  predicate IsCodeword(code: Code, cw: Word) {
    |cw| == CODEWORD_BYTES && AllZero(Syndromes(code, cw))
  }

  lemma DifferenceIsSupport(a: Word, b: Word)
    requires |a| == |b|
    ensures Support(Plus(a, b)) == Differing(a, b)
  {
    hide Add;
    forall i | 0 <= i < |a|
      ensures Plus(a, b)[i] == 0 <==> a[i] == b[i]
    {
      AddTwice(a[i], b[i]);
    }
  }

  lemma SyndromesAreMoments(code: Code, cw: Word)
    ensures Made(code, Syndromes(code, cw), cw)
  {
    hide Eval, Power, Moment;
    forall n | 0 <= n < code.Parity()
      ensures Syndromes(code, cw)[n] == Moment(code, cw, n + 1)
    {
      PowerModulo(code, n + 1);
      EvalIsMoment(code, cw, n + 1);
    }
  }

  lemma CodewordIsSilent(code: Code, cw: Word)
    requires IsCodeword(code, cw)
    ensures Silent(code, cw, 1, code.Parity())
  {
    hide Syndromes, Moment;
    SyndromesAreMoments(code, cw);
    forall k: nat | 1 <= k < 1 + code.Parity()
      ensures Moment(code, cw, k) == 0
    {
      assert Syndromes(code, cw)[k - 1] == 0;
    }
  }

  /** The syndromes of a damaged codeword are those of the damage. */
  lemma DamageMakesSyndromes(code: Code, cw: Word, bad: Word)
    requires IsCodeword(code, cw) && |bad| == CODEWORD_BYTES
    ensures Made(code, Syndromes(code, bad), Plus(cw, bad))
  {
    hide Syndromes, Moment, Plus, Add;
    var syn := Syndromes(code, bad);
    SyndromesAreMoments(code, bad);
    CodewordIsSilent(code, cw);
    forall n | 0 <= n < |syn|
      ensures syn[n] == Moment(code, Plus(cw, bad), n + 1)
    {
      assert Moment(code, cw, n + 1) == 0;
      MomentAdds(code, cw, bad, n + 1);
      AddZero(syn[n]);
    }
  }

  /** Two codewords differ in more places than there are parity bytes. */
  lemma CodewordsAreFarApart(code: Code, a: Word, b: Word)
    requires IsCodeword(code, a) && IsCodeword(code, b) && a != b
    ensures |Differing(a, b)| > code.Parity()
  {
    hide Syndromes, Moment;
    if |Differing(a, b)| <= code.Parity() {
      DifferenceIsSupport(a, b);
      DamageMakesSyndromes(code, a, b);
      forall k: nat | 1 <= k < 1 + code.Parity()
        ensures Moment(code, Plus(a, b), k) == 0
      {
        assert Syndromes(code, b)[k - 1] == 0;
      }
      FewErrorsShow(code, Plus(a, b), 1, code.Parity());
    }
  }

  lemma {:induction false} PositionsAreRoots(code: Code, locator: Word, n: nat)
    ensures var p := Positions(code, locator, n);
            && Distinct(p) && Below(p, n) && forall i :: i in p <==> 0 <= i < n && IsRoot(code, locator, i)
  {
    hide IsRoot;
    if n > 0 {
      PositionsAreRoots(code, locator, n - 1);
    }
  }

  /** A codeword with no more wrong bytes than the code corrects comes back, with the number of
      wrong bytes. */
  lemma ErrorsAreMended(code: Code, cw: Word, bad: Word)
    requires IsCodeword(code, cw) && |bad| == CODEWORD_BYTES && |Differing(cw, bad)| <= code.Parity() / 2
    ensures Verified(code, bad) == Some((cw, |Differing(cw, bad)|))
  {
    hide Syndromes, Locator, Positions, Magnitudes, Fixed, Moment, IsRoot, Plus, Support, Differing;
    var syn, w := Syndromes(code, bad), Plus(cw, bad);
    DifferenceIsSupport(cw, bad);
    if AllZero(syn) {
      if bad != cw {
        CodewordsAreFarApart(code, cw, bad);
      }
      assert Differing(cw, bad) == {};
    } else {
      DamageMakesSyndromes(code, cw, bad);
      LocatorLocates(code, syn, w);
      var positions := Positions(code, Locator(code, syn), CODEWORD_BYTES);
      PositionsAreRoots(code, Locator(code, syn), CODEWORD_BYTES);
      DistinctAreCounted(positions, Support(w));
      SyndromesAreMoments(code, bad);
      CodewordIsSilent(code, cw);
      MagnitudesAreErrors(code, syn, cw, bad, positions);
      OnlyErrorsMend(cw, bad, positions, ErrorsAt(w, positions));
      assert cw != bad;
    }
  }

  lemma {:induction false} FixedDiffers(cw: Word, positions: seq<nat>, magnitudes: Word)
    requires |positions| == |magnitudes| && Below(positions, |cw|)
    ensures |Differing(Fixed(cw, positions, magnitudes), cw)| <= |positions|
    decreases |positions|
  {
    hide Add;
    if positions != [] {
      var i := positions[0];
      var next := cw[i := Add(cw[i], magnitudes[0])];
      var fixed := Fixed(next, positions[1..], magnitudes[1..]);
      FixedDiffers(next, positions[1..], magnitudes[1..]);
      Fewer(Differing(fixed, cw), Differing(fixed, next) + {i});
    } else {
      assert Differing(cw, cw) == {};
    }
  }

  /** What the check gives is a codeword, and within reach. */
  lemma VerifiedIsNear(code: Code, bad: Word)
    requires Verified(code, bad).Some?
    ensures |bad| == CODEWORD_BYTES
    ensures var (cw, n) := Verified(code, bad).value;
            IsCodeword(code, cw) && |Differing(cw, bad)| <= code.Parity() / 2
  {
    hide Syndromes, Locator, Positions, Magnitudes, Fixed;
    var syn := Syndromes(code, bad);
    if AllZero(syn) {
      assert Differing(bad, bad) == {};
    } else {
      var positions := Positions(code, Locator(code, syn), CODEWORD_BYTES);
      PositionsBelow(code, Locator(code, syn), CODEWORD_BYTES);
      FixedDiffers(bad, positions, Magnitudes(code, syn, positions).value);
    }
  }

  /** The check gives a codeword and a count exactly when the word given differs from that
      codeword in as many places, and in no more than half as many as there are parity bytes. */
  lemma VerifiesExactly(code: Code, bad: Word, cw: Word, n: nat)
    ensures Verified(code, bad) == Some((cw, n)) <==>
              && |bad| == CODEWORD_BYTES && IsCodeword(code, cw)
              && n == |Differing(cw, bad)| <= code.Parity() / 2
  {
    hide Verified, Syndromes, Differing;
    if Verified(code, bad) == Some((cw, n)) {
      VerifiedIsNear(code, bad);
      ErrorsAreMended(code, cw, bad);
    } else if |bad| == CODEWORD_BYTES && IsCodeword(code, cw) && |Differing(cw, bad)| <= code.Parity() / 2 {
      ErrorsAreMended(code, cw, bad);
    }
  }

  /** It refuses exactly the words that no codeword is in reach of. */
  lemma RefusesExactly(code: Code, bad: Word)
    requires |bad| == CODEWORD_BYTES
    ensures Verified(code, bad).None? <==>
              forall cw: Word :: IsCodeword(code, cw) ==> |Differing(cw, bad)| > code.Parity() / 2
  {
    hide Verified, Differing, Syndromes;
    if Verified(code, bad).Some? {
      VerifiedIsNear(code, bad);
    }
    forall cw: Word | IsCodeword(code, cw) && Verified(code, bad).None?
      ensures |Differing(cw, bad)| > code.Parity() / 2
    {
      if |Differing(cw, bad)| <= code.Parity() / 2 {
        ErrorsAreMended(code, cw, bad);
      }
    }
  }
}
