/** Words over the field and their moments, which a decoder sees as syndromes: a word that
    has few places other than 0 cannot keep as many moments in a row at 0. */
module ErrorWords {
  import opened GaloisField
  import opened RsDecoder

  type Word = seq<bv8>

  // ---- sums over a word ----------------------------------------------------------

  function Total(s: Word): bv8 {
    if s == [] then 0 else Add(s[0], Total(s[1..]))
  }

  function Plus(u: Word, v: Word): (r: Word)
    requires |u| == |v|
    ensures |r| == |u|
  {
    seq(|u|, i requires 0 <= i < |u| => Add(u[i], v[i]))
  }

  function Times(code: Code, a: bv8, u: Word): (r: Word)
    ensures |r| == |u|
  {
    seq(|u|, i requires 0 <= i < |u| => Mul(code, a, u[i]))
  }

  function Products(code: Code, u: Word, v: Word): (r: Word)
    requires |u| == |v|
    ensures |r| == |u|
  {
    seq(|u|, i requires 0 <= i < |u| => Mul(code, u[i], v[i]))
  }

  function Dot(code: Code, u: Word, v: Word): bv8
    requires |u| == |v|
  {
    Total(Products(code, u, v))
  }

  /** Where a word is not 0. */
  function Support(w: Word): (r: set<nat>)
    ensures forall i :: i in r <==> 0 <= i < |w| && w[i] != 0
  {
    set i: nat | i < |w| && w[i] != 0
  }

  lemma {:induction false} TotalAdds(u: Word, v: Word)
    requires |u| == |v|
    ensures Total(Plus(u, v)) == Add(Total(u), Total(v))
    decreases |u|
  {
    hide Add;
    if u == [] {
      AddZero(0);
    } else {
      TotalAdds(u[1..], v[1..]);
      assert Plus(u, v)[1..] == Plus(u[1..], v[1..]);
      var s, t := Total(u[1..]), Total(v[1..]);
      AddAssociates(u[0], v[0], Add(s, t));
      AddAssociates(v[0], s, t);
      AddAssociates(s, v[0], t);
      AddAssociates(u[0], s, Add(v[0], t));
    }
  }

  lemma {:induction false} TotalScales(code: Code, a: bv8, u: Word)
    ensures Total(Times(code, a, u)) == Mul(code, a, Total(u))
  {
    hide Mul, Add;
    if u == [] {
      MulIsZero(code, a, 0);
    } else {
      TotalScales(code, a, u[1..]);
      assert Times(code, a, u)[1..] == Times(code, a, u[1..]);
      MulSpreads(code, a, u[0], Total(u[1..]));
    }
  }

  lemma MulSpreads(code: Code, a: bv8, x: bv8, y: bv8)
    ensures Mul(code, a, Add(x, y)) == Add(Mul(code, a, x), Mul(code, a, y))
  {
    hide Mul, Add;
    MulCommutes(code, a, Add(x, y));
    MulCommutes(code, a, x);
    MulCommutes(code, a, y);
    MulDistributes(code, x, y, a);
  }

  /** A change in one place changes the sum as much. */
  lemma {:induction false} TotalChanged(s: Word, i: nat, a: bv8)
    requires i < |s|
    ensures Total(s[i := Add(s[i], a)]) == Add(Total(s), a)
    decreases i
  {
    hide Add;
    var t := s[i := Add(s[i], a)];
    if i == 0 {
      assert t[1..] == s[1..];
      AddAssociates(s[0], a, Total(s[1..]));
    } else {
      TotalChanged(s[1..], i - 1, a);
      assert t[1..] == s[1..][i - 1 := Add(s[1..][i - 1], a)];
      AddAssociates(s[0], Total(s[1..]), a);
    }
  }

  lemma {:induction false} TotalOfNothing(s: Word)
    requires AllZero(s)
    ensures Total(s) == 0
  {
    hide Add;
    if s != [] {
      TotalOfNothing(s[1..]);
      AddZero(0);
    }
  }

  lemma TotalOfOne(s: Word, j: nat)
    requires j < |s| && forall i :: 0 <= i < |s| && i != j ==> s[i] == 0
    ensures Total(s) == s[j]
  {
    hide Add, Total;
    var nothing := s[j := 0];
    TotalOfNothing(nothing);
    AddZero(s[j]);
    TotalChanged(nothing, j, s[j]);
    assert nothing[j := s[j]] == s;
  }

  lemma DotAdds(code: Code, u: Word, v: Word, w: Word)
    requires |u| == |v| == |w|
    ensures Dot(code, Plus(u, v), w) == Add(Dot(code, u, w), Dot(code, v, w))
    ensures Dot(code, w, Plus(u, v)) == Add(Dot(code, w, u), Dot(code, w, v))
  {
    hide Mul, Add, Total;
    forall i | 0 <= i < |u|
      ensures Mul(code, Add(u[i], v[i]), w[i]) == Add(Mul(code, u[i], w[i]), Mul(code, v[i], w[i]))
      ensures Mul(code, w[i], Add(u[i], v[i])) == Add(Mul(code, w[i], u[i]), Mul(code, w[i], v[i]))
    {
      MulDistributes(code, u[i], v[i], w[i]);
      MulSpreads(code, w[i], u[i], v[i]);
    }
    assert Products(code, Plus(u, v), w) == Plus(Products(code, u, w), Products(code, v, w));
    assert Products(code, w, Plus(u, v)) == Plus(Products(code, w, u), Products(code, w, v));
    TotalAdds(Products(code, u, w), Products(code, v, w));
    TotalAdds(Products(code, w, u), Products(code, w, v));
  }

  lemma DotScales(code: Code, a: bv8, u: Word, w: Word)
    requires |u| == |w|
    ensures Dot(code, Times(code, a, u), w) == Mul(code, a, Dot(code, u, w))
  {
    hide Mul, Total;
    forall i | 0 <= i < |u|
      ensures Mul(code, Mul(code, a, u[i]), w[i]) == Mul(code, a, Mul(code, u[i], w[i]))
    {
      MulAssociates(code, a, u[i], w[i]);
    }
    assert Products(code, Times(code, a, u), w) == Times(code, a, Products(code, u, w));
    TotalScales(code, a, Products(code, u, w));
  }

  lemma Fewer(a: set<nat>, b: set<nat>)
    requires a <= b
    ensures |a| <= |b|
  {
    assert b == a + (b - a);
  }

  // ---- moments ---------------------------------------------------------------------

  /** The powers of 2^k. */
  function Powers(code: Code, n: nat, k: nat): (r: Word)
    ensures |r| == n
  {
    seq(n, i requires 0 <= i < n => Power(code, k * i))
  }

  function Moment(code: Code, w: Word, k: nat): bv8 {
    Dot(code, w, Powers(code, |w|, k))
  }

  /** A word with each place multiplied by the power of 2 that belongs to it. */
  function Twisted(code: Code, w: Word): (r: Word)
    ensures |r| == |w|
  {
    seq(|w|, i requires 0 <= i < |w| => Mul(code, w[i], Power(code, i)))
  }

  lemma MomentTwists(code: Code, w: Word, k: nat)
    ensures Moment(code, Twisted(code, w), k) == Moment(code, w, k + 1)
  {
    hide Mul, Power, Total;
    forall i | 0 <= i < |w|
      ensures Mul(code, Mul(code, w[i], Power(code, i)), Power(code, k * i)) == Mul(code, w[i], Power(code, (k + 1) * i))
    {
      MulAssociates(code, w[i], Power(code, i), Power(code, k * i));
      MulOfPowers(code, i, k * i);
      assert i + k * i == (k + 1) * i;
    }
    assert Products(code, Twisted(code, w), Powers(code, |w|, k)) == Products(code, w, Powers(code, |w|, k + 1));
  }

  lemma MomentAdds(code: Code, u: Word, v: Word, k: nat)
    requires |u| == |v|
    ensures Moment(code, Plus(u, v), k) == Add(Moment(code, u, k), Moment(code, v, k))
  {
    hide Dot, Powers, Plus, Add;
    DotAdds(code, u, v, Powers(code, |u|, k));
  }

  lemma MomentScales(code: Code, a: bv8, w: Word, k: nat)
    ensures Moment(code, Times(code, a, w), k) == Mul(code, a, Moment(code, w, k))
  {
    hide Dot, Powers, Times, Mul;
    DotScales(code, a, w, Powers(code, |w|, k));
  }

  lemma MomentChanges(code: Code, w: Word, i: nat, a: bv8, k: nat)
    requires i < |w|
    ensures Moment(code, w[i := Add(w[i], a)], k) == Add(Moment(code, w, k), Mul(code, a, Power(code, k * i)))
  {
    hide Mul, Add, Power, Total;
    var powers, products := Powers(code, |w|, k), Products(code, w, Powers(code, |w|, k));
    var change := Mul(code, a, Power(code, k * i));
    MulDistributes(code, w[i], a, Power(code, k * i));
    assert Products(code, w[i := Add(w[i], a)], powers) == products[i := Add(products[i], change)];
    TotalChanged(products, i, change);
  }

  lemma MomentOfNothing(code: Code, w: Word, k: nat)
    requires AllZero(w)
    ensures Moment(code, w, k) == 0
  {
    hide Mul, Total, Power;
    forall i | 0 <= i < |w|
      ensures Products(code, w, Powers(code, |w|, k))[i] == 0
    {
      MulIsZero(code, w[i], Power(code, k * i));
    }
    TotalOfNothing(Products(code, w, Powers(code, |w|, k)));
  }

  /** What the decoder evaluates is a moment. */
  lemma {:induction false} EvalIsMoment(code: Code, w: Word, k: nat)
    ensures Eval(code, w, Power(code, k)) == Moment(code, w, k)
    decreases |w|
  {
    hide Mul, Add, Power;
    if w != [] {
      var rest, x := w[1..], Power(code, k);
      EvalIsMoment(code, rest, k);
      var products, fewer := Products(code, w, Powers(code, |w|, k)), Products(code, rest, Powers(code, |rest|, k));
      FirstPower(code, w[0], k);
      forall i | 0 <= i < |rest|
        ensures products[1..][i] == Times(code, x, fewer)[i]
      {
        NextPower(code, rest[i], k, i);
      }
      assert products[1..] == Times(code, x, fewer);
      TotalScales(code, x, fewer);
      MulCommutes(code, x, Total(fewer));
      AddAssociates(w[0], Mul(code, Total(fewer), x), 0);
    }
  }

  lemma FirstPower(code: Code, a: bv8, k: nat)
    ensures Mul(code, a, Power(code, k * 0)) == a
  {
    hide Mul;
    MulByOne(code, a);
  }

  lemma NextPower(code: Code, a: bv8, k: nat, i: nat)
    ensures Mul(code, a, Power(code, k * (i + 1))) == Mul(code, Power(code, k), Mul(code, a, Power(code, k * i)))
  {
    hide Mul, Power;
    var x, y := Power(code, k), Power(code, k * i);
    MulOfPowers(code, k * i, k);
    assert k * i + k == k * (i + 1);
    MulAssociates(code, a, y, x);
    MulCommutes(code, Mul(code, a, y), x);
  }

  // ---- few errors show ----------------------------------------------------------------

  /** `n` moments in a row at 0. */
  ghost predicate Silent(code: Code, w: Word, first: nat, n: nat) {
    forall k: nat :: first <= k < first + n ==> Moment(code, w, k) == 0
  }

  /** A word without place `j`, and with the moments of the sum of two neighbours. */
  function Without(code: Code, w: Word, j: nat): (r: Word)
    ensures |r| == |w|
  {
    Plus(Twisted(code, w), Times(code, Power(code, j), w))
  }

  lemma WithoutLosesOne(code: Code, w: Word, j: nat)
    requires |w| <= ORDER && j in Support(w)
    ensures Support(Without(code, w, j)) == Support(w) - {j}
  {
    hide Mul, Add, Power;
    var r := Without(code, w, j);
    forall i | 0 <= i < |w|
      ensures r[i] == 0 <==> w[i] == 0 || i == j
    {
      MulCommutes(code, w[i], Power(code, i));
      MulDistributes(code, Power(code, i), Power(code, j), w[i]);
      MulIsZero(code, Add(Power(code, i), Power(code, j)), w[i]);
      AddTwice(Power(code, i), Power(code, j));
      PowersDiffer(code, i, j);
    }
  }

  lemma WithoutStaysSilent(code: Code, w: Word, j: nat, first: nat, n: nat)
    requires n > 0 && Silent(code, w, first, n)
    ensures Silent(code, Without(code, w, j), first, n - 1)
  {
    hide Moment, Mul, Add, Power, Twisted, Plus, Times;
    forall k: nat | first <= k < first + (n - 1)
      ensures Moment(code, Without(code, w, j), k) == 0
    {
      var a := Power(code, j);
      assert Moment(code, w, k) == 0 && Moment(code, w, k + 1) == 0;
      MomentAdds(code, Twisted(code, w), Times(code, a, w), k);
      MomentTwists(code, w, k);
      MomentScales(code, a, w, k);
      MulIsZero(code, a, 0);
      AddZero(0);
    }
  }

  lemma OneErrorShows(code: Code, w: Word, j: nat, k: nat)
    requires Support(w) == {j}
    ensures Moment(code, w, k) != 0
  {
    hide Mul, Power, Total;
    var products := Products(code, w, Powers(code, |w|, k));
    assert j in Support(w);
    forall i | 0 <= i < |w|
      ensures products[i] == 0 <==> i != j
    {
      assert i in Support(w) <==> i == j;
      PowerIsNotZero(code, k * i);
      MulIsZero(code, w[i], Power(code, k * i));
    }
    TotalOfOne(products, j);
  }

  /** A word with at most `n` places other than 0 that keeps `n` moments in a row at 0 is 0
      everywhere. */
  lemma {:induction false} FewErrorsShow(code: Code, w: Word, first: nat, n: nat)
    requires |w| <= ORDER && |Support(w)| <= n && Silent(code, w, first, n)
    ensures AllZero(w)
    decreases n
  {
    hide Moment, Without, Silent;
    if j :| j in Support(w) {
      WithoutLosesOne(code, w, j);
      assert |Support(w)| == |Support(w) - {j}| + 1;
      WithoutStaysSilent(code, w, j, first, n);
      FewErrorsShow(code, Without(code, w, j), first, n - 1);
      assert Support(Without(code, w, j)) == {};
      assert Support(w) == {j};
      OneErrorShows(code, w, j, first);
      SilentAt(code, w, first, n, first);
    } else {
      assert forall i :: 0 <= i < |w| ==> i !in Support(w);
    }
  }

  lemma SilentAt(code: Code, w: Word, first: nat, n: nat, k: nat)
    requires Silent(code, w, first, n) && first <= k < first + n
    ensures Moment(code, w, k) == 0
  {
  }
}
