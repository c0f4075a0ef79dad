/** What Gaussian elimination finds: the one list of magnitudes that takes a damaged codeword
    back, given the places of the errors. */
module RsMagnitudes {
  import opened GaloisField
  import opened RsDecoder
  import opened ErrorWords
  import opened Results

  // ---- equations and their solutions -----------------------------------------------

  /** Row `r` of the matrix holds for the values `v`. */
  ghost predicate Solves(code: Code, mat: Matrix, v: Word)
    requires IsMatrix(mat, |v|)
  {
    forall r :: 0 <= r < |v| ==> Dot(code, mat[r], v + [1]) == 0
  }

  ghost predicate OnlySolution(code: Code, mat: Matrix, y: Word)
    requires IsMatrix(mat, |y|)
  {
    forall v: Word :: |v| == |y| ==> (Solves(code, mat, v) <==> v == y)
  }

  /** The first columns are those of the unit matrix. */
  ghost predicate Unit(mat: Matrix, n: nat, col: nat)
    requires IsMatrix(mat, n) && col <= n
  {
    forall r, k :: 0 <= r < n && 0 <= k < col ==> mat[r][k] == if r == k then 1 else 0
  }

  lemma {:induction false} PivotStands(mat: Matrix, n: nat, col: nat, r: nat)
    requires IsMatrix(mat, n) && col < n && r <= n
    ensures match Pivot(mat, n, col, r)
            case None => forall q :: r <= q < n ==> mat[q][col] == 0
            case Some(p) => mat[p][col] != 0
    decreases n - r
  {
    if r < n {
      PivotStands(mat, n, col, r + 1);
    }
  }

  // ---- clearing a column -------------------------------------------------------------

  lemma ScaledIsTimes(code: Code, row: Word, col: nat, factor: bv8)
    requires forall k :: 0 <= k < |row| && k < col ==> row[k] == 0
    ensures Scaled(code, row, col, factor) == Times(code, factor, row)
  {
    hide Mul;
    forall k | 0 <= k < |row|
      ensures Scaled(code, row, col, factor)[k] == Mul(code, factor, row[k])
    {
      MulCommutes(code, factor, row[k]);
      MulIsZero(code, factor, 0);
    }
  }

  lemma ReducedIsPlus(code: Code, row: Word, col: nat, pivot: Word)
    requires |pivot| == |row| && col < |row| && forall k :: 0 <= k < col ==> pivot[k] == 0
    ensures Reduced(code, row, col, pivot) == Plus(row, Times(code, row[col], pivot))
  {
    hide Mul, Add;
    forall k | 0 <= k < |row|
      ensures Reduced(code, row, col, pivot)[k] == Add(row[k], Mul(code, row[col], pivot[k]))
    {
      MulIsZero(code, row[col], pivot[k]);
      AddZero(row[k]);
    }
  }

  /** The pivot's row scaled and another row reduced by it hold for the same values as both
      did before. */
  lemma RowsHold(code: Code, row: Word, pivot: Word, z: Word)
    requires |row| == |pivot| == |z|
    ensures forall f :: f != 0 ==> (Dot(code, Times(code, f, pivot), z) == 0 <==> Dot(code, pivot, z) == 0)
    ensures forall a :: Dot(code, pivot, z) == 0 ==> Dot(code, Plus(row, Times(code, a, pivot)), z) == Dot(code, row, z)
  {
    hide Mul, Add, Dot, Times, Plus;
    forall f: bv8 | f != 0
      ensures Dot(code, Times(code, f, pivot), z) == 0 <==> Dot(code, pivot, z) == 0
    {
      DotScales(code, f, pivot, z);
      MulIsZero(code, f, Dot(code, pivot, z));
    }
    forall a: bv8 | Dot(code, pivot, z) == 0
      ensures Dot(code, Plus(row, Times(code, a, pivot)), z) == Dot(code, row, z)
    {
      DotAdds(code, row, Times(code, a, pivot), z);
      DotScales(code, a, pivot, z);
      MulIsZero(code, a, 0);
      AddZero(Dot(code, row, z));
    }
  }

  lemma ClearedRows(code: Code, mat: Matrix, n: nat, col: nat, p: nat)
    requires IsMatrix(mat, n) && col <= p < n && Unit(mat, n, col) && mat[p][col] != 0
    ensures var swapped, f := Swapped(mat, col, p), Inv(code, mat[p][col]);
            && f != 0
            && forall r :: 0 <= r < n ==> (Cleared(code, mat, n, col, p)[r] ==
                 if r == col then Times(code, f, mat[p]) else Plus(swapped[r], Times(code, swapped[r][col], Times(code, f, mat[p]))))
  {
    hide Mul, Add, Inv, Scaled, Reduced, Plus;
    var swapped, f := Swapped(mat, col, p), Inv(code, mat[p][col]);
    InverseUndoes(code, mat[p][col]);
    ScaledIsTimes(code, mat[p], col, f);
    var pivot := Times(code, f, mat[p]);
    forall k | 0 <= k < col
      ensures pivot[k] == 0
    {
      MulIsZero(code, f, mat[p][k]);
    }
    forall r | 0 <= r < n && r != col
      ensures Cleared(code, mat, n, col, p)[r] == Plus(swapped[r], Times(code, swapped[r][col], pivot))
    {
      ReducedIsPlus(code, swapped[r], col, pivot);
    }
  }

  lemma ClearedIsUnit(code: Code, mat: Matrix, n: nat, col: nat, p: nat)
    requires IsMatrix(mat, n) && col <= p < n && Unit(mat, n, col) && mat[p][col] != 0
    ensures Unit(Cleared(code, mat, n, col, p), n, col + 1)
  {
    hide Mul, Add, Inv, Cleared;
    ClearedRows(code, mat, n, col, p);
    var swapped, f, cleared := Swapped(mat, col, p), Inv(code, mat[p][col]), Cleared(code, mat, n, col, p);
    InverseUndoes(code, mat[p][col]);
    forall r, k | 0 <= r < n && 0 <= k < col + 1
      ensures cleared[r][k] == if r == k then 1 else 0
    {
      MulIsZero(code, f, mat[p][k]);
      MulIsZero(code, swapped[r][col], 0);
      MulByOne(code, swapped[r][col]);
      AddZero(swapped[r][k]);
    }
  }

  lemma ClearedSolves(code: Code, mat: Matrix, v: Word, col: nat, p: nat)
    requires IsMatrix(mat, |v|) && col <= p < |v| && Unit(mat, |v|, col) && mat[p][col] != 0
    ensures Solves(code, Cleared(code, mat, |v|, col, p), v) <==> Solves(code, mat, v)
  {
    hide Mul, Add, Inv, Cleared, Dot, Plus, Times, Unit;
    var n, z := |v|, v + [1];
    ClearedRows(code, mat, n, col, p);
    var swapped, cleared := Swapped(mat, col, p), Cleared(code, mat, n, col, p);
    forall r | 0 <= r < n
      ensures Dot(code, cleared[col], z) == 0 <==> Dot(code, mat[p], z) == 0
      ensures Dot(code, mat[p], z) == 0 && r != col ==> Dot(code, cleared[r], z) == Dot(code, swapped[r], z)
    {
      RowsHold(code, swapped[r], mat[p], z);
      RowsHold(code, swapped[r], Times(code, Inv(code, mat[p][col]), mat[p]), z);
    }
    if Solves(code, cleared, v) {
      forall r | 0 <= r < n
        ensures Dot(code, mat[r], z) == 0
      {
        var q := if r == p then col else if r == col then p else r;
        assert swapped[q] == mat[r] && Dot(code, cleared[q], z) == 0 && Dot(code, cleared[col], z) == 0;
      }
    }
    if Solves(code, mat, v) {
      forall r | 0 <= r < n
        ensures Dot(code, cleared[r], z) == 0
      {
        var q := if r == p then col else if r == col then p else r;
        assert swapped[r] == mat[q] && Dot(code, mat[q], z) == 0 && Dot(code, mat[p], z) == 0;
      }
    }
  }

  // ---- a pivot is never missing ---------------------------------------------------------

  /** A column without a pivot as a second solution's distance from the first. */
  function Slack(mat: Matrix, n: nat, col: nat): (h: Word)
    requires IsMatrix(mat, n) && col < n
    ensures |h| == n + 1
  {
    seq(n + 1, k requires 0 <= k < n + 1 => if k < col then mat[k][col] else if k == col then 1 else 0)
  }

  lemma SlackIsFree(code: Code, mat: Matrix, n: nat, col: nat, r: nat)
    requires IsMatrix(mat, n) && col < n && r < n && Unit(mat, n, col)
    requires forall q :: col <= q < n ==> mat[q][col] == 0
    ensures Dot(code, mat[r], Slack(mat, n, col)) == 0
  {
    hide Mul, Add, Total;
    var products := Products(code, mat[r], Slack(mat, n, col));
    var rest := products[col := 0];
    MulByOne(code, mat[r][col]);
    forall k | 0 <= k < n + 1 && k != col
      ensures products[k] == if k == r && r < col then mat[r][col] else 0
    {
      MulIsZero(code, mat[r][k], Slack(mat, n, col)[k]);
    }
    TotalChanged(rest, col, mat[r][col]);
    AddZero(mat[r][col]);
    assert rest[col := mat[r][col]] == products;
    if r < col {
      TotalOfOne(rest, r);
    } else {
      TotalOfNothing(rest);
    }
  }

  lemma PivotExists(code: Code, mat: Matrix, y: Word, col: nat)
    requires IsMatrix(mat, |y|) && col < |y| && Unit(mat, |y|, col) && OnlySolution(code, mat, y)
    ensures Pivot(mat, |y|, col, col).Some? && mat[Pivot(mat, |y|, col, col).value][col] != 0
  {
    hide Mul, Add, Dot;
    var n := |y|;
    PivotStands(mat, n, col, col);
    if Pivot(mat, n, col, col).None? {
      var h := Slack(mat, n, col);
      var v := Plus(y, h[..n]);
      AddZero(1);
      assert Plus(y + [1], h) == v + [1];
      assert Solves(code, mat, y);
      forall r | 0 <= r < n
        ensures Dot(code, mat[r], v + [1]) == 0
      {
        SlackIsFree(code, mat, n, col, r);
        DotAdds(code, y + [1], h, mat[r]);
        AddZero(0);
        assert Dot(code, mat[r], y + [1]) == 0;
      }
      assert v == y && v[col] == Add(y[col], 1);
      AddTwice(y[col], 1);
      AddZero(y[col]);
    }
  }

  // ---- elimination ---------------------------------------------------------------------------

  lemma UnitIsSolved(code: Code, mat: Matrix, y: Word, r: nat)
    requires IsMatrix(mat, |y|) && Unit(mat, |y|, |y|) && Solves(code, mat, y) && r < |y|
    ensures mat[r][|y|] == y[r]
  {
    hide Mul, Add, Total;
    var n, products := |y|, Products(code, mat[r], y + [1]);
    var rest := products[n := 0];
    forall k | 0 <= k < n
      ensures products[k] == if k == r then y[r] else 0
    {
      MulIsZero(code, 0, y[k]);
      MulByOne(code, y[k]);
    }
    MulByOne(code, mat[r][n]);
    AddZero(mat[r][n]);
    TotalOfOne(rest, r);
    TotalChanged(rest, n, mat[r][n]);
    assert rest[n := mat[r][n]] == products;
    assert Dot(code, mat[r], y + [1]) == 0;
    AddTwice(y[r], mat[r][n]);
  }

  /** Where the equations have one solution, elimination ends with it in the last column. */
  lemma {:induction false} EliminationSolves(code: Code, mat: Matrix, y: Word, col: nat)
    requires IsMatrix(mat, |y|) && col <= |y| && Unit(mat, |y|, col) && OnlySolution(code, mat, y)
    ensures var r := Eliminated(code, mat, |y|, col); r.Some? && forall i :: 0 <= i < |y| ==> r.value[i][|y|] == y[i]
    decreases |y| - col
  {
    hide Unit, Solves, Cleared;
    if col == |y| {
      assert Solves(code, mat, y);
      forall i | 0 <= i < |y|
        ensures mat[i][|y|] == y[i]
      {
        UnitIsSolved(code, mat, y, i);
      }
    } else {
      PivotExists(code, mat, y, col);
      var p := Pivot(mat, |y|, col, col).value;
      var cleared := Cleared(code, mat, |y|, col, p);
      ClearedIsUnit(code, mat, |y|, col, p);
      forall v: Word | |v| == |y|
        ensures Solves(code, cleared, v) <==> v == y
      {
        ClearedSolves(code, mat, v, col, p);
      }
      EliminationSolves(code, cleared, y, col + 1);
    }
  }

  // ---- what the equations say -----------------------------------------------------------------

  ghost predicate Distinct(positions: seq<nat>) {
    forall i, j :: 0 <= i < j < |positions| ==> positions[i] != positions[j]
  }

  ghost predicate Below(positions: seq<nat>, n: nat) {
    forall i :: 0 <= i < |positions| ==> positions[i] < n
  }

  function PowersAt(code: Code, positions: seq<nat>, k: nat): (r: Word)
    ensures |r| == |positions|
  {
    seq(|positions|, i requires 0 <= i < |positions| => Power(code, k * positions[i]))
  }

  lemma {:induction false} TotalExtends(s: Word, x: bv8)
    ensures Total(s + [x]) == Add(Total(s), x)
  {
    hide Add;
    if s == [] {
      AddZero(x);
    } else {
      TotalExtends(s[1..], x);
      assert (s + [x])[1..] == s[1..] + [x];
      AddAssociates(s[0], Total(s[1..]), x);
    }
  }

  lemma {:induction false} FixedMoment(code: Code, cw: Word, positions: seq<nat>, v: Word, k: nat)
    requires |v| == |positions| && Below(positions, |cw|)
    ensures Moment(code, Fixed(cw, positions, v), k) == Add(Dot(code, PowersAt(code, positions, k), v), Moment(code, cw, k))
    decreases |positions|
  {
    hide Mul, Add, Power, Moment;
    var powers := PowersAt(code, positions, k);
    var m := Moment(code, cw, k);
    if positions == [] {
      AddZero(m);
    } else {
      var i := positions[0];
      FixedMoment(code, cw[i := Add(cw[i], v[0])], positions[1..], v[1..], k);
      MomentChanges(code, cw, i, v[0], k);
      MulCommutes(code, v[0], powers[0]);
      var rest := Products(code, PowersAt(code, positions[1..], k), v[1..]);
      assert Products(code, powers, v)[1..] == rest;
      AddAssociates(Mul(code, powers[0], v[0]), Total(rest), m);
      AddAssociates(Total(rest), m, Mul(code, powers[0], v[0]));
      AddAssociates(Total(rest), Mul(code, powers[0], v[0]), m);
    }
  }

  lemma EquationHolds(code: Code, syn: seq<bv8>, bad: Word, positions: seq<nat>, v: Word, r: nat)
    requires |v| == |positions| <= |syn| && Below(positions, |bad|) && r < |positions|
    requires syn[r] == Moment(code, bad, r + 1)
    ensures Dot(code, Equations(code, syn, positions)[r], v + [1]) == Moment(code, Fixed(bad, positions, v), r + 1)
  {
    hide Mul, Add, Power, Moment, Total;
    var row, powers := Equations(code, syn, positions)[r], PowersAt(code, positions, r + 1);
    assert |row| == |powers| + 1;
    forall k | 0 <= k < |positions|
      ensures row[k] == powers[k]
    {
      EquationTerm(code, syn, positions, r, k);
    }
    MulByOne(code, syn[r]);
    assert Products(code, row, v + [1]) == Products(code, powers, v) + [syn[r]];
    TotalExtends(Products(code, powers, v), syn[r]);
    FixedMoment(code, bad, positions, v, r + 1);
  }

  lemma EquationTerm(code: Code, syn: seq<bv8>, positions: seq<nat>, r: nat, k: nat)
    requires |positions| <= |syn| && r < |positions| && k < |positions|
    ensures Equations(code, syn, positions)[r][k] == Power(code, (r + 1) * positions[k])
  {
    hide Power;
    var e := positions[k] * (r + 1);
    assert e == (r + 1) * positions[k];
    assert e % ORDER % ORDER == e % ORDER;
    PowerModulo(code, e);
  }

  // ---- mending --------------------------------------------------------------------------------

  lemma {:induction false} FixedOutside(cw: Word, positions: seq<nat>, v: Word, i: nat)
    requires |v| == |positions| && Below(positions, |cw|) && i < |cw| && i !in positions
    ensures Fixed(cw, positions, v)[i] == cw[i]
    decreases |positions|
  {
    hide Add;
    if positions != [] {
      assert positions[0] in positions;
      FixedOutside(cw[positions[0] := Add(cw[positions[0]], v[0])], positions[1..], v[1..], i);
    }
  }

  lemma {:induction false} FixedInside(cw: Word, positions: seq<nat>, v: Word, j: nat)
    requires |v| == |positions| && Below(positions, |cw|) && Distinct(positions) && j < |positions|
    ensures Fixed(cw, positions, v)[positions[j]] == Add(cw[positions[j]], v[j])
    decreases |positions|
  {
    hide Add;
    var next := cw[positions[0] := Add(cw[positions[0]], v[0])];
    if j == 0 {
      FixedOutside(next, positions[1..], v[1..], positions[0]);
    } else {
      FixedInside(next, positions[1..], v[1..], j - 1);
    }
  }

  /** The errors at the positions. */
  function ErrorsAt(w: Word, positions: seq<nat>): (r: Word)
    requires Below(positions, |w|)
    ensures |r| == |positions|
  {
    seq(|positions|, j requires 0 <= j < |positions| => w[positions[j]])
  }

  /** The errors added where they are give the codeword back, and no other values do. */
  lemma OnlyErrorsMend(cw: Word, bad: Word, positions: seq<nat>, v: Word)
    requires |cw| == |bad| && |v| == |positions| && Below(positions, |cw|) && Distinct(positions)
    requires forall i :: i in Support(Plus(cw, bad)) ==> i in positions
    ensures Fixed(bad, positions, v) == cw <==> v == ErrorsAt(Plus(cw, bad), positions)
  {
    hide Add, Fixed;
    var w := Plus(cw, bad);
    var fixed := Fixed(bad, positions, v);
    forall j | 0 <= j < |positions|
      ensures fixed[positions[j]] == cw[positions[j]] <==> v[j] == w[positions[j]]
    {
      var i := positions[j];
      FixedInside(bad, positions, v, j);
      AddTwice(cw[i], bad[i]);
      AddAssociates(bad[i], v[j], 0);
      AddTwice(v[j], bad[i]);
      AddTwice(bad[i], cw[i]);
      AddAssociates(cw[i], bad[i], 0);
    }
    if v == ErrorsAt(w, positions) {
      forall i | 0 <= i < |cw|
        ensures fixed[i] == cw[i]
      {
        if i in positions {
          var j :| 0 <= j < |positions| && positions[j] == i;
        } else {
          FixedOutside(bad, positions, v, i);
          AddTwice(cw[i], bad[i]);
          assert i !in Support(w);
        }
      }
    }
  }

  lemma {:induction false} DistinctAreCounted(positions: seq<nat>, s: set<nat>)
    requires Distinct(positions) && forall i :: i in positions <==> i in s
    ensures |positions| == |s|
    decreases |positions|
  {
    if positions == [] {
      assert s == {};
    } else {
      var last := positions[|positions| - 1];
      assert last in s;
      DistinctAreCounted(positions[..|positions| - 1], s - {last});
      assert |s - {last}| == |s| - 1;
    }
  }

  /** Values that make as many moments 0 as there are positions give the codeword back. */
  lemma SilentIsMended(code: Code, cw: Word, bad: Word, positions: seq<nat>, v: Word)
    requires |cw| == |bad| <= ORDER && |v| == |positions| && Below(positions, |cw|) && Distinct(positions)
    requires forall i :: i in Support(Plus(cw, bad)) <==> i in positions
    requires Silent(code, cw, 1, |positions|) && Silent(code, Fixed(bad, positions, v), 1, |positions|)
    ensures Fixed(bad, positions, v) == cw
  {
    hide Add, Moment, Fixed;
    var fixed := Fixed(bad, positions, v);
    var z := Plus(fixed, cw);
    forall i | i in Support(z)
      ensures i in Support(Plus(cw, bad))
    {
      if i !in positions {
        FixedOutside(bad, positions, v, i);
        assert i !in Support(Plus(cw, bad));
        AddTwice(cw[i], bad[i]);
        AddTwice(fixed[i], cw[i]);
      }
    }
    DistinctAreCounted(positions, Support(Plus(cw, bad)));
    Fewer(Support(z), Support(Plus(cw, bad)));
    forall k: nat | 1 <= k < 1 + |positions|
      ensures Moment(code, z, k) == 0
    {
      MomentAdds(code, fixed, cw, k);
      AddZero(0);
    }
    FewErrorsShow(code, z, 1, |positions|);
    forall i | 0 <= i < |cw|
      ensures fixed[i] == cw[i]
    {
      assert z[i] == 0;
      AddTwice(fixed[i], cw[i]);
    }
  }

  /** The magnitudes found are the errors. */
  lemma MagnitudesAreErrors(code: Code, syn: seq<bv8>, cw: Word, bad: Word, positions: seq<nat>)
    requires |cw| == |bad| <= ORDER && |positions| <= |syn| && Below(positions, |cw|) && Distinct(positions)
    requires forall i :: i in Support(Plus(cw, bad)) <==> i in positions
    requires forall n :: 0 <= n < |syn| ==> syn[n] == Moment(code, bad, n + 1)
    requires Silent(code, cw, 1, |syn|)
    ensures Magnitudes(code, syn, positions) == Some(ErrorsAt(Plus(cw, bad), positions))
  {
    hide Moment, Fixed, Dot, Equations, Eliminated, Distinct, Below, Support, Plus;
    var y, mat := ErrorsAt(Plus(cw, bad), positions), Equations(code, syn, positions);
    forall v: Word | |v| == |positions|
      ensures Solves(code, mat, v) <==> v == y
    {
      EquationsSolve(code, syn, cw, bad, positions, v);
    }
    EliminationSolves(code, mat, y, 0);
  }

  lemma EquationsSolve(code: Code, syn: seq<bv8>, cw: Word, bad: Word, positions: seq<nat>, v: Word)
    requires |cw| == |bad| <= ORDER && |v| == |positions| <= |syn| && Below(positions, |cw|) && Distinct(positions)
    requires forall i :: i in Support(Plus(cw, bad)) <==> i in positions
    requires forall n :: 0 <= n < |syn| ==> syn[n] == Moment(code, bad, n + 1)
    requires Silent(code, cw, 1, |syn|)
    ensures Solves(code, Equations(code, syn, positions), v) <==> v == ErrorsAt(Plus(cw, bad), positions)
  {
    hide Moment, Fixed, Dot, Equations, Distinct, Support, Plus, ErrorsAt;
    var fixed := Fixed(bad, positions, v);
    forall r | 0 <= r < |v|
      ensures Dot(code, Equations(code, syn, positions)[r], v + [1]) == Moment(code, fixed, r + 1)
    {
      EquationHolds(code, syn, bad, positions, v, r);
    }
    OnlyErrorsMend(cw, bad, positions, v);
    if Solves(code, Equations(code, syn, positions), v) {
      forall k: nat | 1 <= k < 1 + |positions|
        ensures Moment(code, fixed, k) == 0
      {
        assert Dot(code, Equations(code, syn, positions)[k - 1], v + [1]) == 0;
      }
      SilentIsMended(code, cw, bad, positions, v);
    }
  }
}
