/** The Reed-Solomon decoder of `src/reed_solomon.rs`: syndromes, the Berlekamp-Massey error
    locator, the search for its roots and the magnitudes by Gaussian elimination. Each loop is
    proved to compute a function; `RsLaws` says what the functions find. */
module RsDecoder {
  import opened GaloisField
  import opened Results

  const CODEWORD_BYTES: nat := ORDER

  // ---- syndromes -------------------------------------------------------------

  /** A polynomial, lowest coefficient first, at `x`. */
  function Eval(code: Code, poly: seq<bv8>, x: bv8): bv8 {
    if poly == [] then 0 else Add(Mul(code, Eval(code, poly[1..], x), x), poly[0])
  }

  function Syndromes(code: Code, cw: seq<bv8>): (r: seq<bv8>)
    ensures |r| == code.Parity()
  {
    seq(code.Parity(), j requires 0 <= j < code.Parity() => Eval(code, cw, Alpha(code, j + 1)))
  }

  predicate AllZero(s: seq<bv8>) {
    forall i :: 0 <= i < |s| ==> s[i] == 0
  }

  method EvalLowFirst(code: Code, poly: seq<bv8>, x: bv8) returns (y: bv8)
    ensures y == Eval(code, poly, x)
  {
    y := 0;
    var i := |poly|;
    while i > 0
      invariant 0 <= i <= |poly| && y == Eval(code, poly[i..], x)
    {
      i := i - 1;
      assert poly[i..][1..] == poly[i + 1..];
      y := Add(Mul(code, y, x), poly[i]);
    }
    assert poly[0..] == poly;
  }

  // ---- the error locator ---------------------------------------------------------

  datatype State = State(c: seq<bv8>, b: seq<bv8>, l: nat, m: nat, last: bv8) {
    predicate Valid(n: nat) {
      c != [] && b != [] && l <= n
    }
  }

  const START: State := State([1], [1], 0, 1, 1)

  function Least(a: nat, b: nat): nat {
    if a < b then a else b
  }

  /** What the locator so far makes of the syndromes before the `n`-th, from its `i`-th
      coefficient on. */
  function Predicted(code: Code, syn: seq<bv8>, c: seq<bv8>, n: nat, l: nat, i: nat): bv8
    requires n < |syn| && l <= n && c != [] && i > 0
    decreases l + 1 - i
  {
    if i > Least(l, |c| - 1) then 0
    else Add(Mul(code, c[i], syn[n - i]), Predicted(code, syn, c, n, l, i + 1))
  }

  function Discrepancy(code: Code, syn: seq<bv8>, c: seq<bv8>, n: nat, l: nat): bv8
    requires n < |syn| && l <= n && c != []
  {
    Add(syn[n], Predicted(code, syn, c, n, l, 1))
  }

  function At(s: seq<bv8>, i: int): bv8 {
    if 0 <= i < |s| then s[i] else 0
  }

  /** `c` with `b`, moved up by `m` and scaled, added to it. */
  function Corrected(code: Code, c: seq<bv8>, b: seq<bv8>, m: nat, scale: bv8): (r: seq<bv8>)
    ensures |r| == if |c| < |b| + m then |b| + m else |c|
  {
    seq(if |c| < |b| + m then |b| + m else |c|, i => Add(At(c, i), Mul(code, scale, At(b, i - m))))
  }

  function Next(code: Code, syn: seq<bv8>, n: nat, st: State): (r: State)
    requires n < |syn| && st.Valid(n)
    ensures r.Valid(n + 1)
  {
    var d := Discrepancy(code, syn, st.c, n, st.l);
    if d == 0 then st.(m := st.m + 1)
    else
      var c := Corrected(code, st.c, st.b, st.m, Mul(code, d, Inv(code, st.last)));
      if 2 * st.l <= n then State(c, st.c, n + 1 - st.l, 1, d) else st.(c := c, m := st.m + 1)
  }

  function Run(code: Code, syn: seq<bv8>, n: nat, st: State): (r: State)
    requires n <= |syn| && st.Valid(n)
    ensures r.Valid(|syn|)
    decreases |syn| - n
  {
    if n == |syn| then st else Run(code, syn, n + 1, Next(code, syn, n, st))
  }

  function Truncated(c: seq<bv8>, n: nat): seq<bv8> {
    if n < |c| then c[..n] else c
  }

  function Locator(code: Code, syn: seq<bv8>): seq<bv8> {
    var st := Run(code, syn, 0, START);
    Truncated(st.c, st.l + 1)
  }

  method AddScaled(code: Code, c0: seq<bv8>, b: seq<bv8>, m: nat, scale: bv8) returns (c: seq<bv8>)
    ensures c == Corrected(code, c0, b, m, scale)
  {
    hide Mul, Add;
    c := c0;
    if |c| < |b| + m {
      c := c + seq(|b| + m - |c|, _ => 0);
    }
    for i := 0 to |b|
      invariant |c| == |Corrected(code, c0, b, m, scale)|
      invariant forall k :: 0 <= k < |c| ==>
        c[k] == if m <= k < m + i then Add(At(c0, k), Mul(code, scale, At(b, k - m))) else At(c0, k)
    {
      c := c[i + m := Add(c[i + m], Mul(code, scale, b[i]))];
    }
    forall k | 0 <= k < |c|
      ensures c[k] == Add(At(c0, k), Mul(code, scale, At(b, k - m)))
    {
      ScaledZero(code, scale);
      AddZero(At(c0, k));
    }
  }

  lemma ScaledZero(code: Code, scale: bv8)
    ensures Mul(code, scale, 0) == 0
  {
  }

  method Differ(code: Code, syn: seq<bv8>, c: seq<bv8>, n: nat, l: nat) returns (d: bv8)
    requires n < |syn| && l <= n && c != []
    ensures d == Discrepancy(code, syn, c, n, l)
  {
    hide Mul, Add;
    d := syn[n];
    for i := 1 to Least(l, |c| - 1) + 1
      invariant Add(d, Predicted(code, syn, c, n, l, i)) == Discrepancy(code, syn, c, n, l)
    {
      AddAssociates(d, Mul(code, c[i], syn[n - i]), Predicted(code, syn, c, n, l, i + 1));
      d := Add(d, Mul(code, c[i], syn[n - i]));
    }
    AddZero(d);
  }

  method BerlekampMassey(code: Code, syn: seq<bv8>) returns (locator: seq<bv8>)
    ensures locator == Locator(code, syn)
  {
    hide Mul, Inv, Corrected, Add, Discrepancy;
    var c: seq<bv8>, b: seq<bv8>, last: bv8 := [1], [1], 1;
    var l: nat, m: nat := 0, 1;
    for n := 0 to |syn|
      invariant State(c, b, l, m, last).Valid(n)
      invariant Run(code, syn, 0, START) == Run(code, syn, n, State(c, b, l, m, last))
    {
      var d := Differ(code, syn, c, n, l);
      if d == 0 {
        m := m + 1;
      } else {
        var scale := Mul(code, d, Inv(code, last));
        var previous := c;
        c := AddScaled(code, c, b, m, scale);
        if 2 * l <= n {
          l, b, last, m := n + 1 - l, previous, d, 1;
        } else {
          m := m + 1;
        }
      }
    }
    locator := Truncated(c, l + 1);
  }

  // ---- positions and magnitudes ---------------------------------------------------

  predicate IsRoot(code: Code, locator: seq<bv8>, i: nat) {
    Eval(code, locator, AlphaInverse(code, i)) == 0
  }

  /** The bytes below the `n`-th that the locator points at. */
  function Positions(code: Code, locator: seq<bv8>, n: nat): seq<nat> {
    if n == 0 then []
    else Positions(code, locator, n - 1) + if IsRoot(code, locator, n - 1) then [n - 1] else []
  }

  type Matrix = seq<seq<bv8>>

  predicate IsMatrix(mat: Matrix, n: nat) {
    |mat| == n && forall r :: 0 <= r < n ==> |mat[r]| == n + 1
  }

  /** The equations for the magnitudes: a power of each position, and the syndrome. */
  function Equations(code: Code, syn: seq<bv8>, positions: seq<nat>): (mat: Matrix)
    requires |positions| <= |syn|
    ensures IsMatrix(mat, |positions|)
  {
    seq(|positions|, row requires 0 <= row < |positions| =>
      seq(|positions|, k requires 0 <= k < |positions| => Alpha(code, positions[k] * (row + 1) % ORDER)) + [syn[row]])
  }

  /** The first row from the `r`-th on with something in the column. */
  function Pivot(mat: Matrix, n: nat, col: nat, r: nat): (p: Option<nat>)
    requires IsMatrix(mat, n) && col < n && r <= n
    ensures p.Some? ==> r <= p.value < n
    decreases n - r
  {
    if r == n then None else if mat[r][col] != 0 then Some(r) else Pivot(mat, n, col, r + 1)
  }

  function Swapped(mat: Matrix, a: nat, b: nat): Matrix
    requires a < |mat| && b < |mat|
  {
    mat[a := mat[b]][b := mat[a]]
  }

  function Scaled(code: Code, row: seq<bv8>, col: nat, factor: bv8): (r: seq<bv8>)
    ensures |r| == |row|
  {
    seq(|row|, k requires 0 <= k < |row| => if k < col then row[k] else Mul(code, row[k], factor))
  }

  function Reduced(code: Code, row: seq<bv8>, col: nat, pivot: seq<bv8>): (r: seq<bv8>)
    requires |pivot| == |row| && col < |row|
    ensures |r| == |row|
  {
    if row[col] == 0 then row
    else seq(|row|, k requires 0 <= k < |row| => if k < col then row[k] else Add(row[k], Mul(code, row[col], pivot[k])))
  }

  /** The column cleared but for its pivot, which becomes 1. */
  function Cleared(code: Code, mat: Matrix, n: nat, col: nat, p: nat): (r: Matrix)
    requires IsMatrix(mat, n) && col < n && p < n
    ensures IsMatrix(r, n)
  {
    var swapped := Swapped(mat, col, p);
    var pivot := Scaled(code, swapped[col], col, Inv(code, swapped[col][col]));
    seq(n, r requires 0 <= r < n => if r == col then pivot else Reduced(code, swapped[r], col, pivot))
  }

  function Eliminated(code: Code, mat: Matrix, n: nat, col: nat): (r: Option<Matrix>)
    requires IsMatrix(mat, n) && col <= n
    ensures r.Some? ==> IsMatrix(r.value, n)
    decreases n - col
  {
    if col == n then Some(mat)
    else match Pivot(mat, n, col, col)
      case None => None
      case Some(p) => Eliminated(code, Cleared(code, mat, n, col, p), n, col + 1)
  }

  function Magnitudes(code: Code, syn: seq<bv8>, positions: seq<nat>): (r: Option<seq<bv8>>)
    requires |positions| <= |syn|
    ensures r.Some? ==> |r.value| == |positions|
  {
    var n := |positions|;
    match Eliminated(code, Equations(code, syn, positions), n, 0)
    case None => None
    case Some(mat) => Some(seq(n, r requires 0 <= r < n => mat[r][n]))
  }

  method SolveMagnitudes(code: Code, syn: seq<bv8>, positions: seq<nat>) returns (r: Option<seq<bv8>>)
    requires |positions| <= |syn|
    ensures r == Magnitudes(code, syn, positions)
  {
    hide Mul, Add, Inv, Equations, Cleared;
    var n, mat := |positions|, Equations(code, syn, positions);
    for col := 0 to n
      invariant IsMatrix(mat, n)
      invariant Eliminated(code, Equations(code, syn, positions), n, 0) == Eliminated(code, mat, n, col)
    {
      var p := col;
      while p < n && mat[p][col] == 0
        invariant col <= p <= n && Pivot(mat, n, col, col) == Pivot(mat, n, col, p)
      {
        p := p + 1;
      }
      if p == n {
        return None;
      }
      mat := ClearColumn(code, mat, n, col, p);
    }
    return Some(seq(n, r requires 0 <= r < n => mat[r][n]));
  }

  method ClearColumn(code: Code, mat0: Matrix, n: nat, col: nat, p: nat) returns (mat: Matrix)
    requires IsMatrix(mat0, n) && col < n && p < n
    ensures mat == Cleared(code, mat0, n, col, p)
  {
    hide Mul, Add, Inv, Scaled, Reduced;
    mat := mat0[col := mat0[p]][p := mat0[col]];
    ghost var swapped := mat;
    var inv := Inv(code, mat[col][col]);
    var pivot := Scaled(code, mat[col], col, inv);
    mat := mat[col := pivot];
    for r := 0 to n
      invariant IsMatrix(mat, n)
      invariant forall k :: 0 <= k < n ==>
        mat[k] == if k == col then pivot else if k < r then Reduced(code, swapped[k], col, pivot) else swapped[k]
    {
      if r != col {
        mat := mat[r := Reduced(code, mat[r], col, pivot)];
      }
    }
  }

  // ---- the check -----------------------------------------------------------------------

  /** The bytes at the positions, each with its magnitude added. */
  function Fixed(cw: seq<bv8>, positions: seq<nat>, magnitudes: seq<bv8>): (r: seq<bv8>)
    requires |positions| == |magnitudes| && forall i :: 0 <= i < |positions| ==> positions[i] < |cw|
    ensures |r| == |cw|
    decreases |positions|
  {
    if positions == [] then cw
    else Fixed(cw[positions[0] := Add(cw[positions[0]], magnitudes[0])], positions[1..], magnitudes[1..])
  }

  lemma {:induction false} PositionsBelow(code: Code, locator: seq<bv8>, n: nat)
    ensures forall i :: 0 <= i < |Positions(code, locator, n)| ==> Positions(code, locator, n)[i] < n
  {
    if n > 0 {
      PositionsBelow(code, locator, n - 1);
    }
  }

  /** The codeword corrected and how many bytes that took; none for one that cannot be. */
  function Verified(code: Code, cw: seq<bv8>): (r: Option<(seq<bv8>, nat)>)
    ensures r.Some? ==> |r.value.0| == |cw|
  {
    var syn := Syndromes(code, cw);
    if |cw| != CODEWORD_BYTES then None
    else if AllZero(syn) then Some((cw, 0))
    else
      var locator := Locator(code, syn);
      var degree := |locator| - 1;
      var positions := Positions(code, locator, CODEWORD_BYTES);
      if degree <= 0 || degree > code.Parity() / 2 || |positions| != degree then None
      else
        PositionsBelow(code, locator, CODEWORD_BYTES);
        match Magnitudes(code, syn, positions)
        case None => None
        case Some(magnitudes) =>
          var fixed := Fixed(cw, positions, magnitudes);
          if AllZero(Syndromes(code, fixed)) then Some((fixed, |positions|)) else None
  }

  method FindPositions(code: Code, locator: seq<bv8>) returns (positions: seq<nat>)
    ensures positions == Positions(code, locator, CODEWORD_BYTES)
  {
    hide Eval, AlphaInverse;
    positions := [];
    for i := 0 to CODEWORD_BYTES
      invariant positions == Positions(code, locator, i)
    {
      var y := EvalLowFirst(code, locator, AlphaInverse(code, i));
      if y == 0 {
        positions := positions + [i];
      }
    }
  }

  method ComputeSyndromes(code: Code, cw: seq<bv8>) returns (syn: seq<bv8>)
    ensures syn == Syndromes(code, cw)
  {
    hide Eval, Alpha;
    syn := [];
    for j := 1 to code.Parity() + 1
      invariant |syn| == j - 1 && forall k :: 0 <= k < j - 1 ==> syn[k] == Eval(code, cw, Alpha(code, k + 1))
    {
      var s := EvalLowFirst(code, cw, Alpha(code, j));
      syn := syn + [s];
    }
  }

  method ApplyMagnitudes(cw: seq<bv8>, positions: seq<nat>, magnitudes: seq<bv8>) returns (fixed: seq<bv8>)
    requires |positions| == |magnitudes| && forall i :: 0 <= i < |positions| ==> positions[i] < |cw|
    ensures fixed == Fixed(cw, positions, magnitudes)
  {
    hide Add;
    fixed := cw;
    for i := 0 to |positions|
      invariant |fixed| == |cw| && Fixed(cw, positions, magnitudes) == Fixed(fixed, positions[i..], magnitudes[i..])
    {
      assert positions[i..][1..] == positions[i + 1..] && magnitudes[i..][1..] == magnitudes[i + 1..];
      fixed := fixed[positions[i] := Add(fixed[positions[i]], magnitudes[i])];
    }
  }

  method Correct(code: Code, cw: seq<bv8>) returns (r: Option<(seq<bv8>, nat)>)
    ensures r == Verified(code, cw)
  {
    hide Syndromes, Locator, Positions, Magnitudes, Fixed, AllZero;
    if |cw| != CODEWORD_BYTES {
      return None;
    }
    var syn := ComputeSyndromes(code, cw);
    if AllZero(syn) {
      return Some((cw, 0));
    }
    var locator := BerlekampMassey(code, syn);
    var degree := |locator| - 1;
    var positions := FindPositions(code, locator);
    if degree <= 0 || degree > code.Parity() / 2 || |positions| != degree {
      return None;
    }
    PositionsBelow(code, locator, CODEWORD_BYTES);
    var magnitudes := SolveMagnitudes(code, syn, positions);
    if magnitudes.None? {
      return None;
    }
    var fixed := ApplyMagnitudes(cw, positions, magnitudes.value);
    var left := ComputeSyndromes(code, fixed);
    if !AllZero(left) {
      return None;
    }
    return Some((fixed, |positions|));
  }

  /** Check a codeword and correct it in place; one that cannot be corrected stays as it was. */
  method Verify(code: Code, codeword: array<bv8>) returns (r: Option<nat>)
    modifies codeword
    ensures match Verified(code, old(codeword[..]))
            case None => r == None && codeword[..] == old(codeword[..])
            case Some((fixed, n)) => r == Some(n) && codeword[..] == fixed
  {
    hide Verified;
    ghost var cw := codeword[..];
    var corrected := Correct(code, codeword[..]);
    if corrected.None? {
      return None;
    }
    var (fixed, n) := corrected.value;
    for i := 0 to codeword.Length
      invariant codeword[..] == fixed[..i] + cw[i..]
    {
      codeword[i] := fixed[i];
    }
    assert fixed[..codeword.Length] == fixed;
    return Some(n);
  }
}
