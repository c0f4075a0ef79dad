/** The fields of 256 elements that the two Reed-Solomon codes of R2007 compute in (`Field` of
    `src/reed_solomon.rs`): powers of 2 by shift and exclusive or, logarithms, products. */
module GaloisField {
  datatype Code = SystemPage | DataPage {
    /** The low eight digits of the primitive polynomial. */
    function Fold(): bv8 {
      if SystemPage? then 0x69 else 0x1D
    }

    function Parity(): nat {
      if SystemPage? then 16 else 4
    }
  }

  const ORDER: nat := 255

  /** Shifted left, the digit that falls out folded back in. */
  function Folded(x: bv8, fold: bv8): bv8 {
    if x & 0x80 != 0 then Add(x << 1, fold) else x << 1
  }

  function Twice(code: Code, x: bv8): bv8 {
    Folded(x, code.Fold())
  }

  /** `x` doubled `n` times. */
  function Doubled(code: Code, x: bv8, n: nat): bv8 {
    if n == 0 then x else Twice(code, Doubled(code, x, n - 1))
  }

  function Power(code: Code, n: nat): bv8 {
    Doubled(code, 1, n)
  }

  /** The sum of two elements: exclusive or. */
  function Add(x: bv8, y: bv8): bv8 {
    x ^ y
  }

  lemma AddZero(x: bv8)
    ensures Add(x, 0) == x && Add(0, x) == x && Add(x, x) == 0
  {
  }

  lemma AddAssociates(x: bv8, y: bv8, z: bv8)
    ensures Add(Add(x, y), z) == Add(x, Add(y, z))
    ensures Add(Add(x, y), z) == Add(Add(x, z), y)
    ensures Add(x, y) == Add(y, x)
  {
  }

  /** What is added twice is gone, and only equal elements add up to 0. */
  lemma AddTwice(x: bv8, y: bv8)
    ensures Add(Add(x, y), y) == x && Add(x, Add(x, y)) == y
    ensures Add(x, y) == 0 <==> x == y
  {
  }

  lemma ShiftIsLinear(x: bv8, y: bv8)
    ensures Add(x, y) << 1 == Add(x << 1, y << 1)
  {
  }

  lemma TopDigit(x: bv8, y: bv8)
    ensures Add(x, y) & 0x80 != 0 <==> (x & 0x80 != 0) != (y & 0x80 != 0)
  {
  }

  lemma FoldedIsLinear(x: bv8, y: bv8, fold: bv8)
    ensures Folded(Add(x, y), fold) == Add(Folded(x, fold), Folded(y, fold))
  {
    hide Add;
    ShiftIsLinear(x, y);
    TopDigit(x, y);
    var a, b := x << 1, y << 1;
    AddAssociates(a, b, fold);
    AddAssociates(a, fold, b);
    AddAssociates(a, fold, Add(b, fold));
    AddAssociates(b, fold, fold);
    AddTwice(b, fold);
    AddTwice(fold, b);
  }

  lemma TwiceIsLinear(code: Code, x: bv8, y: bv8)
    ensures Twice(code, Add(x, y)) == Add(Twice(code, x), Twice(code, y))
  {
    hide Folded, Add;
    FoldedIsLinear(x, y, code.Fold());
  }

  lemma TwiceIsOneToOne(code: Code, x: bv8, y: bv8)
    requires Twice(code, x) == Twice(code, y)
    ensures x == y
  {
  }

  lemma {:induction false} DoubledAgain(code: Code, x: bv8, a: nat, b: nat)
    ensures Doubled(code, x, a + b) == Doubled(code, Doubled(code, x, a), b)
  {
    if b > 0 {
      DoubledAgain(code, x, a, b - 1);
    }
  }

  /** Four doublings. */
  function Step(code: Code, x: bv8): bv8 {
    Twice(code, Twice(code, Twice(code, Twice(code, x))))
  }

  /** Seventeen. */
  function Leap(code: Code, x: bv8): bv8 {
    Twice(code, Step(code, Step(code, Step(code, Step(code, x)))))
  }

  lemma StepIsFour(code: Code, x: bv8)
    ensures Step(code, x) == Doubled(code, x, 4)
  {
    hide Twice;
    assert Doubled(code, x, 2) == Twice(code, Doubled(code, x, 1));
    assert Doubled(code, x, 3) == Twice(code, Doubled(code, x, 2));
  }

  lemma LeapIsSeventeen(code: Code, n: nat)
    ensures Leap(code, Power(code, n)) == Power(code, n + 17)
  {
    hide Twice, Step;
    StepIsFour(code, Power(code, n));
    StepIsFour(code, Power(code, n + 4));
    StepIsFour(code, Power(code, n + 8));
    StepIsFour(code, Power(code, n + 12));
    DoubledAgain(code, 1, n, 4);
    DoubledAgain(code, 1, n + 4, 4);
    DoubledAgain(code, 1, n + 8, 4);
    DoubledAgain(code, 1, n + 12, 4);
  }

  lemma Hop(code: Code, n: nat, x: bv8, y: bv8)
    requires Power(code, n) == x && Leap(code, x) == y
    ensures Power(code, n + 17) == y
  {
    hide Leap;
    LeapIsSeventeen(code, n);
  }

  lemma FirstPowersOnSystemPages()
    ensures Power(SystemPage, 17) == 0x06 && Power(SystemPage, 51) == 0x78 && Power(SystemPage, 85) == 0x7F
  {
    hide Doubled;
    assert Power(SystemPage, 0) == 1 by {
      NoDoubling(SystemPage);
    }
    Hop(SystemPage, 0, 0x01, 0x06);
    Hop(SystemPage, 17, 0x06, 0x14);
    Hop(SystemPage, 34, 0x14, 0x78);
    Hop(SystemPage, 51, 0x78, 0x79);
    Hop(SystemPage, 68, 0x79, 0x7F);
  }

  lemma MiddlePowersOnSystemPages()
    ensures Power(SystemPage, 170) == 0x7E
  {
    hide Doubled;
    FirstPowersOnSystemPages();
    Hop(SystemPage, 85, 0x7F, 0x6B);
    Hop(SystemPage, 102, 0x6B, 0x13);
    Hop(SystemPage, 119, 0x13, 0x6A);
    Hop(SystemPage, 136, 0x6A, 0x15);
    Hop(SystemPage, 153, 0x15, 0x7E);
  }

  lemma PowersOnSystemPages()
    ensures Power(SystemPage, 17) == 0x06 && Power(SystemPage, 51) == 0x78
    ensures Power(SystemPage, 85) == 0x7F && Power(SystemPage, 255) == 1
  {
    hide Doubled;
    FirstPowersOnSystemPages();
    MiddlePowersOnSystemPages();
    Hop(SystemPage, 170, 0x7E, 0x6D);
    Hop(SystemPage, 187, 0x6D, 0x07);
    Hop(SystemPage, 204, 0x07, 0x12);
    Hop(SystemPage, 221, 0x12, 0x6C);
    Hop(SystemPage, 238, 0x6C, 0x01);
  }

  lemma FirstPowersOnDataPages()
    ensures Power(DataPage, 17) == 0x98 && Power(DataPage, 51) == 0x0A && Power(DataPage, 85) == 0xD6
  {
    hide Doubled;
    assert Power(DataPage, 0) == 1 by {
      NoDoubling(DataPage);
    }
    Hop(DataPage, 0, 0x01, 0x98);
    Hop(DataPage, 17, 0x98, 0x4E);
    Hop(DataPage, 34, 0x4E, 0x0A);
    Hop(DataPage, 51, 0x0A, 0x99);
    Hop(DataPage, 68, 0x99, 0xD6);
  }

  lemma MiddlePowersOnDataPages()
    ensures Power(DataPage, 170) == 0xD7
  {
    hide Doubled;
    FirstPowersOnDataPages();
    Hop(DataPage, 85, 0xD6, 0x44);
    Hop(DataPage, 102, 0x44, 0x93);
    Hop(DataPage, 119, 0x93, 0x4F);
    Hop(DataPage, 136, 0x4F, 0x92);
    Hop(DataPage, 153, 0x92, 0xD7);
  }

  lemma PowersOnDataPages()
    ensures Power(DataPage, 17) == 0x98 && Power(DataPage, 51) == 0x0A
    ensures Power(DataPage, 85) == 0xD6 && Power(DataPage, 255) == 1
  {
    hide Doubled;
    FirstPowersOnDataPages();
    MiddlePowersOnDataPages();
    Hop(DataPage, 170, 0xD7, 0xDC);
    Hop(DataPage, 187, 0xDC, 0xDD);
    Hop(DataPage, 204, 0xDD, 0x45);
    Hop(DataPage, 221, 0x45, 0x0B);
    Hop(DataPage, 238, 0x0B, 0x01);
  }

  lemma NoDoubling(code: Code)
    ensures Power(code, 0) == 1
  {
  }

  function Number(x: bv8): (n: nat)
    ensures n < 256
  {
    x as nat
  }

  lemma NumberIsOneToOne(x: bv8, y: bv8)
    ensures Number(x) == Number(y) <==> x == y
    ensures Number(0) == 0
  {
  }

  // ---- the powers return after 255 and not before -----------------------------

  lemma {:induction false} DoubledIsOneToOne(code: Code, x: bv8, y: bv8, n: nat)
    requires Doubled(code, x, n) == Doubled(code, y, n)
    ensures x == y
    decreases n
  {
    hide Twice;
    if n > 0 {
      TwiceIsOneToOne(code, Doubled(code, x, n - 1), Doubled(code, y, n - 1));
      DoubledIsOneToOne(code, x, y, n - 1);
    }
  }

  /** Where two powers agree, the power of their distance is 1. */
  lemma EqualPowers(code: Code, i: nat, j: nat)
    requires i <= j && Power(code, i) == Power(code, j)
    ensures Power(code, j - i) == 1
  {
    DoubledAgain(code, 1, j - i, i);
    DoubledIsOneToOne(code, 1, Power(code, j - i), i);
  }

  predicate Period(code: Code, n: nat) {
    n > 0 && Power(code, n) == 1
  }

  lemma {:induction false} CommonPeriod(code: Code, a: nat, b: nat) returns (g: nat)
    requires Period(code, a) && Period(code, b)
    ensures Period(code, g) && g <= a && g <= b && a % g == 0 && b % g == 0
    decreases a + b
  {
    hide Doubled;
    if a == b {
      g := a;
    } else {
      var low, high := if a < b then a else b, if a < b then b else a;
      EqualPowers(code, low, high);
      g := CommonPeriod(code, low, high - low);
      MultipleAgain(high - low, low, g);
    }
  }

  lemma MultipleAgain(a: nat, b: nat, g: nat)
    requires g > 0 && a % g == 0 && b % g == 0
    ensures (a + b) % g == 0
  {
    var p, q := a / g, b / g;
    assert a == g * p && b == g * q;
    assert a + b == g * (p + q);
    Exact(a + b, g, p + q);
  }

  lemma Exact(n: nat, g: nat, q: nat)
    requires g > 0 && n == g * q
    ensures n % g == 0
  {
    assert n % g == n - g * (n / g);
    Between(g, q - n / g);
  }

  lemma Between(g: nat, d: int)
    requires 0 <= g * d < g
    ensures d == 0
  {
  }

  lemma {:induction false} PeriodTimes(code: Code, g: nat, q: nat)
    requires Power(code, g) == 1
    ensures Power(code, g * q) == 1
    decreases q
  {
    if q > 0 {
      PeriodTimes(code, g, q - 1);
      DoubledAgain(code, 1, g, g * (q - 1));
      assert g + g * (q - 1) == g * q;
    } else {
      assert g * q == 0;
    }
  }

  /** A proper divisor of 255 divides 85, 51 or 15. */
  lemma ProperDivisors(g: nat)
    requires 0 < g < ORDER && ORDER % g == 0
    ensures g in {1, 3, 5, 15, 17, 51, 85}
  {
    var q := ORDER / g;
    assert g * q == ORDER;
    if g <= 15 {
      assert g in {1, 2, 3, 4, 5, 6, 7, 8, 9, 10, 11, 12, 13, 14, 15};
    } else {
      Quotient(g, q);
      assert q in {2, 3, 4, 5, 6, 7, 8, 9, 10, 11, 12, 13, 14, 15};
    }
  }

  lemma Quotient(g: nat, q: nat)
    requires 16 <= g < ORDER && g * q == ORDER
    ensures 2 <= q <= 15
  {
  }

  lemma TwoDoublings(code: Code)
    ensures Doubled(code, 1, 2) == 4
  {
    assert Doubled(code, 1, 1) == 2;
  }

  lemma NoShorterPeriod(code: Code, n: nat)
    requires 0 < n < ORDER
    ensures Power(code, n) != 1
  {
    hide Doubled;
    PowersOnSystemPages();
    PowersOnDataPages();
    if Power(code, n) == 1 {
      var g := CommonPeriod(code, n, ORDER);
      ProperDivisors(g);
      if 85 % g == 0 {
        PeriodTimes(code, g, 85 / g);
      } else if 51 % g == 0 {
        PeriodTimes(code, g, 51 / g);
      } else {
        assert g == 15;
        DoubledAgain(code, 1, 15, 2);
        TwoDoublings(code);
      }
    }
  }

  lemma PowerReturns(code: Code, n: nat)
    ensures Power(code, n + ORDER) == Power(code, n)
  {
    hide Doubled;
    PowersOnSystemPages();
    PowersOnDataPages();
    DoubledAgain(code, 1, ORDER, n);
  }

  lemma {:induction false} PowerModulo(code: Code, n: nat)
    ensures Power(code, n) == Power(code, n % ORDER)
  {
    hide Doubled;
    if n >= ORDER {
      PowerReturns(code, n - ORDER);
      PowerModulo(code, n - ORDER);
    }
  }

  lemma {:induction false} PowerIsNotZero(code: Code, n: nat)
    ensures Power(code, n) != 0
  {
    if n > 0 {
      PowerIsNotZero(code, n - 1);
      NotZeroTwice(code, Power(code, n - 1));
    }
  }

  lemma NotZeroTwice(code: Code, x: bv8)
    requires x != 0
    ensures Twice(code, x) != 0
  {
    assert Twice(code, 0) == 0;
    if Twice(code, x) == 0 {
      TwiceIsOneToOne(code, x, 0);
    }
  }

  /** Equal powers are 255 apart or a multiple of it. */
  lemma PowersDiffer(code: Code, i: nat, j: nat)
    requires i < ORDER && j < ORDER
    ensures Power(code, i) == Power(code, j) <==> i == j
  {
    hide Doubled;
    var low, high := if i < j then i else j, if i < j then j else i;
    if low < high && Power(code, i) == Power(code, j) {
      EqualPowers(code, low, high);
      NoShorterPeriod(code, high - low);
    }
  }

  // ---- every element but 0 is a power ------------------------------------------

  function PowersBelow(code: Code, n: nat): set<nat> {
    set i | 0 <= i < n :: Number(Power(code, i))
  }

  lemma {:induction false} PowersAreCounted(code: Code, n: nat)
    requires n <= ORDER
    ensures |PowersBelow(code, n)| == n
  {
    hide Doubled;
    if n > 0 {
      PowersAreCounted(code, n - 1);
      forall i | 0 <= i < n - 1
        ensures Number(Power(code, i)) != Number(Power(code, n - 1))
      {
        PowersDiffer(code, i, n - 1);
        NumberIsOneToOne(Power(code, i), Power(code, n - 1));
      }
      assert PowersBelow(code, n) == PowersBelow(code, n - 1) + {Number(Power(code, n - 1))};
    }
  }

  function Upto(n: nat): (r: set<nat>)
    ensures |r| == n && forall i :: i in r <==> 1 <= i <= n
  {
    if n == 0 then {} else Upto(n - 1) + {n}
  }

  lemma EveryElementIsAPower(code: Code, x: bv8) returns (n: nat)
    requires x != 0
    ensures n < ORDER && Power(code, n) == x
  {
    hide Doubled, Upto, Number;
    var powers, all := PowersBelow(code, ORDER), Upto(255);
    PowersAreCounted(code, ORDER);
    forall i | 0 <= i < ORDER
      ensures Number(Power(code, i)) in all
    {
      PowerIsNotZero(code, i);
      NumberIsOneToOne(Power(code, i), 0);
    }
    NumberIsOneToOne(x, 0);
    assert all == powers + (all - powers);
    assert Number(x) in all;
    assert Number(x) in powers;
    n :| 0 <= n < ORDER && Number(Power(code, n)) == Number(x);
    NumberIsOneToOne(Power(code, n), x);
  }

  // ---- logarithms and products -----------------------------------------------------

  /** What the table of logarithms holds for `x` after the first `n` powers were entered. */
  function LogAfter(code: Code, n: nat, x: bv8): nat {
    if n == 0 then 0 else if Power(code, n - 1) == x then n - 1 else LogAfter(code, n - 1, x)
  }

  function Log(code: Code, x: bv8): nat {
    LogAfter(code, ORDER, x)
  }

  lemma {:induction false} LogAfterPower(code: Code, n: nat, i: nat)
    requires i < n <= ORDER
    ensures LogAfter(code, n, Power(code, i)) == i
  {
    hide Doubled;
    if i < n - 1 {
      PowersDiffer(code, i, n - 1);
      LogAfterPower(code, n - 1, i);
    }
  }

  lemma LogOfPower(code: Code, n: nat)
    ensures Log(code, Power(code, n)) == n % ORDER
  {
    hide Doubled, LogAfter;
    PowerModulo(code, n);
    LogAfterPower(code, ORDER, n % ORDER);
  }

  lemma PowerOfLog(code: Code, x: bv8)
    requires x != 0
    ensures Log(code, x) < ORDER && Power(code, Log(code, x)) == x
  {
    hide Doubled, LogAfter;
    var n := EveryElementIsAPower(code, x);
    LogOfPower(code, n);
  }

  /** The table of powers, which runs twice through them. */
  function Exp(code: Code, n: nat): bv8 {
    Power(code, n % ORDER)
  }

  function Mul(code: Code, a: bv8, b: bv8): bv8 {
    if a == 0 || b == 0 then 0 else Exp(code, Log(code, a) + Log(code, b))
  }

  function Inv(code: Code, a: bv8): bv8 {
    var log := Log(code, a);
    if log <= ORDER then Exp(code, ORDER - log) else 0
  }

  function Alpha(code: Code, e: nat): bv8 {
    Exp(code, e)
  }

  function AlphaInverse(code: Code, e: nat): bv8 {
    Exp(code, ORDER - e % ORDER)
  }

  lemma ModSum(a: nat, b: nat)
    ensures (a % ORDER + b % ORDER) % ORDER == (a + b) % ORDER
  {
  }

  lemma MulOfPowers(code: Code, i: nat, j: nat)
    ensures Mul(code, Power(code, i), Power(code, j)) == Power(code, i + j)
  {
    hide Doubled, LogAfter;
    PowerIsNotZero(code, i);
    PowerIsNotZero(code, j);
    LogOfPower(code, i);
    LogOfPower(code, j);
    ModSum(i, j);
    PowerModulo(code, i + j);
  }

  /** Multiplying by a power is doubling so often. */
  lemma MulByPower(code: Code, a: bv8, k: nat)
    ensures Mul(code, a, Power(code, k)) == Doubled(code, a, k)
  {
    hide LogAfter;
    if a == 0 {
      ZeroDoubled(code, k);
    } else {
      PowerOfLog(code, a);
      MulOfPowers(code, Log(code, a), k);
      DoubledAgain(code, 1, Log(code, a), k);
    }
  }

  lemma {:induction false} ZeroDoubled(code: Code, k: nat)
    ensures Doubled(code, 0, k) == 0
  {
    if k > 0 {
      ZeroDoubled(code, k - 1);
    }
  }

  lemma {:induction false} DoubledIsLinear(code: Code, a: bv8, b: bv8, k: nat)
    ensures Doubled(code, Add(a, b), k) == Add(Doubled(code, a, k), Doubled(code, b, k))
    decreases k
  {
    hide Twice, Add;
    if k > 0 {
      DoubledIsLinear(code, a, b, k - 1);
      TwiceIsLinear(code, Doubled(code, a, k - 1), Doubled(code, b, k - 1));
    }
  }

  /** The product distributes over the sum. */
  lemma MulDistributes(code: Code, a: bv8, b: bv8, x: bv8)
    ensures Mul(code, Add(a, b), x) == Add(Mul(code, a, x), Mul(code, b, x))
  {
    hide Doubled, LogAfter, Add;
    if x == 0 {
      AddZero(0);
    } else {
      PowerOfLog(code, x);
      var k := Log(code, x);
      MulByPower(code, Add(a, b), k);
      MulByPower(code, a, k);
      MulByPower(code, b, k);
      DoubledIsLinear(code, a, b, k);
    }
  }

  lemma MulCommutes(code: Code, a: bv8, b: bv8)
    ensures Mul(code, a, b) == Mul(code, b, a)
  {
    hide Log, Power;
  }

  lemma MulIsZero(code: Code, a: bv8, b: bv8)
    ensures Mul(code, a, b) == 0 <==> a == 0 || b == 0
  {
    hide Log, Power;
    PowerIsNotZero(code, (Log(code, a) + Log(code, b)) % ORDER);
  }

  lemma MulAssociates(code: Code, a: bv8, b: bv8, c: bv8)
    ensures Mul(code, Mul(code, a, b), c) == Mul(code, a, Mul(code, b, c))
  {
    hide Mul, Power, Log;
    MulIsZero(code, a, b);
    MulIsZero(code, b, c);
    MulIsZero(code, Mul(code, a, b), c);
    MulIsZero(code, a, Mul(code, b, c));
    if a != 0 && b != 0 && c != 0 {
      var i, j, k := Log(code, a), Log(code, b), Log(code, c);
      PowerOfLog(code, a);
      PowerOfLog(code, b);
      PowerOfLog(code, c);
      MulOfPowers(code, i, j);
      MulOfPowers(code, j, k);
      MulOfPowers(code, i + j, k);
      MulOfPowers(code, i, j + k);
      assert i + j + k == i + (j + k);
    }
  }

  lemma MulByOne(code: Code, a: bv8)
    ensures Mul(code, a, 1) == a && Mul(code, 1, a) == a
  {
    hide Mul;
    MulByPower(code, a, 0);
    MulCommutes(code, a, 1);
  }

  lemma InverseUndoes(code: Code, a: bv8)
    requires a != 0
    ensures Inv(code, a) != 0 && Mul(code, Inv(code, a), a) == 1
  {
    hide Mul, Power, Log;
    PowerOfLog(code, a);
    var log := Log(code, a);
    MulOfPowers(code, (ORDER - log) % ORDER, log);
    PowerModulo(code, (ORDER - log) % ORDER + log);
    PowerIsNotZero(code, (ORDER - log) % ORDER);
    NoDoubling(code);
    assert ((ORDER - log) % ORDER + log) % ORDER == 0;
  }

  // ---- the tables ---------------------------------------------------------------------

  /** The table of logarithms after the first `n` powers were entered. */
  ghost predicate Entered(code: Code, log: seq<nat>, n: nat) {
    |log| == 256 && forall x: bv8 :: log[Number(x)] == LogAfter(code, n, x)
  }

  /** The tables the source computes with, filled by one run through the powers. */
  method BuildTables(code: Code) returns (exp: array<bv8>, log: array<nat>)
    ensures exp.Length == 512 && forall n :: 0 <= n < 512 ==> exp[n] == Exp(code, n)
    ensures Entered(code, log[..], ORDER)
  {
    hide Exp, Entered;
    exp, log := new bv8[512], new nat[256](_ => 0);
    NothingEntered(code, log[..]);
    EnterPowers(code, exp, log, ORDER);
    for i := 0 to ORDER
      invariant forall n :: 0 <= n < i ==> exp[n] == Exp(code, n)
      invariant forall n :: 0 <= n < ORDER ==> exp[n] == Power(code, n)
    {
      assert exp[i] == Exp(code, i) by {
        BelowOrder(code, i);
      }
    }
    for i := ORDER to 512
      invariant Entered(code, log[..], ORDER)
      invariant forall n :: 0 <= n < i ==> exp[n] == Exp(code, n)
    {
      AgainAfterOrder(code, i);
      exp[i] := exp[i - ORDER];
    }
  }

  lemma BelowOrder(code: Code, n: nat)
    requires n < ORDER
    ensures Exp(code, n) == Power(code, n)
  {
  }

  lemma NothingEntered(code: Code, log: seq<nat>)
    requires |log| == 256 && forall i :: 0 <= i < 256 ==> log[i] == 0
    ensures Entered(code, log, 0)
  {
    hide Number;
  }

  method EnterPowers(code: Code, exp: array<bv8>, log: array<nat>, order: nat)
    requires exp.Length >= order && exp as object != log as object && Entered(code, log[..], 0)
    modifies exp, log
    ensures forall n :: 0 <= n < order ==> exp[n] == Power(code, n)
    ensures Entered(code, log[..], order)
  {
    hide Twice, Entered;
    var x: bv8 := 1;
    for i := 0 to order
      invariant x == Power(code, i)
      invariant forall n :: 0 <= n < i ==> exp[n] == Power(code, n)
      invariant Entered(code, log[..], i)
    {
      exp[i] := x;
      EnterLog(code, log, i, x);
      x := Twice(code, x);
    }
  }

  lemma AgainAfterOrder(code: Code, i: nat)
    requires ORDER <= i
    ensures Exp(code, i - ORDER) == Exp(code, i)
  {
    assert (i - ORDER) % ORDER == i % ORDER;
  }

  method EnterLog(code: Code, log: array<nat>, i: nat, x: bv8)
    requires x == Power(code, i) && Entered(code, log[..], i)
    modifies log
    ensures Entered(code, log[..], i + 1)
  {
    hide Doubled, Number;
    ghost var before := log[..];
    log[Number(x)] := i;
    assert log[..] == before[Number(x) := i];
    forall y: bv8
      ensures log[..][Number(y)] == LogAfter(code, i + 1, y)
    {
      NumberIsOneToOne(x, y);
      assert before[Number(y)] == LogAfter(code, i, y);
    }
  }
}
