/** The text of a DXF export as its readers take it: trimmed lines, numbers in decimal and
    hexadecimal, and names compared by their letters and digits. */
module DxfText {
  import opened Results

  // ---- parsing --------------------------------------------------------------

  predicate IsSpace(c: char) {
    var n := c as int;
    || 0x09 <= n <= 0x0D || n == 0x20 || n == 0x85 || n == 0xA0 || n == 0x1680 || 0x2000 <= n <= 0x200A
    || n == 0x2028 || n == 0x2029 || n == 0x202F || n == 0x205F || n == 0x3000
  }

  function TrimStart(s: string): string {
    if s != [] && IsSpace(s[0]) then TrimStart(s[1..]) else s
  }

  function Trim(s: string): string
    decreases |s|, 1
  {
    var t := TrimStart(s);
    TrimEnd(t)
  }

  function TrimEnd(s: string): string
    decreases |s|, 0
  {
    if s != [] && IsSpace(s[|s| - 1]) then TrimEnd(s[..|s| - 1]) else s
  }

  /** The value of a hexadecimal digit, when it is one below the radix. */
  function Digit(c: char, radix: nat): Option<nat>
    requires radix == 10 || radix == 16
  {
    if '0' <= c <= '9' then Some(c as int - '0' as int)
    else if radix == 16 && 'a' <= c <= 'f' then Some(c as int - 'a' as int + 10)
    else if radix == 16 && 'A' <= c <= 'F' then Some(c as int - 'A' as int + 10)
    else None
  }

  function Digits(s: string, radix: nat): Option<nat>
    requires radix == 10 || radix == 16
  {
    if s == [] then None
    else match Digit(s[|s| - 1], radix)
      case None => None
      case Some(d) =>
        if |s| == 1 then Some(d)
        else match Digits(s[..|s| - 1], radix)
          case None => None
          case Some(n) => Some(radix * n + d)
  }

  /** An unsigned 64-bit number: a `+` may lead, no other sign may. */
  function ParseU64(s: string, radix: nat): Option<nat>
    requires radix == 10 || radix == 16
  {
    match Digits(if s != [] && s[0] == '+' then s[1..] else s, radix)
    case None => None
    case Some(n) => if n < 0x1_0000_0000_0000_0000 then Some(n) else None
  }

  /** A signed 64-bit number in decimal. */
  function ParseI64(s: string): Option<int> {
    var signed := s != [] && (s[0] == '+' || s[0] == '-');
    match Digits(if signed then s[1..] else s, 10)
    case None => None
    case Some(n) =>
      var v := if signed && s[0] == '-' then 0 - (n as int) else n as int;
      if -0x8000_0000_0000_0000 <= v < 0x8000_0000_0000_0000 then Some(v) else None
  }

  function Upper(c: char): char {
    if 'a' <= c <= 'z' then c - 'a' + 'A' else c
  }

  predicate IsAlphanumeric(c: char) {
    '0' <= c <= '9' || 'a' <= c <= 'z' || 'A' <= c <= 'Z'
  }

  /** A name as the comparisons see it: ASCII letters and digits, in upper case. */
  function Normalize(name: string): string {
    if name == [] then []
    else (if IsAlphanumeric(name[0]) then [Upper(name[0])] else []) + Normalize(name[1..])
  }

  // ---- what numbers and names mean ---------------------------------------------

  const UPPER_DIGITS: string := "0123456789ABCDEF"
  const LOWER_DIGITS: string := "0123456789abcdef"

  /** The number that digits state, the first of them the weightiest. */
  function Value(digits: seq<nat>, radix: nat): nat {
    if digits == [] then 0 else digits[0] * Weight(radix, |digits| - 1) + Value(digits[1..], radix)
  }

  function Weight(radix: nat, places: nat): nat {
    if places == 0 then 1 else Weight(radix, places - 1) * radix
  }

  /** The text shows the digits, in upper or lower case. */
  predicate Shows(s: string, digits: seq<nat>, radix: nat)
    requires radix == 10 || radix == 16
  {
    |s| == |digits|
    && forall i :: 0 <= i < |s| ==> digits[i] < radix && (s[i] == UPPER_DIGITS[digits[i]] || s[i] == LOWER_DIGITS[digits[i]])
  }

  /** The text is a number's digits, at least one of them. */
  ghost predicate States(s: string, radix: nat, n: nat)
    requires radix == 10 || radix == 16
  {
    exists digits: seq<nat> :: digits != [] && Shows(s, digits, radix) && Value(digits, radix) == n
  }

  lemma DigitIsShown(c: char, radix: nat, d: nat)
    requires radix == 10 || radix == 16
    ensures Digit(c, radix) == Some(d) <==> d < radix && (c == UPPER_DIGITS[d] || c == LOWER_DIGITS[d])
  {
  }

  lemma {:induction false} ValueSnoc(digits: seq<nat>, d: nat, radix: nat)
    ensures Value(digits + [d], radix) == radix * Value(digits, radix) + d
  {
    hide Weight;
    if digits == [] {
      ValueOfOne(d, radix);
    } else {
      ValueSnoc(digits[1..], d, radix);
      assert (digits + [d])[1..] == digits[1..] + [d];
      OnePlaceUp(digits[0], |digits| - 1, radix, Value(digits[1..], radix));
    }
  }

  lemma ValueOfOne(d: nat, radix: nat)
    ensures Value([d], radix) == d && Value([], radix) == 0 && [] + [d] == [d]
  {
    assert [d][1..] == [];
  }

  lemma OnePlaceUp(first: nat, places: nat, radix: nat, rest: nat)
    ensures first * Weight(radix, places + 1) + radix * rest == radix * (first * Weight(radix, places) + rest)
  {
    var w := Weight(radix, places);
    assert first * (w * radix) == radix * (first * w);
  }

  lemma DigitsUnfold(s: string, radix: nat, d: nat)
    requires (radix == 10 || radix == 16) && s != [] && Digit(s[|s| - 1], radix) == Some(d)
    ensures |s| == 1 ==> Digits(s, radix) == Some(d)
    ensures |s| > 1 && Digits(s[..|s| - 1], radix).Some? ==>
              Digits(s, radix) == Some(radix * Digits(s[..|s| - 1], radix).value + d)
  {
    hide Digit;
  }

  lemma {:induction false} DigitsRead(s: string, digits: seq<nat>, radix: nat)
    requires radix == 10 || radix == 16
    requires digits != [] && Shows(s, digits, radix)
    ensures Digits(s, radix) == Some(Value(digits, radix))
  {
    hide Digit, Digits, Value;
    var k := |s| - 1;
    DigitIsShown(s[k], radix, digits[k]);
    DigitsUnfold(s, radix, digits[k]);
    ValueSnoc(digits[..k], digits[k], radix);
    assert digits[..k] + [digits[k]] == digits;
    if k > 0 {
      DigitsRead(s[..k], digits[..k], radix);
    } else {
      ValueOfOne(digits[0], radix);
      assert digits == [digits[0]];
    }
  }

  lemma {:induction false} DigitsShown(s: string, radix: nat) returns (digits: seq<nat>)
    requires (radix == 10 || radix == 16) && Digits(s, radix).Some?
    ensures digits != [] && Shows(s, digits, radix)
  {
    var k := |s| - 1;
    DigitIsShown(s[k], radix, Digit(s[k], radix).value);
    digits := [Digit(s[k], radix).value];
    if k > 0 {
      var before := DigitsShown(s[..k], radix);
      digits := before + digits;
    }
  }

  lemma DigitsStateExactly(s: string, radix: nat, n: nat)
    requires radix == 10 || radix == 16
    ensures Digits(s, radix) == Some(n) <==> States(s, radix, n)
  {
    hide Digits, Value, Shows;
    if Digits(s, radix).Some? {
      var digits := DigitsShown(s, radix);
      DigitsRead(s, digits, radix);
    }
    forall digits: seq<nat> | digits != [] && Shows(s, digits, radix)
      ensures Digits(s, radix) == Some(Value(digits, radix))
    {
      DigitsRead(s, digits, radix);
    }
  }

  lemma NoSignStates(s: string, radix: nat, n: nat)
    requires (radix == 10 || radix == 16) && States(s, radix, n)
    ensures s != [] && s[0] != '+' && s[0] != '-'
  {
    var digits: seq<nat> :| digits != [] && Shows(s, digits, radix) && Value(digits, radix) == n;
  }

  /** Exactly the digits of a number below 2^64 parse, in either case, with leading zeros or
      without, and with one `+` before them or without. */
  lemma ParsesU64Exactly(s: string, radix: nat, n: nat)
    requires radix == 10 || radix == 16
    ensures ParseU64(s, radix) == Some(n) <==>
              n < 0x1_0000_0000_0000_0000 && exists t: string :: (s == t || s == "+" + t) && States(t, radix, n)
  {
    hide Digits, States;
    var bare := if s != [] && s[0] == '+' then s[1..] else s;
    DigitsStateExactly(bare, radix, n);
    assert s == bare || s == "+" + bare;
    forall t: string | (s == t || s == "+" + t) && States(t, radix, n)
      ensures t == bare
    {
      NoSignStates(t, radix, n);
    }
  }

  /** And of a number in 64 bits with its sign. */
  lemma ParsesI64Exactly(s: string, v: int)
    ensures ParseI64(s) == Some(v) <==>
              && -0x8000_0000_0000_0000 <= v < 0x8000_0000_0000_0000
              && exists t: string :: ((s == t || s == "+" + t) && v >= 0 && States(t, 10, v))
                                     || (s == "-" + t && v <= 0 && States(t, 10, -v))
  {
    hide Digits, States;
    var bare := if s != [] && (s[0] == '+' || s[0] == '-') then s[1..] else s;
    assert s == bare || s == "+" + bare || s == "-" + bare;
    forall t: string, n: nat | (s == t || s == "+" + t || s == "-" + t) && States(t, 10, n)
      ensures t == bare
    {
      NoSignStates(t, 10, n);
    }
    if v >= 0 {
      DigitsStateExactly(bare, 10, v);
    }
    if v <= 0 {
      DigitsStateExactly(bare, 10, -v);
    }
  }

  /** A number written by division. */
  function Text(n: nat, radix: nat, digits: string): string
    requires (radix == 10 || radix == 16) && |digits| == 16
  {
    (if n < radix then "" else Text(n / radix, radix, digits)) + [digits[n % radix]]
  }

  lemma ShowsSnoc(s: string, before: seq<nat>, d: nat, radix: nat, digits: string)
    requires (radix == 10 || radix == 16) && digits in {UPPER_DIGITS, LOWER_DIGITS} && d < radix && Shows(s, before, radix)
    ensures Shows(s + [digits[d]], before + [d], radix)
  {
  }

  lemma {:induction false} TextStates(n: nat, radix: nat, digits: string)
    requires (radix == 10 || radix == 16) && digits in {UPPER_DIGITS, LOWER_DIGITS}
    ensures States(Text(n, radix, digits), radix, n)
  {
    hide Value, Shows, Text;
    var last := n % radix;
    TextUnfolds(n, radix, digits);
    if n < radix {
      ValueOfOne(n, radix);
      ShowsNothing(radix);
      ShowsSnoc("", [], n, radix, digits);
    } else {
      TextStates(n / radix, radix, digits);
      var t := Text(n / radix, radix, digits);
      var before: seq<nat> :| before != [] && Shows(t, before, radix) && Value(before, radix) == n / radix;
      ValueSnoc(before, last, radix);
      ShowsSnoc(t, before, last, radix, digits);
    }
  }

  lemma TextUnfolds(n: nat, radix: nat, digits: string)
    requires (radix == 10 || radix == 16) && |digits| == 16
    ensures n == radix * (n / radix) + n % radix && n % radix < radix
    ensures n < radix ==> Text(n, radix, digits) == "" + [digits[n]]
    ensures n >= radix ==> n / radix < n && Text(n, radix, digits) == Text(n / radix, radix, digits) + [digits[n % radix]]
  {
  }

  lemma ShowsNothing(radix: nat)
    requires radix == 10 || radix == 16
    ensures Shows("", [], radix)
  {
  }

  /** Every number written in either case reads back, exactly while it fits 64 bits. */
  lemma TextReads(n: nat, radix: nat, digits: string)
    requires (radix == 10 || radix == 16) && digits in {UPPER_DIGITS, LOWER_DIGITS}
    ensures ParseU64(Text(n, radix, digits), radix) == if n < 0x1_0000_0000_0000_0000 then Some(n) else None
    ensures ParseI64(Text(n, 10, digits)) == if n < 0x8000_0000_0000_0000 then Some(n) else None
    ensures ParseI64("-" + Text(n, 10, digits)) == if n <= 0x8000_0000_0000_0000 then Some(0 - n as int) else None
  {
    hide Digits, Text;
    TextStates(n, radix, digits);
    TextStates(n, 10, digits);
    NoSignStates(Text(n, radix, digits), radix, n);
    NoSignStates(Text(n, 10, digits), 10, n);
    DigitsStateExactly(Text(n, radix, digits), radix, n);
    DigitsStateExactly(Text(n, 10, digits), 10, n);
    assert ("-" + Text(n, 10, digits))[1..] == Text(n, 10, digits);
  }

  const UPPER_LETTERS: string := "ABCDEFGHIJKLMNOPQRSTUVWXYZ"
  const LOWER_LETTERS: string := "abcdefghijklmnopqrstuvwxyz"

  /** A name is compared character by character. */
  lemma {:induction false} NormalizeJoins(a: string, b: string)
    ensures Normalize(a + b) == Normalize(a) + Normalize(b)
  {
    hide Upper, IsAlphanumeric;
    if a == [] {
      assert a + b == b;
    } else {
      NormalizeJoins(a[1..], b);
      assert (a + b)[1..] == a[1..] + b && (a + b)[0] == a[0];
      var first := if IsAlphanumeric(a[0]) then [Upper(a[0])] else [];
      assert first + (Normalize(a[1..]) + Normalize(b)) == first + Normalize(a[1..]) + Normalize(b);
    }
  }

  /** Letters count as their upper case, decimal digits as they are, and nothing else counts. */
  lemma NormalizeOfOne(c: char)
    ensures c in UPPER_LETTERS || c in UPPER_DIGITS[..10] ==> Normalize([c]) == [c]
    ensures forall k :: 0 <= k < 26 && c == LOWER_LETTERS[k] ==> Normalize([c]) == [UPPER_LETTERS[k]]
    ensures c !in UPPER_LETTERS && c !in LOWER_LETTERS && c !in UPPER_DIGITS[..10] ==> Normalize([c]) == []
  {
    assert [c][1..] == [];
    LetterTables(c);
    DigitTable(c);
  }

  lemma LetterTables(c: char)
    ensures c in UPPER_LETTERS <==> 'A' <= c <= 'Z'
    ensures c in LOWER_LETTERS <==> 'a' <= c <= 'z'
    ensures forall k :: 0 <= k < 26 ==> UPPER_LETTERS[k] == LOWER_LETTERS[k] - 'a' + 'A'
  {
    LettersInOrder();
    if 'A' <= c <= 'Z' {
      assert UPPER_LETTERS[c as int - 'A' as int] == c;
    }
    if 'a' <= c <= 'z' {
      assert LOWER_LETTERS[c as int - 'a' as int] == c;
    }
  }

  lemma LettersInOrder()
    ensures forall k :: 0 <= k < 26 ==> UPPER_LETTERS[k] as int == 'A' as int + k
    ensures forall k :: 0 <= k < 26 ==> LOWER_LETTERS[k] as int == 'a' as int + k
  {
  }

  lemma DigitTable(c: char)
    ensures c in UPPER_DIGITS[..10] <==> '0' <= c <= '9'
  {
    if '0' <= c <= '9' {
      assert UPPER_DIGITS[..10][c as int - '0' as int] == c;
    }
  }

  /** The white space of Unicode. */
  const SPACES: set<int> := {
    9, 10, 11, 12, 13, 32, 133, 160, 5760, 8192, 8193, 8194, 8195, 8196, 8197, 8198, 8199, 8200, 8201, 8202,
    8232, 8233, 8239, 8287, 12288}

  lemma SpacesAreThese(c: char)
    ensures IsSpace(c) <==> c as int in SPACES
  {
  }

  lemma {:induction false} TrimStartIs(s: string) returns (before: string)
    ensures s == before + TrimStart(s) && AllSpace(before) && (TrimStart(s) != [] ==> !IsSpace(TrimStart(s)[0]))
  {
    if s != [] && IsSpace(s[0]) {
      before := TrimStartIs(s[1..]);
      before := [s[0]] + before;
    } else {
      before := [];
    }
  }

  lemma {:induction false} TrimEndIs(s: string) returns (after: string)
    ensures s == TrimEnd(s) + after && AllSpace(after) && (TrimEnd(s) != [] ==> !IsSpace(TrimEnd(s)[|TrimEnd(s)| - 1]))
  {
    if s != [] && IsSpace(s[|s| - 1]) {
      after := TrimEndIs(s[..|s| - 1]);
      after := after + [s[|s| - 1]];
    } else {
      after := [];
    }
  }

  predicate AllSpace(s: string) {
    forall i :: 0 <= i < |s| ==> IsSpace(s[i])
  }

  /** Trimming takes off white space on both sides and all of it. */
  lemma TrimTakesSpace(s: string) returns (before: string, after: string)
    ensures s == before + Trim(s) + after && AllSpace(before) && AllSpace(after)
    ensures var t := Trim(s); t != [] ==> !IsSpace(t[0]) && !IsSpace(t[|t| - 1])
  {
    hide IsSpace, TrimStart, TrimEnd;
    before := TrimStartIs(s);
    after := TrimEndIs(TrimStart(s));
  }
}
