/** Masking named values in a debug rendering: `mask` of `examples/probe_cross_release.rs`,
    which cuts the value of every `name: value` pair down to `_`, in place. */
module Mask {
  import opened Bits
  import opened DxfText
  import opened Results

  /** What the surrounding library calls alphanumeric outside ASCII is a parameter. */
  type Letters = char -> bool

  predicate IsWord(c: char, letters: Letters) {
    if c as int >= 0x80 then letters(c)
    else 'a' <= c <= 'z' || 'A' <= c <= 'Z' || '0' <= c <= '9' || c == '_'
  }

  predicate Opens(c: char) {
    c == '{' || c == '(' || c == '['
  }

  predicate Closes(c: char) {
    c == '}' || c == ')' || c == ']'
  }

  predicate Ends(c: char) {
    Closes(c) || c == ','
  }

  function KeyOf(name: string): (key: string)
    ensures |key| == |name| + 2
  {
    name + ": "
  }

  predicate Identifier(name: string, letters: Letters) {
    name != [] && forall i :: 0 <= i < |name| ==> IsWord(name[i], letters)
  }

  // ---- occurrences of a key ------------------------------------------------

  predicate Occurs(s: string, key: string, p: int) {
    0 <= p && p + |key| <= |s| && s[p..p + |key|] == key
  }

  predicate AtBoundary(s: string, p: int, letters: Letters)
    requires 0 <= p <= |s|
  {
    p == 0 || !IsWord(s[p - 1], letters)
  }

  /** A pair: its name begins at `p` and no word runs into it. */
  predicate PairAt(s: string, key: string, p: int, letters: Letters) {
    Occurs(s, key, p) && AtBoundary(s, p, letters)
  }

  /** The first occurrence from `from` on. */
  function Find(s: string, key: string, from: nat): (r: Option<nat>)
    ensures r.None? ==> forall p :: from <= p ==> !Occurs(s, key, p)
    ensures r.Some? ==> from <= r.value && Occurs(s, key, r.value) && forall p :: from <= p < r.value ==> !Occurs(s, key, p)
    decreases |s| - from
  {
    if from + |key| > |s| then None
    else if s[from..from + |key|] == key then Some(from)
    else Find(s, key, from + 1)
  }

  // ---- where a value ends ---------------------------------------------------

  /** The nesting depth at `i`, counted from `start`. */
  function Depth(s: string, start: nat, i: nat): int
    requires start <= i <= |s|
  {
    if i == start then 0
    else Depth(s, start, i - 1) + if Opens(s[i - 1]) then 1 else if Closes(s[i - 1]) then -1 else 0
  }

  const OPENING: string := "{(["
  const CLOSING: string := "})]"

  /** The characters that matter, by name. */
  lemma CharactersAre(c: char, letters: Letters)
    ensures Opens(c) <==> c in OPENING
    ensures Closes(c) <==> c in CLOSING
    ensures Ends(c) <==> c in CLOSING + ","
    ensures c as int < 0x80 ==>
              (IsWord(c, letters) <==> c in UPPER_LETTERS || c in LOWER_LETTERS || c in UPPER_DIGITS[..10] || c == '_')
    ensures c as int >= 0x80 ==> (IsWord(c, letters) <==> letters(c))
  {
    assert CLOSING + "," == "})],";
    LetterTables(c);
    DigitTable(c);
  }

  /** The places from `start` to `i` with one of the characters. */
  function PlacesOf(s: string, start: nat, i: nat, characters: string): set<nat>
    requires start <= i <= |s|
  {
    set k | start <= k < i && s[k] in characters
  }

  /** The depth is how many more brackets open than close. */
  lemma {:induction false} DepthIsBalance(s: string, start: nat, i: nat, letters: Letters)
    requires start <= i <= |s|
    ensures Depth(s, start, i) == |PlacesOf(s, start, i, OPENING)| - |PlacesOf(s, start, i, CLOSING)|
    decreases i
  {
    if i > start {
      DepthIsBalance(s, start, i - 1, letters);
      CharactersAre(s[i - 1], letters);
      OnePlaceMore(s, start, i, OPENING);
      OnePlaceMore(s, start, i, CLOSING);
      NotBoth(s[i - 1]);
    } else {
      assert PlacesOf(s, start, i, OPENING) == {} && PlacesOf(s, start, i, CLOSING) == {};
    }
  }

  lemma NotBoth(c: char)
    ensures !(c in OPENING && c in CLOSING)
  {
  }

  lemma OnePlaceMore(s: string, start: nat, i: nat, characters: string)
    requires start < i <= |s|
    ensures |PlacesOf(s, start, i, characters)| == |PlacesOf(s, start, i - 1, characters)| + if s[i - 1] in characters then 1 else 0
  {
    var before := PlacesOf(s, start, i - 1, characters);
    assert PlacesOf(s, start, i, characters) == if s[i - 1] in characters then before + {i - 1} else before;
  }

  predicate EndsAt(s: string, start: nat, i: nat)
    requires start <= i <= |s|
  {
    i == |s| || (Ends(s[i]) && Depth(s, start, i) == 0)
  }

  /** The first `,` or closing bracket at the value's own depth, or the end. */
  function ValueEnd(s: string, start: nat, at: nat): (e: nat)
    requires start <= at <= |s|
    ensures at <= e <= |s| && EndsAt(s, start, e)
    ensures forall i :: at <= i < e ==> !EndsAt(s, start, i)
    decreases |s| - at
  {
    if EndsAt(s, start, at) then at else ValueEnd(s, start, at + 1)
  }

  // ---- the pass of one name ---------------------------------------------------

  /** `s` with the value at `start` cut to an underscore. */
  function Cut(s: string, start: nat): string
    requires start <= |s|
  {
    s[..start] + "_" + s[ValueEnd(s, start, start)..]
  }

  function Pass(s: string, key: string, from: nat, letters: Letters): string
    requires |key| >= 2 && from <= |s|
    decreases |s| - from
  {
    match Find(s, key, from)
    case None => s
    case Some(p) =>
      var start := p + |key|;
      if AtBoundary(s, p, letters) then Pass(Cut(s, start), key, start + 1, letters)
      else Pass(s, key, start, letters)
  }

  function Masked(s: string, names: seq<string>, letters: Letters): string
    decreases |names|
  {
    if names == [] then s else Masked(Pass(s, KeyOf(names[0]), 0, letters), names[1..], letters)
  }

  method MaskValues(debug: string, ignore: seq<string>, letters: Letters) returns (out: string)
    ensures out == Masked(debug, ignore, letters)
  {
    hide Find, Occurs, Depth;
    out := debug;
    for n := 0 to |ignore|
      invariant Masked(debug, ignore, letters) == Masked(out, ignore[n..], letters)
    {
      assert ignore[n..][1..] == ignore[n + 1..];
      var key := KeyOf(ignore[n]);
      ghost var whole := Pass(out, key, 0, letters);
      var from := 0;
      var found := Find(out, key, from);
      while found.Some?
        invariant 0 <= from <= |out| && found == Find(out, key, from)
        invariant whole == Pass(out, key, from, letters)
        decreases |out| - from
      {
        assert Occurs(out, key, found.value);
        var start := End(out, key, found.value);
        var preceded := AtBoundary(out, found.value, letters);
        var end := ScanValue(out, start);
        if preceded {
          out, from := out[..start] + "_" + out[end..], start + 1;
        } else {
          from := start;
        }
        found := Find(out, key, from);
      }
    }
  }

  function End(s: string, key: string, p: nat): (e: nat)
    requires Occurs(s, key, p)
    ensures e == p + |key| <= |s|
  {
    p + |key|
  }

  method ScanValue(out: string, start: nat) returns (end: nat)
    requires start <= |out|
    ensures end == ValueEnd(out, start, start)
  {
    var depth, i := 0, start;
    while i < |out|
      invariant start <= i <= |out| && depth == Depth(out, start, i)
      invariant ValueEnd(out, start, start) == ValueEnd(out, start, i)
    {
      var ch := out[i];
      if Opens(ch) {
        depth := depth + 1;
      } else if Ends(ch) && depth == 0 {
        return i;
      } else if Closes(ch) {
        depth := depth - 1;
      }
      i := i + 1;
    }
    return |out|;
  }

  // ---- every pair is masked afterwards ----------------------------------------

  /** The value at `start` is an underscore and nothing more. */
  predicate IsCut(s: string, start: nat) {
    start < |s| && s[start] == '_' && (start + 1 == |s| || Ends(s[start + 1]))
  }

  /** The pair at `p`, if there is one, is masked. */
  predicate Settled(s: string, key: string, p: nat, letters: Letters) {
    PairAt(s, key, p, letters) ==> IsCut(s, p + |key|)
  }

  predicate SettledUpTo(s: string, key: string, limit: nat, letters: Letters) {
    forall p: nat :: p < limit ==> Settled(s, key, p, letters)
  }

  ghost predicate AllMasked(s: string, key: string, letters: Letters) {
    forall p: nat :: Settled(s, key, p, letters)
  }

  lemma CutEnds(s: string, start: nat)
    requires start <= |s|
    ensures IsCut(s, start) ==> ValueEnd(s, start, start) == start + 1 && Cut(s, start) == s
    ensures var t := Cut(s, start); IsCut(t, start) && |t| - start - 1 == |s| - ValueEnd(s, start, start)
  {
    if IsCut(s, start) {
      assert Depth(s, start, start + 1) == 0;
      assert ValueEnd(s, start, start) == ValueEnd(s, start, start + 1) == start + 1;
      assert s == s[..start] + [s[start]] + s[start + 1..];
    }
  }

  /** In an occurrence of an identifier's key the last two characters are `: ` and the
      rest are the identifier's. */
  lemma KeyChars(s: string, name: string, p: nat, letters: Letters)
    requires Identifier(name, letters) && Occurs(s, KeyOf(name), p)
    ensures forall i :: p <= i < p + |name| ==> IsWord(s[i], letters)
    ensures s[p + |name|] == ':' && s[p + |name| + 1] == ' '
  {
    var key, part := KeyOf(name), s[p..p + |KeyOf(name)|];
    assert forall i :: p <= i < p + |key| ==> s[i] == part[i - p];
  }

  /** No pair's name begins inside another pair's name and separator. */
  lemma NoOverlap(s: string, name: string, p: nat, other: string, q: nat, letters: Letters)
    requires Identifier(name, letters) && Occurs(s, KeyOf(name), p)
    requires Identifier(other, letters) && Occurs(s, KeyOf(other), q)
    requires p < q && AtBoundary(s, q, letters)
    ensures p + |KeyOf(name)| <= q
  {
    KeyChars(s, name, p, letters);
    KeyChars(s, other, q, letters);
  }

  /** No pair's name and separator reach across a masked value. */
  lemma NotAcross(t: string, start: nat, name: string, q: nat, letters: Letters)
    requires 2 <= start && IsCut(t, start) && t[start - 1] == ' ' && t[start - 2] == ':' && Identifier(name, letters)
    requires Occurs(t, KeyOf(name), q)
    ensures q + |KeyOf(name)| <= start || q > start + 1
  {
    KeyChars(t, name, q, letters);
  }

  /** Where the pairs of the text after a cut stood before it. */
  lemma PairsAfterCut(s: string, start: nat, name: string, q: nat, letters: Letters)
    requires 2 <= start <= |s| && s[start - 1] == ' ' && s[start - 2] == ':' && Identifier(name, letters)
    requires Occurs(Cut(s, start), KeyOf(name), q)
    ensures q + |KeyOf(name)| <= start || q > start + 1
    ensures q + |KeyOf(name)| <= start ==> Occurs(s, KeyOf(name), q)
    ensures q > start + 1 ==> Occurs(s, KeyOf(name), q - (start + 1) + ValueEnd(s, start, start))
  {
    hide ValueEnd, IsWord, Ends, Identifier, KeyOf, IsCut;
    var t, key, end := Cut(s, start), KeyOf(name), ValueEnd(s, start, start);
    CutEnds(s, start);
    NotAcross(t, start, name, q, letters);
    if q > start + 1 {
      var back := q - (start + 1) + end;
      assert t[q..q + |key|] == s[back..back + |key|];
    } else {
      assert t[q..q + |key|] == s[q..q + |key|];
    }
  }

  /** Cutting a value leaves every settled pair settled. */
  lemma CutKeepsSettled(s: string, start: nat, name: string, q: nat, letters: Letters)
    requires 2 <= start <= |s| && s[start - 1] == ' ' && s[start - 2] == ':' && Identifier(name, letters)
    requires q < start ==> Settled(s, KeyOf(name), q, letters) || q + |KeyOf(name)| == start
    requires q > start + 1 ==> Settled(s, KeyOf(name), q - (start + 1) + ValueEnd(s, start, start), letters)
    ensures Settled(Cut(s, start), KeyOf(name), q, letters)
  {
    hide ValueEnd;
    var t, key := Cut(s, start), KeyOf(name);
    if Occurs(t, key, q) && AtBoundary(t, q, letters) {
      PairsAfterCut(s, start, name, q, letters);
      CutEnds(s, start);
    }
  }

  lemma {:induction false} PassKeepsOthers(s: string, name: string, from: nat, other: string, letters: Letters)
    requires Identifier(name, letters) && Identifier(other, letters) && from <= |s|
    requires AllMasked(s, KeyOf(other), letters)
    ensures AllMasked(Pass(s, KeyOf(name), from, letters), KeyOf(other), letters)
    decreases |s| - from
  {
    hide Find, Occurs, Cut, Settled;
    var key := KeyOf(name);
    var found := Find(s, key, from);
    if found.Some? {
      var start := End(s, key, found.value);
      KeyChars(s, name, found.value, letters);
      if AtBoundary(s, found.value, letters) {
        forall q: nat
          ensures Settled(Cut(s, start), KeyOf(other), q, letters)
        {
          CutKeepsSettled(s, start, other, q, letters);
        }
        CutEnds(s, start);
        PassKeepsOthers(Cut(s, start), name, start + 1, other, letters);
      } else {
        PassKeepsOthers(s, name, start, other, letters);
      }
    }
  }

  /** The pass of a name settles every pair of that name. */
  lemma {:induction false} PassSettles(s: string, name: string, from: nat, letters: Letters)
    requires Identifier(name, letters) && from <= |s|
    requires SettledUpTo(s, KeyOf(name), from, letters)
    ensures AllMasked(Pass(s, KeyOf(name), from, letters), KeyOf(name), letters)
    decreases |s| - from
  {
    hide Find, Occurs, Cut;
    var key := KeyOf(name);
    var found := Find(s, key, from);
    if found.Some? {
      var p := found.value;
      var start := End(s, key, p);
      KeyChars(s, name, p, letters);
      forall q: nat | p < q < start
        ensures Settled(s, key, q, letters)
      {
        if Occurs(s, key, q) && AtBoundary(s, q, letters) {
          NoOverlap(s, name, p, name, q, letters);
        }
      }
      if AtBoundary(s, p, letters) {
        CutEnds(s, start);
        forall q: nat | q < start + 1
          ensures Settled(Cut(s, start), key, q, letters)
        {
          CutKeepsSettled(s, start, name, q, letters);
        }
        PassSettles(Cut(s, start), name, start + 1, letters);
      } else {
        PassSettles(s, name, start, letters);
      }
    }
  }

  /** A settled text passes unchanged. */
  lemma {:induction false} PassOfSettled(s: string, key: string, from: nat, letters: Letters)
    requires |key| >= 2 && from <= |s| && AllMasked(s, key, letters)
    ensures Pass(s, key, from, letters) == s
    decreases |s| - from
  {
    hide Find, Occurs, Cut, IsCut;
    var found := Find(s, key, from);
    if found.Some? {
      var start := End(s, key, found.value);
      assert Settled(s, key, found.value, letters);
      CutEnds(s, start);
      if AtBoundary(s, found.value, letters) {
        PassOfSettled(s, key, start + 1, letters);
      } else {
        PassOfSettled(s, key, start, letters);
      }
    }
  }

  predicate Identifiers(names: seq<string>, letters: Letters) {
    forall i :: 0 <= i < |names| ==> Identifier(names[i], letters)
  }

  lemma {:induction false} MaskedKeeps(s: string, names: seq<string>, other: string, letters: Letters)
    requires Identifiers(names, letters) && Identifier(other, letters) && AllMasked(s, KeyOf(other), letters)
    ensures AllMasked(Masked(s, names, letters), KeyOf(other), letters)
    decreases |names|
  {
    hide AllMasked, Pass, Identifier;
    if names != [] {
      PassKeepsOthers(s, names[0], 0, other, letters);
      MaskedKeeps(Pass(s, KeyOf(names[0]), 0, letters), names[1..], other, letters);
    }
  }

  /** Afterwards every pair of every name has an underscore for a value: the passes of
      later names undo nothing of the earlier ones. */
  lemma {:induction false} MaskSettles(s: string, names: seq<string>, letters: Letters)
    requires Identifiers(names, letters)
    ensures forall i :: 0 <= i < |names| ==> AllMasked(Masked(s, names, letters), KeyOf(names[i]), letters)
    decreases |names|
  {
    hide AllMasked, Pass, Identifier;
    if names != [] {
      var t := Pass(s, KeyOf(names[0]), 0, letters);
      PassSettles(s, names[0], 0, letters) by {
        NothingBefore(s, KeyOf(names[0]), letters);
      }
      MaskedKeeps(t, names[1..], names[0], letters);
      MaskSettles(t, names[1..], letters);
      assert forall i :: 0 < i < |names| ==> names[i] == names[1..][i - 1];
    }
  }

  lemma NothingBefore(s: string, key: string, letters: Letters)
    ensures SettledUpTo(s, key, 0, letters)
  {
  }

  lemma {:induction false} MaskedOfSettled(s: string, names: seq<string>, letters: Letters)
    requires forall i :: 0 <= i < |names| ==> AllMasked(s, KeyOf(names[i]), letters)
    ensures Masked(s, names, letters) == s
    decreases |names|
  {
    hide AllMasked, Pass;
    if names != [] {
      PassOfSettled(s, KeyOf(names[0]), 0, letters);
      MaskedOfSettled(s, names[1..], letters);
    }
  }

  /** Masking twice is masking once. */
  lemma MaskIsIdempotent(s: string, names: seq<string>, letters: Letters)
    requires Identifiers(names, letters)
    ensures Masked(Masked(s, names, letters), names, letters) == Masked(s, names, letters)
  {
    hide Masked, AllMasked;
    MaskSettles(s, names, letters);
    MaskedOfSettled(Masked(s, names, letters), names, letters);
  }

  // ---- and nothing else changes --------------------------------------------------

  /** A value's place in the text. */
  datatype Value = Value(start: nat, end: nat)

  /** The values lie in the text from `at` on, one after the other. */
  predicate InOrder(s: string, at: nat, values: seq<Value>)
    decreases |values|
  {
    && at <= |s|
    && (values != [] ==> at <= values[0].start <= values[0].end <= |s| && InOrder(s, values[0].end, values[1..]))
  }

  lemma {:induction false} OrderInside(s: string, at: nat, values: seq<Value>)
    requires InOrder(s, at, values)
    ensures at <= |s| && forall i :: 0 <= i < |values| ==> at <= values[i].start <= values[i].end <= |s|
    decreases |values|
  {
    if values != [] {
      OrderInside(s, values[0].end, values[1..]);
    }
  }

  /** The text from `at` on with each value replaced by an underscore. */
  function Stitched(s: string, at: nat, values: seq<Value>): string
    requires InOrder(s, at, values)
    decreases |values|
  {
    if values == [] then s[at..]
    else s[at..values[0].start] + ("_" + Stitched(s, values[0].end, values[1..]))
  }

  /** A value of a pair of the name. */
  predicate IsValue(s: string, key: string, v: Value, letters: Letters) {
    && PairAt(s, key, v.start - |key|, letters) && v.start <= |s|
    && v.end == ValueEnd(s, v.start, v.start)
  }

  /** The pair at `p` is one whose value is listed, or stands inside a listed value. */
  predicate Listed(values: seq<Value>, key: string, p: nat) {
    exists i :: 0 <= i < |values| && (values[i].start == p + |key| || values[i].start <= p < values[i].end)
  }

  /** Exactly the outermost values of the name's pairs from `from` on. */
  ghost predicate AreTheValues(s: string, key: string, from: nat, values: seq<Value>, letters: Letters) {
    && InOrder(s, from, values)
    && (forall i :: 0 <= i < |values| ==> IsValue(s, key, values[i], letters))
    && (forall p: nat :: from <= p && PairAt(s, key, p, letters) ==> Listed(values, key, p))
  }

  function Moved(values: seq<Value>, shift: int): (r: seq<Value>)
    requires forall i :: 0 <= i < |values| ==> 0 <= values[i].start + shift && 0 <= values[i].end + shift
    ensures |r| == |values|
  {
    seq(|values|, i requires 0 <= i < |values| => Value(values[i].start + shift, values[i].end + shift))
  }

  lemma {:induction false} OrderMoved(t: string, s: string, at: nat, values: seq<Value>, shift: int)
    requires InOrder(t, at, values) && 0 <= at + shift && |s| == |t| + shift
    ensures forall i :: 0 <= i < |values| ==> 0 <= values[i].start + shift && 0 <= values[i].end + shift
    ensures InOrder(s, at + shift, Moved(values, shift))
    decreases |values|
  {
    OrderInside(t, at, values);
    if values != [] {
      OrderMoved(t, s, values[0].end, values[1..], shift);
      assert Moved(values, shift)[1..] == Moved(values[1..], shift);
    }
  }

  lemma StitchedStep(s: string, at: nat, values: seq<Value>)
    requires InOrder(s, at, values)
    ensures at <= |s|
    ensures values == [] ==> Stitched(s, at, values) == s[at..]
    ensures values != [] ==>
              && at <= values[0].start <= values[0].end <= |s| && InOrder(s, values[0].end, values[1..])
              && Stitched(s, at, values) == s[at..values[0].start] + ("_" + Stitched(s, values[0].end, values[1..]))
  {
  }

  lemma {:induction false} StitchedMoved(t: string, s: string, at: nat, values: seq<Value>, shift: int)
    requires InOrder(t, at, values) && 0 <= at + shift <= |s| && t[at..] == s[at + shift..]
    requires forall i :: 0 <= i < |values| ==> 0 <= values[i].start + shift && 0 <= values[i].end + shift
    requires InOrder(s, at + shift, Moved(values, shift))
    ensures Stitched(s, at + shift, Moved(values, shift)) == Stitched(t, at, values)
    decreases |values|
  {
    hide Stitched, InOrder;
    StitchedStep(t, at, values);
    StitchedStep(s, at + shift, Moved(values, shift));
    if values != [] {
      var v, moved := values[0], Moved(values, shift);
      assert moved[1..] == Moved(values[1..], shift);
      assert t[v.end..] == t[at..][v.end - at..] == s[v.end + shift..];
      assert t[at..v.start] == t[at..][..v.start - at] == s[at + shift..v.start + shift];
      StitchedMoved(t, s, v.end, values[1..], shift);
    }
  }

  lemma {:induction false} ValueEndMoved(t: string, s: string, start: nat, at: nat, shift: int)
    requires start <= at <= |t| && 0 <= start + shift && at + shift <= |s| && t[start..] == s[start + shift..]
    requires Depth(t, start, at) == Depth(s, start + shift, at + shift)
    ensures ValueEnd(s, start + shift, at + shift) == ValueEnd(t, start, at) + shift
    decreases |t| - at
  {
    assert |t| - start == |s| - (start + shift);
    if at < |t| {
      assert t[at] == t[start..][at - start] == s[at + shift];
      if !EndsAt(t, start, at) {
        ValueEndMoved(t, s, start, at + 1, shift);
      }
    }
  }

  lemma TailMoved(s: string, start: nat, at: nat)
    requires start <= |s| && start < at <= |Cut(s, start)|
    ensures var shift := ValueEnd(s, start, start) - (start + 1);
            0 <= at + shift <= |s| && Cut(s, start)[at..] == s[at + shift..] && |s| == |Cut(s, start)| + shift
  {
    hide ValueEnd;
  }

  lemma PairMoved(s: string, start: nat, name: string, q: nat, letters: Letters)
    requires 2 <= start <= |s| && s[start - 1] == ' ' && s[start - 2] == ':' && Identifier(name, letters)
    requires PairAt(Cut(s, start), KeyOf(name), q, letters) && q + |KeyOf(name)| > start
    ensures q > start && PairAt(s, KeyOf(name), q + ValueEnd(s, start, start) - (start + 1), letters)
  {
    hide ValueEnd, IsWord, Ends, Identifier, KeyOf, IsCut;
    PairsAfterCut(s, start, name, q, letters);
  }

  lemma ValueMoved(s: string, start: nat, name: string, v: Value, letters: Letters)
    requires 2 <= start <= |s| && s[start - 1] == ' ' && s[start - 2] == ':' && Identifier(name, letters)
    requires IsValue(Cut(s, start), KeyOf(name), v, letters) && v.start > start
    ensures var shift := ValueEnd(s, start, start) - (start + 1);
            v.start + shift >= 0 && v.end + shift >= 0 && IsValue(s, KeyOf(name), Value(v.start + shift, v.end + shift), letters)
  {
    hide ValueEnd, IsWord, Ends, Identifier, KeyOf, IsCut, PairAt, Cut, Depth;
    var t, shift := Cut(s, start), ValueEnd(s, start, start) - (start + 1);
    assert v.start - |KeyOf(name)| >= 0 by {
      PairInside(t, KeyOf(name), v.start - |KeyOf(name)|, letters);
    }
    PairMoved(s, start, name, v.start - |KeyOf(name)|, letters);
    TailMoved(s, start, v.start);
    ValueEndsMoved(t, s, v.start, shift);
  }

  lemma PairInside(s: string, key: string, p: int, letters: Letters)
    requires PairAt(s, key, p, letters)
    ensures 0 <= p && p + |key| <= |s|
  {
  }

  lemma ValueEndsMoved(t: string, s: string, start: nat, shift: int)
    requires start <= |t| && 0 <= start + shift <= |s| && t[start..] == s[start + shift..]
    ensures ValueEnd(s, start + shift, start + shift) == ValueEnd(t, start, start) + shift
  {
    ValueEndMoved(t, s, start, start, shift);
  }

  lemma PairBeyond(s: string, start: nat, name: string, p: nat, letters: Letters)
    requires 2 <= start <= |s| && s[start - 1] == ' ' && s[start - 2] == ':' && Identifier(name, letters)
    requires p >= ValueEnd(s, start, start) && Occurs(s, KeyOf(name), p) && AtBoundary(s, p, letters)
    ensures var q := p - (ValueEnd(s, start, start) - (start + 1));
            q >= start + 1 && Occurs(Cut(s, start), KeyOf(name), q) && AtBoundary(Cut(s, start), q, letters)
  {
    hide ValueEnd, IsWord, Ends, Identifier, KeyOf, IsCut;
    var t, key, end := Cut(s, start), KeyOf(name), ValueEnd(s, start, start);
    var q := p - (end - (start + 1));
    assert t[q..q + |key|] == s[p..p + |key|];
    CutEnds(s, start);
    NotAcross(t, start, name, q, letters);
  }

  lemma FirstInOrder(s: string, at: nat, v: Value, rest: seq<Value>)
    requires at <= v.start <= v.end && InOrder(s, v.end, rest)
    ensures InOrder(s, at, [v] + rest) && v.end <= |s|
    ensures Stitched(s, at, [v] + rest) == s[at..v.start] + ("_" + Stitched(s, v.end, rest))
  {
    assert ([v] + rest)[1..] == rest;
  }

  lemma OrderMovedHere(s: string, t: string, start: nat, found: seq<Value>)
    requires start <= |s| && t == Cut(s, start) && InOrder(t, start + 1, found)
    ensures var end := ValueEnd(s, start, start);
            && start < |t| && t[start + 1..] == s[end..]
            && (forall i :: 0 <= i < |found| ==> start + 1 <= found[i].start <= found[i].end)
            && InOrder(s, end, Moved(found, end - (start + 1)))
  {
    hide ValueEnd;
    OrderInside(t, start + 1, found);
    OrderMoved(t, s, start + 1, found, ValueEnd(s, start, start) - (start + 1));
  }

  lemma ListedMoved(found: seq<Value>, key: string, q: nat, shift: int, first: Value)
    requires Listed(found, key, q) && q + shift >= 0
    requires forall i :: 0 <= i < |found| ==> 0 <= found[i].start + shift && 0 <= found[i].end + shift
    ensures Listed([first] + Moved(found, shift), key, q + shift)
  {
    var i :| 0 <= i < |found| && (found[i].start == q + |key| || found[i].start <= q < found[i].end);
    assert ([first] + Moved(found, shift))[i + 1] == Value(found[i].start + shift, found[i].end + shift);
  }

  lemma OrderFrom(s: string, at: nat, next: nat, values: seq<Value>)
    requires at <= next && InOrder(s, next, values)
    ensures InOrder(s, at, values) && next <= |s| && (values != [] ==> next <= values[0].start)
  {
  }

  lemma StitchedFrom(s: string, at: nat, next: nat, values: seq<Value>)
    requires at <= next && InOrder(s, next, values)
    ensures InOrder(s, at, values) && next <= |s| && Stitched(s, at, values) == s[at..next] + Stitched(s, next, values)
  {
    OrderFrom(s, at, next, values);
    StitchedStep(s, at, values);
    StitchedStep(s, next, values);
    hide Stitched, InOrder;
    if values != [] {
      var v := values[0];
      assert s[at..v.start] == s[at..next] + s[next..v.start];
      Assoc(s[at..next], s[next..v.start], "_" + Stitched(s, v.end, values[1..]));
    } else {
      assert s[at..] == s[at..next] + s[next..];
    }
  }

  /** A pair of the name at `p` whose value is to be cut; `start` is where it starts. */
  predicate Pair(s: string, name: string, p: nat, start: nat, letters: Letters) {
    && Identifier(name, letters) && start == p + |KeyOf(name)| <= |s|
    && PairAt(s, KeyOf(name), p, letters)
  }

  lemma StitchedBehindCut(s: string, t: string, from: nat, start: nat, found: seq<Value>)
    requires from <= start <= |s| && t == Cut(s, start) && InOrder(t, start + 1, found)
    ensures var end := ValueEnd(s, start, start);
            && start < |t| && (forall i :: 0 <= i < |found| ==> start + 1 <= found[i].start <= found[i].end)
            && var values := [Value(start, end)] + Moved(found, end - (start + 1));
            && InOrder(s, from, values)
            && s[..from] + Stitched(s, from, values) == t[..start + 1] + Stitched(t, start + 1, found)
  {
    hide InOrder, ValueEnd, Stitched, Depth;
    var end := ValueEnd(s, start, start);
    OrderMovedHere(s, t, start, found);
    var moved := Moved(found, end - (start + 1));
    StitchedMoved(t, s, start + 1, found, end - (start + 1));
    FirstInOrder(s, from, Value(start, end), moved);
    assert s[..from] + s[from..start] == s[..start];
    Assoc(s[..from], s[from..start], "_" + Stitched(s, end, moved));
    Assoc(s[..start], "_", Stitched(s, end, moved));
    assert t[..start + 1] == s[..start] + "_";
  }

  lemma ListedBehindCut(s: string, name: string, p: nat, start: nat, found: seq<Value>, q: nat, letters: Letters)
    requires Pair(s, name, p, start, letters) && AreTheValues(Cut(s, start), KeyOf(name), start + 1, found, letters)
    requires forall i :: 0 <= i < |found| ==> start + 1 <= found[i].start <= found[i].end
    requires p <= q && PairAt(s, KeyOf(name), q, letters)
    ensures var end := ValueEnd(s, start, start);
            Listed([Value(start, end)] + Moved(found, end - (start + 1)), KeyOf(name), q)
  {
    hide InOrder, ValueEnd, IsWord, Identifier, KeyOf, Occurs, Cut;
    var end := ValueEnd(s, start, start);
    var values := [Value(start, end)] + Moved(found, end - (start + 1));
    KeyChars(s, name, p, letters);
    if p < q {
      NoOverlap(s, name, p, name, q, letters);
    }
    if q < end {
      assert values[0] == Value(start, end);
    } else {
      PairBeyond(s, start, name, q, letters);
      hide Listed, AtBoundary;
      ListedMoved(found, KeyOf(name), q - (end - (start + 1)), end - (start + 1), Value(start, end));
    }
  }

  /** After one cut: the values found in the rest of the new text, moved back, follow the
      value cut. */
  lemma ValuesBehindCut(s: string, name: string, from: nat, p: nat, start: nat, found: seq<Value>, letters: Letters)
    requires from <= p && Pair(s, name, p, start, letters)
    requires forall q: nat :: from <= q < p ==> !Occurs(s, KeyOf(name), q)
    requires AreTheValues(Cut(s, start), KeyOf(name), start + 1, found, letters)
    ensures forall i :: 0 <= i < |found| ==> start + 1 <= found[i].start <= found[i].end
    ensures var end := ValueEnd(s, start, start);
            AreTheValues(s, KeyOf(name), from, [Value(start, end)] + Moved(found, end - (start + 1)), letters)
  {
    hide InOrder, ValueEnd, IsWord, Identifier, KeyOf, Occurs, Cut, Listed, Stitched, AtBoundary;
    var key, end := KeyOf(name), ValueEnd(s, start, start);
    StitchedBehindCut(s, Cut(s, start), from, start, found);
    var values := [Value(start, end)] + Moved(found, end - (start + 1));
    KeyChars(s, name, p, letters);
    forall i | 0 <= i < |values|
      ensures IsValue(s, key, values[i], letters)
    {
      if i > 0 {
        ValueMoved(s, start, name, found[i - 1], letters);
      } else {
        assert start - |key| == p;
      }
    }
    forall q: nat | from <= q && PairAt(s, key, q, letters)
      ensures Listed(values, key, q)
    {
      ListedBehindCut(s, name, p, start, found, q, letters);
    }
  }

  /** An occurrence that is no pair hides none: the next pair begins behind it. */
  lemma PairsAreBehind(s: string, name: string, from: nat, p: nat, letters: Letters)
    requires Identifier(name, letters) && Find(s, KeyOf(name), from) == Some(p) && !AtBoundary(s, p, letters)
    ensures forall q: nat :: from <= q && PairAt(s, KeyOf(name), q, letters) ==> q >= End(s, KeyOf(name), p)
  {
    hide IsWord, Identifier, KeyOf, Find, Occurs;
    forall q: nat | from <= q && PairAt(s, KeyOf(name), q, letters)
      ensures q >= End(s, KeyOf(name), p)
    {
      if p < q {
        NoOverlap(s, name, p, name, q, letters);
      }
    }
  }

  lemma ValuesBehindNoPair(s: string, name: string, from: nat, p: nat, values: seq<Value>, letters: Letters)
    requires Identifier(name, letters) && from <= |s|
    requires Find(s, KeyOf(name), from) == Some(p) && !AtBoundary(s, p, letters)
    requires AreTheValues(s, KeyOf(name), End(s, KeyOf(name), p), values, letters)
    ensures var start := End(s, KeyOf(name), p);
            && from <= start && AreTheValues(s, KeyOf(name), from, values, letters)
            && s[..start] + Stitched(s, start, values) == s[..from] + Stitched(s, from, values)
  {
    hide InOrder, ValueEnd, IsWord, Identifier, KeyOf, Find, IsValue, Listed, Stitched, Occurs, Depth;
    var start := End(s, KeyOf(name), p);
    StitchedFrom(s, from, start, values);
    assert s[..start] == s[..from] + s[from..start];
    Assoc(s[..from], s[from..start], Stitched(s, start, values));
    PairsAreBehind(s, name, from, p, letters);
  }

  /** The pass replaces exactly the outermost values of the name's pairs, each whole, by an
      underscore, and keeps everything else. */
  lemma {:induction false} PassReplacesTheValues(s: string, name: string, from: nat, letters: Letters) returns (values: seq<Value>)
    requires Identifier(name, letters) && from <= |s|
    ensures AreTheValues(s, KeyOf(name), from, values, letters)
    ensures Pass(s, KeyOf(name), from, letters) == s[..from] + Stitched(s, from, values)
    decreases |s| - from
  {
    hide InOrder, ValueEnd, IsWord, Identifier, KeyOf, Find, Cut, IsValue, Listed, Stitched, Occurs, Depth, AtBoundary;
    var key := KeyOf(name);
    var next := Find(s, key, from);
    if next.None? {
      values := [];
      NoValues(s, name, from, letters);
    } else {
      var p := next.value;
      var start := End(s, key, p);
      if AtBoundary(s, p, letters) {
        CutEnds(s, start);
        var found := PassReplacesTheValues(Cut(s, start), name, start + 1, letters);
        ValuesBehindCut(s, name, from, p, start, found, letters);
        StitchedBehindCut(s, Cut(s, start), from, start, found);
        values := [Value(start, ValueEnd(s, start, start))] + Moved(found, ValueEnd(s, start, start) - (start + 1));
      } else {
        values := PassReplacesTheValues(s, name, start, letters);
        ValuesBehindNoPair(s, name, from, p, values, letters);
      }
    }
  }

  lemma NoValues(s: string, name: string, from: nat, letters: Letters)
    requires from <= |s| && Find(s, KeyOf(name), from).None?
    ensures AreTheValues(s, KeyOf(name), from, [], letters) && s == s[..from] + Stitched(s, from, [])
  {
    hide Find, KeyOf, Occurs, IsWord;
  }
}
