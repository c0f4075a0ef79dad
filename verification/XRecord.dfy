/** Setting an XRECORD's values, or an application's extended data, beside the groups of an
    export's record (`examples/probe_code_page.rs`): one iterator advanced item by item. */
module XRecord {
  import opened Results
  import DxfText

  datatype Value =
    | Text(text: string) | Point(p: seq<real>) | Real(r: real)
    | Short(v: int) | Long(v: int) | ByteValue(v: int)
    | Handle(h: nat) | Binary(bytes: seq<nat>) | Brace(open: bool)

  datatype Item = Item(code: nat, value: Value) {
    predicate Valid() {
      value.Point? ==> |value.p| == 3
    }

    /** How many groups spell the item. */
    function Arity(): nat {
      if value.Point? then 3 else 1
    }
  }

  datatype Group = Group(code: nat, value: string)

  /** How values are compared: text folded, numbers read from text, reals within a tolerance,
      bytes in hexadecimal, and the layers by handle. */
  datatype Reading = Reading(norm: string -> string, real_: string -> Option<real>, close: (real, real) -> bool,
                             int_: string -> Option<int>, hexOf: seq<nat> -> string, layers: map<nat, string>)

  function Lower(s: string): string {
    if s == [] then [] else [if 'A' <= s[0] <= 'Z' then s[0] - 'A' + 'a' else s[0]] + Lower(s[1..])
  }

  predicate RealIs(s: string, r: real, how: Reading) {
    how.real_(s).Some? && how.close(how.real_(s).value, r)
  }

  /** Whether the group's value is the `k`-th part of the item's. */
  predicate Carries(item: Item, k: nat, s: string, how: Reading)
    requires item.Valid() && k < item.Arity()
  {
    match item.value
    case Text(text) => how.norm(text) == how.norm(s)
    case Point(p) => RealIs(s, p[k], how)
    case Real(r) => RealIs(s, r, how)
    case Short(v) => how.int_(s) == Some(v)
    case Long(v) => how.int_(s) == Some(v)
    case ByteValue(v) => how.int_(s) == Some(v)
    case Handle(h) =>
      if item.code == 1003 then h in how.layers && how.norm(how.layers[h]) == how.norm(s)
      else DxfText.ParseU64(DxfText.Trim(s), 16) == Some(h)
    case Binary(b) => Lower(DxfText.Trim(s)) == Lower(how.hexOf(b))
    case Brace(open) => DxfText.Trim(s) == if open then "{" else "}"
  }

  /** The group is the `k`-th of the item's form: the codes of a point's three are ten apart. */
  predicate IsPart(item: Item, k: nat, g: Group, how: Reading)
    requires item.Valid() && k < item.Arity()
  {
    g.code == item.code + 10 * k && Carries(item, k, g.value, how)
  }

  /** The groups are the item's form. */
  predicate Spells(item: Item, groups: seq<Group>, how: Reading)
    requires item.Valid()
  {
    |groups| == item.Arity() && forall k :: 0 <= k < |groups| ==> IsPart(item, k, groups[k], how)
  }

  /** A point is three reals, X at the item's own code, Y ten above and Z twenty. */
  lemma PointIsThreeGroups(item: Item, groups: seq<Group>, how: Reading)
    requires item.Valid() && item.value.Point?
    ensures Spells(item, groups, how) <==>
              && |groups| == 3
              && groups[0].code == item.code && RealIs(groups[0].value, item.value.p[0], how)
              && groups[1].code == item.code + 10 && RealIs(groups[1].value, item.value.p[1], how)
              && groups[2].code == item.code + 20 && RealIs(groups[2].value, item.value.p[2], how)
  {
    hide RealIs;
    if |groups| == 3 {
      assert forall k :: 0 <= k < 3 ==> (IsPart(item, k, groups[k], how) <==>
        groups[k].code == item.code + 10 * k && RealIs(groups[k].value, item.value.p[k], how));
    }
  }

  /** Any other item is one group at its code; a handle is its hexadecimal number, but at code
      1003 it stands for the layer of that handle, by name. */
  lemma OthersAreOneGroup(item: Item, groups: seq<Group>, how: Reading)
    requires item.Valid() && !item.value.Point? && Spells(item, groups, how)
    ensures |groups| == 1 && groups[0].code == item.code
    ensures match item.value
            case Handle(h) =>
              if item.code == 1003 then h in how.layers && how.norm(how.layers[h]) == how.norm(groups[0].value)
              else h < 0x1_0000_0000_0000_0000
                   && exists t: string :: DxfText.Trim(groups[0].value) in {t, "+" + t} && DxfText.States(t, 16, h)
            case Binary(b) => SameLetters(DxfText.Trim(groups[0].value), how.hexOf(b))
            case Brace(open) => DxfText.Trim(groups[0].value) == (if open then "{" else "}")
            case Text(text) => how.norm(text) == how.norm(groups[0].value)
            case Real(r) => RealIs(groups[0].value, r, how)
            case Short(v) => how.int_(groups[0].value) == Some(v)
            case Long(v) => how.int_(groups[0].value) == Some(v)
            case ByteValue(v) => how.int_(groups[0].value) == Some(v)
            case Point(_) => true
  {
    hide DxfText.Trim, DxfText.ParseU64, DxfText.States, Lower;
    assert IsPart(item, 0, groups[0], how);
    if item.value.Handle? && item.code != 1003 {
      var s := DxfText.Trim(groups[0].value);
      DxfText.ParsesU64Exactly(s, 16, item.value.h);
    } else if item.value.Binary? {
      LowerComparesLetters(DxfText.Trim(groups[0].value), how.hexOf(item.value.bytes));
    }
  }

  /** The two characters are the two cases of the `k`-th letter. */
  predicate CasesOf(k: nat, a: char, b: char)
    requires k < 26
  {
    || (a == DxfText.UPPER_LETTERS[k] && b == DxfText.LOWER_LETTERS[k])
    || (a == DxfText.LOWER_LETTERS[k] && b == DxfText.UPPER_LETTERS[k])
  }

  /** Equal but for the case of ASCII letters. */
  predicate SameLetters(s: string, t: string) {
    |s| == |t| && forall i :: 0 <= i < |s| ==>
      s[i] == t[i]
      || exists k :: 0 <= k < 26 && CasesOf(k, s[i], t[i])
  }

  lemma {:induction false} LowerComparesLetters(s: string, t: string)
    ensures Lower(s) == Lower(t) <==> SameLetters(s, t)
  {
    LowerIs(s);
    LowerIs(t);
    if |s| == |t| {
      forall i | 0 <= i < |s|
        ensures Lower(s)[i] == Lower(t)[i] <==>
                  s[i] == t[i] || exists k :: 0 <= k < 26 && CasesOf(k, s[i], t[i])
      {
        SameLetter(s[i], t[i]);
      }
    }
  }

  function LowerOf(c: char): char {
    if 'A' <= c <= 'Z' then c - 'A' + 'a' else c
  }

  lemma {:induction false} LowerIs(s: string)
    ensures |Lower(s)| == |s| && forall i :: 0 <= i < |s| ==> Lower(s)[i] == LowerOf(s[i])
  {
    if s != [] {
      LowerIs(s[1..]);
    }
  }

  lemma SameLetter(a: char, b: char)
    ensures LowerOf(a) == LowerOf(b) <==>
              a == b || exists k :: 0 <= k < 26 && CasesOf(k, a, b)
  {
    DxfText.LettersInOrder();
    if a != b && LowerOf(a) == LowerOf(b) {
      var upper := if a < b then a else b;
      var k := upper as int - 'A' as int;
      assert CasesOf(k, a, b);
    }
  }

  // ---- values the save makes anew -----------------------------------------------

  predicate IsHexDigit(c: char) {
    '0' <= c <= '9' || 'a' <= c <= 'f' || 'A' <= c <= 'F'
  }

  predicate IsGuid(s: string) {
    && |s| == 38 && s[0] == '{' && s[37] == '}'
    && forall i :: 1 <= i < 37 ==> if i == 9 || i == 14 || i == 19 || i == 24 then s[i] == '-' else IsHexDigit(s[i])
  }

  predicate EndsWith(s: string, end: string) {
    |end| <= |s| && s[|s| - |end|..] == end
  }

  predicate IsSavePath(ours: string, theirs: string) {
    && EndsWith(ours, ".dwg") && EndsWith(theirs, "_ascii.dxf")
    && ours[..|ours| - 4] == theirs[..|theirs| - 10]
  }

  predicate AllHex(s: string, n: nat) {
    |s| == n && forall i :: 0 <= i < n ==> s[i] in "0123456789abcdefABCDEF"
  }

  /** A GUID is five runs of hexadecimal digits in braces, hyphens between. */
  ghost predicate FiveRuns(s: string, a: string, b: string, c: string, d: string, e: string) {
    && AllHex(a, 8) && AllHex(b, 4) && AllHex(c, 4) && AllHex(d, 4) && AllHex(e, 12)
    && s == "{" + a + "-" + b + "-" + c + "-" + d + "-" + e + "}"
  }

  lemma GuidIsFiveRuns(s: string)
    ensures IsGuid(s) <==>
              exists a: string, b: string, c: string, d: string, e: string :: FiveRuns(s, a, b, c, d, e)
  {
    if IsGuid(s) {
      GuidHasRuns(s);
    }
    forall a: string, b: string, c: string, d: string, e: string | FiveRuns(s, a, b, c, d, e)
      ensures IsGuid(s)
    {
      RunsMakeGuid(s, a, b, c, d, e);
    }
  }

  lemma GuidHasRuns(s: string)
    requires IsGuid(s)
    ensures FiveRuns(s, s[1..9], s[10..14], s[15..19], s[20..24], s[25..37])
  {
    hide AllHex, IsHexDigit;
    PartIsHex(s, 1, 9);
    PartIsHex(s, 10, 14);
    PartIsHex(s, 15, 19);
    PartIsHex(s, 20, 24);
    PartIsHex(s, 25, 37);
    GuidIsJoined(s);
  }

  lemma GuidIsJoined(s: string)
    requires |s| == 38 && s[0] == '{' && s[9] == s[14] == s[19] == s[24] == '-' && s[37] == '}'
    ensures s == "{" + s[1..9] + "-" + s[10..14] + "-" + s[15..19] + "-" + s[20..24] + "-" + s[25..37] + "}"
  {
    assert s[..1] == "{" && s[..38] == s;
    RunGoesOn(s, "{", 1, 9, "-");
    RunGoesOn(s, "{" + s[1..9] + "-", 10, 14, "-");
    RunGoesOn(s, "{" + s[1..9] + "-" + s[10..14] + "-", 15, 19, "-");
    RunGoesOn(s, "{" + s[1..9] + "-" + s[10..14] + "-" + s[15..19] + "-", 20, 24, "-");
    RunGoesOn(s, "{" + s[1..9] + "-" + s[10..14] + "-" + s[15..19] + "-" + s[20..24] + "-", 25, 37, "}");
  }

  lemma RunGoesOn(s: string, before: string, from: nat, to: nat, end: string)
    requires from <= to < |s| && before == s[..from] && end == [s[to]]
    ensures before + s[from..to] + end == s[..to + 1]
  {
  }

  lemma PartIsHex(s: string, from: nat, to: nat)
    requires from <= to <= |s| && forall i :: from <= i < to ==> IsHexDigit(s[i])
    ensures AllHex(s[from..to], to - from)
  {
    forall i | 0 <= i < to - from
      ensures s[from..to][i] in "0123456789abcdefABCDEF"
    {
      HexDigits(s[from + i]);
    }
  }

  lemma RunsMakeGuid(s: string, a: string, b: string, c: string, d: string, e: string)
    requires FiveRuns(s, a, b, c, d, e)
    ensures IsGuid(s)
  {
    hide IsHexDigit;
    assert s[1..9] == a && s[10..14] == b && s[15..19] == c && s[20..24] == d && s[25..37] == e;
    forall i | 1 <= i < 37 && i != 9 && i != 14 && i != 19 && i != 24
      ensures IsHexDigit(s[i])
    {
      HexDigits(s[i]);
    }
  }

  lemma HexDigits(c: char)
    ensures IsHexDigit(c) <==> c in "0123456789abcdefABCDEF"
  {
    if '0' <= c <= '9' {
      assert "0123456789abcdefABCDEF"[c as int - '0' as int] == c;
    } else if 'a' <= c <= 'f' {
      assert "0123456789abcdefABCDEF"[10 + c as int - 'a' as int] == c;
    } else if 'A' <= c <= 'F' {
      assert "0123456789abcdefABCDEF"[16 + c as int - 'A' as int] == c;
    }
  }

  /** The save's path is the drawing's, with another ending. */
  lemma SavePathHasOneStem(ours: string, theirs: string)
    ensures IsSavePath(ours, theirs) <==> exists stem: string :: ours == stem + ".dwg" && theirs == stem + "_ascii.dxf"
  {
    if IsSavePath(ours, theirs) {
      var stem := ours[..|ours| - 4];
      assert ours == stem + ".dwg" && theirs == stem + "_ascii.dxf";
    }
  }

  /** In one of two records, a handle, a GUID or the save's own path under the item's code. */
  predicate IsAnew(record: nat, item: Item, g: Group) {
    && (record == 0x306 || record == 0xD09)
    && g.code == item.code
    && match item.value
       case Handle(_) => DxfText.ParseU64(DxfText.Trim(g.value), 16).Some?
       case Text(text) => (IsGuid(text) && IsGuid(DxfText.Trim(g.value))) || IsSavePath(text, DxfText.Trim(g.value))
       case _ => false
  }

  /** Only in the records 0x306 and 0xD09, and only for a value of the item's code: a handle,
      another GUID, or the save's path for the drawing's. */
  lemma AnewExactly(record: nat, item: Item, g: Group)
    ensures IsAnew(record, item, g) <==>
              && record in {0x306, 0xD09} && g.code == item.code
              && ((item.value.Handle?
                   && exists n: nat, t: string :: DxfText.Trim(g.value) in {t, "+" + t} && n < 0x1_0000_0000_0000_0000
                                                  && DxfText.States(t, 16, n))
                  || (item.value.Text?
                      && ((IsGuid(item.value.text) && IsGuid(DxfText.Trim(g.value)))
                          || exists stem: string :: item.value.text == stem + ".dwg" && DxfText.Trim(g.value) == stem + "_ascii.dxf")))
  {
    hide DxfText.Trim, DxfText.ParseU64, DxfText.States, IsGuid, IsSavePath;
    var s := DxfText.Trim(g.value);
    match item.value {
      case Handle(_) =>
        forall n: nat, t: string | s in {t, "+" + t} && n < 0x1_0000_0000_0000_0000 && DxfText.States(t, 16, n)
          ensures DxfText.ParseU64(s, 16) == Some(n)
        {
          DxfText.ParsesU64Exactly(s, 16, n);
        }
        if DxfText.ParseU64(s, 16).Some? {
          var n := DxfText.ParseU64(s, 16).value;
          DxfText.ParsesU64Exactly(s, 16, n);
          var t: string :| (s == t || s == "+" + t) && DxfText.States(t, 16, n);
          assert s in {t, "+" + t};
        }
      case Text(text) => SavePathHasOneStem(text, s);
      case _ =>
    }
  }

  // ---- the comparison --------------------------------------------------------------

  /** A record that cannot be paired; one that agrees but for so many save-time values; the
      first item that differs; or groups left over. */
  datatype Agreement = CannotPair | Agrees(saveTime: nat) | Differs(item: nat) | ExportHasMore

  predicate AllValid(items: seq<Item>) {
    forall i :: 0 <= i < |items| ==> items[i].Valid()
  }

  /** Some number of groups at the front spell the item. */
  predicate Starts(item: Item, data: seq<Group>, how: Reading)
    requires item.Valid()
  {
    item.Arity() <= |data| && Spells(item, data[..item.Arity()], how)
  }

  function Agreed(record: nat, items: seq<Item>, data: seq<Group>, saveTime: nat, n: nat, how: Reading): Agreement
    requires AllValid(items)
    decreases |items|
  {
    if items == [] then (if data == [] then Agrees(saveTime) else ExportHasMore)
    else if Starts(items[0], data, how) then Agreed(record, items[1..], data[items[0].Arity()..], saveTime, n + 1, how)
    else if data != [] && IsAnew(record, items[0], data[0]) then Agreed(record, items[1..], data[1..], saveTime + 1, n + 1, how)
    else Differs(n)
  }

  method GroupMatches(item: Item, data: seq<Group>, at: nat, how: Reading) returns (ok: bool, next: nat)
    requires item.Valid() && at <= |data|
    ensures ok <==> Starts(item, data[at..], how)
    ensures ok ==> next == at + item.Arity()
  {
    hide Carries;
    ghost var rest := data[at..];
    next := at;
    for k := 0 to item.Arity()
      invariant next == at + k <= |data|
      invariant forall j :: 0 <= j < k ==> IsPart(item, j, rest[j], how)
    {
      if next == |data| {
        return false, next;
      }
      var g := data[next];
      next := next + 1;
      assert g == rest[k];
      if !(g.code == item.code + 10 * k && Carries(item, k, g.value, how)) {
        assert !IsPart(item, k, rest[k], how);
        NotAPart(item, rest, k, how);
        return false, next;
      }
    }
    assert rest[..item.Arity()] == data[at..next];
    ok := true;
  }

  lemma NotAPart(item: Item, data: seq<Group>, k: nat, how: Reading)
    requires item.Valid() && k < item.Arity() && k < |data| && !IsPart(item, k, data[k], how)
    ensures !Starts(item, data, how)
  {
    hide Carries, IsPart;
    if item.Arity() <= |data| {
      assert data[..item.Arity()][k] == data[k];
    }
  }

  /** Where the application's data starts: after the first marker, and a cloning flag. */
  function DataAt(groups: seq<Group>): (r: Option<nat>)
    ensures r.Some? ==> r.value <= |groups|
  {
    if groups == [] then None
    else if groups[0].code == 100 && DxfText.Trim(groups[0].value) == "AcDbXrecord" then
      Some(if |groups| > 1 && groups[1].code == 280 then 2 else 1)
    else match DataAt(groups[1..])
      case None => None
      case Some(at) => Some(at + 1)
  }

  predicate IsMarker(g: Group) {
    g.code == 100 && DxfText.Trim(g.value) == "AcDbXrecord"
  }

  /** The data is all behind the first marker, a cloning flag directly after it left out. */
  lemma {:induction false} DataIsBehindMarker(groups: seq<Group>, m: nat)
    requires m < |groups| && IsMarker(groups[m]) && forall k :: 0 <= k < m ==> !IsMarker(groups[k])
    ensures DataAt(groups) == Some(if m + 1 < |groups| && groups[m + 1].code == 280 then m + 2 else m + 1)
    decreases m
  {
    hide DxfText.Trim;
    if m > 0 {
      DataIsBehindMarker(groups[1..], m - 1);
    }
  }

  /** Without a marker there is none. */
  lemma {:induction false} NoMarkerNoData(groups: seq<Group>)
    ensures DataAt(groups).None? <==> forall k :: 0 <= k < |groups| ==> !IsMarker(groups[k])
  {
    hide DxfText.Trim;
    if groups != [] {
      NoMarkerNoData(groups[1..]);
      assert forall k :: 0 < k < |groups| ==> groups[k] == groups[1..][k - 1];
    }
  }

  method XrecordAgrees(record: nat, items: seq<Item>, groups: seq<Group>, how: Reading) returns (r: Agreement)
    requires AllValid(items)
    ensures r == if (exists i :: 0 <= i < |items| && items[i].code == 102) || DataAt(groups).None? then CannotPair
                 else Agreed(record, items, groups[DataAt(groups).value..], 0, 0, how)
  {
    hide Starts, IsAnew;
    if exists i :: 0 <= i < |items| && items[i].code == 102 {
      return CannotPair;
    }
    var marker := DataAt(groups);
    if marker.None? {
      return CannotPair;
    }
    hide DataAt;
    var data := groups[marker.value..];
    var at, saveTime := 0, 0;
    assert data[0..] == data;
    for n := 0 to |items|
      invariant at <= |data|
      invariant Agreed(record, items, data, 0, 0, how) == Agreed(record, items[n..], data[at..], saveTime, n, how)
    {
      var item := items[n];
      assert items[n..][1..] == items[n + 1..];
      Behind(data, at);
      var matched, next := GroupMatches(item, data, at, how);
      if matched {
        assert item.Arity() <= |data[at..]| by {
          LongEnough(item, data[at..], how);
        }
        assert data[at..][item.Arity()..] == data[next..];
        at := next;
      } else if at < |data| && IsAnew(record, item, data[at]) {
        at, saveTime := at + 1, saveTime + 1;
      } else {
        return Differs(n);
      }
    }
    r := if at == |data| then Agrees(saveTime) else ExportHasMore;
  }

  lemma LongEnough(item: Item, data: seq<Group>, how: Reading)
    requires item.Valid() && Starts(item, data, how)
    ensures item.Arity() <= |data|
  {
  }

  lemma Behind(data: seq<Group>, at: nat)
    requires at <= |data|
    ensures at < |data| ==> data[at..] != [] && data[at..][0] == data[at] && data[at..][1..] == data[at + 1..]
    ensures at == |data| ==> data[at..] == []
  {
  }

  // ---- what agreement means ------------------------------------------------------------

  function Flatten(parts: seq<seq<Group>>): seq<Group> {
    if parts == [] then [] else parts[0] + Flatten(parts[1..])
  }

  function Count(anew: seq<bool>): nat {
    if anew == [] then 0 else (if anew[0] then 1 else 0) + Count(anew[1..])
  }

  /** The data is the items' forms one after the other, save those made anew, each in one
      group of its own. */
  predicate Divided(record: nat, items: seq<Item>, data: seq<Group>, parts: seq<seq<Group>>, anew: seq<bool>, how: Reading)
    requires AllValid(items)
  {
    && |parts| == |anew| == |items| && Flatten(parts) == data
    && forall i :: 0 <= i < |items| ==>
         if anew[i] then |parts[i]| == 1 && !Spells(items[i], parts[i], how) && IsAnew(record, items[i], parts[i][0])
         else Spells(items[i], parts[i], how)
  }

  lemma {:induction false} AgreedDivides(record: nat, items: seq<Item>, data: seq<Group>, saveTime: nat, n: nat, how: Reading)
    returns (parts: seq<seq<Group>>, anew: seq<bool>)
    requires AllValid(items) && Agreed(record, items, data, saveTime, n, how).Agrees?
    ensures Divided(record, items, data, parts, anew, how)
    ensures Agreed(record, items, data, saveTime, n, how) == Agrees(saveTime + Count(anew))
    decreases |items|
  {
    hide IsAnew, IsPart;
    if items == [] {
      parts, anew := [], [];
    } else {
      var matched := Starts(items[0], data, how);
      var width := if matched then items[0].Arity() else 1;
      var more, rest := AgreedDivides(record, items[1..], data[width..], saveTime + (if matched then 0 else 1), n + 1, how);
      parts, anew := [data[..width]] + more, [!matched] + rest;
      DividesMore(record, items, data, width, more, rest, how);
    }
  }

  lemma DividesMore(record: nat, items: seq<Item>, data: seq<Group>, width: nat, more: seq<seq<Group>>, rest: seq<bool>, how: Reading)
    requires AllValid(items) && items != [] && width <= |data| && Divided(record, items[1..], data[width..], more, rest, how)
    requires var matched := Starts(items[0], data, how);
             if matched then width == items[0].Arity() else width == 1 && IsAnew(record, items[0], data[0])
    ensures Divided(record, items, data, [data[..width]] + more, [!Starts(items[0], data, how)] + rest, how)
    ensures Count([!Starts(items[0], data, how)] + rest) == Count(rest) + if Starts(items[0], data, how) then 0 else 1
  {
    hide IsAnew, IsPart;
    var parts, anew := [data[..width]] + more, [!Starts(items[0], data, how)] + rest;
    assert parts[1..] == more && anew[1..] == rest;
    assert data == data[..width] + data[width..];
    assert forall i :: 0 < i < |items| ==> items[i] == items[1..][i - 1] && parts[i] == more[i - 1] && anew[i] == rest[i - 1];
    if !Starts(items[0], data, how) {
      assert items[0].Arity() == 1 by {
        hide Starts, Spells, Divided;
        OneGroup(record, items[0], data[0]);
      }
    }
  }

  /** Only values of one group are ever made anew. */
  lemma OneGroup(record: nat, item: Item, g: Group)
    requires IsAnew(record, item, g)
    ensures item.Arity() == 1
  {
  }

  lemma {:induction false} DividedAgrees(record: nat, items: seq<Item>, data: seq<Group>, parts: seq<seq<Group>>, anew: seq<bool>,
                                         saveTime: nat, n: nat, how: Reading)
    requires AllValid(items) && Divided(record, items, data, parts, anew, how)
    ensures Agreed(record, items, data, saveTime, n, how) == Agrees(saveTime + Count(anew))
    decreases |items|
  {
    hide IsAnew, IsPart;
    if items != [] {
      var item, width := items[0], |parts[0]|;
      assert data[..width] == parts[0] && data[width..] == Flatten(parts[1..]);
      if anew[0] {
        OneGroup(record, item, parts[0][0]);
        assert data[..1][0] == data[0];
      }
      DividedAgrees(record, items[1..], data[width..], parts[1..], anew[1..], saveTime + (if anew[0] then 1 else 0), n + 1, how);
    }
  }

  ghost predicate Divides(record: nat, items: seq<Item>, data: seq<Group>, saveTime: nat, how: Reading)
    requires AllValid(items)
  {
    exists parts: seq<seq<Group>>, anew: seq<bool> :: Divided(record, items, data, parts, anew, how) && Count(anew) == saveTime
  }

  /** The comparison agrees with `saveTime` exceptions exactly when the data can be divided
      among the items with that many of them made anew. */
  lemma AgreementIsDivision(record: nat, items: seq<Item>, data: seq<Group>, saveTime: nat, how: Reading)
    requires AllValid(items)
    ensures Agreed(record, items, data, 0, 0, how) == Agrees(saveTime) <==> Divides(record, items, data, saveTime, how)
  {
    hide Divided, Agreed;
    if Agreed(record, items, data, 0, 0, how) == Agrees(saveTime) {
      var parts, anew := AgreedDivides(record, items, data, 0, 0, how);
    }
    if Divides(record, items, data, saveTime, how) {
      var parts: seq<seq<Group>>, anew: seq<bool> :| Divided(record, items, data, parts, anew, how) && Count(anew) == saveTime;
      DividedAgrees(record, items, data, parts, anew, 0, 0, how);
    }
  }

  /** The forms of the items, one after the other, are all the data. */
  ghost predicate IsConcatenation(items: seq<Item>, data: seq<Group>, how: Reading)
    requires AllValid(items)
  {
    exists parts: seq<seq<Group>> :: |parts| == |items| && Flatten(parts) == data
                                     && forall i :: 0 <= i < |items| ==> Spells(items[i], parts[i], how)
  }

  lemma {:induction false} NoneCounted(anew: seq<bool>)
    ensures Count(anew) == 0 <==> forall i :: 0 <= i < |anew| ==> !anew[i]
  {
    if anew != [] {
      NoneCounted(anew[1..]);
      assert forall i :: 0 < i < |anew| ==> anew[i] == anew[1..][i - 1];
    }
  }

  /** Agreement without exception is exact: whatever the record, it holds if and only if the
      data is the items' forms and nothing else. */
  lemma ExactAgreement(record: nat, items: seq<Item>, data: seq<Group>, how: Reading)
    requires AllValid(items)
    ensures Agreed(record, items, data, 0, 0, how) == Agrees(0) <==> IsConcatenation(items, data, how)
  {
    hide Agreed, Spells, IsAnew, Count, Flatten;
    AgreementIsDivision(record, items, data, 0, how);
    if Divides(record, items, data, 0, how) {
      var parts: seq<seq<Group>>, anew: seq<bool> :| Divided(record, items, data, parts, anew, how) && Count(anew) == 0;
      NoneCounted(anew);
      assert IsConcatenation(items, data, how);
    }
    if IsConcatenation(items, data, how) {
      var parts: seq<seq<Group>> :| |parts| == |items| && Flatten(parts) == data
                                    && forall i :: 0 <= i < |items| ==> Spells(items[i], parts[i], how);
      var anew := seq(|items|, i => false);
      NoneCounted(anew);
      assert Divided(record, items, data, parts, anew, how);
    }
  }

  // ---- an application's extended data -----------------------------------------------------

  /** The one block of leading items an export may lack. */
  predicate IsRttcalBlock(items: seq<Item>) {
    && |items| == 4
    && items[0] == Item(1000, Text("RTTcAl")) && items[3] == Item(1000, Text("$$NoName$$"))
    && items[1].code == 1070 && items[1].value.Short? && items[2].code == 1071 && items[2].value.Long?
  }

  /** It is these four items: two strings, and a short and a long of any value between. */
  lemma RttcalBlockIs(items: seq<Item>)
    ensures IsRttcalBlock(items) <==>
              exists a: int, b: int ::
                items == [Item(1000, Text("RTTcAl")), Item(1070, Short(a)), Item(1071, Long(b)), Item(1000, Text("$$NoName$$"))]
  {
    if IsRttcalBlock(items) {
      var a, b := items[1].value.v, items[2].value.v;
      assert items == [Item(1000, Text("RTTcAl")), Item(1070, Short(a)), Item(1071, Long(b)), Item(1000, Text("$$NoName$$"))];
    }
  }

  method AllMatch(items: seq<Item>, groups: seq<Group>, how: Reading) returns (ok: bool)
    requires AllValid(items)
    ensures ok <==> IsConcatenation(items, groups, how)
  {
    hide Starts, IsConcatenation;
    ExactAgreement(0, items, groups, how);
    var at := 0;
    assert groups[0..] == groups;
    for n := 0 to |items|
      invariant at <= |groups|
      invariant Agreed(0, items, groups, 0, 0, how) == Agreed(0, items[n..], groups[at..], 0, n, how)
    {
      assert items[n..][1..] == items[n + 1..];
      Behind(groups, at);
      var matched, next := GroupMatches(items[n], groups, at, how);
      if !matched {
        return false;
      }
      LongEnough(items[n], groups[at..], how);
      assert groups[at..][items[n].Arity()..] == groups[next..];
      at := next;
    }
    ok := at == |groups|;
  }

  /** How many leading items the export leaves out: none where the groups are all the items'
      forms, else four where they are the forms of those behind the block that may be lacking. */
  method AppMatches(items: seq<Item>, groups: seq<Group>, mayLackRttcal: bool, how: Reading) returns (r: Option<nat>)
    requires AllValid(items)
    ensures r == Some(0) <==> IsConcatenation(items, groups, how)
    ensures r == Some(4) <==> !IsConcatenation(items, groups, how) && mayLackRttcal && |items| >= 4
                              && IsRttcalBlock(items[..4]) && IsConcatenation(items[4..], groups, how)
    ensures r in {None, Some(0), Some(4)}
  {
    hide IsConcatenation;
    var all := AllMatch(items, groups, how);
    if all {
      return Some(0);
    }
    if 4 <= |items| && mayLackRttcal && IsRttcalBlock(items[..4]) {
      var behind := AllMatch(items[4..], groups, how);
      if behind {
        return Some(4);
      }
    }
    return None;
  }
}
