/** Reading a DXF export for its record handles: the section grammar that `read_twin` of
    `examples/probe_class_census.rs` enforces with a handful of variables, what it
    collects on the way, and the comment edits `examples/dxf_census.rs` calls legal. */
module DxfTwin {
  import opened DxfText
  import opened Results

  // ---- groups ----------------------------------------------------------------

  /** A group pair: its code as text and, when it is one, as a number, and its value. */
  datatype Group = Group(code: string, value: string) {
    function Numeric(): Option<int> {
      ParseI64(code)
    }

    predicate Is(n: int) {
      Numeric() == Some(n)
    }
  }

  function GroupsOf(lines: seq<string>): seq<Group>
    requires |lines| % 2 == 0
  {
    seq(|lines| / 2, n requires 0 <= n < |lines| / 2 => Group(Trim(lines[2 * n]), Trim(lines[2 * n + 1])))
  }

  /** The lines of groups: each code and its value, padded as any writer may. */
  function LinesOf(groups: seq<Group>, pad: string): seq<string> {
    if groups == [] then [] else [pad + groups[0].code, pad + groups[0].value] + LinesOf(groups[1..], pad)
  }

  predicate IsTrimmed(s: string) {
    s == [] || (!IsSpace(s[0]) && !IsSpace(s[|s| - 1]))
  }

  /** Groups of trimmed texts come back from their lines, whatever white space pads those. */
  lemma {:induction false} LinesAreGroups(groups: seq<Group>, pad: string)
    requires AllSpace(pad) && forall i :: 0 <= i < |groups| ==> IsTrimmed(groups[i].code) && IsTrimmed(groups[i].value)
    ensures |LinesOf(groups, pad)| == 2 * |groups| && GroupsOf(LinesOf(groups, pad)) == groups
  {
    hide Trim, IsTrimmed, AllSpace;
    var lines := LinesOf(groups, pad);
    if groups != [] {
      LinesAreGroups(groups[1..], pad);
      PaddingIsTrimmed(pad, groups[0].code);
      PaddingIsTrimmed(pad, groups[0].value);
      var rest := GroupsOf(LinesOf(groups[1..], pad));
      forall n | 0 < n < |groups|
        ensures GroupsOf(lines)[n] == rest[n - 1]
      {
        assert lines[2 * n] == LinesOf(groups[1..], pad)[2 * (n - 1)];
        assert lines[2 * n + 1] == LinesOf(groups[1..], pad)[2 * (n - 1) + 1];
      }
    }
  }

  lemma {:induction false} PaddingIsTrimmed(pad: string, s: string)
    requires AllSpace(pad) && IsTrimmed(s)
    ensures Trim(pad + s) == s
  {
    hide IsSpace;
    if pad != [] {
      PaddingIsTrimmed(pad[1..], s);
      assert (pad + s)[1..] == pad[1..] + s;
      assert TrimStart(pad + s) == TrimStart(pad[1..] + s);
    } else {
      assert pad + s == s;
    }
  }

  type Records = map<string, seq<Option<nat>>>

  datatype Twin = Twin(records: Records, classCounts: map<string, nat>)

  datatype TwinError =
    | OddLines | NotANumber(line: nat) | AfterEof(line: nat) | NotNamed(line: nat) | OutsideSection(line: nat)
    | NestedSection(line: nat) | NoOpenSection(line: nat) | EofInSection(line: nat) | NoEof | NoSection(name: string)

  type Verdict<+T> = Outcome<T, TwinError>

  datatype Open = Closed | Unnamed | Named(name: string)

  datatype State = State(open: Open, sections: set<string>, sawEof: bool,
                         inClass: bool, className: Option<string>, current: Option<string>,
                         records: Records, classCounts: map<string, nat>)

  const START: State := State(Closed, {}, false, false, None, None, map[], map[])

  // ---- one step of the reader ---------------------------------------------------

  function HandlesIn(records: Records, name: string): seq<Option<nat>> {
    if name in records then records[name] else []
  }

  /** What a group 0 does to the open section; `sawEof` with it. */
  function OnZero(open: Open, value: string, line: nat): Verdict<(Open, bool)> {
    if value == "SECTION" then
      if open.Closed? then Ok((Unnamed, false)) else Err(NestedSection(line))
    else if open.Unnamed? then Err(NotNamed(line))
    else if value == "ENDSEC" then
      if open.Named? then Ok((Closed, false)) else Err(NoOpenSection(line))
    else if value == "EOF" then
      if open.Closed? then Ok((Closed, true)) else Err(EofInSection(line))
    else if open.Named? then Ok((open, false))
    else Err(OutsideSection(line))
  }

  /** What a group other than 0 and 999 does to it. */
  function OnOther(open: Open, numeric: int, value: string, line: nat): Verdict<Open> {
    match open
    case Unnamed => if numeric == 2 then Ok(Named(Normalize(value))) else Err(NotNamed(line))
    case Closed => Err(OutsideSection(line))
    case Named(_) => Ok(open)
  }

  predicate IsHandleCode(code: string) {
    code == "5" || code == "105"
  }

  function WithHandle(records: Records, current: Option<string>, value: string): Records {
    if current.None? then records
    else
      var slots := HandlesIn(records, current.value);
      if slots == [] || slots[|slots| - 1].Some? then records
      else records[current.value := slots[|slots| - 1 := ParseU64(value, 16)]]
  }

  function Collect(st: State, g: Group): (r: State)
    ensures r.open == st.open && r.sections == st.sections && r.sawEof == st.sawEof
  {
    if IsHandleCode(g.code) then st.(records := WithHandle(st.records, st.current, g.value))
    else if st.inClass && g.code == "1" then st.(className := Some(Normalize(g.value)))
    else if st.inClass && g.code == "91" && st.className.Some? && ParseU64(g.value, 10).Some? then
      st.(classCounts := st.classCounts[st.className.value := ParseU64(g.value, 10).value])
    else st
  }

  function Step(st: State, g: Group, line: nat): Verdict<State> {
    match g.Numeric()
    case None => Err(NotANumber(line))
    case Some(numeric) =>
      if st.sawEof then Err(AfterEof(line))
      else if numeric == 999 then Ok(st)
      else if numeric == 0 then
        match OnZero(st.open, g.value, line)
        case Err(e) => Err(e)
        case Ok((open, eof)) =>
          var name := Normalize(g.value);
          Ok(State(open, st.sections, eof, g.value == "CLASS", None, Some(name),
                         st.records[name := HandlesIn(st.records, name) + [None]], st.classCounts))
      else
        match OnOther(st.open, numeric, g.value, line)
        case Err(e) => Err(e)
        case Ok(open) =>
          var sections := if st.open.Unnamed? then st.sections + {Normalize(g.value)} else st.sections;
          Ok(Collect(st.(open := open, sections := sections), g))
  }

  function Run(groups: seq<Group>, st: State, line: nat): Verdict<State> {
    if groups == [] then Ok(st)
    else match Step(st, groups[0], line)
      case Err(e) => Err(e)
      case Ok(next) => Run(groups[1..], next, line + 2)
  }

  function Finish(st: State): Verdict<Twin> {
    if !st.sawEof then Err(NoEof)
    else if "ENTITIES" !in st.sections then Err(NoSection("ENTITIES"))
    else if "OBJECTS" !in st.sections then Err(NoSection("OBJECTS"))
    else Ok(Twin(st.records, st.classCounts))
  }

  function VerdictOf(groups: seq<Group>): Verdict<Twin> {
    match Run(groups, START, 1)
    case Err(e) => Err(e)
    case Ok(st) => Finish(st)
  }

  method ReadTwin(lines: seq<string>) returns (r: Verdict<Twin>)
    ensures r == if |lines| % 2 == 1 then Err(OddLines) else VerdictOf(GroupsOf(lines))
  {
    hide Trim, ParseI64, ParseU64, Normalize;
    if |lines| % 2 == 1 {
      return Err(OddLines);
    }
    var open, sections: set<string>, sawEof := Closed, {}, false;
    var inClass, className: Option<string>, current: Option<string> := false, None, None;
    var records: Records, classCounts: map<string, nat> := map[], map[];
    ghost var groups := GroupsOf(lines);
    for n := 0 to |lines| / 2
      invariant Run(groups, START, 1)
             == Run(groups[n..], State(open, sections, sawEof, inClass, className, current, records, classCounts), 2 * n + 1)
    {
      assert groups[n..][0] == groups[n] && groups[n..][1..] == groups[n + 1..];
      var line := 2 * n + 1;
      var g := Group(Trim(lines[2 * n]), Trim(lines[2 * n + 1]));
      var numeric := g.Numeric();
      if numeric.None? {
        return Err(NotANumber(line));
      }
      if sawEof {
        return Err(AfterEof(line));
      }
      if numeric.value == 999 {
        continue;
      }
      if numeric.value != 0 {
        match open {
          case Unnamed =>
            if numeric.value != 2 {
              return Err(NotNamed(line));
            }
            sections := sections + {Normalize(g.value)};
            open := Named(Normalize(g.value));
          case Closed =>
            return Err(OutsideSection(line));
          case Named(_) =>
        }
        if IsHandleCode(g.code) {
          records := WithHandle(records, current, g.value);
        } else if inClass && g.code == "1" {
          className := Some(Normalize(g.value));
        } else if inClass && g.code == "91" {
          var count := ParseU64(g.value, 10);
          if className.Some? && count.Some? {
            classCounts := classCounts[className.value := count.value];
          }
        }
      } else {
        match OnZero(open, g.value, line) {
          case Err(e) => return Err(e);
          case Ok((next, eof)) => open, sawEof := next, eof;
        }
        inClass, className := g.value == "CLASS", None;
        var name := Normalize(g.value);
        records := records[name := HandlesIn(records, name) + [None]];
        current := Some(name);
      }
    }
    if !sawEof {
      return Err(NoEof);
    }
    if "ENTITIES" !in sections {
      return Err(NoSection("ENTITIES"));
    }
    if "OBJECTS" !in sections {
      return Err(NoSection("OBJECTS"));
    }
    return Ok(Twin(records, classCounts));
  }

  // ---- the grammar -----------------------------------------------------------------

  /** A group that is not a comment, as the grammar sees it. */
  datatype Token = Token(numeric: int, value: string)

  predicate AllNumeric(groups: seq<Group>) {
    forall i :: 0 <= i < |groups| ==> groups[i].Numeric().Some?
  }

  function TokenOf(g: Group): Token
    requires g.Numeric().Some?
  {
    Token(g.Numeric().value, g.value)
  }

  function Tokens(groups: seq<Group>): seq<Token>
    requires AllNumeric(groups)
  {
    if groups == [] then []
    else if groups[0].Is(999) then Tokens(groups[1..])
    else [TokenOf(groups[0])] + Tokens(groups[1..])
  }

  /** A section: its name and what stands between the name and ENDSEC. */
  datatype Block = Block(name: string, body: seq<Token>)

  predicate InBody(t: Token) {
    t.numeric != 999 && (t.numeric == 0 ==> t.value != "SECTION" && t.value != "ENDSEC" && t.value != "EOF")
  }

  predicate Clean(blocks: seq<Block>) {
    forall i :: 0 <= i < |blocks| ==> forall j :: 0 <= j < |blocks[i].body| ==> InBody(blocks[i].body[j])
  }

  function AfterName(blocks: seq<Block>): seq<Token>
    requires blocks != []
    decreases |blocks|, 0
  {
    blocks[0].body + ([Token(0, "ENDSEC")] + Written(blocks[1..]))
  }

  /** The tokens of a list of sections. */
  function Written(blocks: seq<Block>): seq<Token>
    decreases |blocks|, 1
  {
    if blocks == [] then []
    else [Token(0, "SECTION")] + ([Token(2, blocks[0].name)] + AfterName(blocks))
  }

  function Names(blocks: seq<Block>): set<string> {
    set i | 0 <= i < |blocks| :: Normalize(blocks[i].name)
  }

  predicate IsEof(g: Group) {
    g.Is(0) && g.value == "EOF"
  }

  /** Whole sections, comments anywhere among them, then EOF and nothing more; ENTITIES and
      OBJECTS are among the names. */
  ghost predicate WellFormed(groups: seq<Group>) {
    && AllNumeric(groups)
    && groups != [] && IsEof(groups[|groups| - 1])
    && exists blocks: seq<Block> ::
         Clean(blocks) && Tokens(groups[..|groups| - 1]) == Written(blocks)
         && "ENTITIES" in Names(blocks) && "OBJECTS" in Names(blocks)
  }

  /** What is left of the tokens of `blocks` inside the first of them. */
  function Continued(open: Open, blocks: seq<Block>): seq<Token>
    requires open.Closed? || blocks != []
  {
    match open
    case Closed => Written(blocks)
    case Unnamed => [Token(2, blocks[0].name)] + AfterName(blocks)
    case Named(_) => AfterName(blocks)
  }

  function NewNames(open: Open, blocks: seq<Block>): set<string>
    requires open.Closed? || blocks != []
  {
    if open.Named? then Names(blocks[1..]) else Names(blocks)
  }

  lemma NamesOfMore(b: Block, rest: seq<Block>)
    ensures Names([b] + rest) == {Normalize(b.name)} + Names(rest)
  {
    var all := [b] + rest;
    assert all[0] == b;
    assert forall i :: 0 <= i < |rest| ==> all[i + 1] == rest[i];
    assert Names(all) <= {Normalize(b.name)} + Names(rest);
  }

  lemma CleanMore(b: Block, rest: seq<Block>)
    ensures Clean([b] + rest) <==> Clean(rest) && forall j :: 0 <= j < |b.body| ==> InBody(b.body[j])
  {
    var all := [b] + rest;
    assert all[0] == b;
    assert forall i :: 0 <= i < |rest| ==> all[i + 1] == rest[i];
    assert forall i :: 0 < i < |all| ==> all[i] == rest[i - 1];
  }

  /** How the sections read from one state on relate to those read from the next. */
  function Rebuilt(st: State, g: Group, rest: seq<Block>): (r: seq<Block>)
    requires g.Numeric().Some?
    requires Step(st, g, 0).Ok? && (Step(st, g, 0).value.open.Closed? || rest != [])
    ensures st.open.Closed? || r != []
  {
    if g.Is(999) then rest
    else match st.open
      case Closed => rest
      case Unnamed => [Block(g.value, rest[0].body)] + rest[1..]
      case Named(_) =>
        if g.Is(0) && g.value == "ENDSEC" then [Block([], [])] + rest
        else [Block(rest[0].name, [TokenOf(g)] + rest[0].body)] + rest[1..]
  }

  lemma FirstBlock(blocks: seq<Block>)
    requires blocks != []
    ensures Clean(blocks) <==> Clean(blocks[1..]) && forall j :: 0 <= j < |blocks[0].body| ==> InBody(blocks[0].body[j])
    ensures Names(blocks) == {Normalize(blocks[0].name)} + Names(blocks[1..])
  {
    hide Clean, Names, Normalize;
    assert blocks == [blocks[0]] + blocks[1..];
    CleanMore(blocks[0], blocks[1..]);
    NamesOfMore(blocks[0], blocks[1..]);
  }

  /** Inside a section a group is one more of its body, or its end. */
  lemma RebuiltInside(st: State, g: Group, line: nat, rest: seq<Block>)
    requires st.open.Named? && !g.Is(999) && Step(st, g, line).Ok?
    requires (Step(st, g, line).value.open.Closed? || rest != []) && Clean(rest)
    ensures Step(st, g, 0).Ok? && Step(st, g, 0).value == Step(st, g, line).value
    ensures var next, blocks := Step(st, g, line).value, Rebuilt(st, g, rest);
            && Clean(blocks)
            && AfterName(blocks) == [TokenOf(g)] + Continued(next.open, rest)
            && st.sections + Names(blocks[1..]) == next.sections + NewNames(next.open, rest)
  {
    hide ParseI64, ParseU64, Normalize, Clean, Names, Collect, Written;
    var blocks := Rebuilt(st, g, rest);
    FirstBlock(blocks);
    if Step(st, g, line).value.open.Closed? {
      assert [] + ([Token(0, "ENDSEC")] + Written(rest)) == [Token(0, "ENDSEC")] + Written(rest);
    } else {
      FirstBlock(rest);
      assert AfterName(blocks) == [TokenOf(g)] + AfterName(rest);
    }
  }

  lemma RebuiltContinues(st: State, g: Group, line: nat, rest: seq<Block>)
    requires Step(st, g, line).Ok? && !Step(st, g, line).value.sawEof
    requires (Step(st, g, line).value.open.Closed? || rest != []) && Clean(rest)
    ensures Step(st, g, 0).Ok? && Step(st, g, 0).value == Step(st, g, line).value
    ensures var next, blocks := Step(st, g, line).value, Rebuilt(st, g, rest);
            && Clean(blocks)
            && Continued(st.open, blocks) == (if g.Is(999) then [] else [TokenOf(g)]) + Continued(next.open, rest)
            && st.sections + NewNames(st.open, blocks) == next.sections + NewNames(next.open, rest)
  {
    hide ParseI64, ParseU64, Normalize, Clean, Names, Collect, InBody;
    var next, blocks := Step(st, g, line).value, Rebuilt(st, g, rest);
    if g.Is(999) {
      hide Continued;
      assert [] + Continued(next.open, rest) == Continued(next.open, rest);
    } else if st.open.Named? {
      RebuiltInside(st, g, line, rest);
    } else if st.open.Unnamed? {
      hide Written;
      FirstBlock(rest);
      FirstBlock(blocks);
    }
  }

  lemma {:induction false} RunIsSound(groups: seq<Group>, st: State, line: nat) returns (blocks: seq<Block>)
    requires !st.sawEof && Run(groups, st, line).Ok? && Run(groups, st, line).value.sawEof
    ensures AllNumeric(groups) && groups != [] && IsEof(groups[|groups| - 1])
    ensures st.open.Closed? || blocks != []
    ensures Clean(blocks) && Tokens(groups[..|groups| - 1]) == Continued(st.open, blocks)
    ensures Run(groups, st, line).value.sections == st.sections + NewNames(st.open, blocks)
    decreases |groups|
  {
    hide ParseI64, Normalize, Collect, Continued, NewNames, Clean, OnZero, OnOther, Rebuilt;
    var g, next := groups[0], Step(st, groups[0], line).value;
    assert Run(groups, st, line) == Run(groups[1..], next, line + 2);
    if next.sawEof {
      EofEnds(groups, st, line);
      blocks := [];
    } else {
      var rest := RunIsSound(groups[1..], next, line + 2);
      RebuiltContinues(st, g, line, rest);
      blocks := Rebuilt(st, g, rest);
      assert forall i :: 0 < i < |groups| ==> groups[i] == groups[1..][i - 1];
      assert groups[..|groups| - 1][1..] == groups[1..][..|groups| - 2];
      assert [] + Continued(next.open, rest) == Continued(next.open, rest);
    }
  }

  /** After EOF not even a comment is accepted. */
  lemma EofEnds(groups: seq<Group>, st: State, line: nat)
    requires groups != [] && !st.sawEof && Run(groups, st, line).Ok?
    requires Step(st, groups[0], line).Ok? && Step(st, groups[0], line).value.sawEof
    ensures |groups| == 1 && IsEof(groups[0]) && AllNumeric(groups) && st.open.Closed?
    ensures Clean([]) && Tokens(groups[..0]) == Continued(st.open, [])
    ensures Run(groups, st, line).value.sections == st.sections + NewNames(st.open, [])
  {
    hide ParseI64, Normalize;
  }

  function Remaining(open: Open, g: Group, blocks: seq<Block>): seq<Block> {
    if g.Is(999) || !open.Named? || blocks == [] then blocks
    else if blocks[0].body == [] then blocks[1..]
    else [Block(blocks[0].name, blocks[0].body[1..])] + blocks[1..]
  }

  lemma NamedContinues(name: string, g: Group, blocks: seq<Block>, more: seq<Token>)
    requires g.Numeric().Some? && !g.Is(999) && blocks != [] && Clean(blocks) && AfterName(blocks) == [TokenOf(g)] + more
    ensures var rest := Remaining(Named(name), g, blocks);
            if blocks[0].body == [] then TokenOf(g) == Token(0, "ENDSEC") && rest == blocks[1..] && Written(rest) == more
            else InBody(TokenOf(g)) && AfterName(rest) == more && rest != [] && Names(rest[1..]) == Names(blocks[1..])
    ensures Clean(Remaining(Named(name), g, blocks))
  {
    hide ParseI64, Normalize, InBody, Clean, Names;
    hide Written, TokenOf;
    var b, others, whole := blocks[0], blocks[1..], AfterName(blocks);
    assert blocks == [b] + others && whole[0] == TokenOf(g) && whole[1..] == more;
    CleanMore(b, others);
    if b.body == [] {
      assert whole == [Token(0, "ENDSEC")] + Written(others);
    } else {
      var rest := Block(b.name, b.body[1..]);
      assert InBody(b.body[0]);
      CleanMore(rest, others);
      assert ([rest] + others)[1..] == others;
      assert whole == [b.body[0]] + AfterName([rest] + others);
    }
  }

  lemma StepContinues(st: State, g: Group, line: nat, blocks: seq<Block>, more: seq<Token>)
    requires !st.sawEof && g.Numeric().Some? && Clean(blocks) && (st.open.Closed? || blocks != [])
    requires Continued(st.open, blocks) == if g.Is(999) then more else [TokenOf(g)] + more
    ensures var rest, r := Remaining(st.open, g, blocks), Step(st, g, line);
            && r.Ok? && !r.value.sawEof && Clean(rest)
            && (r.value.open.Closed? || rest != [])
            && Continued(r.value.open, rest) == more
            && st.sections + NewNames(st.open, blocks) == r.value.sections + NewNames(r.value.open, rest)
  {
    hide ParseI64, ParseU64, Normalize, Clean, Names, Collect;
    if !g.Is(999) {
      var whole := Continued(st.open, blocks);
      assert whole != [] && whole[0] == TokenOf(g) && whole[1..] == more;
      match st.open
      case Closed =>
        assert Written(blocks)[1..] == [Token(2, blocks[0].name)] + AfterName(blocks);
      case Unnamed =>
        assert whole[1..] == AfterName(blocks);
        NamesOfMore(blocks[0], blocks[1..]);
        assert blocks == [blocks[0]] + blocks[1..];
      case Named(name) =>
        hide AfterName, Written, Remaining;
        NamedContinues(name, g, blocks, more);
    }
  }

  lemma {:induction false} RunIsComplete(groups: seq<Group>, st: State, line: nat, blocks: seq<Block>)
    requires AllNumeric(groups) && groups != [] && IsEof(groups[|groups| - 1]) && !st.sawEof
    requires (st.open.Closed? || blocks != []) && Clean(blocks)
    requires Tokens(groups[..|groups| - 1]) == Continued(st.open, blocks)
    ensures var r := Run(groups, st, line);
            r.Ok? && r.value.sawEof && r.value.sections == st.sections + NewNames(st.open, blocks)
    decreases |groups|
  {
    hide ParseI64, Normalize, Collect, NewNames, Clean, Remaining, AfterName;
    var g := groups[0];
    if |groups| == 1 {
      assert Continued(st.open, blocks) == [];
      NothingLeft(st.open, blocks);
      assert Run(groups[1..], Step(st, g, line).value, line + 2).Ok?;
    } else {
      hide Continued, Step;
      var init := groups[..|groups| - 1];
      assert init[0] == g && init[1..] == groups[1..][..|groups| - 2];
      StepContinues(st, g, line, blocks, Tokens(init[1..]));
      RunIsComplete(groups[1..], Step(st, g, line).value, line + 2, Remaining(st.open, g, blocks));
    }
  }

  lemma NothingLeft(open: Open, blocks: seq<Block>)
    requires (open.Closed? || blocks != []) && Continued(open, blocks) == []
    ensures open.Closed? && NewNames(open, blocks) == {}
  {
    assert open.Named? ==> |AfterName(blocks)| > 0;
  }

  /** The reader accepts exactly the files the grammar describes. */
  lemma AcceptsExactlyTheGrammar(groups: seq<Group>)
    ensures VerdictOf(groups).Ok? <==> WellFormed(groups)
  {
    hide ParseI64, Normalize, Run, Clean, Names, Tokens, Written;
    if VerdictOf(groups).Ok? {
      var blocks := RunIsSound(groups, START, 1);
      assert {} + Names(blocks) == Names(blocks);
      assert Clean(blocks) && Tokens(groups[..|groups| - 1]) == Written(blocks);
    }
    if WellFormed(groups) {
      var blocks: seq<Block> :|
        Clean(blocks) && Tokens(groups[..|groups| - 1]) == Written(blocks)
        && "ENTITIES" in Names(blocks) && "OBJECTS" in Names(blocks);
      RunIsComplete(groups, START, 1, blocks);
    }
  }

  // ---- refusals ------------------------------------------------------------------------

  predicate IsZero(g: Group, value: string) {
    g.Is(0) && g.value == value
  }

  /** A section opened among the groups is still open; it still has no name; EOF was there. */
  ghost predicate InSection(groups: seq<Group>) {
    exists i :: 0 <= i < |groups| && IsZero(groups[i], "SECTION") && forall j :: i < j < |groups| ==> !IsZero(groups[j], "ENDSEC")
  }

  ghost predicate AwaitsName(groups: seq<Group>) {
    exists i :: 0 <= i < |groups| && IsZero(groups[i], "SECTION") && forall j :: i < j < |groups| ==> groups[j].Is(999)
  }

  ghost predicate HasEnded(groups: seq<Group>) {
    exists i :: 0 <= i < |groups| && IsZero(groups[i], "EOF")
  }

  lemma InSectionSnoc(before: seq<Group>, g: Group)
    ensures InSection(before + [g]) <==> IsZero(g, "SECTION") || (InSection(before) && !IsZero(g, "ENDSEC"))
  {
    var now := before + [g];
    assert IsZero(g, "SECTION") ==> !IsZero(g, "ENDSEC");
    hide IsZero;
    assert forall i :: 0 <= i < |before| ==> now[i] == before[i];
    assert now[|before|] == g;
    if InSection(before) && !IsZero(g, "ENDSEC") {
      var i :| 0 <= i < |before| && IsZero(before[i], "SECTION") && forall j :: i < j < |before| ==> !IsZero(before[j], "ENDSEC");
      assert IsZero(now[i], "SECTION");
    }
    if InSection(now) && !IsZero(g, "SECTION") {
      var i :| 0 <= i < |now| && IsZero(now[i], "SECTION") && forall j :: i < j < |now| ==> !IsZero(now[j], "ENDSEC");
      assert i < |before| && IsZero(before[i], "SECTION");
    }
  }

  lemma AwaitsNameSnoc(before: seq<Group>, g: Group)
    ensures AwaitsName(before + [g]) <==> IsZero(g, "SECTION") || (AwaitsName(before) && g.Is(999))
  {
    hide IsZero, Group.Is;
    var now := before + [g];
    assert forall i :: 0 <= i < |before| ==> now[i] == before[i];
    assert now[|before|] == g;
    if AwaitsName(before) && g.Is(999) {
      var i :| 0 <= i < |before| && IsZero(before[i], "SECTION") && forall j :: i < j < |before| ==> before[j].Is(999);
      assert IsZero(now[i], "SECTION");
    }
    if AwaitsName(now) && !IsZero(g, "SECTION") {
      var i :| 0 <= i < |now| && IsZero(now[i], "SECTION") && forall j :: i < j < |now| ==> now[j].Is(999);
      assert i < |before| && IsZero(before[i], "SECTION");
    }
  }

  lemma HasEndedSnoc(before: seq<Group>, g: Group)
    ensures HasEnded(before + [g]) <==> IsZero(g, "EOF") || HasEnded(before)
  {
    hide IsZero;
    var now := before + [g];
    assert forall i :: 0 <= i < |before| ==> now[i] == before[i];
    assert now[|before|] == g;
  }

  /** What the reader's variables say of the groups so far. */
  ghost predicate Tracks(st: State, before: seq<Group>) {
    && (st.sawEof <==> HasEnded(before))
    && (st.open.Closed? <==> !InSection(before))
    && (st.open.Unnamed? <==> AwaitsName(before))
  }

  lemma StepTracks(st: State, g: Group, line: nat, before: seq<Group>)
    requires Tracks(st, before) && Step(st, g, line).Ok?
    ensures Tracks(Step(st, g, line).value, before + [g])
  {
    hide ParseI64, ParseU64, Normalize, Collect, InSection, AwaitsName, HasEnded;
    InSectionSnoc(before, g);
    AwaitsNameSnoc(before, g);
    HasEndedSnoc(before, g);
  }

  /** Why a group after `before` is refused, in the order in which the reader asks. */
  ghost predicate RefusedFor(before: seq<Group>, g: Group, line: nat, e: TwinError) {
    match e
    case NotANumber(l) => l == line && g.Numeric().None?
    case AfterEof(l) => l == line && g.Numeric().Some? && HasEnded(before)
    case NestedSection(l) => l == line && !HasEnded(before) && IsZero(g, "SECTION") && InSection(before)
    case NotNamed(l) => l == line && !HasEnded(before) && AwaitsName(before) && !IsZero(g, "SECTION")
                        && g.Numeric().Some? && !g.Is(2) && !g.Is(999)
    case NoOpenSection(l) => l == line && !HasEnded(before) && !InSection(before) && IsZero(g, "ENDSEC")
    case EofInSection(l) => l == line && !HasEnded(before) && InSection(before) && !AwaitsName(before) && IsZero(g, "EOF")
    case OutsideSection(l) => l == line && !HasEnded(before) && !InSection(before) && g.Numeric().Some? && !g.Is(999)
                              && !IsZero(g, "SECTION") && !IsZero(g, "ENDSEC") && !IsZero(g, "EOF")
    case _ => false
  }

  lemma StepRefuses(st: State, g: Group, line: nat, before: seq<Group>)
    requires Tracks(st, before)
    ensures Step(st, g, line).Err? ==> RefusedFor(before, g, line, Step(st, g, line).error)
    ensures Step(st, g, line).Ok? ==> forall e :: !RefusedFor(before, g, line, e)
    ensures AwaitsName(before) ==> InSection(before)
  {
    hide ParseI64, ParseU64, Normalize, Collect, InSection, AwaitsName, HasEnded;
  }

  lemma {:induction false} RunRefuses(before: seq<Group>, groups: seq<Group>, st: State) returns (k: nat)
    requires Tracks(st, before) && Run(groups, st, 2 * |before| + 1).Err?
    ensures k < |groups| && Run(groups[..k], st, 2 * |before| + 1).Ok?
    ensures RefusedFor(before + groups[..k], groups[k], 2 * (|before| + k) + 1, Run(groups, st, 2 * |before| + 1).error)
    decreases |groups|
  {
    hide Step, Tracks, RefusedFor;
    var line := 2 * |before| + 1;
    StepRefuses(st, groups[0], line, before);
    if Step(st, groups[0], line).Err? {
      k := 0;
      assert before + groups[..0] == before;
    } else {
      StepTracks(st, groups[0], line, before);
      var i := RunRefuses(before + [groups[0]], groups[1..], Step(st, groups[0], line).value);
      k := i + 1;
      assert groups[..k][0] == groups[0] && groups[..k][1..] == groups[1..][..i];
      assert before + [groups[0]] + groups[1..][..i] == before + groups[..k];
    }
  }

  /** A refusal with a line names the first group that breaks the grammar, on its line, and how
      it does; one without says what the whole lacks. */
  lemma RefusalsAreExact(groups: seq<Group>) returns (k: nat)
    requires VerdictOf(groups).Err?
    ensures var e := VerdictOf(groups).error;
            match e
            case NoEof => !HasEnded(groups)
            case NoSection(name) => HasEnded(groups) && name in {"ENTITIES", "OBJECTS"}
            case _ => k < |groups| && RefusedFor(groups[..k], groups[k], 2 * k + 1, e) && Run(groups[..k], START, 1).Ok?
  {
    hide Run, HasEnded, InSection, AwaitsName;
    k := 0;
    NothingTracked();
    if Run(groups, START, 1).Err? {
      k := RunRefuses([], groups, START);
      assert [] + groups[..k] == groups[..k];
    } else {
      RunTracks([], groups, START);
      assert [] + groups == groups;
    }
  }

  lemma NothingTracked()
    ensures Tracks(START, [])
  {
  }

  lemma {:induction false} RunTracks(before: seq<Group>, groups: seq<Group>, st: State)
    requires Tracks(st, before) && Run(groups, st, 2 * |before| + 1).Ok?
    ensures Tracks(Run(groups, st, 2 * |before| + 1).value, before + groups)
    decreases |groups|
  {
    hide Step, Tracks;
    if groups == [] {
      assert before + groups == before;
    } else {
      var line := 2 * |before| + 1;
      StepTracks(st, groups[0], line, before);
      RunTracks(before + [groups[0]], groups[1..], Step(st, groups[0], line).value);
      assert before + [groups[0]] + groups[1..] == before + groups;
    }
  }

  // ---- what is collected ---------------------------------------------------------------

  /** The first group 5 or 105 that holds a handle, before the next group 0. */
  function FirstHandle(groups: seq<Group>): Option<nat> {
    if groups == [] || groups[0].Is(0) then None
    else if groups[0].code in {"5", "105"} && ParseU64(groups[0].value, 16).Some? then ParseU64(groups[0].value, 16)
    else FirstHandle(groups[1..])
  }

  /** One entry for every group 0 of that name, in order: its record's handle. */
  function HandlesOf(groups: seq<Group>, name: string): seq<Option<nat>> {
    if groups == [] then []
    else
      (if groups[0].Is(0) && Normalize(groups[0].value) == name then [FirstHandle(groups[1..])] else [])
      + HandlesOf(groups[1..], name)
  }

  /** Whether the last group 0 opens a class record. */
  predicate InClass(groups: seq<Group>) {
    groups != []
    && var g := groups[|groups| - 1];
    if g.Is(0) then g.value == "CLASS" else InClass(groups[..|groups| - 1])
  }

  /** The DXF name the class record so far gives: its last group 1. */
  function ClassName(groups: seq<Group>): Option<string> {
    if groups == [] then None
    else
      var g, before := groups[|groups| - 1], groups[..|groups| - 1];
      if g.Is(0) then None
      else if g.code == "1" && InClass(before) then Some(Normalize(g.value))
      else ClassName(before)
  }

  /** The last instance count a class record gives the name. */
  function LastCount(groups: seq<Group>, name: string): Option<nat> {
    if groups == [] then None
    else
      var g, before := groups[|groups| - 1], groups[..|groups| - 1];
      if !g.Is(0) && g.code == "91" && InClass(before) && ClassName(before) == Some(name) && ParseU64(g.value, 10).Some? then
        ParseU64(g.value, 10)
      else LastCount(before, name)
  }

  function Lookup(counts: map<string, nat>, name: string): Option<nat> {
    if name in counts then Some(counts[name]) else None
  }

  lemma CodesAsNumbers()
    ensures ParseI64("5") == Some(5) && ParseI64("105") == Some(105) && ParseI64("1") == Some(1) && ParseI64("91") == Some(91)
  {
    assert "105"[..2] == "10" && "10"[..1] == "1" && "91"[..1] == "9";
    assert Digits("10", 10) == Some(10);
    assert Digits("105", 10) == Some(105);
    assert Digits("91", 10) == Some(91);
  }

  /** No record list is empty and the current record has one. */
  predicate Consistent(st: State) {
    (forall name :: name in st.records ==> st.records[name] != []) && (st.current.Some? ==> st.current.value in st.records)
  }

  /** The handles so far, the current record's still to come from `groups`. */
  function Filled(st: State, groups: seq<Group>, name: string): (r: seq<Option<nat>>)
    ensures |r| == |HandlesIn(st.records, name)|
  {
    var slots := HandlesIn(st.records, name);
    if st.current != Some(name) || slots == [] || slots[|slots| - 1].Some? then slots
    else slots[|slots| - 1 := FirstHandle(groups)]
  }

  lemma FirstHandleStep(g: Group, rest: seq<Group>)
    ensures FirstHandle([g] + rest) == if g.Is(0) then None
                                       else if IsHandleCode(g.code) && ParseU64(g.value, 16).Some? then ParseU64(g.value, 16)
                                       else FirstHandle(rest)
    ensures IsHandleCode(g.code) ==> !g.Is(0) && !g.Is(999)
  {
    hide ParseI64, ParseU64;
    CodesAsNumbers();
    assert ([g] + rest)[1..] == rest;
  }

  lemma ZeroFills(st: State, g: Group, rest: seq<Group>, next: State, name: string)
    requires Consistent(st) && g.Is(0)
    requires next.current == Some(Normalize(g.value))
    requires next.records == st.records[Normalize(g.value) := HandlesIn(st.records, Normalize(g.value)) + [None]]
    ensures Consistent(next)
    ensures Filled(next, rest, name) == Filled(st, [g] + rest, name)
                                        + (if Normalize(g.value) == name then [FirstHandle(rest)] else [])
  {
    hide ParseI64, ParseU64, Normalize, FirstHandle;
    FirstHandleStep(g, rest);
  }

  lemma OtherFills(st: State, g: Group, rest: seq<Group>, next: State, name: string)
    requires Consistent(st) && !g.Is(0) && next.current == st.current
    requires next.records == if IsHandleCode(g.code) then WithHandle(st.records, st.current, g.value) else st.records
    ensures Consistent(next) && Filled(next, rest, name) == Filled(st, [g] + rest, name)
  {
    hide ParseI64, ParseU64, FirstHandle;
    FirstHandleStep(g, rest);
  }

  lemma StepFills(st: State, g: Group, rest: seq<Group>, line: nat, name: string)
    requires Consistent(st) && Step(st, g, line).Ok?
    ensures var next := Step(st, g, line).value;
            && Consistent(next)
            && Filled(next, rest, name) == Filled(st, [g] + rest, name)
                 + (if g.Is(0) && Normalize(g.value) == name then [FirstHandle(rest)] else [])
  {
    hide ParseI64, ParseU64, Normalize, FirstHandle, Filled, Consistent, WithHandle, HandlesIn;
    FirstHandleStep(g, rest);
    var next := Step(st, g, line).value;
    if g.Is(0) {
      ZeroFills(st, g, rest, next, name);
    } else {
      OtherFills(st, g, rest, next, name);
      assert Filled(st, [g] + rest, name) + [] == Filled(st, [g] + rest, name);
    }
  }

  lemma {:induction false} RunFills(groups: seq<Group>, st: State, line: nat, name: string)
    requires Consistent(st) && Run(groups, st, line).Ok?
    ensures var final := Run(groups, st, line).value;
            Consistent(final) && HandlesIn(final.records, name) == Filled(st, groups, name) + HandlesOf(groups, name)
    decreases |groups|
  {
    hide Step, FirstHandle, ParseI64, Consistent, Filled, HandlesIn;
    if groups == [] {
      NothingFills(st, name);
    } else {
      var next := Step(st, groups[0], line).value;
      assert [groups[0]] + groups[1..] == groups;
      StepFills(st, groups[0], groups[1..], line, name);
      RunFills(groups[1..], next, line + 2, name);
    }
  }

  lemma NothingFills(st: State, name: string)
    ensures HandlesIn(st.records, name) == Filled(st, [], name) + HandlesOf([], name)
  {
    hide Normalize;
    assert Filled(st, [], name) == HandlesIn(st.records, name);
  }

  lemma StepCounts(before: seq<Group>, st: State, g: Group, line: nat, name: string)
    requires Step(st, g, line).Ok?
    requires st.inClass == InClass(before) && (st.inClass ==> st.className == ClassName(before))
    requires Lookup(st.classCounts, name) == LastCount(before, name)
    ensures var next, now := Step(st, g, line).value, before + [g];
            && next.inClass == InClass(now) && (next.inClass ==> next.className == ClassName(now))
            && Lookup(next.classCounts, name) == LastCount(now, name)
  {
    hide ParseI64, ParseU64, Normalize;
    CodesAsNumbers();
    assert (before + [g])[..|before|] == before;
  }

  lemma {:induction false} RunCounts(before: seq<Group>, groups: seq<Group>, st: State, line: nat, name: string)
    requires Run(groups, st, line).Ok?
    requires st.inClass == InClass(before) && (st.inClass ==> st.className == ClassName(before))
    requires Lookup(st.classCounts, name) == LastCount(before, name)
    ensures Lookup(Run(groups, st, line).value.classCounts, name) == LastCount(before + groups, name)
    decreases |groups|
  {
    hide Step, InClass, ClassName, LastCount, Lookup;
    if groups == [] {
      assert before + groups == before;
    } else {
      StepCounts(before, st, groups[0], line, name);
      RunCounts(before + [groups[0]], groups[1..], Step(st, groups[0], line).value, line + 2, name);
      assert before + [groups[0]] + groups[1..] == before + groups;
    }
  }

  /** On acceptance each name's list is one entry per group 0 of that name, each the first
      handle its record holds, and each class has the count its own records gave it last. */
  lemma AcceptedTwinHolds(groups: seq<Group>, name: string)
    requires VerdictOf(groups).Ok?
    ensures var twin := VerdictOf(groups).value;
            && HandlesIn(twin.records, name) == HandlesOf(groups, name)
            && (name in twin.records <==> HandlesOf(groups, name) != [])
            && Lookup(twin.classCounts, name) == LastCount(groups, name)
  {
    hide Run, HandlesOf, LastCount;
    RunFills(groups, START, 1, name);
    assert [] + HandlesOf(groups, name) == HandlesOf(groups, name);
    assert LastCount([], name) == None by {
      NoCount(name);
    }
    RunCounts([], groups, START, 1, name);
    assert [] + groups == groups;
  }

  lemma NoCount(name: string)
    ensures LastCount([], name) == None
  {
  }

  // ---- comments ------------------------------------------------------------------------

  /** A comment spliced in before the `i`-th group. */
  function Spliced(groups: seq<Group>, i: nat, comment: Group): seq<Group>
    requires i <= |groups|
  {
    groups[..i] + [comment] + groups[i..]
  }

  lemma NumericSplice(groups: seq<Group>, i: nat, comment: Group)
    requires i <= |groups| && comment.Is(999)
    ensures AllNumeric(Spliced(groups, i, comment)) <==> AllNumeric(groups)
  {
    hide ParseI64;
    var s := Spliced(groups, i, comment);
    assert forall k :: 0 <= k < |groups| ==> groups[k] == s[if k < i then k else k + 1];
  }

  lemma {:induction false} TokensOfSplice(groups: seq<Group>, i: nat, comment: Group)
    requires i <= |groups| && comment.Is(999) && AllNumeric(groups)
    ensures AllNumeric(Spliced(groups, i, comment)) && Tokens(Spliced(groups, i, comment)) == Tokens(groups)
    decreases i
  {
    hide ParseI64;
    NumericSplice(groups, i, comment);
    var s := Spliced(groups, i, comment);
    if i == 0 {
      assert s[1..] == groups;
    } else {
      TokensOfSplice(groups[1..], i - 1, comment);
      assert s[1..] == Spliced(groups[1..], i - 1, comment);
    }
  }

  lemma {:induction false} FirstHandleOfSplice(groups: seq<Group>, i: nat, comment: Group)
    requires i <= |groups| && comment.Is(999)
    ensures FirstHandle(Spliced(groups, i, comment)) == FirstHandle(groups)
    decreases i
  {
    hide ParseI64, ParseU64;
    CodesAsNumbers();
    var s := Spliced(groups, i, comment);
    if i == 0 {
      assert s[1..] == groups;
    } else {
      FirstHandleOfSplice(groups[1..], i - 1, comment);
      assert s[1..] == Spliced(groups[1..], i - 1, comment);
    }
  }

  lemma {:induction false} HandlesOfSplice(groups: seq<Group>, i: nat, comment: Group, name: string)
    requires i <= |groups| && comment.Is(999)
    ensures HandlesOf(Spliced(groups, i, comment), name) == HandlesOf(groups, name)
    decreases i
  {
    hide ParseI64, FirstHandle, Normalize;
    var s := Spliced(groups, i, comment);
    if i == 0 {
      assert s[1..] == groups;
      assert [] + HandlesOf(groups, name) == HandlesOf(groups, name);
    } else {
      FirstHandleOfSplice(groups[1..], i - 1, comment);
      HandlesOfSplice(groups[1..], i - 1, comment, name);
      assert s[1..] == Spliced(groups[1..], i - 1, comment);
    }
  }

  lemma SplicedEnd(groups: seq<Group>, i: nat, comment: Group)
    requires i < |groups|
    ensures var s, before := Spliced(groups, i, comment), groups[..|groups| - 1];
            |s| == |groups| + 1 && s[|groups|] == groups[|groups| - 1] && s[..|groups|] == Spliced(before, i, comment)
  {
  }

  lemma {:induction false} ClassOfSplice(groups: seq<Group>, i: nat, comment: Group)
    requires i <= |groups| && comment.Is(999)
    ensures var s := Spliced(groups, i, comment); InClass(s) == InClass(groups) && ClassName(s) == ClassName(groups)
    decreases |groups|
  {
    hide ParseI64, Normalize;
    CodesAsNumbers();
    if i == |groups| {
      assert Spliced(groups, i, comment)[..|groups|] == groups;
    } else {
      hide Spliced;
      SplicedEnd(groups, i, comment);
      ClassOfSplice(groups[..|groups| - 1], i, comment);
    }
  }

  lemma {:induction false} CountsOfSplice(groups: seq<Group>, i: nat, comment: Group, name: string)
    requires i <= |groups| && comment.Is(999)
    ensures LastCount(Spliced(groups, i, comment), name) == LastCount(groups, name)
    decreases |groups|
  {
    hide ParseI64, ParseU64, Normalize, InClass, ClassName;
    CodesAsNumbers();
    if i == |groups| {
      assert Spliced(groups, i, comment)[..|groups|] == groups;
    } else {
      hide Spliced;
      SplicedEnd(groups, i, comment);
      ClassOfSplice(groups[..|groups| - 1], i, comment);
      CountsOfSplice(groups[..|groups| - 1], i, comment, name);
    }
  }

  /** A comment at any pair boundary of an accepted file changes neither the verdict nor
      anything collected, unless it comes after EOF, and there it is refused; in a refused
      file it mends nothing. */
  lemma CommentsChangeNothing(groups: seq<Group>, i: nat, comment: Group)
    requires i <= |groups| && comment.Is(999)
    ensures var s := Spliced(groups, i, comment);
            && (VerdictOf(s).Ok? <==> VerdictOf(groups).Ok? && i < |groups|)
            && (VerdictOf(s).Ok? ==> VerdictOf(s) == VerdictOf(groups))
  {
    hide ParseI64, VerdictOf, Tokens, HandlesOf, LastCount, Clean, Names, Written;
    var s := Spliced(groups, i, comment);
    NumericSplice(groups, i, comment);
    AcceptsExactlyTheGrammar(groups);
    AcceptsExactlyTheGrammar(s);
    if i < |groups| {
      var init := groups[..|groups| - 1];
      if AllNumeric(init) {
        TokensOfSplice(init, i, comment);
      }
      assert s[..|s| - 1] == Spliced(init, i, comment);
      assert s[|s| - 1] == groups[|groups| - 1];
      if WellFormed(groups) {
        SameTwin(groups, i, comment);
      }
    } else {
      assert s[|s| - 1] == comment;
    }
  }

  lemma SameTwin(groups: seq<Group>, i: nat, comment: Group)
    requires i <= |groups| && comment.Is(999)
    requires VerdictOf(groups).Ok? && VerdictOf(Spliced(groups, i, comment)).Ok?
    ensures VerdictOf(Spliced(groups, i, comment)) == VerdictOf(groups)
  {
    hide ParseI64, VerdictOf, HandlesOf, LastCount;
    var s := Spliced(groups, i, comment);
    var a, b := VerdictOf(groups).value, VerdictOf(s).value;
    forall name
      ensures name in a.records <==> name in b.records
      ensures name in a.records ==> a.records[name] == b.records[name]
      ensures Lookup(a.classCounts, name) == Lookup(b.classCounts, name)
    {
      AcceptedTwinHolds(groups, name);
      AcceptedTwinHolds(s, name);
      HandlesOfSplice(groups, i, comment, name);
      CountsOfSplice(groups, i, comment, name);
    }
    assert a.records == b.records;
    forall name
      ensures name in a.classCounts <==> name in b.classCounts
      ensures name in a.classCounts ==> a.classCounts[name] == b.classCounts[name]
    {
      assert Lookup(a.classCounts, name) == Lookup(b.classCounts, name);
    }
    assert a.classCounts == b.classCounts;
  }
}
