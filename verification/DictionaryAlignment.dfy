/** Comparing a written dictionary with the export's, entry by entry and in order
    (`examples/probe_dxf_objects.rs`): what it means that the comparison finds no fault. */
module DictionaryAlignment {
  import opened Pairing
  import opened Results

  /** What the comparison is made against: the handle pairing, the handles of the objects the
      export leaves out, the first handle the drawing left unused, the handles the output
      defines. */
  datatype Context = Context(rel: map<nat, nat>, dropped: set<nat>, seed: nat, defined: set<nat>) {
    predicate Matches(mine: Entry, theirs: Entry) {
      && mine.key == theirs.key && mine.code == theirs.code
      && (mine.handle == theirs.handle || (mine.handle in rel && rel[mine.handle] == theirs.handle))
    }

    /** An entry the writer may leave out. */
    predicate Excused(theirs: Entry) {
      theirs.handle >= seed || theirs.handle !in defined
    }
  }

  /** The written entries that do not name an object the export leaves out. */
  function Kept(mine: seq<Entry>, c: Context): seq<Entry> {
    if mine == [] then []
    else (if mine[0].handle in c.dropped then [] else [mine[0]]) + Kept(mine[1..], c)
  }

  /** What the comparison counts: entries that agree, entries of the export rightly and
      wrongly left out, and written entries that were never reached. */
  datatype Score = Score(agree: nat, omitted: nat, disagree: nat, extra: nat) {
    predicate Faultless() {
      disagree == 0 && extra == 0
    }
  }

  function Compare(kept: seq<Entry>, theirs: seq<Entry>, c: Context): Score
    decreases |theirs|
  {
    if theirs == [] then Score(0, 0, 0, |kept|)
    else if kept != [] && c.Matches(kept[0], theirs[0]) then
      var rest := Compare(kept[1..], theirs[1..], c);
      rest.(agree := rest.agree + 1)
    else
      var rest := Compare(kept, theirs[1..], c);
      if c.Excused(theirs[0]) then rest.(omitted := rest.omitted + 1) else rest.(disagree := rest.disagree + 1)
  }

  // ---- the loop -----------------------------------------------------------------

  method SkipDropped(mine: seq<Entry>, at0: nat, c: Context) returns (at: nat)
    requires at0 <= |mine|
    ensures at0 <= at <= |mine| && Kept(mine[at..], c) == Kept(mine[at0..], c)
    ensures at < |mine| ==> mine[at].handle !in c.dropped
  {
    at := at0;
    while at < |mine| && mine[at].handle in c.dropped
      invariant at0 <= at <= |mine| && Kept(mine[at..], c) == Kept(mine[at0..], c)
    {
      assert mine[at..][1..] == mine[at + 1..];
      at := at + 1;
    }
  }

  lemma KeptHead(mine: seq<Entry>, at: nat, c: Context)
    requires at <= |mine| && (at < |mine| ==> mine[at].handle !in c.dropped)
    ensures at < |mine| ==> Kept(mine[at..], c) == [mine[at]] + Kept(mine[at + 1..], c)
    ensures at == |mine| ==> Kept(mine[at..], c) == []
  {
    if at < |mine| {
      assert mine[at..][1..] == mine[at + 1..];
    }
  }

  lemma KeptGoesOn(mine: seq<Entry>, at: nat, agree: nat, c: Context)
    requires at <= |mine| && agree <= |Kept(mine, c)| && Kept(mine[at..], c) == Kept(mine, c)[agree..]
    ensures at < |mine| && mine[at].handle !in c.dropped ==>
              agree < |Kept(mine, c)| && Kept(mine[at + 1..], c) == Kept(mine, c)[agree + 1..]
  {
    if at < |mine| && mine[at].handle !in c.dropped {
      KeptHead(mine, at, c);
      hide Kept;
      assert Kept(mine, c)[agree..][1..] == Kept(mine, c)[agree + 1..];
    }
  }

  /** `left` is how many written entries are never reached. They count from the first kept one
      that has no place, dropped ones behind it among them, so it is at least `extra` and zero
      exactly with it. */
  method CompareEntries(mine: seq<Entry>, theirs: seq<Entry>, c: Context)
    returns (agree: nat, omitted: nat, disagree: nat, left: nat)
    ensures var s := Compare(Kept(mine, c), theirs, c);
            && agree == s.agree && omitted == s.omitted && disagree == s.disagree
            && left >= s.extra && (left == 0 <==> s.extra == 0)
    ensures agree <= |Kept(mine, c)| && left <= |mine| && Kept(mine[|mine| - left..], c) == Kept(mine, c)[agree..]
    ensures left > 0 ==> mine[|mine| - left].handle !in c.dropped
  {
    hide Kept, Context.Matches;
    agree, omitted, disagree := 0, 0, 0;
    var at := 0;
    ghost var whole := Compare(Kept(mine, c), theirs, c);
    assert mine[0..] == mine;
    for j := 0 to |theirs|
      invariant at <= |mine| && agree <= |Kept(mine, c)| && Kept(mine[at..], c) == Kept(mine, c)[agree..]
      invariant var rest := Compare(Kept(mine[at..], c), theirs[j..], c);
                whole == Score(rest.agree + agree, rest.omitted + omitted, rest.disagree + disagree, rest.extra)
    {
      var e := theirs[j];
      assert theirs[j..][1..] == theirs[j + 1..];
      at := SkipDropped(mine, at, c);
      KeptHead(mine, at, c);
      KeptGoesOn(mine, at, agree, c);
      if at < |mine| && c.Matches(mine[at], e) {
        at := at + 1;
        agree := agree + 1;
      } else if e.handle >= c.seed {
        omitted := omitted + 1;
      } else if e.handle !in c.defined {
        omitted := omitted + 1;
      } else {
        disagree := disagree + 1;
      }
    }
    at := SkipDropped(mine, at, c);
    KeptHead(mine, at, c);
    KeptLength(mine[at..], c);
    left := |mine| - at;
  }

  lemma {:induction false} KeptLength(mine: seq<Entry>, c: Context)
    ensures |Kept(mine, c)| <= |mine|
  {
    if mine != [] {
      KeptLength(mine[1..], c);
    }
  }

  // ---- what the counts are ------------------------------------------------------------

  predicate NoneMatches(mine: Entry, theirs: seq<Entry>, from: nat, to: nat, c: Context)
    requires to <= |theirs|
  {
    forall j :: from <= j < to ==> !c.Matches(mine, theirs[j])
  }

  /** The kept entries stand at the places as far as they go: each at the first that matches it
      behind the one before, until one matches none. */
  predicate TakesFirst(kept: seq<Entry>, theirs: seq<Entry>, at: nat, places: seq<nat>, c: Context)
    requires at <= |theirs|
    decreases |places|
  {
    if places == [] then kept == [] || NoneMatches(kept[0], theirs, at, |theirs|, c)
    else
      && kept != [] && at <= places[0] < |theirs|
      && c.Matches(kept[0], theirs[places[0]]) && NoneMatches(kept[0], theirs, at, places[0], c)
      && TakesFirst(kept[1..], theirs, places[0] + 1, places[1..], c)
  }

  lemma {:induction false} PlacesAreBehind(kept: seq<Entry>, theirs: seq<Entry>, at: nat, places: seq<nat>, c: Context)
    requires at <= |theirs| && TakesFirst(kept, theirs, at, places, c)
    ensures forall p :: p in places ==> p >= at
    decreases |places|
  {
    if places != [] {
      PlacesAreBehind(kept[1..], theirs, places[0] + 1, places[1..], c);
      assert forall p :: p in places ==> p == places[0] || p in places[1..];
    }
  }

  /** The export's entries from `at` on at no place, those the writer may leave out and those
      it may not. */
  function LeftOut(theirs: seq<Entry>, at: nat, places: seq<nat>, c: Context, excused: bool): set<nat> {
    set j | at <= j < |theirs| && j !in places && c.Excused(theirs[j]) == excused
  }

  /** The score of any comparison: the kept entries agree as far as they can be found one
      behind the other, the rest of them are extra, and the export's entries passed over are
      omitted or in disagreement. */
  lemma {:induction false} ScoreCounts(kept: seq<Entry>, theirs: seq<Entry>, at: nat, c: Context) returns (places: seq<nat>)
    requires at <= |theirs|
    ensures TakesFirst(kept, theirs, at, places, c)
    ensures var s := Compare(kept, theirs[at..], c);
            && s.agree == |places| && s.extra == |kept| - |places|
            && s.omitted == |LeftOut(theirs, at, places, c, true)| && s.disagree == |LeftOut(theirs, at, places, c, false)|
    decreases |theirs| - at
  {
    if at == |theirs| {
      places := [];
      assert LeftOut(theirs, at, [], c, true) == {} && LeftOut(theirs, at, [], c, false) == {};
    } else {
      assert theirs[at..][1..] == theirs[at + 1..] && theirs[at..][0] == theirs[at];
      if kept != [] && c.Matches(kept[0], theirs[at]) {
        var rest := ScoreCounts(kept[1..], theirs, at + 1, c);
        places := [at] + rest;
        TakesOneMore(kept, theirs, at, rest, c);
      } else {
        places := ScoreCounts(kept, theirs, at + 1, c);
        PassesOneMore(kept, theirs, at, places, c);
      }
    }
  }

  lemma TakesOneMore(kept: seq<Entry>, theirs: seq<Entry>, at: nat, rest: seq<nat>, c: Context)
    requires at < |theirs| && kept != [] && c.Matches(kept[0], theirs[at]) && TakesFirst(kept[1..], theirs, at + 1, rest, c)
    ensures TakesFirst(kept, theirs, at, [at] + rest, c)
    ensures forall excused :: LeftOut(theirs, at, [at] + rest, c, excused) == LeftOut(theirs, at + 1, rest, c, excused)
  {
    PlacesAreBehind(kept[1..], theirs, at + 1, rest, c);
    hide Context.Excused, Context.Matches;
    assert ([at] + rest)[1..] == rest;
    assert forall j :: j in [at] + rest <==> j == at || j in rest;
  }

  lemma PassesOneMore(kept: seq<Entry>, theirs: seq<Entry>, at: nat, places: seq<nat>, c: Context)
    requires at < |theirs| && (kept == [] || !c.Matches(kept[0], theirs[at])) && TakesFirst(kept, theirs, at + 1, places, c)
    ensures TakesFirst(kept, theirs, at, places, c)
    ensures forall excused :: |LeftOut(theirs, at, places, c, excused)|
                              == |LeftOut(theirs, at + 1, places, c, excused)| + if c.Excused(theirs[at]) == excused then 1 else 0
  {
    PlacesAreBehind(kept, theirs, at + 1, places, c);
    hide Context.Excused, Context.Matches;
    assert at !in places;
    forall excused
      ensures |LeftOut(theirs, at, places, c, excused)|
              == |LeftOut(theirs, at + 1, places, c, excused)| + if c.Excused(theirs[at]) == excused then 1 else 0
    {
      OneMoreLeftOut(theirs, at, places, c, excused);
    }
  }

  lemma OneMoreLeftOut(theirs: seq<Entry>, at: nat, places: seq<nat>, c: Context, excused: bool)
    requires at < |theirs| && at !in places
    ensures |LeftOut(theirs, at, places, c, excused)|
            == |LeftOut(theirs, at + 1, places, c, excused)| + if c.Excused(theirs[at]) == excused then 1 else 0
  {
    hide Context.Excused;
    var more := LeftOut(theirs, at + 1, places, c, excused);
    assert at !in more;
    assert LeftOut(theirs, at, places, c, excused) == if c.Excused(theirs[at]) == excused then more + {at} else more;
  }

  // ---- what no fault means ----------------------------------------------------------

  /** The kept entries stand in the export's dictionary from `at` on, in order, the `i`-th at
      `places[i]`, and every other entry from there on is one the writer may leave out. */
  predicate Embeds(kept: seq<Entry>, theirs: seq<Entry>, at: nat, places: seq<nat>, c: Context) {
    && |places| == |kept|
    && (forall i :: 0 <= i < |places| ==> at <= places[i] < |theirs| && c.Matches(kept[i], theirs[places[i]]))
    && (forall i, k :: 0 <= i < k < |places| ==> places[i] < places[k])
    && (forall j :: at <= j < |theirs| && j !in places ==> c.Excused(theirs[j]))
  }

  ghost predicate Aligns(kept: seq<Entry>, theirs: seq<Entry>, c: Context) {
    exists places: seq<nat> :: Embeds(kept, theirs, 0, places, c)
  }

  lemma EmbedsHere(kept: seq<Entry>, theirs: seq<Entry>, at: nat, rest: seq<nat>, c: Context)
    requires at < |theirs| && kept != [] && c.Matches(kept[0], theirs[at]) && Embeds(kept[1..], theirs, at + 1, rest, c)
    ensures Embeds(kept, theirs, at, [at] + rest, c)
  {
    hide Context.Matches, Context.Excused;
    var places := [at] + rest;
    assert forall i :: 0 < i < |places| ==> places[i] == rest[i - 1] && kept[i] == kept[1..][i - 1];
    assert forall j :: j in rest ==> j in places;
    assert places[0] in places;
  }

  lemma Unfold(kept: seq<Entry>, theirs: seq<Entry>, at: nat, c: Context)
    requires at < |theirs|
    ensures var s, e := Compare(kept, theirs[at..], c), theirs[at];
            if kept != [] && c.Matches(kept[0], e) then
              var rest := Compare(kept[1..], theirs[at + 1..], c); s == rest.(agree := rest.agree + 1)
            else
              var rest := Compare(kept, theirs[at + 1..], c);
              s == if c.Excused(e) then rest.(omitted := rest.omitted + 1) else rest.(disagree := rest.disagree + 1)
  {
    hide Context.Matches, Context.Excused;
    assert theirs[at..][1..] == theirs[at + 1..];
  }

  /** A comparison without fault embeds the kept entries in order. */
  lemma {:induction false} FaultlessEmbeds(kept: seq<Entry>, theirs: seq<Entry>, at: nat, c: Context) returns (places: seq<nat>)
    requires at <= |theirs| && Compare(kept, theirs[at..], c).Faultless()
    ensures Embeds(kept, theirs, at, places, c)
    ensures Compare(kept, theirs[at..], c).agree == |kept| && Compare(kept, theirs[at..], c).omitted == |theirs| - at - |kept|
    decreases |theirs| - at
  {
    hide Context.Matches, Context.Excused;
    if at == |theirs| {
      places := [];
    } else {
      hide Compare;
      Unfold(kept, theirs, at, c);
      if kept != [] && c.Matches(kept[0], theirs[at]) {
        hide Embeds;
        var rest := FaultlessEmbeds(kept[1..], theirs, at + 1, c);
        places := [at] + rest;
        EmbedsHere(kept, theirs, at, rest, c);
      } else {
        places := FaultlessEmbeds(kept, theirs, at + 1, c);
      }
    }
  }

  lemma EmbedsBeyond(kept: seq<Entry>, theirs: seq<Entry>, at: nat, places: seq<nat>, c: Context)
    requires at < |theirs| && Embeds(kept, theirs, at, places, c)
    ensures kept != [] && places[0] == at ==> Embeds(kept[1..], theirs, at + 1, places[1..], c)
    ensures (kept != [] ==> places[0] != at) ==> c.Excused(theirs[at]) && Embeds(kept, theirs, at + 1, places, c)
  {
    hide Context.Matches, Context.Excused;
    assert forall i :: 0 < i < |places| ==> places[0] < places[i];
    if kept != [] && places[0] == at {
      assert forall i :: 0 <= i < |places| - 1 ==> places[1..][i] == places[i + 1] && kept[1..][i] == kept[i + 1];
      assert forall j :: j in places ==> j == at || j in places[1..];
    } else {
      assert at !in places;
    }
  }

  /** Two of the export's entries that a written entry can match under one handle: they
      have the same key and code. */
  predicate Alike(a: Entry, b: Entry) {
    a.key == b.key && a.code == b.code
  }

  /** The `j`-th entry can stand back for the earlier `i`-th without a fault: both name one
      object, or an entry between them names the `j`-th's. */
  predicate StandsBack(theirs: seq<Entry>, i: nat, j: nat)
    requires i < j < |theirs|
  {
    theirs[i].handle == theirs[j].handle || exists k :: i < k < j && theirs[k].handle == theirs[j].handle
  }

  /** Whenever a written entry matches two of the export's, the later can stand back. */
  ghost predicate Interchangeable(theirs: seq<Entry>, c: Context) {
    forall i, j, mine: Entry :: 0 <= i < j < |theirs| && c.Matches(mine, theirs[i]) && c.Matches(mine, theirs[j]) ==>
      StandsBack(theirs, i, j)
  }

  /** The place the loop takes for the first kept entry may replace the one it has. */
  lemma TakesEarlier(kept: seq<Entry>, theirs: seq<Entry>, at: nat, places: seq<nat>, c: Context)
    requires at < |theirs| && kept != [] && Embeds(kept, theirs, at, places, c) && Interchangeable(theirs, c)
    requires c.Matches(kept[0], theirs[at])
    ensures Embeds(kept, theirs, at, [at] + places[1..], c)
  {
    hide Context.Matches;
    var p, moved := places[0], [at] + places[1..];
    assert forall i :: 0 < i < |places| ==> places[0] < places[i] && moved[i] == places[i];
    hide Context.Excused;
    forall j | at <= j < |theirs| && j !in moved
      ensures c.Excused(theirs[j])
    {
      assert forall q :: q in places[1..] ==> q in moved;
      if j in places {
        assert j == p;
        assert StandsBack(theirs, at, p);
        NamesExcused(theirs, at, places, p, c);
      }
    }
  }

  /** An entry between the loop's place and the embedding's, and the loop's own, is excused. */
  lemma NamesExcused(theirs: seq<Entry>, at: nat, places: seq<nat>, p: nat, c: Context)
    requires at < p < |theirs| && StandsBack(theirs, at, p)
    requires forall i :: 0 <= i < |places| ==> p <= places[i]
    requires forall j :: at <= j < |theirs| && j !in places ==> c.Excused(theirs[j])
    ensures c.Excused(theirs[p])
  {
    if theirs[at].handle == theirs[p].handle {
      assert at !in places;
    } else {
      var k :| at < k < p && theirs[k].handle == theirs[p].handle;
      assert k !in places;
    }
  }

  /** Where matches are interchangeable, entries that embed in order are found without fault,
      although the loop takes the first match there is. */
  lemma {:induction false} EmbeddedIsFaultless(kept: seq<Entry>, theirs: seq<Entry>, at: nat, places: seq<nat>, c: Context)
    requires at <= |theirs| && Interchangeable(theirs, c) && Embeds(kept, theirs, at, places, c)
    ensures Compare(kept, theirs[at..], c).Faultless()
    decreases |theirs| - at
  {
    if at < |theirs| {
      hide Compare, Context.Excused, Context.Matches, Interchangeable, Embeds;
      Unfold(kept, theirs, at, c);
      if kept != [] && c.Matches(kept[0], theirs[at]) {
        TakesEarlier(kept, theirs, at, places, c);
        EmbedsBeyond(kept, theirs, at, [at] + places[1..], c);
        EmbeddedIsFaultless(kept[1..], theirs, at + 1, ([at] + places[1..])[1..], c);
      } else {
        NotHere(kept, theirs, at, places, c);
        EmbedsBeyond(kept, theirs, at, places, c);
        EmbeddedIsFaultless(kept, theirs, at + 1, places, c);
      }
    } else if kept != [] {
      FirstPlace(kept, theirs, at, places, c);
    }
  }

  lemma NotHere(kept: seq<Entry>, theirs: seq<Entry>, at: nat, places: seq<nat>, c: Context)
    requires at < |theirs| && Embeds(kept, theirs, at, places, c)
    requires kept != [] ==> !c.Matches(kept[0], theirs[at])
    ensures |places| == |kept| && (kept != [] ==> places[0] != at)
  {
  }

  lemma FirstPlace(kept: seq<Entry>, theirs: seq<Entry>, at: nat, places: seq<nat>, c: Context)
    requires kept != [] && Embeds(kept, theirs, at, places, c)
    ensures at < |theirs|
  {
    assert at <= places[0] < |theirs|;
  }

  lemma FaultlessIffAligned(kept: seq<Entry>, theirs: seq<Entry>, c: Context)
    requires Interchangeable(theirs, c)
    ensures Compare(kept, theirs, c).Faultless() <==> Aligns(kept, theirs, c)
  {
    hide Embeds, Compare, Interchangeable;
    assert theirs[0..] == theirs;
    if Compare(kept, theirs, c).Faultless() {
      var places := FaultlessEmbeds(kept, theirs, 0, c);
    }
    if Aligns(kept, theirs, c) {
      var places: seq<nat> :| Embeds(kept, theirs, 0, places, c);
      EmbeddedIsFaultless(kept, theirs, 0, places, c);
    }
  }

  // ---- under the pairing's own handles ----------------------------------------------

  /** Every entry of the export's dictionary names one of the export's records. */
  predicate NamesRecords(theirs: seq<Entry>, s: Sides) {
    forall j :: 0 <= j < |theirs| ==> theirs[j].handle in ByHandle(s.theirs)
  }

  /** The verdict of a comparison, in the pairing's own context and whatever keys repeat: a
      handle the export has is paired with itself, so all that an entry matches is one
      object. */
  lemma FaultlessExactlyWhenAligned(mine: seq<Entry>, theirs: seq<Entry>, c: Context, n: nat, s: Sides)
    requires n <= |s.ours| && c.rel == PairingAfter(n, s).rel && NamesRecords(theirs, s)
    ensures Compare(Kept(mine, c), theirs, c).Faultless() <==> Aligns(Kept(mine, c), theirs, c)
  {
    hide PairingAfter, Compare, Kept, Aligns, ByHandle, OneKind, OneToOne, TakenExactly, SamePaired;
    PairingStaysSound(n, n, s);
    forall i, j, m: Entry | 0 <= i < j < |theirs| && c.Matches(m, theirs[i]) && c.Matches(m, theirs[j])
      ensures StandsBack(theirs, i, j)
    {
      if m.handle in c.rel {
        assert Admissible(m.handle, c.rel[m.handle], s);
      }
    }
    FaultlessIffAligned(Kept(mine, c), theirs, c);
  }

  // ---- in any context -----------------------------------------------------------------

  /** The comparison never misses an embedding, whatever is written and in any context. */
  ghost predicate NeverMisled(theirs: seq<Entry>) {
    forall kept: seq<Entry>, c: Context :: Aligns(kept, theirs, c) ==> Compare(kept, theirs, c).Faultless()
  }

  /** Of two entries with one key and code the later can stand back. */
  predicate RepeatsStandBack(theirs: seq<Entry>) {
    forall i, j :: 0 <= i < j < |theirs| && Alike(theirs[i], theirs[j]) ==> StandsBack(theirs, i, j)
  }

  /** The entries that name the object. */
  function Naming(theirs: seq<Entry>, h: nat): seq<Entry> {
    if theirs == [] then []
    else (if theirs[0].handle == h then [theirs[0]] else []) + Naming(theirs[1..], h)
  }

  function Unexcused(theirs: seq<Entry>, c: Context): nat {
    if theirs == [] then 0 else Unexcused(theirs[1..], c) + if c.Excused(theirs[0]) then 0 else 1
  }

  /** Without a fault every entry that is not excused is matched. */
  lemma {:induction false} UnexcusedAreMatched(kept: seq<Entry>, theirs: seq<Entry>, c: Context)
    requires Compare(kept, theirs, c).Faultless()
    ensures Unexcused(theirs, c) <= |kept|
    decreases |theirs|
  {
    hide Context.Matches, Context.Excused;
    if theirs != [] {
      UnexcusedAreMatched(if kept != [] && c.Matches(kept[0], theirs[0]) then kept[1..] else kept, theirs[1..], c);
    }
  }

  /** A context in which the object `h` may also be written for `other`, and only entries
      that name `h` have to be there. */
  function Misleading(h: nat, other: nat): Context {
    Context(map[h := other], {}, h + 1, {h})
  }

  lemma {:induction false} NamingIsUnexcused(theirs: seq<Entry>, h: nat, other: nat)
    ensures |Naming(theirs, h)| == Unexcused(theirs, Misleading(h, other))
  {
    if theirs != [] {
      NamingIsUnexcused(theirs[1..], h, other);
    }
  }

  lemma EmbedsBehind(kept: seq<Entry>, theirs: seq<Entry>, at: nat, places: seq<nat>, c: Context)
    requires at < |theirs| && c.Excused(theirs[at]) && Embeds(kept, theirs, at + 1, places, c)
    ensures Embeds(kept, theirs, at, places, c)
  {
  }

  lemma NothingEmbeds(theirs: seq<Entry>, c: Context)
    ensures Embeds([], theirs, |theirs|, [], c)
  {
  }

  lemma {:induction false} NamingEmbeds(theirs: seq<Entry>, at: nat, h: nat, other: nat) returns (places: seq<nat>)
    requires at <= |theirs|
    ensures Embeds(Naming(theirs[at..], h), theirs, at, places, Misleading(h, other))
    decreases |theirs| - at
  {
    hide Embeds;
    var c := Misleading(h, other);
    if at == |theirs| {
      places := [];
      NothingEmbeds(theirs, c);
      assert theirs[at..] == [];
    } else {
      assert theirs[at..][1..] == theirs[at + 1..];
      var kept, rest := Naming(theirs[at..], h), Naming(theirs[at + 1..], h);
      places := NamingEmbeds(theirs, at + 1, h, other);
      if theirs[at].handle == h {
        assert kept[1..] == rest;
        EmbedsHere(kept, theirs, at, places, c);
        places := [at] + places;
      } else {
        assert kept == rest;
        EmbedsBehind(rest, theirs, at, places, c);
      }
    }
  }

  lemma {:induction false} FirstNaming(theirs: seq<Entry>, at: nat, j: nat, h: nat)
    requires at <= j < |theirs| && theirs[j].handle == h
    requires forall k :: at <= k < j ==> theirs[k].handle != h
    ensures Naming(theirs[at..], h) != [] && Naming(theirs[at..], h)[0] == theirs[j]
    decreases j - at
  {
    assert theirs[at..][1..] == theirs[at + 1..];
    if at < j {
      FirstNaming(theirs, at + 1, j, h);
    }
  }

  /** Once an entry of another object has been matched, one that names `h` must go short. */
  lemma MatchedElsewhere(kept: seq<Entry>, theirs: seq<Entry>, at: nat, h: nat, other: nat)
    requires at < |theirs| && kept == Naming(theirs[at..], h) && theirs[at].handle != h && kept != []
    requires Misleading(h, other).Matches(kept[0], theirs[at])
    ensures !Compare(kept, theirs[at..], Misleading(h, other)).Faultless()
  {
    var c, rest := Misleading(h, other), theirs[at + 1..];
    hide Context.Matches, Context.Excused, Misleading, Compare;
    assert theirs[at..][1..] == rest;
    Unfold(kept, theirs, at, c);
    if Compare(kept[1..], rest, c).Faultless() {
      UnexcusedAreMatched(kept[1..], rest, c);
      NamingIsUnexcused(rest, h, other);
    }
  }

  lemma {:induction false} LoopIsMisled(theirs: seq<Entry>, at: nat, i: nat, j: nat)
    requires at <= i < j < |theirs| && Alike(theirs[i], theirs[j]) && !StandsBack(theirs, i, j)
    ensures var h, other := theirs[j].handle, theirs[i].handle;
            !Compare(Naming(theirs[at..], h), theirs[at..], Misleading(h, other)).Faultless()
    decreases i - at
  {
    var h, other := theirs[j].handle, theirs[i].handle;
    var kept, c := Naming(theirs[at..], h), Misleading(h, other);
    hide Compare;
    assert theirs[at..][1..] == theirs[at + 1..];
    if at == i {
      FirstNaming(theirs, at, j, h);
      assert c.Matches(kept[0], theirs[at]);
      MatchedElsewhere(kept, theirs, at, h, other);
    } else {
      LoopIsMisled(theirs, at + 1, i, j);
      Unfold(kept, theirs, at, c);
      if theirs[at].handle == h {
        assert kept == [theirs[at]] + Naming(theirs[at + 1..], h);
        assert kept[1..] == Naming(theirs[at + 1..], h);
      } else {
        assert kept == Naming(theirs[at + 1..], h);
        if kept != [] && c.Matches(kept[0], theirs[at]) {
          MatchedElsewhere(kept, theirs, at, h, other);
        }
      }
    }
  }

  /** In any context the comparison finds every embedding exactly when, of two entries with
      one key and code, the later can stand back: repeated keys mislead it only so. */
  lemma NeverMisledExactly(theirs: seq<Entry>)
    ensures NeverMisled(theirs) <==> RepeatsStandBack(theirs)
  {
    hide Compare, Embeds, Misleading, Naming;
    if RepeatsStandBack(theirs) {
      forall kept: seq<Entry>, c: Context | Aligns(kept, theirs, c)
        ensures Compare(kept, theirs, c).Faultless()
      {
        FaultlessIffAligned(kept, theirs, c);
      }
    } else {
      var i, j :| 0 <= i < j < |theirs| && Alike(theirs[i], theirs[j]) && !StandsBack(theirs, i, j);
      var h, other := theirs[j].handle, theirs[i].handle;
      assert theirs[0..] == theirs;
      var places := NamingEmbeds(theirs, 0, h, other);
      assert Aligns(Naming(theirs, h), theirs, Misleading(h, other));
      LoopIsMisled(theirs, 0, i, j);
    }
  }

  // ---- a pairing that misleads ------------------------------------------------------------

  /** An export whose dictionary names, under one key, a record of its own and then the
      drawing's object, which is no record of the export. */
  function MisleadingSides(): Sides {
    Sides([Rec("DICTIONARY", Some(5), None, [Entry("K", 350, 1)]), Rec("XRECORD", Some(1), Some(5), [])],
          [Rec("DICTIONARY", Some(5), None, [Entry("K", 350, 12), Entry("K", 350, 1)]), Rec("XRECORD", Some(12), Some(5), [])],
          10)
  }

  lemma MisleadingRecords()
    ensures var theirs := MisleadingSides().theirs; ByHandle(theirs) == map[5 := theirs[0], 12 := theirs[1]]
    ensures !NamesRecords(MisleadingSides().theirs[0].entries, MisleadingSides())
  {
    var theirs := MisleadingSides().theirs;
    assert theirs[..1] == [theirs[0]] && theirs[..0] == [];
    assert ByHandle([theirs[0]]) == map[5 := theirs[0]];
    assert theirs[0].entries[1].handle == 1;
  }

  lemma MisleadingPairs()
    ensures PairingAfter(2, MisleadingSides()).rel == map[5 := 5, 1 := 12]
  {
    var s := MisleadingSides();
    var ours, theirs := s.ours, s.theirs;
    MisleadingRecords();
    assert ours[1..] == [ours[1]] && ours[1..][1..] == [] && ours[..2] == ours;
    var same := NOTHING.With(5, 5);
    assert Same(same, ours[1..], s) == same;
    assert Same(NOTHING, ours, s) == same;
    assert FirstWithHandle(ours[1..], 1) == Some(ours[1]);
    assert ours[0].entries[1..] == [];
    var paired := same.With(1, 12);
    assert PairEntry(same, ours[0].entries[0], theirs[0].entries, s) == paired;
    assert PairEntries(same, ours[0].entries, theirs[0].entries, s) == paired;
    assert PairRecord(same, ours[0], s) == paired;
    assert PairRecord(paired, ours[1], s) == paired;
    assert PairRecords(paired, ours[1..], s) == paired;
  }

  /** Without that condition a pairing can come out that makes the loop take the wrong one of
      two entries under one key, and call a fault what an embedding excuses. */
  lemma RepeatedKeysCanMislead()
    ensures var s := MisleadingSides();
            var mine, theirs := s.ours[0].entries, s.theirs[0].entries;
            var c := Context(PairingAfter(|s.ours|, s).rel, {}, s.seed, {1, 5});
            && !NamesRecords(theirs, s)
            && Aligns(Kept(mine, c), theirs, c) && !Compare(Kept(mine, c), theirs, c).Faultless()
  {
    hide PairingAfter;
    MisleadingPairs();
    var s := MisleadingSides();
    var mine, theirs := s.ours[0].entries, s.theirs[0].entries;
    var c := Context(PairingAfter(|s.ours|, s).rel, {}, s.seed, {1, 5});
    assert mine[1..] == [] && Kept(mine, c) == mine;
    assert theirs[1..] == [Entry("K", 350, 1)] && theirs[2..] == [];
    assert Compare([], theirs[1..], c).disagree == 1;
    assert 1 in [1];
    assert Embeds(mine, theirs, 0, [1], c);
    MisleadingRecords();
  }
}
