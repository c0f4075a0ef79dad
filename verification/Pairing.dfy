/** Pairing the OBJECTS records a writer made with those of a reference export, handle by
    handle: the two loops over `rel` and `taken` in `examples/probe_dxf_objects.rs`. */
module Pairing {
  import opened Results

  /** A dictionary's entry: its key, the group code and the handle it names. */
  datatype Entry = Entry(key: string, code: nat, handle: nat)

  datatype Rec = Rec(kind: string, handle: Option<nat>, owner: Option<nat>, entries: seq<Entry>) {
    predicate IsDictionary() {
      kind == "DICTIONARY" || kind == "ACDBDICTIONARYWDFLT"
    }
  }

  // ---- reading a dictionary's entries ---------------------------------------

  datatype Group = Group(code: nat, text: Option<string>, handle: Option<nat>) {
    predicate Names() {
      code == 350 || code == 360
    }
  }

  /** The key that waits after the groups: that of the last group 3, unless a reference has
      used it since. */
  function PendingKey(groups: seq<Group>): Option<string> {
    if groups == [] then None
    else
      var g := groups[|groups| - 1];
      if g.code == 3 then g.text else if g.Names() then None else PendingKey(groups[..|groups| - 1])
  }

  /** Every reference with a handle that a key waits for, in order. */
  function Entries(groups: seq<Group>): seq<Entry> {
    if groups == [] then []
    else
      var g, before := groups[|groups| - 1], groups[..|groups| - 1];
      Entries(before)
      + if g.Names() && PendingKey(before).Some? && g.handle.Some? then
          [Entry(PendingKey(before).value, g.code, g.handle.value)]
        else
          []
  }

  method ReadEntries(groups: seq<Group>) returns (out: seq<Entry>)
    ensures out == Entries(groups)
  {
    out := [];
    var key: Option<string> := None;
    for i := 0 to |groups|
      invariant out == Entries(groups[..i]) && key == PendingKey(groups[..i])
    {
      assert groups[..i + 1][..i] == groups[..i];
      var g := groups[i];
      if g.code == 3 {
        key := g.text;
      } else if g.Names() {
        if key.Some? && g.handle.Some? {
          out := out + [Entry(key.value, g.code, g.handle.value)];
        }
        key := None;
      }
    }
    assert groups[..|groups|] == groups;
  }

  /** The reference `k` stands under the key that group `i` states: no key and no reference
      comes between. */
  ghost predicate StandsUnder(groups: seq<Group>, i: int, k: int) {
    && 0 <= i < k < |groups| && groups[i].code == 3 && groups[k].code in {350, 360}
    && forall j :: i < j < k ==> groups[j].code !in {3, 350, 360}
  }

  lemma {:induction false} PendingKeyStands(groups: seq<Group>, k: nat)
    requires k < |groups| && groups[k].code in {350, 360}
    ensures forall i :: StandsUnder(groups, i, k) ==> PendingKey(groups[..k]) == groups[i].text
    ensures PendingKey(groups[..k]).Some? ==> exists i :: StandsUnder(groups, i, k)
  {
    PendingKeyFrom(groups, k, k);
  }

  lemma {:induction false} PendingKeyFrom(groups: seq<Group>, n: nat, k: nat)
    requires n <= k < |groups| && groups[k].code in {350, 360} && forall j :: n <= j < k ==> groups[j].code !in {3, 350, 360}
    ensures forall i :: StandsUnder(groups, i, k) ==> PendingKey(groups[..n]) == groups[i].text
    ensures PendingKey(groups[..n]).Some? ==> exists i :: StandsUnder(groups, i, k)
  {
    if n > 0 {
      assert groups[..n][..n - 1] == groups[..n - 1];
      if groups[n - 1].code == 3 {
        assert StandsUnder(groups, n - 1, k);
      } else if groups[n - 1].code !in {350, 360} {
        PendingKeyFrom(groups, n - 1, k);
      }
    }
  }

  /** A group adds an entry exactly when it is a reference with a handle that stands under a
      key with a text, and then that entry, at the end. */
  lemma EntriesGrow(groups: seq<Group>, k: nat)
    requires k < |groups|
    ensures forall i :: StandsUnder(groups, i, k) && groups[i].text.Some? && groups[k].handle.Some? ==>
              Entries(groups[..k + 1]) == Entries(groups[..k]) + [Entry(groups[i].text.value, groups[k].code, groups[k].handle.value)]
    ensures Entries(groups[..k + 1]) == Entries(groups[..k])
            || exists i :: StandsUnder(groups, i, k) && groups[i].text.Some? && groups[k].handle.Some?
  {
    assert groups[..k + 1][..k] == groups[..k];
    if groups[k].code in {350, 360} {
      PendingKeyStands(groups, k);
    }
  }

  // ---- looking records up -----------------------------------------------------

  /** The last record with each handle. */
  function ByHandle(recs: seq<Rec>): map<nat, Rec> {
    if recs == [] then map[]
    else
      var last, m := recs[|recs| - 1], ByHandle(recs[..|recs| - 1]);
      if last.handle.Some? then m[last.handle.value := last] else m
  }

  lemma {:induction false} HandleIsKnown(recs: seq<Rec>, i: nat)
    requires i < |recs| && recs[i].handle.Some?
    ensures recs[i].handle.value in ByHandle(recs)
  {
    if i < |recs| - 1 {
      HandleIsKnown(recs[..|recs| - 1], i);
    }
  }

  /** Record `i` is the first, or the last, with the handle. */
  predicate FirstOf(recs: seq<Rec>, i: int, h: nat) {
    0 <= i < |recs| && recs[i].handle == Some(h) && forall k :: 0 <= k < i ==> recs[k].handle != Some(h)
  }

  predicate LastOf(recs: seq<Rec>, i: int, h: nat) {
    0 <= i < |recs| && recs[i].handle == Some(h) && forall k :: i < k < |recs| ==> recs[k].handle != Some(h)
  }

  lemma {:induction false} KnownHandle(recs: seq<Rec>, h: nat) returns (i: nat)
    requires h in ByHandle(recs)
    ensures LastOf(recs, i, h) && recs[i] == ByHandle(recs)[h]
  {
    if recs[|recs| - 1].handle == Some(h) {
      i := |recs| - 1;
    } else {
      i := KnownHandle(recs[..|recs| - 1], h);
    }
  }

  function FirstWithHandle(recs: seq<Rec>, h: nat): (r: Option<Rec>)
    ensures forall i :: FirstOf(recs, i, h) ==> r == Some(recs[i])
    ensures r.Some? ==> exists i :: FirstOf(recs, i, h)
  {
    if recs == [] then None
    else if recs[0].handle == Some(h) then
      assert FirstOf(recs, 0, h);
      Some(recs[0])
    else
      var r := FirstWithHandle(recs[1..], h);
      assert forall i :: 0 < i < |recs| ==> recs[i] == recs[1..][i - 1];
      assert forall i :: FirstOf(recs, i, h) ==> i > 0 && FirstOf(recs[1..], i - 1, h);
      assert forall i :: FirstOf(recs[1..], i, h) ==> FirstOf(recs, i + 1, h);
      r
  }

  predicate IsTwin(t: Rec, kind: string, owner: Option<nat>, seed: nat, taken: set<nat>) {
    t.kind == kind && t.owner == owner && t.handle.Some? && t.handle.value >= seed && t.handle.value !in taken
  }

  function FindTwin(recs: seq<Rec>, kind: string, owner: Option<nat>, seed: nat, taken: set<nat>): (r: Option<Rec>)
    ensures r.Some? ==> exists i :: FirstTwin(recs, i, kind, owner, seed, taken) && recs[i] == r.value
    ensures r.None? ==> forall i :: 0 <= i < |recs| ==> !IsTwin(recs[i], kind, owner, seed, taken)
  {
    if recs == [] then None
    else if IsTwin(recs[0], kind, owner, seed, taken) then
      assert FirstTwin(recs, 0, kind, owner, seed, taken);
      Some(recs[0])
    else
      var r := FindTwin(recs[1..], kind, owner, seed, taken);
      assert forall i :: 0 < i < |recs| ==> recs[i] == recs[1..][i - 1];
      assert forall i :: FirstTwin(recs[1..], i, kind, owner, seed, taken) ==> FirstTwin(recs, i + 1, kind, owner, seed, taken);
      r
  }

  predicate FirstTwin(recs: seq<Rec>, i: int, kind: string, owner: Option<nat>, seed: nat, taken: set<nat>) {
    0 <= i < |recs| && IsTwin(recs[i], kind, owner, seed, taken)
    && forall k :: 0 <= k < i ==> !IsTwin(recs[k], kind, owner, seed, taken)
  }

  /** Entry `i` is the first with the key and the code. */
  predicate FirstEntry(entries: seq<Entry>, i: int, key: string, code: nat) {
    0 <= i < |entries| && entries[i].key == key && entries[i].code == code
    && forall k :: 0 <= k < i ==> !(entries[k].key == key && entries[k].code == code)
  }

  function FindEntry(entries: seq<Entry>, key: string, code: nat): (r: Option<Entry>)
    ensures forall i :: FirstEntry(entries, i, key, code) ==> r == Some(entries[i])
    ensures r.Some? ==> exists i :: FirstEntry(entries, i, key, code)
  {
    if entries == [] then None
    else if entries[0].key == key && entries[0].code == code then
      assert FirstEntry(entries, 0, key, code);
      Some(entries[0])
    else
      var r := FindEntry(entries[1..], key, code);
      assert forall i :: 0 < i < |entries| ==> entries[i] == entries[1..][i - 1];
      assert forall i :: FirstEntry(entries, i, key, code) ==> i > 0 && FirstEntry(entries[1..], i - 1, key, code);
      assert forall i :: FirstEntry(entries[1..], i, key, code) ==> FirstEntry(entries, i + 1, key, code);
      r
  }

  // ---- the two loops, as functions of what is paired so far ----------------------

  /** The drawing's records, the export's, and the first handle the drawing left unused. */
  datatype Sides = Sides(ours: seq<Rec>, theirs: seq<Rec>, seed: nat)

  datatype Paired = Paired(rel: map<nat, nat>, taken: set<nat>) {
    function With(h: nat, x: nat): Paired {
      Paired(rel[h := x], taken + {x})
    }
  }

  const NOTHING: Paired := Paired(map[], {})

  function PairSame(p: Paired, r: Rec, s: Sides): Paired {
    if r.handle.Some? && r.handle.value in ByHandle(s.theirs) then p.With(r.handle.value, r.handle.value) else p
  }

  function Same(p: Paired, recs: seq<Rec>, s: Sides): Paired
    decreases |recs|
  {
    if recs == [] then p else Same(PairSame(p, recs[0], s), recs[1..], s)
  }

  function PairDictionary(p: Paired, r: Rec, h: nat, s: Sides): Paired {
    if h in p.rel || !r.IsDictionary() then p
    else
      var owner := if r.owner.None? then None else Some(if r.owner.value in p.rel then p.rel[r.owner.value] else r.owner.value);
      match FindTwin(s.theirs, r.kind, owner, s.seed, p.taken)
      case None => p
      case Some(t) => p.With(h, t.handle.value)
  }

  /** The entry's object may pair with `x`: neither is paired, the export made `x` itself,
      and both are known and of one kind. */
  predicate MayPair(p: Paired, ho: nat, x: nat, s: Sides) {
    var mine, known := FirstWithHandle(s.ours, ho), ByHandle(s.theirs);
    mine.Some? && x in known && ho !in p.rel && x >= s.seed && x !in p.taken && mine.value.kind == known[x].kind
  }

  function PairEntry(p: Paired, e: Entry, theirs: seq<Entry>, s: Sides): Paired {
    match FindEntry(theirs, e.key, e.code)
    case None => p
    case Some(t) => if MayPair(p, e.handle, t.handle, s) then p.With(e.handle, t.handle) else p
  }

  function PairEntries(p: Paired, entries: seq<Entry>, theirs: seq<Entry>, s: Sides): Paired
    decreases |entries|
  {
    if entries == [] then p else PairEntries(PairEntry(p, entries[0], theirs, s), entries[1..], theirs, s)
  }

  function TwinEntries(p: Paired, h: nat, s: Sides): seq<Entry>
    requires h in p.rel
  {
    var known := ByHandle(s.theirs);
    if p.rel[h] in known then known[p.rel[h]].entries else []
  }

  function PairRecord(p: Paired, r: Rec, s: Sides): Paired {
    if r.handle.None? then p
    else
      var h := r.handle.value;
      var q := PairDictionary(p, r, h, s);
      if h in q.rel && r.IsDictionary() then PairEntries(q, r.entries, TwinEntries(q, h, s), s) else q
  }

  function PairRecords(p: Paired, recs: seq<Rec>, s: Sides): Paired
    decreases |recs|
  {
    if recs == [] then p else PairRecords(PairRecord(p, recs[0], s), recs[1..], s)
  }

  // ---- what every step keeps ----------------------------------------------------------

  /** A record of the drawing with handle `h` and one of the export with handle `x` are of
      one kind. */
  predicate OneKind(s: Sides, h: nat, x: nat) {
    exists i, j :: 0 <= i < |s.ours| && 0 <= j < |s.theirs|
                   && s.ours[i].handle == Some(h) && s.theirs[j].handle == Some(x) && s.ours[i].kind == s.theirs[j].kind
  }

  predicate OneToOne(p: Paired) {
    forall h, g :: h in p.rel && g in p.rel && p.rel[h] == p.rel[g] ==> h == g
  }

  predicate TakenExactly(p: Paired) {
    && (forall h :: h in p.rel ==> p.rel[h] in p.taken)
    && (forall x :: x in p.taken ==> exists h :: h in p.rel && p.rel[h] == x)
  }

  /** `h` may stand paired with `x`: with itself when the export has it, and else with a
      record of the same kind that the export made itself. */
  predicate Admissible(h: nat, x: nat, s: Sides) {
    x in ByHandle(s.theirs) && if h in ByHandle(s.theirs) then x == h else x >= s.seed && OneKind(s, h, x)
  }

  predicate Sound(p: Paired, s: Sides) {
    OneToOne(p) && TakenExactly(p) && forall h :: h in p.rel ==> Admissible(h, p.rel[h], s)
  }

  /** Each of the records whose handle the export has too is paired. */
  predicate AllSharedIn(p: Paired, recs: seq<Rec>, s: Sides) {
    forall i :: 0 <= i < |recs| && recs[i].handle.Some? && recs[i].handle.value in ByHandle(s.theirs) ==>
      recs[i].handle.value in p.rel
  }

  predicate SamePaired(p: Paired, s: Sides) {
    AllSharedIn(p, s.ours, s)
  }

  /** No pair of `p` is lost or overwritten in `q`. */
  predicate Extends(q: Paired, p: Paired) {
    p.taken <= q.taken && forall h :: h in p.rel ==> h in q.rel && q.rel[h] == p.rel[h]
  }

  lemma WithTakesExactly(p: Paired, h: nat, x: nat)
    requires OneToOne(p) && TakenExactly(p) && h !in p.rel && x !in p.taken
    ensures OneToOne(p.With(h, x)) && TakenExactly(p.With(h, x))
  {
    var q := p.With(h, x);
    forall y | y in q.taken
      ensures exists g :: g in q.rel && q.rel[g] == y
    {
      if y in p.taken {
        var g :| g in p.rel && p.rel[g] == y;
        assert g in q.rel && q.rel[g] == y;
      } else {
        assert h in q.rel && q.rel[h] == y;
      }
    }
  }

  lemma WithIsSound(p: Paired, h: nat, x: nat, s: Sides)
    requires Sound(p, s) && h !in p.rel && x !in p.taken && Admissible(h, x, s)
    ensures Sound(p.With(h, x), s) && Extends(p.With(h, x), p)
  {
    hide Admissible, OneToOne, TakenExactly;
    WithTakesExactly(p, h, x);
  }

  /** The first loop's pairs: a handle with itself. */
  predicate AllSame(p: Paired, s: Sides) {
    p.taken == p.rel.Keys && forall h :: h in p.rel ==> p.rel[h] == h && h in ByHandle(s.theirs)
  }

  lemma {:induction false} SamePairsSame(p: Paired, recs: seq<Rec>, s: Sides)
    requires AllSame(p, s)
    ensures var q := Same(p, recs, s);
            AllSame(q, s) && Extends(q, p)
            && AllSharedIn(q, recs, s)
    decreases |recs|
  {
    hide ByHandle;
    if recs != [] {
      SamePairsSame(PairSame(p, recs[0], s), recs[1..], s);
      assert forall i :: 0 < i < |recs| ==> recs[i] == recs[1..][i - 1];
    }
  }

  /** The first loop leaves a sound pairing that has every shared handle. */
  lemma SameIsSound(s: Sides)
    ensures var p := Same(NOTHING, s.ours, s); Sound(p, s) && SamePaired(p, s)
  {
    hide ByHandle, OneKind;
    SamePairsSame(NOTHING, s.ours, s);
  }

  lemma PairDictionaryIsSound(p: Paired, i: nat, s: Sides)
    requires Sound(p, s) && SamePaired(p, s) && i < |s.ours| && s.ours[i].handle.Some?
    ensures var q := PairDictionary(p, s.ours[i], s.ours[i].handle.value, s); Sound(q, s) && SamePaired(q, s) && Extends(q, p)
  {
    hide ByHandle, Sound;
    var r, h := s.ours[i], s.ours[i].handle.value;
    if h !in p.rel && r.IsDictionary() {
      var owner := if r.owner.None? then None else Some(if r.owner.value in p.rel then p.rel[r.owner.value] else r.owner.value);
      var t := FindTwin(s.theirs, r.kind, owner, s.seed, p.taken);
      if t.Some? {
        var j :| FirstTwin(s.theirs, j, r.kind, owner, s.seed, p.taken) && s.theirs[j] == t.value;
        assert OneKind(s, h, t.value.handle.value);
        HandleIsKnown(s.theirs, j);
        WithIsSound(p, h, t.value.handle.value, s);
      }
    }
  }

  lemma PairEntryIsSound(p: Paired, e: Entry, theirs: seq<Entry>, s: Sides)
    requires Sound(p, s) && SamePaired(p, s)
    ensures var q := PairEntry(p, e, theirs, s); Sound(q, s) && SamePaired(q, s) && Extends(q, p)
  {
    hide Sound, FindEntry;
    var t := FindEntry(theirs, e.key, e.code);
    if t.Some? && MayPair(p, e.handle, t.value.handle, s) {
      var h, x, known := e.handle, t.value.handle, ByHandle(s.theirs);
      var mine := FirstWithHandle(s.ours, h).value;
      var i :| FirstOf(s.ours, i, h);
      var j := KnownHandle(s.theirs, x);
      assert OneKind(s, h, x);
      hide ByHandle, OneKind;
      WithIsSound(p, h, x, s);
    }
  }

  lemma {:induction false} PairEntriesIsSound(p: Paired, entries: seq<Entry>, theirs: seq<Entry>, s: Sides)
    requires Sound(p, s) && SamePaired(p, s)
    ensures var q := PairEntries(p, entries, theirs, s); Sound(q, s) && SamePaired(q, s) && Extends(q, p)
    decreases |entries|
  {
    hide Sound, SamePaired, PairEntry;
    if entries != [] {
      PairEntryIsSound(p, entries[0], theirs, s);
      PairEntriesIsSound(PairEntry(p, entries[0], theirs, s), entries[1..], theirs, s);
    }
  }

  lemma PairRecordIsSound(p: Paired, i: nat, s: Sides)
    requires Sound(p, s) && SamePaired(p, s) && i < |s.ours|
    ensures var q := PairRecord(p, s.ours[i], s); Sound(q, s) && SamePaired(q, s) && Extends(q, p)
  {
    hide Sound, SamePaired, PairDictionary, PairEntries, TwinEntries;
    var r := s.ours[i];
    if r.handle.Some? {
      var q := PairDictionary(p, r, r.handle.value, s);
      PairDictionaryIsSound(p, i, s);
      if r.handle.value in q.rel && r.IsDictionary() {
        PairEntriesIsSound(q, r.entries, TwinEntries(q, r.handle.value, s), s);
      }
    }
  }

  /** The pairing after the second loop has seen `n` records. */
  function PairingAfter(n: nat, s: Sides): Paired
    requires n <= |s.ours|
  {
    PairRecords(Same(NOTHING, s.ours, s), s.ours[..n], s)
  }

  lemma {:induction false} PairRecordsSnoc(p: Paired, recs: seq<Rec>, last: Rec, s: Sides)
    ensures PairRecords(p, recs + [last], s) == PairRecord(PairRecords(p, recs, s), last, s)
    decreases |recs|
  {
    hide PairRecord;
    if recs == [] {
      assert ([] + [last])[1..] == [];
    } else {
      PairRecordsSnoc(PairRecord(p, recs[0], s), recs[1..], last, s);
      assert (recs + [last])[1..] == recs[1..] + [last];
    }
  }

  lemma PairingStep(n: nat, s: Sides)
    requires n < |s.ours|
    ensures PairingAfter(n + 1, s) == PairRecord(PairingAfter(n, s), s.ours[n], s)
  {
    hide PairRecord, Same, PairRecords;
    assert s.ours[..n + 1] == s.ours[..n] + [s.ours[n]];
    PairRecordsSnoc(Same(NOTHING, s.ours, s), s.ours[..n], s.ours[n], s);
  }

  /** Throughout: the pairing is one to one, what is taken is exactly what it pairs to, a
      handle both sides have pairs with itself, any other pair is of one kind and has a
      handle the export made; and no pair is ever lost or replaced. */
  lemma {:induction false} PairingStaysSound(m: nat, n: nat, s: Sides)
    requires m <= n <= |s.ours|
    ensures Sound(PairingAfter(n, s), s) && SamePaired(PairingAfter(n, s), s)
    ensures Extends(PairingAfter(n, s), PairingAfter(m, s))
    decreases n
  {
    hide Sound, SamePaired, PairRecord, Same, PairingAfter;
    if n == 0 {
      SameIsSound(s);
      NoneSeen(s);
    } else {
      PairingStaysSound(if m < n then m else n - 1, n - 1, s);
      PairingStep(n - 1, s);
      PairRecordIsSound(PairingAfter(n - 1, s), n - 1, s);
    }
  }

  lemma NoneSeen(s: Sides)
    ensures PairingAfter(0, s) == Same(NOTHING, s.ours, s)
  {
    hide Same;
  }

  // ---- what names a pair ------------------------------------------------------------------

  /** The export's owner answers to the drawing's: the same handle, or the one it pairs with. */
  ghost predicate Answers(theirs: Option<nat>, ours: Option<nat>, rel: map<nat, nat>) {
    && (theirs.None? <==> ours.None?)
    && (ours.Some? && theirs.Some? ==>
          (ours.value in rel && theirs.value == rel[ours.value]) || (ours.value !in rel && theirs.value == ours.value))
  }

  /** An export record of the kind under the same owner, with a handle the export made and
      that no pair has yet. */
  ghost predicate IsFree(t: Rec, r: Rec, p: Paired, seed: nat) {
    t.kind == r.kind && Answers(t.owner, r.owner, p.rel) && t.handle.Some? && t.handle.value >= seed && t.handle.value !in p.taken
  }

  /** Dictionary `i` of the drawing was unpaired when seen, and record `j` of the export is the
      first that was free for it. */
  ghost predicate NamedByOwner(i: nat, j: nat, h: nat, x: nat, s: Sides)
    requires i < |s.ours| && j < |s.theirs|
  {
    var p, r := PairingAfter(i, s), s.ours[i];
    && r.handle == Some(h) && r.kind in {"DICTIONARY", "ACDBDICTIONARYWDFLT"} && h !in p.rel
    && s.theirs[j].handle == Some(x) && IsFree(s.theirs[j], r, p, s.seed)
    && forall k :: 0 <= k < j ==> !IsFree(s.theirs[k], r, p, s.seed)
  }

  /** Dictionary `i` is paired with the record `j`; its entry `a` names `h` and the first entry
      there under the same key and code names `x`. */
  ghost predicate NamedByEntry(i: nat, j: nat, a: nat, b: nat, h: nat, x: nat, s: Sides)
    requires i < |s.ours| && j < |s.theirs| && a < |s.ours[i].entries| && b < |s.theirs[j].entries|
  {
    var p, r, t := PairingAfter(i + 1, s), s.ours[i], s.theirs[j];
    && r.kind in {"DICTIONARY", "ACDBDICTIONARYWDFLT"}
    && r.handle.Some? && r.handle.value in p.rel && LastOf(s.theirs, j, p.rel[r.handle.value])
    && r.entries[a].handle == h && t.entries[b].handle == x
    && FirstEntry(t.entries, b, r.entries[a].key, r.entries[a].code)
    && KindsAgree(h, x, s)
  }

  /** The first record of the drawing with handle `h` and the last of the export with handle
      `x` are of one kind. */
  ghost predicate KindsAgree(h: nat, x: nat, s: Sides) {
    exists i, j :: FirstOf(s.ours, i, h) && LastOf(s.theirs, j, x) && s.ours[i].kind == s.theirs[j].kind
  }

  ghost predicate Named(i: nat, h: nat, x: nat, s: Sides)
    requires i < |s.ours|
  {
    || (exists j :: 0 <= j < |s.theirs| && NamedByOwner(i, j, h, x, s))
    || (exists j, a, b :: 0 <= j < |s.theirs| && 0 <= a < |s.ours[i].entries| && 0 <= b < |s.theirs[j].entries|
                          && NamedByEntry(i, j, a, b, h, x, s))
  }

  lemma TwinIsFree(t: Rec, r: Rec, p: Paired, seed: nat)
    ensures var owner := if r.owner.None? then None else Some(if r.owner.value in p.rel then p.rel[r.owner.value] else r.owner.value);
            IsTwin(t, r.kind, owner, seed, p.taken) <==> IsFree(t, r, p, seed)
  {
  }

  /** A dictionary pairs with the first free record, and stays unpaired only if there is none. */
  lemma DictionaryTakesFirst(i: nat, s: Sides)
    requires i < |s.ours| && s.ours[i].handle.Some? && s.ours[i].IsDictionary()
    requires s.ours[i].handle.value !in PairingAfter(i, s).rel
    ensures var r, h, p := s.ours[i], s.ours[i].handle.value, PairingAfter(i, s);
            var q := PairDictionary(p, r, h, s);
            && (q == p || (h in q.rel && q == p.With(h, q.rel[h])
                           && exists j :: 0 <= j < |s.theirs| && NamedByOwner(i, j, h, q.rel[h], s)))
            && (h !in q.rel ==> forall j :: 0 <= j < |s.theirs| ==> !IsFree(s.theirs[j], r, p, s.seed))
  {
    hide PairingAfter, IsTwin, IsFree;
    var r, h, p := s.ours[i], s.ours[i].handle.value, PairingAfter(i, s);
    var owner := if r.owner.None? then None else Some(if r.owner.value in p.rel then p.rel[r.owner.value] else r.owner.value);
    forall t: Rec
      ensures IsTwin(t, r.kind, owner, s.seed, p.taken) <==> IsFree(t, r, p, s.seed)
    {
      TwinIsFree(t, r, p, s.seed);
    }
    var t := FindTwin(s.theirs, r.kind, owner, s.seed, p.taken);
    if t.Some? {
      var j :| FirstTwin(s.theirs, j, r.kind, owner, s.seed, p.taken) && s.theirs[j] == t.value;
      FreeHasHandle(s.theirs[j], r, p, s.seed);
      assert NamedByOwner(i, j, h, t.value.handle.value, s);
    }
  }

  lemma FreeHasHandle(t: Rec, r: Rec, p: Paired, seed: nat)
    requires IsFree(t, r, p, seed)
    ensures t.handle.Some?
  {
  }

  lemma {:induction false} NewByEntries(p: Paired, entries: seq<Entry>, theirs: seq<Entry>, s: Sides, h: nat) returns (a: nat, b: nat)
    requires Sound(p, s) && SamePaired(p, s) && h in PairEntries(p, entries, theirs, s).rel && h !in p.rel
    ensures a < |entries| && b < |theirs| && entries[a].handle == h
    ensures FirstEntry(theirs, b, entries[a].key, entries[a].code)
    ensures theirs[b].handle == PairEntries(p, entries, theirs, s).rel[h] && KindsAgree(h, theirs[b].handle, s)
    decreases |entries|
  {
    hide Sound, SamePaired, FindEntry, MayPair, KindsAgree;
    var e, q := entries[0], PairEntry(p, entries[0], theirs, s);
    PairEntryIsSound(p, e, theirs, s);
    if h in q.rel {
      PairEntriesIsSound(q, entries[1..], theirs, s);
      var t := FindEntry(theirs, e.key, e.code);
      var i :| FirstEntry(theirs, i, e.key, e.code);
      a, b := 0, i;
      MayPairKinds(p, h, theirs[b].handle, s);
    } else {
      var c: nat;
      c, b := NewByEntries(q, entries[1..], theirs, s, h);
      a := c + 1;
    }
  }

  lemma MayPairKinds(p: Paired, h: nat, x: nat, s: Sides)
    requires MayPair(p, h, x, s)
    ensures KindsAgree(h, x, s)
  {
    hide ByHandle;
    var j := KnownHandle(s.theirs, x);
    var i :| FirstOf(s.ours, i, h);
  }

  /** Every pair but those of shared handles was named: its dictionary by the owner, or its
      object by an entry of a dictionary paired before. */
  lemma {:induction false} PairsAreNamed(n: nat, s: Sides, h: nat)
    requires n <= |s.ours| && h in PairingAfter(n, s).rel
    requires forall j :: 0 <= j < |s.theirs| ==> s.theirs[j].handle != Some(h)
    ensures exists i :: 0 <= i < n && Named(i, h, PairingAfter(n, s).rel[h], s)
  {
    hide PairingAfter, Sound, Named, ByHandle;
    if n == 0 {
      NotShared(s, h);
      assert false;
    } else {
      PairingStaysSound(n - 1, n, s);
      if h in PairingAfter(n - 1, s).rel {
        PairsAreNamed(n - 1, s, h);
      } else {
        NewIsNamed(n - 1, s, h);
      }
    }
  }

  lemma NotShared(s: Sides, h: nat)
    requires forall j :: 0 <= j < |s.theirs| ==> s.theirs[j].handle != Some(h)
    ensures h !in PairingAfter(0, s).rel
  {
    hide ByHandle;
    NoneSeen(s);
    SamePairsSame(NOTHING, s.ours, s);
    if h in ByHandle(s.theirs) {
      var j := KnownHandle(s.theirs, h);
    }
  }

  lemma NewIsNamed(i: nat, s: Sides, h: nat)
    requires i < |s.ours| && h in PairingAfter(i + 1, s).rel && h !in PairingAfter(i, s).rel
    ensures Named(i, h, PairingAfter(i + 1, s).rel[h], s)
  {
    hide PairingAfter, Sound, SamePaired, ByHandle, PairDictionary, PairEntries, NamedByOwner, NamedByEntry, KindsAgree;
    var p, r, after := PairingAfter(i, s), s.ours[i], PairingAfter(i + 1, s);
    PairingStaysSound(i, i, s);
    PairingStaysSound(i + 1, i + 1, s);
    PairingStep(i, s);
    if r.handle.Some? {
      var g := r.handle.value;
      var q := PairDictionary(p, r, g, s);
      PairDictionaryIsSound(p, i, s);
      if g in p.rel || !r.IsDictionary() {
        DictionaryStep(p, r, g, s);
      } else {
        DictionaryTakesFirst(i, s);
      }
      if g in q.rel && r.IsDictionary() {
        PairEntriesIsSound(q, r.entries, TwinEntries(q, g, s), s);
        if h !in q.rel {
          EntryNames(i, s, q, h);
        }
      }
    }
  }

  lemma DictionaryStep(p: Paired, r: Rec, h: nat, s: Sides)
    requires h in p.rel || !r.IsDictionary()
    ensures PairDictionary(p, r, h, s) == p
  {
  }

  lemma EntryNames(i: nat, s: Sides, q: Paired, h: nat)
    requires i < |s.ours| && s.ours[i].handle.Some? && s.ours[i].IsDictionary() && s.ours[i].handle.value in q.rel
    requires Sound(q, s) && SamePaired(q, s) && h !in q.rel
    requires PairingAfter(i + 1, s) == PairEntries(q, s.ours[i].entries, TwinEntries(q, s.ours[i].handle.value, s), s)
    requires h in PairingAfter(i + 1, s).rel
    ensures Named(i, h, PairingAfter(i + 1, s).rel[h], s)
  {
    hide PairingAfter, SamePaired, ByHandle, PairEntries, KindsAgree, NamedByOwner;
    var r, g := s.ours[i], s.ours[i].handle.value;
    var a, b := NewByEntries(q, r.entries, TwinEntries(q, g, s), s, h);
    PairEntriesIsSound(q, r.entries, TwinEntries(q, g, s), s);
    var j := KnownHandle(s.theirs, q.rel[g]);
    assert NamedByEntry(i, j, a, b, h, PairingAfter(i + 1, s).rel[h], s);
  }

  // ---- nothing is missed ------------------------------------------------------------------

  /** A dictionary that stays unpaired when seen had no free record: each of its kind under
      its owner has a pair or is not the export's own. */
  lemma UnpairedHadNone(i: nat, s: Sides, j: nat)
    requires i < |s.ours| && s.ours[i].handle.Some? && s.ours[i].kind in {"DICTIONARY", "ACDBDICTIONARYWDFLT"}
    requires s.ours[i].handle.value !in PairingAfter(i + 1, s).rel
    requires j < |s.theirs| && s.theirs[j].kind == s.ours[i].kind && s.theirs[j].handle.Some?
    requires Answers(s.theirs[j].owner, s.ours[i].owner, PairingAfter(i, s).rel)
    ensures s.theirs[j].handle.value < s.seed || s.theirs[j].handle.value in PairingAfter(i, s).taken
  {
    hide PairingAfter, Sound, SamePaired, ByHandle, PairDictionary, PairEntries, NamedByOwner, Answers;
    PairingStaysSound(i, i, s);
    PairingStaysSound(i, i + 1, s);
    PairingStep(i, s);
    DictionaryTakesFirst(i, s);
    var q := PairDictionary(PairingAfter(i, s), s.ours[i], s.ours[i].handle.value, s);
    PairDictionaryIsSound(PairingAfter(i, s), i, s);
    if s.ours[i].handle.value in q.rel {
      PairEntriesIsSound(q, s.ours[i].entries, TwinEntries(q, s.ours[i].handle.value, s), s);
    }
  }

  lemma {:induction false} EntriesSettled(p: Paired, entries: seq<Entry>, theirs: seq<Entry>, s: Sides, k: nat, b: nat)
    requires k < |entries| && FirstEntry(theirs, b, entries[k].key, entries[k].code)
    requires Sound(p, s) && SamePaired(p, s)
    ensures !MayPair(PairEntries(p, entries, theirs, s), entries[k].handle, theirs[b].handle, s)
    decreases |entries|
  {
    hide Sound, SamePaired, FindEntry, FirstWithHandle, ByHandle;
    var q := PairEntry(p, entries[0], theirs, s);
    PairEntryIsSound(p, entries[0], theirs, s);
    if k > 0 {
      EntriesSettled(q, entries[1..], theirs, s, k - 1, b);
    } else {
      PairEntriesIsSound(q, entries[1..], theirs, s);
    }
  }

  lemma {:induction false} LastIsKnown(recs: seq<Rec>, j: nat, x: nat)
    requires LastOf(recs, j, x)
    ensures x in ByHandle(recs) && ByHandle(recs)[x] == recs[j]
  {
    HandleIsKnown(recs, j);
    var i := KnownHandle(recs, x);
  }

  /** Two objects that stand under one key and code in a dictionary and its pair: one of them
      is paired, or they are of two kinds, or the export's is no object of its own. */
  lemma PairedDictionariesAreSettled(n: nat, m: nat, s: Sides, j: nat, a: nat, b: nat)
    requires n < m <= |s.ours| && s.ours[n].handle.Some? && s.ours[n].kind in {"DICTIONARY", "ACDBDICTIONARYWDFLT"}
    requires s.ours[n].handle.value in PairingAfter(n + 1, s).rel
    requires LastOf(s.theirs, j, PairingAfter(n + 1, s).rel[s.ours[n].handle.value]) && a < |s.ours[n].entries|
    requires FirstEntry(s.theirs[j].entries, b, s.ours[n].entries[a].key, s.ours[n].entries[a].code)
    ensures var h, x := s.ours[n].entries[a].handle, s.theirs[j].entries[b].handle;
            h in PairingAfter(m, s).rel || x in PairingAfter(m, s).taken || x < s.seed || !KindsAgree(h, x, s)
  {
    hide Sound, SamePaired, PairingAfter, PairEntries, PairDictionary, FirstWithHandle, ByHandle, TwinEntries, KindsAgree, MayPair;
    var p, r, h := PairingAfter(n, s), s.ours[n], s.ours[n].handle.value;
    PairingStaysSound(n, n, s);
    PairingStep(n, s);
    PairingStaysSound(n + 1, m, s);
    PairDictionaryIsSound(p, n, s);
    var q := PairDictionary(p, r, h, s);
    if h in q.rel {
      PairEntriesIsSound(q, r.entries, TwinEntries(q, h, s), s);
      TwinEntriesAre(q, h, s, j);
      EntriesSettled(q, r.entries, TwinEntries(q, h, s), s, a, b);
      NoLongerPair(PairingAfter(n + 1, s), PairingAfter(m, s), r.entries[a].handle, s.theirs[j].entries[b].handle, s);
    }
  }

  lemma TwinEntriesAre(q: Paired, h: nat, s: Sides, j: nat)
    requires h in q.rel && LastOf(s.theirs, j, q.rel[h])
    ensures TwinEntries(q, h, s) == s.theirs[j].entries
  {
    hide ByHandle;
    LastIsKnown(s.theirs, j, q.rel[h]);
  }

  lemma NoLongerPair(p: Paired, q: Paired, h: nat, x: nat, s: Sides)
    requires Extends(q, p) && !MayPair(p, h, x, s)
    ensures h in q.rel || x in q.taken || x < s.seed || !KindsAgree(h, x, s)
  {
    hide ByHandle;
    if KindsAgree(h, x, s) {
      var i, j :| FirstOf(s.ours, i, h) && LastOf(s.theirs, j, x) && s.ours[i].kind == s.theirs[j].kind;
      LastIsKnown(s.theirs, j, x);
    }
  }

  // ---- the loops themselves --------------------------------------------------------------

  method PairRecordsByHandle(s: Sides) returns (rel: map<nat, nat>, taken: set<nat>)
    ensures Paired(rel, taken) == PairingAfter(|s.ours|, s)
  {
    hide Sound, SamePaired, PairRecord, PairingAfter, PairEntries, PairEntry, FindTwin, FindEntry, FirstWithHandle;
    var known := ByHandle(s.theirs);
    hide ByHandle;
    rel, taken := map[], {};
    for i := 0 to |s.ours|
      invariant Same(NOTHING, s.ours, s) == Same(Paired(rel, taken), s.ours[i..], s)
    {
      assert s.ours[i..][1..] == s.ours[i + 1..];
      var r := s.ours[i];
      if r.handle.Some? && r.handle.value in known {
        rel, taken := rel[r.handle.value := r.handle.value], taken + {r.handle.value};
      }
    }
    NoneSeen(s);
    for n := 0 to |s.ours|
      invariant Paired(rel, taken) == PairingAfter(n, s)
    {
      PairingStep(n, s);
      PairingStaysSound(n, n, s);
      rel, taken := PairOne(rel, taken, n, s, known);
    }
  }

  /** One turn of the second loop. */
  method PairOne(rel0: map<nat, nat>, taken0: set<nat>, n: nat, s: Sides, known: map<nat, Rec>)
    returns (rel: map<nat, nat>, taken: set<nat>)
    requires n < |s.ours| && known == ByHandle(s.theirs)
    requires Sound(Paired(rel0, taken0), s) && SamePaired(Paired(rel0, taken0), s)
    ensures Paired(rel, taken) == PairRecord(Paired(rel0, taken0), s.ours[n], s)
  {
    hide ByHandle, FindTwin, FindEntry, FirstWithHandle, SamePaired, OneKind;
    rel, taken := rel0, taken0;
    var r := s.ours[n];
    if r.handle.None? {
      return;
    }
    var h := r.handle.value;
    if h !in rel && r.IsDictionary() {
      var owner := if r.owner.None? then None else Some(if r.owner.value in rel then rel[r.owner.value] else r.owner.value);
      var twin := FindTwin(s.theirs, r.kind, owner, s.seed, taken);
      if twin.Some? {
        rel, taken := rel[h := twin.value.handle.value], taken + {twin.value.handle.value};
      }
    }
    ghost var q := Paired(rel, taken);
    assert q == PairDictionary(Paired(rel0, taken0), r, h, s);
    PairDictionaryIsSound(Paired(rel0, taken0), n, s);
    if h in rel && r.IsDictionary() {
      var theirs := known[rel[h]].entries;
      for i := 0 to |r.entries|
        invariant PairEntries(q, r.entries, theirs, s) == PairEntries(Paired(rel, taken), r.entries[i..], theirs, s)
      {
        assert r.entries[i..][1..] == r.entries[i + 1..];
        var e := r.entries[i];
        var t := FindEntry(theirs, e.key, e.code);
        if t.Some? {
          var mine := FirstWithHandle(s.ours, e.handle);
          if mine.Some? && t.value.handle in known {
            if && e.handle !in rel && t.value.handle >= s.seed && t.value.handle !in taken
               && mine.value.kind == known[t.value.handle].kind {
              rel, taken := rel[e.handle := t.value.handle], taken + {t.value.handle};
            }
          }
        }
      }
    }
  }
}
