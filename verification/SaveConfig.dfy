/**
 Which source decides a saved field: a fold over ordered operations that keeps one state
 per source, against a direct reading of "highest-ranked source that has not withdrawn".
 */
module SaveConfig {
  import opened Prelude

  datatype SourceKind = PlanSaveConfig | RunProperties | CliMode | ReportInputMetadata | FormatObservation

  const ALL_KINDS := [PlanSaveConfig, RunProperties, CliMode, ReportInputMetadata, FormatObservation]

  datatype OperationKind = Apply | Replace | Remove | Absent | PresentEmpty

  datatype Presence = IsAbsent | IsPresentEmpty | IsPresent

  datatype Operation = Operation(source: SourceKind, kind: OperationKind, order: nat)

  type Precedence = seq<SourceKind>

  predicate Distinct(kinds: seq<SourceKind>)
  {
    forall i, j | 0 <= i < j < |kinds| :: kinds[i] != kinds[j]
  }

  /** First listed is highest; an omitted source has no rank. */
  function Rank(precedence: Precedence, source: SourceKind): (r: Option<nat>)
    ensures r.Some? ==> r.value < |precedence| && precedence[r.value] == source
    ensures r.None? <==> source !in precedence
    ensures r.Some? ==> forall i | 0 <= i < r.value :: precedence[i] != source
  {
    if precedence == [] then None
    else if precedence[0] == source then Some(0)
    else
      match Rank(precedence[1..], source)
      case None => None
      case Some(i) => Some(i + 1)
  }

  /** Orders grow along the list. */
  predicate Ordered(entries: seq<Operation>)
  {
    forall i, j | 0 <= i < j < |entries| :: entries[i].order < entries[j].order
  }

  // ---------- the direct reading ----------

  /** One source's own operations, in order. */
  function Own(entries: seq<Operation>, source: SourceKind): (kinds: seq<OperationKind>)
  {
    if entries == [] then []
    else
      var last := entries[|entries| - 1];
      Own(entries[..|entries| - 1], source) + if last.source == source then [last.kind] else []
  }

  /** The source's last word is not a withdrawal. */
  predicate Speaks(entries: seq<Operation>, source: SourceKind)
  {
    var own := Own(entries, source);
    own != [] && own[|own| - 1] != Absent
  }

  datatype Verdict = Undecidable | Wins(source: SourceKind, kind: OperationKind) | AllWithdrawn

  /** The first source in precedence order that speaks. */
  function FirstSpeaker(entries: seq<Operation>, precedence: Precedence): (r: Option<SourceKind>)
  {
    if precedence == [] then None
    else if Speaks(entries, precedence[0]) then Some(precedence[0])
    else FirstSpeaker(entries, precedence[1..])
  }

  function Decide(entries: seq<Operation>, precedence: Precedence): (v: Verdict)
  {
    if exists s: SourceKind :: Speaks(entries, s) && s !in precedence then Undecidable
    else
      match FirstSpeaker(entries, precedence)
      case None => AllWithdrawn
      case Some(s) => Wins(s, var own := Own(entries, s); if own == [] then Absent else own[|own| - 1])
  }

  lemma {:induction false} FirstSpeakerMeans(entries: seq<Operation>, precedence: Precedence)
    ensures match FirstSpeaker(entries, precedence)
            case None => forall s | s in precedence :: !Speaks(entries, s)
            case Some(s) =>
              s in precedence && Speaks(entries, s) &&
              forall t | Speaks(entries, t) && t in precedence :: Rank(precedence, s).value <= Rank(precedence, t).value
  {
    if precedence != [] && !Speaks(entries, precedence[0]) {
      FirstSpeakerMeans(entries, precedence[1..]);
      assert forall t | t in precedence :: t == precedence[0] || t in precedence[1..];
    }
  }

  lemma SpeaksByOwn(a: seq<Operation>, b: seq<Operation>, s: SourceKind)
    requires Own(a, s) == Own(b, s)
    ensures Speaks(a, s) <==> Speaks(b, s)
  {
  }

  lemma {:induction false} SameFirstSpeaker(a: seq<Operation>, b: seq<Operation>, precedence: Precedence)
    requires forall s: SourceKind :: Speaks(a, s) <==> Speaks(b, s)
    ensures FirstSpeaker(a, precedence) == FirstSpeaker(b, precedence)
  {
    if precedence != [] { SameFirstSpeaker(a, b, precedence[1..]); }
  }

  /** Only each source's own order matters, not how the sources interleave. */
  lemma InterleavingIrrelevant(a: seq<Operation>, b: seq<Operation>, precedence: Precedence)
    requires forall s: SourceKind :: Own(a, s) == Own(b, s)
    ensures Decide(a, precedence) == Decide(b, precedence)
  {
    hide Own, Speaks, FirstSpeaker;
    forall s: SourceKind
      ensures Speaks(a, s) <==> Speaks(b, s)
    {
      SpeaksByOwn(a, b, s);
    }
    SameFirstSpeaker(a, b, precedence);
  }

  // ---------- the fold ----------

  datatype Choice = Selected(index: nat, presence: Presence) | Ambiguous

  datatype SourceState = SourceState(kind: SourceKind, active: Option<nat>, absent: Option<nat>)

  /** The index of a source's last operation. */
  function LastIndex(entries: seq<Operation>, source: SourceKind): (r: Option<nat>)
  {
    if entries == [] then None
    else if entries[|entries| - 1].source == source then Some(|entries| - 1)
    else LastIndex(entries[..|entries| - 1], source)
  }

  /** The index of a source's last withdrawal. */
  function LastAbsent(entries: seq<Operation>, source: SourceKind): (r: Option<nat>)
  {
    if entries == [] then None
    else if entries[|entries| - 1].source == source && entries[|entries| - 1].kind == Absent then Some(|entries| - 1)
    else LastAbsent(entries[..|entries| - 1], source)
  }

  lemma {:induction false} LastIndexMeans(entries: seq<Operation>, source: SourceKind)
    ensures var i := LastIndex(entries, source);
            var own := Own(entries, source);
            (i.None? <==> own == []) &&
            (i.Some? ==>
               i.value < |entries| && entries[i.value].source == source && own != [] &&
               entries[i.value].kind == own[|own| - 1] &&
               (own[|own| - 1] == Absent ==> LastAbsent(entries, source) == i)) &&
            forall j | 0 <= j < |entries| && entries[j].source == source :: i.Some? && j <= i.value
  {
    if entries != [] { LastIndexMeans(entries[..|entries| - 1], source); }
  }

  /** What the fold should know about one source. */
  function StateOf(entries: seq<Operation>, source: SourceKind): (s: SourceState)
  {
    SourceState(source,
                if Speaks(entries, source) then LastIndex(entries, source) else None,
                LastAbsent(entries, source))
  }

  ghost predicate Folded(states: seq<SourceState>, entries: seq<Operation>)
  {
    (forall i | 0 <= i < |states| ::
       states[i] == StateOf(entries, states[i].kind) && Own(entries, states[i].kind) != []) &&
    (forall i, j | 0 <= i < j < |states| :: states[i].kind != states[j].kind) &&
    forall s: SourceKind :: Own(entries, s) != [] ==> exists i :: 0 <= i < |states| && states[i].kind == s
  }

  /** One operation more changes the state of its own source only. */
  lemma StateOfSnoc(entries: seq<Operation>, e: Operation, source: SourceKind)
    ensures var n := |entries|;
            StateOf(entries + [e], source) ==
            if e.source != source then StateOf(entries, source)
            else if e.kind == Absent then SourceState(source, None, Some(n))
            else SourceState(source, Some(n), LastAbsent(entries, source))
    ensures StateOf(entries + [e], source).kind == source
    ensures Own(entries + [e], source) == [] <==> Own(entries, source) == [] && e.source != source
  {
    assert (entries + [e])[..|entries|] == entries;
  }

  lemma FoldedOn(states: seq<SourceState>, entries: seq<Operation>, e: Operation, k: nat, states': seq<SourceState>)
    requires Folded(states, entries) && k <= |states|
    requires forall i | 0 <= i < |states| && i != k :: states[i].kind != e.source
    requires k < |states| ==> states[k].kind == e.source
    requires states' == if k < |states| then states[k := StateOf(entries + [e], e.source)]
                        else states + [StateOf(entries + [e], e.source)]
    ensures Folded(states', entries + [e])
  {
    hide Own, StateOf, Speaks;
    StateOfSnoc(entries, e, e.source);
    forall s: SourceKind
      ensures StateOf(entries + [e], s) == StateOf(entries, s) || s == e.source
      ensures Own(entries + [e], s) != [] ==> exists i :: 0 <= i < |states'| && states'[i].kind == s
    {
      StateOfSnoc(entries, e, s);
      if s == e.source {
        assert states'[k].kind == s;
      } else if Own(entries, s) != [] {
        var i :| 0 <= i < |states| && states[i].kind == s;
        assert states'[i].kind == s;
      }
    }
    forall i | 0 <= i < |states'|
      ensures states'[i] == StateOf(entries + [e], states'[i].kind) && Own(entries + [e], states'[i].kind) != []
    {
      StateOfSnoc(entries, e, states'[i].kind);
    }
  }

  lemma NothingFolded(entries: seq<Operation>)
    requires entries == []
    ensures Folded([], entries)
  {
  }

  lemma DistinctStates(states: seq<SourceState>, entries: seq<Operation>)
    requires Folded(states, entries)
    ensures forall i, j | 0 <= i < j < |states| :: states[i].kind != states[j].kind
  {
  }

  method FindState(states: seq<SourceState>, source: SourceKind) returns (k: nat)
    requires forall i, j | 0 <= i < j < |states| :: states[i].kind != states[j].kind
    ensures k <= |states| && (k < |states| ==> states[k].kind == source)
    ensures forall i | 0 <= i < |states| && i != k :: states[i].kind != source
  {
    k := 0;
    while k < |states| && states[k].kind != source
      invariant k <= |states| && forall i | 0 <= i < k :: states[i].kind != source
    {
      k := k + 1;
    }
  }

  lemma {:induction false} NoneAbsent(entries: seq<Operation>, source: SourceKind)
    requires Own(entries, source) == []
    ensures LastAbsent(entries, source) == None
  {
    if entries != [] { NoneAbsent(entries[..|entries| - 1], source); }
  }

  /** The state a source has before its next operation: its own, or a new empty one. */
  lemma StateBefore(states: seq<SourceState>, entries: seq<Operation>, source: SourceKind, k: nat)
    requires Folded(states, entries) && k <= |states|
    requires forall i | 0 <= i < |states| && i != k :: states[i].kind != source
    requires k < |states| ==> states[k].kind == source
    ensures (if k < |states| then states[k] else SourceState(source, None, None)) == StateOf(entries, source)
    ensures StateOf(entries, source) ==
            SourceState(source, StateOf(entries, source).active, LastAbsent(entries, source))
  {
    LastIndexMeans(entries, source);
    if k == |states| {
      assert Own(entries, source) == [];
      NoneAbsent(entries, source);
    }
  }

  method FoldOperations(entries: seq<Operation>) returns (states: seq<SourceState>)
    ensures Folded(states, entries)
  {
    hide Folded, StateOf, Own, LastAbsent;
    states := [];
    NothingFolded(entries[..0]);
    var index := 0;
    while index < |entries|
      invariant 0 <= index <= |entries| && Folded(states, entries[..index])
    {
      var e := entries[index];
      DistinctStates(states, entries[..index]);
      var k := FindState(states, e.source);
      var state := if k < |states| then states[k] else SourceState(e.source, None, None);
      StateBefore(states, entries[..index], e.source, k);
      StateOfSnoc(entries[..index], e, e.source);
      match e.kind {
        case Apply | Replace | Remove | PresentEmpty => state := state.(active := Some(index));
        case Absent => state := state.(active := None, absent := Some(index));
      }
      ghost var before := states;
      if k < |states| {
        states := states[k := state];
      } else {
        states := states + [state];
      }
      FoldedOn(before, entries[..index], e, k, states);
      assert entries[..index + 1] == entries[..index] + [e];
      index := index + 1;
    }
    assert entries[..|entries|] == entries;
  }

  // ---------- the selection ----------

  function PresenceOf(kind: OperationKind): (p: Presence)
    requires kind != Absent
  {
    match kind
    case Remove => IsAbsent
    case PresentEmpty => IsPresentEmpty
    case Apply => IsPresent
    case Replace => IsPresent
  }

  method Collect(states: seq<SourceState>, activeOnes: bool) returns (indices: seq<nat>)
    ensures forall i: nat :: i in indices <==>
              exists k :: 0 <= k < |states| && (if activeOnes then states[k].active else states[k].absent) == Some(i)
  {
    indices := [];
    var k := 0;
    while k < |states|
      invariant 0 <= k <= |states|
      invariant forall i: nat :: i in indices <==>
                  exists j :: 0 <= j < k && (if activeOnes then states[j].active else states[j].absent) == Some(i)
    {
      var found := if activeOnes then states[k].active else states[k].absent;
      if found.Some? {
        indices := indices + [found.value];
      }
      k := k + 1;
    }
  }

  /** The active indices are the last operations of the sources that speak. */
  lemma ActiveMeans(states: seq<SourceState>, entries: seq<Operation>, indices: seq<nat>, i: nat)
    requires Folded(states, entries)
    requires forall i: nat :: i in indices <==> exists k :: 0 <= k < |states| && states[k].active == Some(i)
    ensures i in indices <==>
              i < |entries| && Speaks(entries, entries[i].source) && LastIndex(entries, entries[i].source) == Some(i)
  {
    if i in indices {
      var k :| 0 <= k < |states| && states[k].active == Some(i);
      LastIndexMeans(entries, states[k].kind);
    }
    if i < |entries| && Speaks(entries, entries[i].source) && LastIndex(entries, entries[i].source) == Some(i) {
      var k :| 0 <= k < |states| && states[k].kind == entries[i].source;
      assert states[k].active == Some(i);
    }
  }

  /** Every source that speaks has its active index. */
  lemma SpeakerIsActive(states: seq<SourceState>, entries: seq<Operation>, indices: seq<nat>, s: SourceKind)
    requires Folded(states, entries) && Speaks(entries, s)
    requires forall i: nat :: i in indices <==> exists k :: 0 <= k < |states| && states[k].active == Some(i)
    ensures LastIndex(entries, s).Some? && LastIndex(entries, s).value in indices
    ensures LastIndex(entries, s).value < |entries| && entries[LastIndex(entries, s).value].source == s
  {
    LastIndexMeans(entries, s);
    ActiveMeans(states, entries, indices, LastIndex(entries, s).value);
  }

  /** What the choice should be. */
  ghost predicate Agrees(choice: Choice, entries: seq<Operation>, precedence: Precedence)
    requires entries != []
  {
    match Decide(entries, precedence)
    case Undecidable => choice == Ambiguous
    case Wins(s, kind) =>
      LastIndex(entries, s).Some? && kind != Absent &&
      choice == Selected(LastIndex(entries, s).value, PresenceOf(kind))
    case AllWithdrawn => choice == Selected(|entries| - 1, IsAbsent)
  }

  method LowestRanked(indices: seq<nat>, entries: seq<Operation>, precedence: Precedence) returns (best: nat)
    requires indices != []
    requires forall j | 0 <= j < |indices| :: indices[j] < |entries| && entries[indices[j]].source in precedence
    ensures best in indices && best < |entries| && entries[best].source in precedence
    ensures forall j | 0 <= j < |indices| ::
              Rank(precedence, entries[best].source).value <= Rank(precedence, entries[indices[j]].source).value
  {
    best := indices[0];
    var k := 1;
    while k < |indices|
      invariant 1 <= k <= |indices| && best in indices && best < |entries| && entries[best].source in precedence
      invariant forall j | 0 <= j < k ::
                  Rank(precedence, entries[best].source).value <= Rank(precedence, entries[indices[j]].source).value
    {
      if Rank(precedence, entries[indices[k]].source).value < Rank(precedence, entries[best].source).value {
        best := indices[k];
      }
      k := k + 1;
    }
  }

  method LatestOrder(indices: seq<nat>, entries: seq<Operation>) returns (best: nat)
    requires indices != [] && forall j | 0 <= j < |indices| :: indices[j] < |entries|
    ensures best in indices && best < |entries|
    ensures forall j | 0 <= j < |indices| :: entries[indices[j]].order <= entries[best].order
  {
    best := indices[0];
    var k := 1;
    while k < |indices|
      invariant 1 <= k <= |indices| && best in indices && best < |entries|
      invariant forall j | 0 <= j < k :: entries[indices[j]].order <= entries[best].order
    {
      if entries[indices[k]].order >= entries[best].order {
        best := indices[k];
      }
      k := k + 1;
    }
  }

  /** The speaker of lowest rank is the first speaker in precedence order. */
  lemma LowestIsFirst(entries: seq<Operation>, precedence: Precedence, s: SourceKind)
    requires Speaks(entries, s) && s in precedence
    requires forall t: SourceKind | Speaks(entries, t) ::
               t in precedence && Rank(precedence, s).value <= Rank(precedence, t).value
    ensures FirstSpeaker(entries, precedence) == Some(s)
  {
    hide Speaks, FirstSpeaker;
    FirstSpeakerMeans(entries, precedence);
  }

  lemma LastWord(entries: seq<Operation>, i: nat)
    requires i < |entries| && LastIndex(entries, entries[i].source) == Some(i) && Speaks(entries, entries[i].source)
    ensures var own := Own(entries, entries[i].source);
            own != [] && own[|own| - 1] == entries[i].kind != Absent
  {
    LastIndexMeans(entries, entries[i].source);
  }

  lemma BestAgrees(entries: seq<Operation>, precedence: Precedence, best: nat)
    requires best < |entries| && LastIndex(entries, entries[best].source) == Some(best)
    requires var s := entries[best].source;
             Speaks(entries, s) && s in precedence &&
             forall t: SourceKind | Speaks(entries, t) ::
               t in precedence && Rank(precedence, s).value <= Rank(precedence, t).value
    ensures entries[best].kind != Absent && Agrees(Selected(best, PresenceOf(entries[best].kind)), entries, precedence)
  {
    hide Own, Speaks, FirstSpeaker, LastIndex;
    LowestIsFirst(entries, precedence, entries[best].source);
    LastWord(entries, best);
  }

  lemma {:induction false} AbsentInRange(entries: seq<Operation>, s: SourceKind)
    ensures LastAbsent(entries, s).Some? ==> LastAbsent(entries, s).value < |entries|
  {
    if entries != [] { AbsentInRange(entries[..|entries| - 1], s); }
  }

  lemma AllWithdrew(states: seq<SourceState>, entries: seq<Operation>, absent: seq<nat>, precedence: Precedence)
    requires entries != [] && Folded(states, entries)
    requires forall s: SourceKind :: !Speaks(entries, s)
    requires forall i: nat :: i in absent <==> exists k :: 0 <= k < |states| && states[k].absent == Some(i)
    ensures |entries| - 1 in absent && forall j | 0 <= j < |absent| :: absent[j] < |entries|
    ensures Decide(entries, precedence) == AllWithdrawn
  {
    FirstSpeakerMeans(entries, precedence);
    var s := entries[|entries| - 1].source;
    LastIndexMeans(entries, s);
    assert Own(entries, s) != [];
    var k :| 0 <= k < |states| && states[k].kind == s;
    assert states[k].absent == Some(|entries| - 1);
    forall i | 0 <= i < |absent|
      ensures absent[i] < |entries|
    {
      assert absent[i] in absent;
      var j :| 0 <= j < |states| && states[j].absent == Some(absent[i]);
      AbsentInRange(entries, states[j].kind);
    }
  }

  lemma UnrankedAgrees(entries: seq<Operation>, precedence: Precedence, s: SourceKind)
    requires entries != [] && Speaks(entries, s) && s !in precedence
    ensures Agrees(Ambiguous, entries, precedence)
  {
  }

  lemma WithdrawnAgrees(entries: seq<Operation>, precedence: Precedence)
    requires entries != [] && Decide(entries, precedence) == AllWithdrawn
    ensures Agrees(Selected(|entries| - 1, IsAbsent), entries, precedence)
  {
  }

  /**
   The fold selects the last operation of the highest-ranked source that has not
   withdrawn; it is ambiguous exactly when such a source has no rank; and when every
   source has withdrawn it selects the very last operation.
   */
  method IndependentChoice(entries: seq<Operation>, precedence: Precedence) returns (choice: Choice)
    requires entries != [] && Ordered(entries)
    ensures Agrees(choice, entries, precedence)
  {
    hide Folded, Speaks, LastIndex, Agrees;
    var states := FoldOperations(entries);
    var active := Collect(states, true);
    forall j | 0 <= j < |active|
      ensures active[j] < |entries| && Speaks(entries, entries[active[j]].source)
      ensures LastIndex(entries, entries[active[j]].source) == Some(active[j])
    {
      assert active[j] in active;
      ActiveMeans(states, entries, active, active[j]);
    }
    var k := 0;
    while k < |active|
      invariant 0 <= k <= |active|
      invariant forall j | 0 <= j < k :: entries[active[j]].source in precedence
    {
      if Rank(precedence, entries[active[k]].source).None? {
        UnrankedAgrees(entries, precedence, entries[active[k]].source);
        return Ambiguous;
      }
      k := k + 1;
    }
    if active != [] {
      var index := LowestRanked(active, entries, precedence);
      forall t: SourceKind | Speaks(entries, t)
        ensures t in precedence && Rank(precedence, entries[index].source).value <= Rank(precedence, t).value
      {
        SpeakerIsActive(states, entries, active, t);
        var j :| 0 <= j < |active| && active[j] == LastIndex(entries, t).value;
      }
      BestAgrees(entries, precedence, index);
      return Selected(index, PresenceOf(entries[index].kind));
    }
    forall s: SourceKind
      ensures !Speaks(entries, s)
    {
      if Speaks(entries, s) { SpeakerIsActive(states, entries, active, s); }
    }
    var absent := Collect(states, false);
    AllWithdrew(states, entries, absent, precedence);
    var index := LatestOrder(absent, entries);
    WithdrawnAgrees(entries, precedence);
    return Selected(index, IsAbsent);
  }

  // ---------- when the interleaving shows ----------

  /** What a choice selects, said without positions in the list: a source, which of its operations, and the presence. */
  datatype Pick = Pick(source: SourceKind, place: nat, presence: Presence) | NoPick

  function Picked(choice: Choice, entries: seq<Operation>): (p: Pick)
  {
    if choice.Ambiguous? || choice.index >= |entries| then NoPick
    else
      var source := entries[choice.index].source;
      Pick(source, |Own(entries[..choice.index], source)|, choice.presence)
  }

  ghost predicate SameOperations(a: seq<Operation>, b: seq<Operation>)
  {
    forall s: SourceKind :: Own(a, s) == Own(b, s)
  }

  predicate OneSource(entries: seq<Operation>)
  {
    forall i | 0 <= i < |entries| :: entries[i].source == entries[0].source
  }

  lemma {:induction false} LastPlace(entries: seq<Operation>, s: SourceKind)
    requires LastIndex(entries, s).Some?
    ensures var i := LastIndex(entries, s).value;
            i < |entries| && entries[i].source == s && |Own(entries[..i], s)| == |Own(entries, s)| - 1
  {
    var most := entries[..|entries| - 1];
    if entries[|entries| - 1].source != s {
      LastPlace(most, s);
      assert most[..LastIndex(most, s).value] == entries[..LastIndex(most, s).value];
    }
  }

  lemma {:induction false} OwnerHasEntry(entries: seq<Operation>, s: SourceKind)
    ensures Own(entries, s) != [] <==> exists i :: 0 <= i < |entries| && entries[i].source == s
  {
    LastIndexMeans(entries, s);
  }

  lemma LastOfAll(entries: seq<Operation>)
    requires entries != []
    ensures LastIndex(entries, entries[|entries| - 1].source) == Some(|entries| - 1)
  {
  }

  /** What is picked, by each verdict. */
  lemma PickedBy(choice: Choice, entries: seq<Operation>, precedence: Precedence)
    requires entries != [] && Agrees(choice, entries, precedence)
    ensures match Decide(entries, precedence)
            case Undecidable => Picked(choice, entries) == NoPick
            case Wins(s, kind) =>
              kind != Absent && Picked(choice, entries) == Pick(s, |Own(entries, s)| - 1, PresenceOf(kind))
            case AllWithdrawn =>
              var s := entries[|entries| - 1].source;
              Picked(choice, entries) == Pick(s, |Own(entries, s)| - 1, IsAbsent)
  {
    hide Decide, Own;
    var verdict := Decide(entries, precedence);
    if verdict.Wins? { LastPlace(entries, verdict.source); }
    if verdict.AllWithdrawn? {
      LastOfAll(entries);
      LastPlace(entries, entries[|entries| - 1].source);
    }
  }

  lemma SpeakerDecides(entries: seq<Operation>, precedence: Precedence)
    ensures (exists s: SourceKind :: Speaks(entries, s)) <==> Decide(entries, precedence) != AllWithdrawn
  {
    hide Speaks, FirstSpeaker, Own;
    FirstSpeakerMeans(entries, precedence);
  }

  /** Where some source speaks, or only one source has operations, the code's choice ignores the interleaving. */
  lemma InterleavingHidden(
    a: seq<Operation>, b: seq<Operation>, precedence: Precedence, choice: Choice, other: Choice)
    requires a != [] && b != [] && SameOperations(a, b)
    requires Agrees(choice, a, precedence) && Agrees(other, b, precedence)
    requires (exists s: SourceKind :: Speaks(a, s)) || OneSource(a)
    ensures Picked(choice, a) == Picked(other, b)
  {
    hide Own, Speaks, Decide, Agrees, Picked;
    PickedBy(choice, a, precedence);
    PickedBy(other, b, precedence);
    InterleavingIrrelevant(a, b, precedence);
    SpeakerDecides(a, precedence);
    var s := b[|b| - 1].source;
    OwnerHasEntry(b, s);
    OwnerHasEntry(a, s);
    OwnerHasEntry(a, a[0].source);
  }

  /** The operations of one source, or those of all the others, in order. */
  function Part(entries: seq<Operation>, t: SourceKind, keep: bool): (r: seq<Operation>)
  {
    if entries == [] then []
    else
      var last := entries[|entries| - 1];
      Part(entries[..|entries| - 1], t, keep) + if (last.source == t) == keep then [last] else []
  }

  lemma OwnSnoc(entries: seq<Operation>, e: Operation, s: SourceKind)
    ensures Own(entries + [e], s) == Own(entries, s) + if e.source == s then [e.kind] else []
  {
    assert (entries + [e])[..|entries|] == entries;
  }

  lemma {:induction false} OwnPart(entries: seq<Operation>, t: SourceKind, keep: bool, s: SourceKind)
    ensures Own(Part(entries, t, keep), s) == if (s == t) == keep then Own(entries, s) else []
  {
    if entries != [] {
      var most, last := entries[..|entries| - 1], entries[|entries| - 1];
      OwnPart(most, t, keep, s);
      OwnSnoc(Part(most, t, keep), last, s);
      assert Part(most, t, keep) + [] == Part(most, t, keep);
    }
  }

  lemma {:induction false} OwnConcat(a: seq<Operation>, b: seq<Operation>, s: SourceKind)
    ensures Own(a + b, s) == Own(a, s) + Own(b, s)
    decreases |b|
  {
    if b == [] {
      assert a + b == a;
    } else {
      var most := b[..|b| - 1];
      OwnConcat(a, most, s);
      OwnSnoc(a + most, b[|b| - 1], s);
      assert a + b == (a + most) + [b[|b| - 1]];
    }
  }

  /** Fresh orders, growing along the list. */
  function Renumbered(entries: seq<Operation>): (r: seq<Operation>)
    ensures |r| == |entries| && Ordered(r) && forall i | 0 <= i < |r| :: r[i].source == entries[i].source
  {
    seq(|entries|, i requires 0 <= i < |entries| => entries[i].(order := i))
  }

  lemma {:induction false} OwnRenumbered(entries: seq<Operation>, s: SourceKind)
    ensures Own(Renumbered(entries), s) == Own(entries, s)
  {
    if entries != [] {
      var most := entries[..|entries| - 1];
      OwnRenumbered(most, s);
      assert Renumbered(entries)[..|entries| - 1] == Renumbered(most);
    }
  }

  lemma {:induction false} PartEnds(entries: seq<Operation>, t: SourceKind)
    requires Own(entries, t) != []
    ensures var r := Part(entries, t, true); r != [] && r[|r| - 1].source == t
  {
    if entries[|entries| - 1].source != t { PartEnds(entries[..|entries| - 1], t); }
  }

  /** Any source that has an operation can be put last. */
  lemma AnyCanBeLast(a: seq<Operation>, t: SourceKind) returns (b: seq<Operation>)
    requires Own(a, t) != []
    ensures b != [] && Ordered(b) && SameOperations(a, b) && b[|b| - 1].source == t
  {
    hide Own, Part;
    PartEnds(a, t);
    var all := Part(a, t, false) + Part(a, t, true);
    b := Renumbered(all);
    forall s: SourceKind
      ensures Own(a, s) == Own(b, s)
    {
      OwnRenumbered(all, s);
      OwnConcat(Part(a, t, false), Part(a, t, true), s);
      OwnPart(a, t, false, s);
      OwnPart(a, t, true, s);
      assert Own(a, s) + [] == [] + Own(a, s) == Own(a, s);
    }
  }

  /** Everyone has withdrawn and two sources have operations: some other interleaving is chosen from differently. */
  lemma InterleavingShows(a: seq<Operation>, precedence: Precedence, choice: Choice)
    returns (b: seq<Operation>, other: Choice)
    requires a != [] && Agrees(choice, a, precedence)
    requires !(exists s: SourceKind :: Speaks(a, s)) && !OneSource(a)
    ensures b != [] && Ordered(b) && SameOperations(a, b) && Agrees(other, b, precedence)
    ensures Picked(choice, a) != Picked(other, b)
  {
    hide Own, Speaks, Decide, Picked;
    var last := a[|a| - 1].source;
    var i :| 0 <= i < |a| && a[i].source != a[0].source;
    var t := if a[0].source != last then a[0].source else a[i].source;
    OwnerHasEntry(a, t);
    b := AnyCanBeLast(a, t);
    other := Selected(|b| - 1, IsAbsent);
    InterleavingIrrelevant(a, b, precedence);
    SpeakerDecides(a, precedence);
    PickedBy(choice, a, precedence);
    PickedBy(other, b, precedence);
  }

  /**
   The code picks the same operation from every interleaving of the same operations if and
   only if some source has not withdrawn, or a single source has all the operations.
   */
  lemma InterleavingExact(a: seq<Operation>, precedence: Precedence, choice: Choice)
    requires a != [] && Agrees(choice, a, precedence)
    ensures (forall b, other | b != [] && Ordered(b) && SameOperations(a, b) && Agrees(other, b, precedence) ::
               Picked(other, b) == Picked(choice, a))
            <==> (exists s: SourceKind :: Speaks(a, s)) || OneSource(a)
  {
    hide Own, Speaks, Agrees, Picked, OneSource, SameOperations;
    if (exists s: SourceKind :: Speaks(a, s)) || OneSource(a) {
      forall b, other | b != [] && Ordered(b) && SameOperations(a, b) && Agrees(other, b, precedence)
        ensures Picked(other, b) == Picked(choice, a)
      {
        InterleavingHidden(a, b, precedence, choice, other);
      }
    } else {
      var b, other := InterleavingShows(a, precedence, choice);
    }
  }

  lemma OwnOfTwo(x: Operation, y: Operation, s: SourceKind)
    ensures Own([x, y], s) == (if x.source == s then [x.kind] else []) + (if y.source == s then [y.kind] else [])
  {
    assert [x, y][..1] == [x] && [x][..0] == [];
    assert Own([x], s) == [] + if x.source == s then [x.kind] else [];
  }

  /** Two withdrawals, in either order: the code picks a different one. */
  lemma WithdrawalsShowOrder(precedence: Precedence)
    ensures var a := [Operation(CliMode, Absent, 0), Operation(RunProperties, Absent, 1)];
            var b := [Operation(RunProperties, Absent, 0), Operation(CliMode, Absent, 1)];
            var choice := Selected(1, IsAbsent);
            && SameOperations(a, b) && Agrees(choice, a, precedence) && Agrees(choice, b, precedence)
            && Picked(choice, a) != Picked(choice, b)
  {
    var a := [Operation(CliMode, Absent, 0), Operation(RunProperties, Absent, 1)];
    var b := [Operation(RunProperties, Absent, 0), Operation(CliMode, Absent, 1)];
    hide Own, FirstSpeaker;
    forall s: SourceKind
      ensures Own(a, s) == Own(b, s) && !Speaks(a, s) && !Speaks(b, s)
    {
      OwnOfTwo(a[0], a[1], s);
      OwnOfTwo(b[0], b[1], s);
    }
    FirstSpeakerMeans(a, precedence);
    FirstSpeakerMeans(b, precedence);
  }

  /** A generated precedence lists every chosen source once. */
  method DecodePrecedence(count: nat, picks: seq<nat>) returns (ordered: Precedence)
    requires 1 <= count <= |ALL_KINDS| && |picks| == count
    ensures |ordered| == count && Distinct(ordered)
  {
    var available := ALL_KINDS;
    ordered := [];
    var k := 0;
    while k < count
      invariant 0 <= k <= count && |ordered| == k && |available| == |ALL_KINDS| - k
      invariant Distinct(ordered) && Distinct(available)
      invariant forall i, j | 0 <= i < |ordered| && 0 <= j < |available| :: ordered[i] != available[j]
    {
      var index := picks[k] % |available|;
      ordered := ordered + [available[index]];
      available := available[..index] + available[index + 1..];
      k := k + 1;
    }
  }
}
