/**
 From matches to variables: one plan of sets and removals per invocation, which also
 clears the indexed variables an earlier invocation left behind.
 */
module VariablePlan {
  import opened Numerals
  import opened Prelude
  import Utf8

  const DEFAULT_MAX_MUTATIONS := 64
  const BOUNDARY_FIXTURE_MAX_MATCHES := 32
  const I32_MAX := 0x7FFF_FFFF

  type Variables = map<string, string>

  // ---------- decimal text ----------

  predicate IsDigit(c: char) { DigitValue(c) < 10 }

  function ToDecimal(n: nat): (s: string)
    ensures s != [] && IsDigit(s[0])
  {
    NumeralReads(n, 10);
    Numeral(n, 10)
  }

  /** Parsing a signed 32-bit integer: an optional sign, then digits, in range. */
  function ParseI32(s: string): (r: Option<int>)
  {
    var negative := s != [] && s[0] == '-';
    var digits := if s != [] && s[0] in {'+', '-'} then s[1..] else s;
    match NumberValue(digits, 10)
    case None => None
    case Some(size) =>
      var n: int := if negative then 0 - size else size;
      if -I32_MAX - 1 <= n <= I32_MAX then Some(n) else None
  }

  /** The count an earlier invocation stored; anything malformed counts as zero. */
  function ParsePreviousCount(value: string): (r: (nat, bool))
  {
    match ParseI32(value)
    case Some(n) => if n >= 0 then (n, false) else (0, true)
    case None => (0, true)
  }

  lemma DecimalValue(n: nat)
    ensures NumberValue(ToDecimal(n), 10) == Some(n)
  {
    NumeralReads(n, 10);
  }

  /** A stored count reads back as itself. */
  lemma StoredCountReadsBack(n: nat)
    requires n <= I32_MAX
    ensures ParsePreviousCount(ToDecimal(n)) == (n, false)
  {
    DecimalValue(n);
    assert IsDigit(ToDecimal(n)[0]);
  }

  // ---------- names ----------

  function MatchCountKey(refName: string): (key: string)
  {
    refName + "_matchNr"
  }

  function IndexedName(refName: string, index: nat): (key: string)
  {
    refName + "_" + ToDecimal(index)
  }

  /** The reference name, its count and its indexed names never collide. */
  lemma NamesDistinct(refName: string, i: nat)
    ensures IndexedName(refName, i) != refName && MatchCountKey(refName) != refName
    ensures IndexedName(refName, i) != MatchCountKey(refName)
  {
    assert IndexedName(refName, i)[|refName| + 1] == ToDecimal(i)[0];
    assert MatchCountKey(refName)[|refName| + 1] == 'm';
  }

  lemma IndexedNamesDistinct(refName: string, i: nat, j: nat)
    ensures IndexedName(refName, i) == IndexedName(refName, j) <==> i == j
  {
    DecimalValue(i);
    DecimalValue(j);
    assert IndexedName(refName, i)[|refName| + 1..] == ToDecimal(i);
    assert IndexedName(refName, j)[|refName| + 1..] == ToDecimal(j);
  }

  // ---------- plans ----------

  datatype PlannedValue = Set(value: string) | Remove

  datatype PlannedMutation = PlannedMutation(key: string, value: PlannedValue)

  type Plan = seq<PlannedMutation>

  function Lookup(vars: Variables, key: string): (r: Option<string>)
  {
    if key in vars then Some(vars[key]) else None
  }

  /** The first entry for a key. */
  function Planned(plan: Plan, key: string): (r: Option<PlannedValue>)
  {
    if plan == [] then None
    else if plan[0].key == key then Some(plan[0].value)
    else Planned(plan[1..], key)
  }

  predicate DistinctKeys(plan: Plan)
  {
    forall i, j | 0 <= i < j < |plan| :: plan[i].key != plan[j].key
  }

  /** Applying the delta, entry by entry. */
  function Apply(vars: Variables, plan: Plan): (r: Variables)
    decreases |plan|
  {
    if plan == [] then vars
    else
      var m := plan[0];
      Apply(match m.value case Set(value) => vars[m.key := value] case Remove => vars - {m.key}, plan[1..])
  }

  lemma {:induction false} PlannedMeans(plan: Plan, key: string)
    ensures Planned(plan, key).Some? <==> exists i :: 0 <= i < |plan| && plan[i].key == key
    ensures DistinctKeys(plan) ==>
              forall i | 0 <= i < |plan| && plan[i].key == key :: Planned(plan, key) == Some(plan[i].value)
  {
    if plan != [] {
      PlannedMeans(plan[1..], key);
      assert forall i | 1 <= i < |plan| :: plan[i] == plan[1..][i - 1];
      if Planned(plan[1..], key).Some? {
        var i :| 0 <= i < |plan[1..]| && plan[1..][i].key == key;
        assert plan[i + 1].key == key;
      }
      assert DistinctKeys(plan) ==> DistinctKeys(plan[1..]);
    }
  }

  /** With distinct keys the order of a plan does not matter: each key gets its own entry. */
  lemma {:induction false} ApplyLookup(vars: Variables, plan: Plan, key: string)
    requires DistinctKeys(plan)
    ensures Lookup(Apply(vars, plan), key)
         == match Planned(plan, key)
            case None => Lookup(vars, key)
            case Some(Set(value)) => Some(value)
            case Some(Remove) => None
    decreases |plan|
  {
    if plan != [] {
      var m := plan[0];
      var vars' := match m.value case Set(value) => vars[m.key := value] case Remove => vars - {m.key};
      assert DistinctKeys(plan[1..]);
      ApplyLookup(vars', plan[1..], key);
      PlannedMeans(plan[1..], key);
      assert forall i | 0 <= i < |plan[1..]| :: plan[1..][i] == plan[i + 1];
    }
  }

  lemma UpsertPlanned(plan: Plan, r: Plan, i: nat, key: string, value: PlannedValue, k: string)
    requires DistinctKeys(plan) && i <= |plan| && (forall j | 0 <= j < i :: plan[j].key != key)
    requires r == if i < |plan| then plan[i := PlannedMutation(key, value)] else plan + [PlannedMutation(key, value)]
    requires i < |plan| ==> plan[i].key == key
    ensures DistinctKeys(r)
    ensures Planned(r, k) == if k == key then Some(value) else Planned(plan, k)
  {
    PlannedMeans(plan, k);
    PlannedMeans(r, k);
    assert r[i] == PlannedMutation(key, value);
    assert forall j | 0 <= j < |plan| && j != i :: r[j] == plan[j];
  }

  /** Sets or removes one key: an entry for it is rewritten in place, otherwise one is added. */
  method PlanUpsert(plan: Plan, key: string, value: PlannedValue) returns (r: Plan)
    requires DistinctKeys(plan)
    ensures DistinctKeys(r)
    ensures forall k :: Planned(r, k) == if k == key then Some(value) else Planned(plan, k)
    ensures |r| == |plan| + if Planned(plan, key).Some? then 0 else 1
  {
    var i := 0;
    while i < |plan| && plan[i].key != key
      invariant 0 <= i <= |plan|
      invariant forall j | 0 <= j < i :: plan[j].key != key
    {
      i := i + 1;
    }
    if i < |plan| {
      r := plan[i := PlannedMutation(key, value)];
    } else {
      r := plan + [PlannedMutation(key, value)];
    }
    PlannedMeans(plan, key);
    forall k
      ensures Planned(r, k) == if k == key then Some(value) else Planned(plan, k)
    {
      UpsertPlanned(plan, r, i, key, value, k);
    }
  }

  // ---------- what one invocation does to the variables ----------

  datatype Definition = Definition(
    refName: string, matchNumber: int, defaultValue: string, defaultEmptyValue: bool, maxMatches: nat)
  {
    predicate Valid() { 0 < maxMatches <= BOUNDARY_FIXTURE_MAX_MATCHES }

    predicate HasMaterializedDefault()
    {
      defaultEmptyValue || exists c | c in defaultValue :: !Utf8.IsWhitespace(c as int)
    }
  }

  datatype PlanError = StaleCountLimit | RandomFailure | MutationCount

  function PreviousCount(vars: Variables, refName: string): (n: nat)
  {
    var key := MatchCountKey(refName);
    if key in vars then ParsePreviousCount(vars[key]).0 else 0
  }

  /** Whether this invocation must draw a random match. */
  predicate Draws(d: Definition, matches: seq<string>)
  {
    d.matchNumber == 0 && matches != []
  }

  /** The match that becomes the reference variable itself. */
  function Chosen(d: Definition, matches: seq<string>, random: Option<nat>): (r: Option<string>)
  {
    if d.matchNumber < 0 || matches == [] then None
    else if d.matchNumber > 0 then Some(matches[0])
    else if random.None? then None
    else Some(matches[random.value % |matches|])
  }

  ghost predicate Ours(refName: string, key: string)
  {
    key == refName || key == MatchCountKey(refName) || exists i: nat :: key == IndexedName(refName, i)
  }

  /** The variables after an invocation, key by key. */
  ghost predicate Effect(d: Definition, matches: seq<string>, random: Option<nat>, vars: Variables, vars': Variables)
  {
    var previous := PreviousCount(vars, d.refName);
    Lookup(vars', d.refName) == (if Chosen(d, matches, random).Some? then Chosen(d, matches, random)
                                 else if d.HasMaterializedDefault() then Some(d.defaultValue)
                                 else Lookup(vars, d.refName)) &&
    Lookup(vars', MatchCountKey(d.refName)) == (if d.matchNumber < 0 then Some(ToDecimal(|matches|)) else None) &&
    (forall i: nat ::
       Lookup(vars', IndexedName(d.refName, i)) ==
       if d.matchNumber < 0 && 1 <= i <= |matches| then Some(matches[i - 1])
       else if 1 <= i <= previous then None
       else Lookup(vars, IndexedName(d.refName, i))) &&
    forall key | !Ours(d.refName, key) :: Lookup(vars', key) == Lookup(vars, key)
  }

  // ---------- the shape of a plan ----------

  /** What a plan holds: entries for the reference name, the count, and indices 1 to |indexed|. */
  ghost predicate Shape(
    plan: Plan, refName: string, own: Option<PlannedValue>, count: Option<PlannedValue>, indexed: seq<PlannedValue>)
  {
    DistinctKeys(plan) &&
    Planned(plan, refName) == own && Planned(plan, MatchCountKey(refName)) == count &&
    (forall i: nat ::
       Planned(plan, IndexedName(refName, i)) == if 1 <= i <= |indexed| then Some(indexed[i - 1]) else None) &&
    (forall key | !Ours(refName, key) :: Planned(plan, key) == None) &&
    |plan| == (if own.Some? then 1 else 0) + (if count.Some? then 1 else 0) + |indexed|
  }

  lemma EmptyShape(refName: string)
    ensures Shape([], refName, None, None, [])
  {
  }

  method PlanOwn(plan: Plan, refName: string, value: PlannedValue,
                 ghost own: Option<PlannedValue>, ghost count: Option<PlannedValue>, ghost indexed: seq<PlannedValue>)
    returns (r: Plan)
    requires Shape(plan, refName, own, count, indexed)
    ensures Shape(r, refName, Some(value), count, indexed)
  {
    r := PlanUpsert(plan, refName, value);
    forall i: nat
      ensures Planned(r, IndexedName(refName, i)) == Planned(plan, IndexedName(refName, i))
    {
      NamesDistinct(refName, i);
    }
    NamesDistinct(refName, 0);
  }

  method PlanCount(plan: Plan, refName: string, value: PlannedValue,
                   ghost own: Option<PlannedValue>, ghost indexed: seq<PlannedValue>)
    returns (r: Plan)
    requires Shape(plan, refName, own, None, indexed)
    ensures Shape(r, refName, own, Some(value), indexed)
  {
    r := PlanUpsert(plan, MatchCountKey(refName), value);
    forall i: nat
      ensures Planned(r, IndexedName(refName, i)) == Planned(plan, IndexedName(refName, i))
    {
      NamesDistinct(refName, i);
    }
    NamesDistinct(refName, 0);
  }

  method PlanIndex(plan: Plan, refName: string, index: nat, value: PlannedValue,
                   ghost own: Option<PlannedValue>, ghost count: Option<PlannedValue>, ghost indexed: seq<PlannedValue>)
    returns (r: Plan)
    requires Shape(plan, refName, own, count, indexed) && index == |indexed| + 1
    ensures Shape(r, refName, own, count, indexed + [value])
  {
    r := PlanUpsert(plan, IndexedName(refName, index), value);
    NamesDistinct(refName, index);
    forall i: nat
      ensures Planned(r, IndexedName(refName, i)) ==
              if 1 <= i <= |indexed| + 1 then Some((indexed + [value])[i - 1]) else None
    {
      IndexedNamesDistinct(refName, i, index);
    }
  }

  function Removals(n: nat): (r: seq<PlannedValue>)
  {
    seq(n, _ => Remove)
  }

  /** What a negative match number plans for the indices. */
  function Listing(matches: seq<string>, previous: nat): (r: seq<PlannedValue>)
  {
    seq(|matches|, i requires 0 <= i < |matches| => Set(matches[i])) +
    Removals(if previous > |matches| then previous - |matches| else 0)
  }

  lemma ShapeSize(
    plan: Plan, refName: string, own: Option<PlannedValue>, count: Option<PlannedValue>, indexed: seq<PlannedValue>,
    matches: seq<string>, previous: nat)
    requires Shape(plan, refName, own, count, indexed)
    requires indexed == Listing(matches, previous) || indexed == Removals(previous)
    ensures DistinctKeys(plan) && (|plan| <= 2 + |matches| || |plan| <= 2 + previous)
  {
  }

  /** The plan realises the effect. */
  lemma ShapeHasEffect(
    d: Definition, matches: seq<string>, random: Option<nat>, vars: Variables, plan: Plan,
    own: Option<PlannedValue>, count: PlannedValue, indexed: seq<PlannedValue>)
    requires Shape(plan, d.refName, own, Some(count), indexed)
    requires var previous := PreviousCount(vars, d.refName);
             (own == if Chosen(d, matches, random).Some? then Some(Set(Chosen(d, matches, random).value))
                     else if d.HasMaterializedDefault() then Some(Set(d.defaultValue)) else None) &&
             count == (if d.matchNumber < 0 then Set(ToDecimal(|matches|)) else Remove) &&
             indexed == (if d.matchNumber < 0 then Listing(matches, previous) else Removals(previous))
    ensures Effect(d, matches, random, vars, Apply(vars, plan))
  {
    var vars' := Apply(vars, plan);
    ApplyLookup(vars, plan, d.refName);
    ApplyLookup(vars, plan, MatchCountKey(d.refName));
    forall i: nat
      ensures Lookup(vars', IndexedName(d.refName, i)) ==
              if d.matchNumber < 0 && 1 <= i <= |matches| then Some(matches[i - 1])
              else if 1 <= i <= PreviousCount(vars, d.refName) then None
              else Lookup(vars, IndexedName(d.refName, i))
    {
      ApplyLookup(vars, plan, IndexedName(d.refName, i));
    }
    forall key | !Ours(d.refName, key)
      ensures Lookup(vars', key) == Lookup(vars, key)
    {
      ApplyLookup(vars, plan, key);
    }
  }

  /** Removes indices `first` to `last`. */
  method PlanRemovals(plan: Plan, refName: string, first: nat, last: nat,
                      ghost own: Option<PlannedValue>, ghost count: Option<PlannedValue>,
                      ghost indexed: seq<PlannedValue>)
    returns (r: Plan)
    requires Shape(plan, refName, own, count, indexed) && first == |indexed| + 1
    ensures Shape(r, refName, own, count, indexed + Removals(if last < first then 0 else last + 1 - first))
  {
    r := plan;
    var index := first;
    assert indexed + Removals(0) == indexed;
    while index <= last
      invariant first <= index && (index <= last + 1 || index == first)
      invariant Shape(r, refName, own, count, indexed + Removals(index - first))
    {
      assert indexed + Removals(index - first) + [Remove] == indexed + Removals(index + 1 - first);
      r := PlanIndex(r, refName, index, Remove, own, count, indexed + Removals(index - first));
      index := index + 1;
    }
  }

  /** A negative match number: the count, every match under its index, and the stale rest removed. */
  method PlanListing(plan: Plan, refName: string, matches: seq<string>, previous: nat, ghost own: Option<PlannedValue>)
    returns (r: Plan)
    requires Shape(plan, refName, own, None, [])
    ensures Shape(r, refName, own, Some(Set(ToDecimal(|matches|))), Listing(matches, previous))
  {
    ghost var count := Some(Set(ToDecimal(|matches|)));
    ghost var values := seq(|matches|, i requires 0 <= i < |matches| => Set(matches[i]));
    r := PlanCount(plan, refName, Set(ToDecimal(|matches|)), own, []);
    var index := 0;
    while index < |matches|
      invariant 0 <= index <= |matches|
      invariant Shape(r, refName, own, count, values[..index])
    {
      assert values[..index] + [Set(matches[index])] == values[..index + 1];
      r := PlanIndex(r, refName, index + 1, Set(matches[index]), own, count, values[..index]);
      index := index + 1;
    }
    assert values[..|matches|] == values;
    r := PlanRemovals(r, refName, |matches| + 1, previous, own, count, values);
  }

  /**
   One plan: it fails only on a stored count over the limit or on a failed draw; otherwise
   its keys are distinct, it is no longer than two entries more than the matches or the
   stale indices, and applying it has exactly the effect above.
   */
  method PlanVariableMutations(d: Definition, matches: seq<string>, vars: Variables, random: Option<nat>)
    returns (r: Result<Plan, PlanError>)
    requires d.Valid() && |matches| <= d.maxMatches
    ensures r == Err(StaleCountLimit) <==> PreviousCount(vars, d.refName) > d.maxMatches
    ensures r == Err(RandomFailure) <==>
              PreviousCount(vars, d.refName) <= d.maxMatches && Draws(d, matches) && random.None?
    ensures r != Err(MutationCount)
    ensures r.Ok? ==> DistinctKeys(r.value)
    ensures r.Ok? ==>
              |r.value| <= 2 + |matches| || |r.value| <= 2 + PreviousCount(vars, d.refName)
    ensures r.Ok? ==> Effect(d, matches, random, vars, Apply(vars, r.value))
  {
    hide Shape, Effect, DistinctKeys, Planned, Apply;
    var refName := d.refName;
    var previous := PreviousCount(vars, refName);
    if previous > d.maxMatches {
      return Err(StaleCountLimit);
    }
    var plan: Plan := [];
    EmptyShape(refName);
    ghost var own: Option<PlannedValue> := None;
    if d.HasMaterializedDefault() {
      plan := PlanOwn(plan, refName, Set(d.defaultValue), None, None, []);
      own := Some(Set(d.defaultValue));
    }
    if d.matchNumber < 0 {
      plan := PlanListing(plan, refName, matches, previous, own);
    } else {
      plan := PlanCount(plan, refName, Remove, own, []);
      plan := PlanRemovals(plan, refName, 1, previous, own, Some(Remove), []);
      assert [] + Removals(previous) == Removals(previous);
      if d.matchNumber == 0 && matches != [] {
        if random.None? {
          return Err(RandomFailure);
        }
        plan := PlanOwn(plan, refName, Set(matches[random.value % |matches|]), own, Some(Remove), Removals(previous));
        own := Some(Set(matches[random.value % |matches|]));
      } else if matches != [] {
        plan := PlanOwn(plan, refName, Set(matches[0]), own, Some(Remove), Removals(previous));
        own := Some(Set(matches[0]));
      }
    }
    ghost var count := if d.matchNumber < 0 then Set(ToDecimal(|matches|)) else Remove;
    ghost var indexed := if d.matchNumber < 0 then Listing(matches, previous) else Removals(previous);
    ShapeHasEffect(d, matches, random, vars, plan, own, count, indexed);
    ShapeSize(plan, refName, own, Some(count), indexed, matches, previous);
    if |plan| > DEFAULT_MAX_MUTATIONS {
      r := Err(MutationCount);
    } else {
      r := Ok(plan);
    }
  }

  // ---------- whole runs ----------

  /** No index beyond the stored count, and the stored count within the limit. */
  ghost predicate NoStale(vars: Variables, refName: string, maxMatches: nat)
  {
    PreviousCount(vars, refName) <= maxMatches &&
    forall i: nat | i > PreviousCount(vars, refName) || i == 0 :: IndexedName(refName, i) !in vars
  }

  /** One invocation for the reference name: an effect, or nothing at all when it failed. */
  ghost predicate Invocation(vars: Variables, vars': Variables, refName: string, maxMatches: nat)
  {
    vars' == vars ||
    exists d: Definition, matches: seq<string>, random: Option<nat> ::
      d.refName == refName && d.maxMatches == maxMatches && |matches| <= maxMatches &&
      Effect(d, matches, random, vars, vars')
  }

  lemma EffectKeepsNoStale(d: Definition, matches: seq<string>, random: Option<nat>, vars: Variables, vars': Variables)
    requires d.Valid() && |matches| <= d.maxMatches
    requires NoStale(vars, d.refName, d.maxMatches) && Effect(d, matches, random, vars, vars')
    ensures NoStale(vars', d.refName, d.maxMatches)
    ensures PreviousCount(vars', d.refName) == if d.matchNumber < 0 then |matches| else 0
    ensures forall i: nat :: IndexedName(d.refName, i) in vars' <==> 1 <= i <= PreviousCount(vars', d.refName)
  {
    StoredCountReadsBack(|matches|);
    var key := MatchCountKey(d.refName);
    assert Lookup(vars', key) == if d.matchNumber < 0 then Some(ToDecimal(|matches|)) else None;
    forall i: nat
      ensures IndexedName(d.refName, i) in vars' <==> 1 <= i <= PreviousCount(vars', d.refName)
    {
      assert i > PreviousCount(vars, d.refName) || i == 0 ==> IndexedName(d.refName, i) !in vars;
      assert Lookup(vars', IndexedName(d.refName, i)).Some? <==> IndexedName(d.refName, i) in vars';
    }
  }

  /**
   No stale index over whole runs: from a clean start, after any number of invocations with
   any mix of match numbers, every indexed variable present lies within the stored count,
   and the stored count never trips the limit.
   */
  lemma {:induction false} RunsLeaveNoStale(states: seq<Variables>, refName: string, maxMatches: nat, n: nat)
    requires n < |states| && 0 < maxMatches <= BOUNDARY_FIXTURE_MAX_MATCHES
    requires NoStale(states[0], refName, maxMatches)
    requires forall i | 0 <= i < |states| - 1 :: Invocation(states[i], states[i + 1], refName, maxMatches)
    ensures NoStale(states[n], refName, maxMatches)
  {
    if n > 0 {
      RunsLeaveNoStale(states, refName, maxMatches, n - 1);
      assert Invocation(states[n - 1], states[n - 1 + 1], refName, maxMatches);
      if states[n] != states[n - 1] {
        var d: Definition, matches: seq<string>, random: Option<nat> :|
          d.refName == refName && d.maxMatches == maxMatches && |matches| <= maxMatches &&
          Effect(d, matches, random, states[n - 1], states[n]);
        EffectKeepsNoStale(d, matches, random, states[n - 1], states[n]);
      }
    }
  }
}
