/**
 Boundary extraction over an ordered list of inputs: one match counter, one step
 budget and one output list shared by all of them.
 */
module BoundaryExtraction {
  import opened Prelude
  import opened Utf8
  import opened Kmp

  const BOUNDARY_MAX_INPUTS := 64

  datatype Limits = Limits(
    maxPropertyBytes: nat, maxInputBytes: nat, maxBoundaryBytes: nat,
    maxMatches: nat, maxValueBytes: nat, maxSearchSteps: nat)
  {
    /** All limits finite, non-zero and under the production ceilings. */
    predicate Valid()
    {
      0 < maxPropertyBytes <= 8 * 1024 && 0 < maxInputBytes <= 4 * 1024 * 1024 &&
      0 < maxBoundaryBytes <= 4 * 1024 && 0 < maxMatches <= 32 &&
      0 < maxValueBytes <= 4 * 1024 && 0 < maxSearchSteps <= 16 * 1024 * 1024
    }
  }

  /** Slicing a `&str`: legal only on character boundaries, and then valid text again. */
  function Slice(s: Bytes, a: nat, b: nat): (r: Bytes)
    requires Valid(s) && a <= b <= |s| && IsCharBoundary(s, a) && IsCharBoundary(s, b)
    ensures Valid(r)
  {
    SliceValid(s, a, b);
    s[a..b]
  }

  // ---------- the naive specification ----------

  /** Leftmost left boundary, leftmost right boundary after it, then on from the end of the left one. */
  function PairMatches(input: Bytes, left: Bytes, right: Bytes, start: nat): (values: seq<Bytes>)
    requires left != []
    decreases |input| - start
  {
    match Leftmost(input, left, start)
    case None => []
    case Some(i) =>
      match Leftmost(input, right, i + |left|)
      case None => []
      case Some(j) => [input[i + |left|..j]] + PairMatches(input, left, right, i + |left|)
  }

  function InputMatches(input: Bytes, left: Bytes, right: Bytes): (values: seq<Bytes>)
    requires Valid(input)
  {
    if IsBlank(input) then []
    else if left == [] && right == [] then [input]
    else if left == [] then
      match Leftmost(input, right, 0) case None => [] case Some(j) => [input[..j]]
    else if right == [] then
      match Leftmost(input, left, 0) case None => [] case Some(i) => [input[i + |left|..]]
    else PairMatches(input, left, right, 0)
  }

  function AllMatches(inputs: seq<Bytes>, left: Bytes, right: Bytes): (values: seq<Bytes>)
    requires forall s | s in inputs :: Valid(s)
  {
    if inputs == [] then []
    else InputMatches(inputs[0], left, right) + AllMatches(inputs[1..], left, right)
  }

  /** JMeter's match number: all of them, or the one counted over all inputs. */
  function Selected(values: seq<Bytes>, number: int): (r: seq<Bytes>)
  {
    if number <= 0 then values else if number <= |values| then [values[number - 1]] else []
  }

  // ---------- what an unlimited invocation does, and how limits cut it short ----------

  /** The things an invocation does, in order. */
  datatype Run =
    | Done
    | Offered(index: nat, length: nat, next: Run)
    | Searched(cost: nat, next: Run)
    | Found(value: Bytes, next: Run)

  function PairRun(l: BoundaryPattern, r: BoundaryPattern, input: Bytes, start: nat, rest: Run): (run: Run)
    requires l.Shaped() && r.Shaped() && l.bytes != []
    decreases |input| - start
  {
    var i := Leftmost(input, l.bytes, start);
    Searched(SearchCost(l, input, start),
             if i.None? then rest
             else
               var after := i.value + |l.bytes|;
               var j := Leftmost(input, r.bytes, after);
               Searched(SearchCost(r, input, after),
                        if j.None? then rest
                        else Found(input[after..j.value], PairRun(l, r, input, after, rest))))
  }

  function RightRun(r: BoundaryPattern, input: Bytes, rest: Run): (run: Run)
    requires r.Shaped()
  {
    var j := Leftmost(input, r.bytes, 0);
    Searched(SearchCost(r, input, 0), if j.None? then rest else Found(input[..j.value], rest))
  }

  function LeftRun(l: BoundaryPattern, input: Bytes, rest: Run): (run: Run)
    requires l.Shaped()
  {
    var i := Leftmost(input, l.bytes, 0);
    Searched(SearchCost(l, input, 0), if i.None? then rest else Found(input[i.value + |l.bytes|..], rest))
  }

  function InputRun(l: BoundaryPattern, r: BoundaryPattern, input: Bytes, rest: Run): (run: Run)
    requires l.Shaped() && r.Shaped() && Valid(input)
  {
    if IsBlank(input) then rest
    else if l.bytes == [] && r.bytes == [] then Found(input, rest)
    else if l.bytes == [] then RightRun(r, input, rest)
    else if r.bytes == [] then LeftRun(l, input, rest)
    else PairRun(l, r, input, 0, rest)
  }

  function FullRun(l: BoundaryPattern, r: BoundaryPattern, inputs: seq<Bytes>, index: nat): (run: Run)
    requires l.Shaped() && r.Shaped() && forall s | s in inputs :: Valid(s)
    requires index <= |inputs|
    decreases |inputs| - index
  {
    if index == |inputs| then Done
    else Offered(index, |inputs[index]|, InputRun(l, r, inputs[index], FullRun(l, r, inputs, index + 1)))
  }

  datatype Progress = Progress(found: nat, matches: seq<Bytes>, steps: nat)

  /** The invocation under its limits: the first event over a limit decides the error. */
  function Play(run: Run, target: Option<nat>, limits: Limits, st: Progress): (r: Result<seq<Bytes>, MatchError>)
  {
    match run
    case Done => Ok(st.matches)
    case Offered(index, length, next) =>
      if index >= BOUNDARY_MAX_INPUTS then Err(Limit(InputCount))
      else if length > limits.maxInputBytes then Err(Limit(InputBytes))
      else Play(next, target, limits, st)
    case Searched(cost, next) =>
      if st.steps + cost > limits.maxSearchSteps then Err(Limit(SearchSteps))
      else Play(next, target, limits, st.(steps := st.steps + cost))
    case Found(value, next) =>
      if st.found + 1 > limits.maxMatches then Err(Limit(MatchCount))
      else if |value| > limits.maxValueBytes then Err(Limit(ValueBytes))
      else if target == Some(st.found + 1) then Ok(st.matches + [value])
      else
        var kept := if target.None? then st.matches + [value] else st.matches;
        Play(next, target, limits, st.(found := st.found + 1, matches := kept))
  }

  function Target(number: int): (t: Option<nat>)
  {
    if number > 0 then Some(number) else None
  }

  /** The checks made before anything is searched. */
  function Refusal(left: Bytes, right: Bytes, number: int, limits: Limits): (e: Option<MatchError>)
  {
    if !limits.Valid() then Some(InvalidLimits)
    else if number > limits.maxMatches then Some(MatchNumberLimit)
    else if |left| > limits.maxBoundaryBytes then Some(Limit(LeftBoundaryBytes))
    else if |right| > limits.maxBoundaryBytes then Some(Limit(RightBoundaryBytes))
    else None
  }

  /** The outcome of one invocation. */
  function Outcome(left: Bytes, right: Bytes, inputs: seq<Bytes>, number: int, limits: Limits)
    : (r: Result<seq<Bytes>, MatchError>)
    requires forall s | s in inputs :: Valid(s)
  {
    var refusal := Refusal(left, right, number, limits);
    if refusal.Some? then Err(refusal.value)
    else Play(FullRun(PatternOf(left), PatternOf(right), inputs, 0), Target(number), limits, Progress(0, [], 0))
  }

  // ---------- success means the naive specification ----------

  function Values(run: Run): (values: seq<Bytes>)
  {
    match run
    case Done => []
    case Offered(_, _, next) => Values(next)
    case Searched(_, next) => Values(next)
    case Found(value, next) => [value] + Values(next)
  }

  lemma {:induction false} PairRunValues(l: BoundaryPattern, r: BoundaryPattern, input: Bytes, start: nat, rest: Run)
    requires l.Shaped() && r.Shaped() && l.bytes != []
    ensures Values(PairRun(l, r, input, start, rest)) == PairMatches(input, l.bytes, r.bytes, start) + Values(rest)
    decreases |input| - start
  {
    hide Leftmost, SearchCost;
    var i := Leftmost(input, l.bytes, start);
    if i.Some? {
      var after := i.value + |l.bytes|;
      var j := Leftmost(input, r.bytes, after);
      if j.Some? {
        PairRunValues(l, r, input, after, rest);
        var run := PairRun(l, r, input, start, rest);
        assert Values(run) == Values(run.next) == Values(run.next.next);
        var value, tail := [input[after..j.value]], PairMatches(input, l.bytes, r.bytes, after);
        assert value + (tail + Values(rest)) == (value + tail) + Values(rest);
      }
    }
  }

  lemma InputRunValues(l: BoundaryPattern, r: BoundaryPattern, input: Bytes, rest: Run)
    requires l.Shaped() && r.Shaped() && Valid(input)
    ensures Values(InputRun(l, r, input, rest)) == InputMatches(input, l.bytes, r.bytes) + Values(rest)
  {
    hide Leftmost, SearchCost, IsBlank;
    if l.bytes != [] && r.bytes != [] { PairRunValues(l, r, input, 0, rest); }
  }

  lemma {:induction false} FullRunValues(l: BoundaryPattern, r: BoundaryPattern, inputs: seq<Bytes>, index: nat)
    requires l.Shaped() && r.Shaped() && index <= |inputs| && forall s | s in inputs :: Valid(s)
    ensures Values(FullRun(l, r, inputs, index)) == AllMatches(inputs[index..], l.bytes, r.bytes)
    decreases |inputs| - index
  {
    if index < |inputs| {
      InputRunValues(l, r, inputs[index], FullRun(l, r, inputs, index + 1));
      FullRunValues(l, r, inputs, index + 1);
      assert inputs[index..][1..] == inputs[index + 1..];
    }
  }

  /** An unselective run that succeeds has collected every value found. */
  lemma {:induction false} PlayCollects(run: Run, limits: Limits, st: Progress)
    requires Play(run, None, limits, st).Ok?
    requires |st.matches| == st.found <= limits.maxMatches
    ensures Play(run, None, limits, st).value == st.matches + Values(run)
    ensures |st.matches| + |Values(run)| <= limits.maxMatches
  {
    match run
    case Done =>
    case Offered(_, _, next) => PlayCollects(next, limits, st);
    case Searched(cost, next) => PlayCollects(next, limits, st.(steps := st.steps + cost));
    case Found(value, next) =>
      PlayCollects(next, limits, st.(found := st.found + 1, matches := st.matches + [value]));
  }

  /** A selective run that succeeds has the selected value and nothing else. */
  lemma {:induction false} PlaySelects(run: Run, k: nat, limits: Limits, st: Progress)
    requires st.matches == [] && st.found < k
    requires Play(run, Some(k), limits, st).Ok?
    ensures Play(run, Some(k), limits, st).value == Selected(Values(run), k - st.found)
  {
    match run
    case Done =>
    case Offered(_, _, next) => PlaySelects(next, k, limits, st);
    case Searched(cost, next) => PlaySelects(next, k, limits, st.(steps := st.steps + cost));
    case Found(value, next) =>
      if st.found + 1 < k { PlaySelects(next, k, limits, st.(found := st.found + 1)); }
  }

  /** Every success equals the naive specification, and no success is longer than the match limit. */
  lemma OutcomeIsNaive(left: Bytes, right: Bytes, inputs: seq<Bytes>, number: int, limits: Limits)
    requires forall s | s in inputs :: Valid(s)
    requires Outcome(left, right, inputs, number, limits).Ok?
    ensures var values := Outcome(left, right, inputs, number, limits).value;
            values == Selected(AllMatches(inputs, left, right), number) && |values| <= limits.maxMatches
  {
    hide FullRun, Play, AllMatches, Values, PatternOf, Valid, LongestBorder;
    var l, r := PatternOf(left), PatternOf(right);
    FullRunValues(l, r, inputs, 0);
    assert inputs[0..] == inputs;
    if number > 0 {
      PlaySelects(FullRun(l, r, inputs, 0), number, limits, Progress(0, [], 0));
    } else {
      PlayCollects(FullRun(l, r, inputs, 0), limits, Progress(0, [], 0));
    }
  }

  // ---------- selecting one match is selecting from all matches ----------

  lemma {:induction false} SelectionFollows(run: Run, k: nat, limits: Limits, st: Progress)
    requires st.found < k
    requires Play(run, None, limits, st).Ok?
    ensures Play(run, Some(k), limits, st.(matches := [])).Ok?
  {
    match run
    case Done =>
    case Offered(_, _, next) => SelectionFollows(next, k, limits, st);
    case Searched(cost, next) => SelectionFollows(next, k, limits, st.(steps := st.steps + cost));
    case Found(value, next) =>
      if st.found + 1 < k {
        SelectionFollows(next, k, limits, st.(found := st.found + 1, matches := st.matches + [value]));
      }
  }

  /**
   If extracting all matches succeeds with a list, then asking for match `k` succeeds
   with exactly the `k`-th entry of that list, or with nothing when the list is shorter.
   */
  lemma SelectionAgrees(left: Bytes, right: Bytes, inputs: seq<Bytes>, all: int, k: int, limits: Limits)
    requires forall s | s in inputs :: Valid(s)
    requires all <= 0 < k <= limits.maxMatches
    requires Outcome(left, right, inputs, all, limits).Ok?
    ensures Outcome(left, right, inputs, k, limits)
         == Ok(Selected(Outcome(left, right, inputs, all, limits).value, k))
  {
    hide FullRun, Play, AllMatches, Values, PatternOf, Valid, LongestBorder;
    SelectionFollows(FullRun(PatternOf(left), PatternOf(right), inputs, 0), k, limits, Progress(0, [], 0));
    OutcomeIsNaive(left, right, inputs, all, limits);
    OutcomeIsNaive(left, right, inputs, k, limits);
  }

  // ---------- amortised cost ----------

  /** What a run can be charged before the match that exceeds `room` further matches stops it. */
  function CostWithin(run: Run, room: nat): (cost: nat)
  {
    match run
    case Done => 0
    case Offered(_, _, next) => CostWithin(next, room)
    case Searched(cost, next) => cost + CostWithin(next, room)
    case Found(_, next) => if room == 0 then 0 else CostWithin(next, room - 1)
  }

  lemma {:induction false} CostMonotone(run: Run, room: nat, more: nat)
    requires room <= more
    ensures CostWithin(run, room) <= CostWithin(run, more)
  {
    match run
    case Done =>
    case Offered(_, _, next) => CostMonotone(next, room, more);
    case Searched(_, next) => CostMonotone(next, room, more);
    case Found(_, next) => if room > 0 { CostMonotone(next, room - 1, more - 1); }
  }

  /** `n * k`, added up. */
  function Times(n: nat, k: nat): (r: nat)
  {
    if k == 0 then 0 else n + Times(n, k - 1)
  }

  lemma TimesStep(n: nat, k: nat)
    requires k > 0
    ensures Times(n, k) == n + Times(n, k - 1)
  {
  }

  lemma {:induction false} TimesIsProduct(n: nat, k: nat)
    ensures Times(n, k) == n * k
  {
    if k > 0 { TimesIsProduct(n, k - 1); }
  }

  lemma {:induction false} TimesDistributes(a: nat, b: nat, k: nat)
    ensures Times(a + b, k) == Times(a, k) + Times(b, k)
  {
    if k > 0 { TimesDistributes(a, b, k - 1); }
  }

  /**
   Left scans of one input never overlap, so together they cost at most two steps per
   byte; each right scan costs at most that much again, and there is one per match.
   */
  lemma {:induction false} PairRunCost(
    l: BoundaryPattern, r: BoundaryPattern, input: Bytes, start: nat, rest: Run, room: nat)
    requires l.Valid() && r.Valid() && l.bytes != [] && r.bytes != [] && start <= |input|
    ensures CostWithin(PairRun(l, r, input, start, rest), room)
         <= 2 * (|input| - start) + 2 * |input| + 2 * Times(|input|, room) + CostWithin(rest, room)
    decreases |input| - start
  {
    hide Leftmost, SearchCost, RunEnd, LongestBorder, Values, PairMatches, Times;
    SearchIsLeftmost(l, input, start);
    var i := Leftmost(input, l.bytes, start);
    if i.Some? {
      var after := i.value + |l.bytes|;
      SearchIsLeftmost(r, input, after);
      var run := PairRun(l, r, input, start, rest);
      assert CostWithin(run, room)
          == SearchCost(l, input, start) + SearchCost(r, input, after) + CostWithin(run.next.next, room);
      if Leftmost(input, r.bytes, after).Some? && room > 0 {
        TimesStep(|input|, room);
        PairRunCost(l, r, input, after, rest, room - 1);
        CostMonotone(rest, room - 1, room);
      }
    }
  }

  /** One search, and at most one match. */
  lemma SingleRunCost(l: BoundaryPattern, r: BoundaryPattern, input: Bytes, rest: Run, room: nat)
    requires l.Valid() && r.Valid()
    ensures l.bytes != [] ==> CostWithin(LeftRun(l, input, rest), room) <= 2 * |input| + CostWithin(rest, room)
    ensures r.bytes != [] ==> CostWithin(RightRun(r, input, rest), room) <= 2 * |input| + CostWithin(rest, room)
  {
    hide Leftmost, SearchCost, RunEnd, LongestBorder;
    if room > 0 { CostMonotone(rest, room - 1, room); }
    if l.bytes != [] { SearchIsLeftmost(l, input, 0); }
    if r.bytes != [] { SearchIsLeftmost(r, input, 0); }
  }

  lemma InputRunCost(l: BoundaryPattern, r: BoundaryPattern, input: Bytes, rest: Run, room: nat)
    requires l.Valid() && r.Valid() && Valid(input)
    ensures CostWithin(InputRun(l, r, input, rest), room) <= 2 * Times(|input|, room + 2) + CostWithin(rest, room)
  {
    hide Leftmost, SearchCost, IsBlank, PairRun, LeftRun, RightRun, RunEnd, LongestBorder, Times, Valid;
    TimesStep(|input|, room + 2);
    TimesStep(|input|, room + 1);
    if room > 0 { CostMonotone(rest, room - 1, room); }
    SingleRunCost(l, r, input, rest, room);
    if l.bytes != [] && r.bytes != [] { PairRunCost(l, r, input, 0, rest, room); }
  }

  function TotalBytes(inputs: seq<Bytes>, index: nat): (n: nat)
    requires index <= |inputs|
    decreases |inputs| - index
  {
    if index == |inputs| then 0 else |inputs[index]| + TotalBytes(inputs, index + 1)
  }

  lemma {:induction false} FullRunCost(l: BoundaryPattern, r: BoundaryPattern, inputs: seq<Bytes>, index: nat,
                                       room: nat)
    requires l.Valid() && r.Valid() && index <= |inputs| && forall s | s in inputs :: Valid(s)
    ensures CostWithin(FullRun(l, r, inputs, index), room) <= 2 * Times(TotalBytes(inputs, index), room + 2)
    decreases |inputs| - index
  {
    hide InputRun, LongestBorder;
    if index < |inputs| {
      InputRunCost(l, r, inputs[index], FullRun(l, r, inputs, index + 1), room);
      FullRunCost(l, r, inputs, index + 1, room);
      TimesDistributes(|inputs[index]|, TotalBytes(inputs, index + 1), room + 2);
    }
  }

  lemma {:induction false} CoveredPlay(run: Run, target: Option<nat>, limits: Limits, st: Progress)
    requires st.found <= limits.maxMatches
    requires st.steps + CostWithin(run, limits.maxMatches - st.found) <= limits.maxSearchSteps
    ensures Play(run, target, limits, st) != Err(Limit(SearchSteps))
  {
    match run
    case Done =>
    case Offered(_, _, next) => CoveredPlay(next, target, limits, st);
    case Searched(cost, next) => CoveredPlay(next, target, limits, st.(steps := st.steps + cost));
    case Found(value, next) =>
      if st.found < limits.maxMatches {
        var kept := if target.None? then st.matches + [value] else st.matches;
        CoveredPlay(next, target, limits, st.(found := st.found + 1, matches := kept));
      }
  }

  /** A budget of 2 * bytes * (match limit + 2) is never exhausted, whatever is searched for. */
  lemma BudgetSuffices(left: Bytes, right: Bytes, inputs: seq<Bytes>, number: int, limits: Limits)
    requires forall s | s in inputs :: Valid(s)
    requires 2 * (TotalBytes(inputs, 0) * (limits.maxMatches + 2)) <= limits.maxSearchSteps
    ensures Outcome(left, right, inputs, number, limits) != Err(Limit(SearchSteps))
  {
    var l, r := PatternOf(left), PatternOf(right);
    PatternUnique(l);
    PatternUnique(r);
    FullRunCost(l, r, inputs, 0, limits.maxMatches);
    TimesIsProduct(TotalBytes(inputs, 0), limits.maxMatches + 2);
    CoveredPlay(FullRun(l, r, inputs, 0), Target(number), limits, Progress(0, [], 0));
  }

  // ---------- the code ----------

  /** Continuing a run after a scan that returned `r` with progress `st`. */
  ghost function Resume(r: Result<bool, MatchError>, rest: Run, target: Option<nat>, limits: Limits, st: Progress)
    : Result<seq<Bytes>, MatchError>
  {
    match r
    case Err(e) => Err(e)
    case Ok(done) => if done then Ok(st.matches) else Play(rest, target, limits, st)
  }

  ghost predicate Sound(st: Progress, target: Option<nat>, limits: Limits)
  {
    st.steps <= limits.maxSearchSteps < USIZE_MAX && st.found <= limits.maxMatches < USIZE_MAX &&
    (target.None? ==> |st.matches| == st.found) && forall v | v in st.matches :: Valid(v)
  }

  /** What every part of a scan promises: it plays its part of the run and keeps the totals sound. */
  ghost predicate Played(
    run: Run, rest: Run, target: Option<nat>, limits: Limits,
    st: Progress, r: Result<bool, MatchError>, st': Progress)
  {
    Resume(r, rest, target, limits, st') == Play(run, target, limits, st) &&
    (r == Ok(false) ==> Sound(st', target, limits)) && forall v | v in st'.matches :: Valid(v)
  }

  method Append(value: Bytes, target: Option<nat>, limits: Limits, st: Progress, ghost rest: Run)
    returns (r: Result<bool, MatchError>, st': Progress)
    requires Sound(st, target, limits) && Valid(value)
    ensures Played(Found(value, rest), rest, target, limits, st, r, st')
  {
    st' := st;
    if st.found + 1 > USIZE_MAX {
      r := Err(Overflow);
    } else {
      st' := st'.(found := st'.found + 1);
      if st'.found > limits.maxMatches {
        r := Err(Limit(MatchCount));
      } else if |value| > limits.maxValueBytes {
        r := Err(Limit(ValueBytes));
      } else if target == Some(st'.found) {
        st' := st'.(matches := st'.matches + [value]);
        r := Ok(true);
      } else if target.None? && |st'.matches| >= limits.maxMatches {
        r := Err(Limit(MatchCount));
      } else {
        if target.None? {
          st' := st'.(matches := st'.matches + [value]);
        }
        r := Ok(false);
      }
    }
  }

  /** One search of a run: its charge, and the run that remains. */
  method Search(
    p: BoundaryPattern, input: Bytes, start: nat,
    target: Option<nat>, limits: Limits, st: Progress, ghost rest: Run)
    returns (r: Result<Option<nat>, MatchError>, st': Progress)
    requires p.Valid() && p.bytes != [] && Valid(p.bytes) && Valid(input) && Sound(st, target, limits)
    ensures st' == st.(steps := st'.steps)
    ensures r.Ok? ==> Sound(st', target, limits) && r.value == Leftmost(input, p.bytes, start)
    ensures r.Ok? && r.value.Some? ==>
              IsCharBoundary(input, r.value.value) && IsCharBoundary(input, r.value.value + |p.bytes|)
    ensures Play(Searched(SearchCost(p, input, start), rest), target, limits, st)
         == if r.Ok? then Play(rest, target, limits, st') else Err(r.error)
  {
    hide Leftmost, SearchCost, LongestBorder, Valid, IsCharBoundary;
    var steps;
    r, steps := FindFrom(p, input, start, st.steps, limits.maxSearchSteps);
    st' := st.(steps := steps);
    if r.Ok? && r.value.Some? { OccurrenceAligned(input, p.bytes, r.value.value); }
  }

  /** No left boundary: the value runs from the start of the input. */
  method ScanToRight(
    right: BoundaryPattern, input: Bytes, target: Option<nat>, limits: Limits, st: Progress, ghost rest: Run)
    returns (r: Result<bool, MatchError>, st': Progress)
    requires right.Valid() && right.bytes != [] && Valid(right.bytes) && Valid(input) && Sound(st, target, limits)
    ensures Played(RightRun(right, input, rest), rest, target, limits, st, r, st')
  {
    hide Leftmost, SearchCost, LongestBorder, Valid;
    var found;
    found, st' := Search(right, input, 0, target, limits, st, RightRun(right, input, rest).next);
    if found.Err? {
      return Err(found.error), st';
    }
    if found.value.None? {
      return Ok(false), st';
    }
    assert input[0..found.value.value] == input[..found.value.value];
    r, st' := Append(Slice(input, 0, found.value.value), target, limits, st', rest);
  }

  /** No right boundary: the value runs to the end of the input. */
  method ScanFromLeft(
    left: BoundaryPattern, input: Bytes, target: Option<nat>, limits: Limits, st: Progress, ghost rest: Run)
    returns (r: Result<bool, MatchError>, st': Progress)
    requires left.Valid() && left.bytes != [] && Valid(left.bytes) && Valid(input) && Sound(st, target, limits)
    ensures Played(LeftRun(left, input, rest), rest, target, limits, st, r, st')
  {
    hide Leftmost, SearchCost, LongestBorder, Valid;
    var found;
    found, st' := Search(left, input, 0, target, limits, st, LeftRun(left, input, rest).next);
    if found.Err? {
      return Err(found.error), st';
    }
    if found.value.None? {
      return Ok(false), st';
    }
    var valueStart := found.value.value + |left.bytes|;
    assert input[valueStart..|input|] == input[valueStart..];
    r, st' := Append(Slice(input, valueStart, |input|), target, limits, st', rest);
  }

  /** Both boundaries: after a match, on from the end of its left boundary. */
  method ScanPairs(
    left: BoundaryPattern, right: BoundaryPattern, input: Bytes,
    target: Option<nat>, limits: Limits, st: Progress, ghost rest: Run)
    returns (r: Result<bool, MatchError>, st': Progress)
    requires left.Valid() && right.Valid() && left.bytes != [] && right.bytes != []
    requires Valid(left.bytes) && Valid(right.bytes) && Valid(input) && Sound(st, target, limits)
    ensures Played(PairRun(left, right, input, 0, rest), rest, target, limits, st, r, st')
  {
    hide Leftmost, SearchCost, LongestBorder, IsCharBoundary, Valid;
    st' := st;
    var startIndex := 0;
    while true
      invariant 0 <= startIndex <= |input| && Sound(st', target, limits)
      invariant Play(PairRun(left, right, input, startIndex, rest), target, limits, st')
             == Play(PairRun(left, right, input, 0, rest), target, limits, st)
      decreases |input| - startIndex
    {
      ghost var run := PairRun(left, right, input, startIndex, rest);
      assert run == Searched(SearchCost(left, input, startIndex), run.next);
      var leftFound;
      leftFound, st' := Search(left, input, startIndex, target, limits, st', run.next);
      if leftFound.Err? {
        return Err(leftFound.error), st';
      }
      if leftFound.value.None? {
        return Ok(false), st';
      }
      var afterLeft := leftFound.value.value + |left.bytes|;
      assert run.next == Searched(SearchCost(right, input, afterLeft), run.next.next);
      var rightFound;
      rightFound, st' := Search(right, input, afterLeft, target, limits, st', run.next.next);
      if rightFound.Err? {
        return Err(rightFound.error), st';
      }
      if rightFound.value.None? {
        return Ok(false), st';
      }
      var value := Slice(input, afterLeft, rightFound.value.value);
      assert run.next.next == Found(value, PairRun(left, right, input, afterLeft, rest));
      r, st' := Append(value, target, limits, st', PairRun(left, right, input, afterLeft, rest));
      if r != Ok(false) {
        return;
      }
      startIndex := afterLeft;
    }
  }

  method ScanInput(
    left: BoundaryPattern, right: BoundaryPattern, input: Bytes,
    target: Option<nat>, limits: Limits, st: Progress, ghost rest: Run)
    returns (r: Result<bool, MatchError>, st': Progress)
    requires left.Valid() && right.Valid() && Valid(left.bytes) && Valid(right.bytes) && Valid(input)
    requires Sound(st, target, limits)
    ensures Played(InputRun(left, right, input, rest), rest, target, limits, st, r, st')
  {
    hide LeftRun, RightRun, PairRun, IsBlank, LongestBorder;
    if IsBlank(input) {
      r, st' := Ok(false), st;
    } else if left.bytes == [] && right.bytes == [] {
      r, st' := Append(input, target, limits, st, rest);
    } else if left.bytes == [] {
      r, st' := ScanToRight(right, input, target, limits, st, rest);
    } else if right.bytes == [] {
      r, st' := ScanFromLeft(left, input, target, limits, st, rest);
    } else {
      r, st' := ScanPairs(left, right, input, target, limits, st, rest);
    }
  }

  /** The loop over the inputs. */
  method ScanInputs(
    left: BoundaryPattern, right: BoundaryPattern, inputs: seq<Bytes>, target: Option<nat>, limits: Limits)
    returns (r: Result<seq<Bytes>, MatchError>)
    requires left.Valid() && right.Valid() && Valid(left.bytes) && Valid(right.bytes)
    requires limits.Valid() && forall s | s in inputs :: Valid(s)
    ensures r == Play(FullRun(left, right, inputs, 0), target, limits, Progress(0, [], 0))
    ensures r.Ok? ==> forall v | v in r.value :: Valid(v)
  {
    hide InputRun, LongestBorder, Valid;
    var st := Progress(0, [], 0);
    var index := 0;
    while index < |inputs|
      invariant 0 <= index <= |inputs| && Sound(st, target, limits)
      invariant Play(FullRun(left, right, inputs, index), target, limits, st)
             == Play(FullRun(left, right, inputs, 0), target, limits, Progress(0, [], 0))
    {
      if index >= BOUNDARY_MAX_INPUTS {
        return Err(Limit(InputCount));
      }
      if |inputs[index]| > limits.maxInputBytes {
        return Err(Limit(InputBytes));
      }
      var scanned;
      scanned, st := ScanInput(left, right, inputs[index], target, limits, st, FullRun(left, right, inputs, index + 1));
      if scanned.Err? {
        return Err(scanned.error);
      }
      if scanned.value {
        return Ok(st.matches);
      }
      index := index + 1;
    }
    return Ok(st.matches);
  }

  /**
   The invocation computes exactly `Outcome`; whatever it returns is valid text, and a
   success is what the naive specification selects.
   */
  method ExtractBoundaryMatches(left: Bytes, right: Bytes, inputs: seq<Bytes>, number: int, limits: Limits)
    returns (r: Result<seq<Bytes>, MatchError>)
    requires Valid(left) && Valid(right) && forall s | s in inputs :: Valid(s)
    ensures r == Outcome(left, right, inputs, number, limits)
    ensures r.Ok? ==> r.value == Selected(AllMatches(inputs, left, right), number)
    ensures r.Ok? ==> forall v | v in r.value :: Valid(v)
  {
    if Outcome(left, right, inputs, number, limits).Ok? {
      OutcomeIsNaive(left, right, inputs, number, limits);
    }
    if !limits.Valid() {
      return Err(InvalidLimits);
    }
    if number > limits.maxMatches {
      return Err(MatchNumberLimit);
    }
    if |left| > limits.maxBoundaryBytes {
      return Err(Limit(LeftBoundaryBytes));
    }
    if |right| > limits.maxBoundaryBytes {
      return Err(Limit(RightBoundaryBytes));
    }
    var l := NewPattern(left);
    var r' := NewPattern(right);
    PatternUnique(l);
    PatternUnique(r');
    r := ScanInputs(l, r', inputs, Target(number), limits);
  }
}
