/**
 Which configurations a run can complete at all: the validator of configurations accepts some
 that no measurements can satisfy.
 */
module Attainable {
  import opened Prelude
  import opened ThresholdRules
  import opened EvidenceGate

  // ---------- one rule ----------

  /** A rule has a value in range that meets it, unless it asks for less than nothing or more than everything. */
  lemma RuleAttainable(operator: Operator, value: real)
    requires InRange(value) && !operator.OtherOperator?
    ensures (exists v :: InRange(v) && Holds(operator, v, value)) <==>
            !(operator == Below && value == 0.0) && !(operator == Above && value == MAX_THRESHOLD_VALUE)
  {
    var v := if operator.Below? then 0.0 else if operator.Above? then MAX_THRESHOLD_VALUE else value;
    assert InRange(v);
  }

  // ---------- one metric ----------

  /** The metrics whose observation is repeated by a summary field that has to be a count. */
  predicate IsCount(m: Metrics, metric: string)
  {
    || metric == CompletionMetric(Scalar(m)) || metric == FailureMetric(Scalar(m)) || metric == "sample_count"
    || metric == "results_dropped" || metric == "queue_overflows"
  }

  predicate IsCountValue(v: real)
  {
    v == v.Floor as real && 0.0 <= v <= MAX_SAMPLE_COUNT as real
  }

  /** A value that the metric can be observed at. */
  predicate Permitted(m: Metrics, metric: string, v: real)
  {
    InRange(v) && (IsCount(m, metric) ==> IsCountValue(v))
  }

  predicate HoldsAll(rules: seq<Rule>, v: real)
  {
    forall i | 0 <= i < |rules| :: Holds(rules[i].operator, v, rules[i].value)
  }

  /** A permitted value at which all rules for the metric hold. */
  predicate Common(c: Config, metric: string, v: real)
  {
    Permitted(c.metrics, metric, v) && HoldsAll(Under(c.rules, metric), v)
  }

  // ---------- a value to try ----------

  function LowerOf(rule: Rule): (v: real)
  {
    if rule.operator in {AtLeast, Equals, Above} then rule.value else 0.0
  }

  function UpperOf(rule: Rule): (v: real)
  {
    if rule.operator in {AtMost, Equals, Below} then rule.value else MAX_THRESHOLD_VALUE
  }

  /** The least count that is not too low for the rule. */
  function LeastCount(rule: Rule): (n: int)
  {
    match rule.operator
    case AtLeast => -(-rule.value).Floor
    case Equals => -(-rule.value).Floor
    case Above => rule.value.Floor + 1
    case _ => 0
  }

  function Lower(rules: seq<Rule>): (v: real)
    ensures v >= 0.0 && forall i | 0 <= i < |rules| :: LowerOf(rules[i]) <= v
  {
    if rules == [] then 0.0
    else
      var most, last := Lower(rules[..|rules| - 1]), LowerOf(rules[|rules| - 1]);
      if most < last then last else most
  }

  function Upper(rules: seq<Rule>): (v: real)
    ensures v <= MAX_THRESHOLD_VALUE && forall i | 0 <= i < |rules| :: v <= UpperOf(rules[i])
  {
    if rules == [] then MAX_THRESHOLD_VALUE
    else
      var most, last := Upper(rules[..|rules| - 1]), UpperOf(rules[|rules| - 1]);
      if last < most then last else most
  }

  function LowerCount(rules: seq<Rule>): (n: int)
    ensures n >= 0 && forall i | 0 <= i < |rules| :: LeastCount(rules[i]) <= n
  {
    if rules == [] then 0
    else
      var most, last := LowerCount(rules[..|rules| - 1]), LeastCount(rules[|rules| - 1]);
      if most < last then last else most
  }

  /** The highest lower bound is itself excluded. */
  predicate Strict(rules: seq<Rule>)
  {
    exists i | 0 <= i < |rules| :: rules[i].operator == Above && rules[i].value == Lower(rules)
  }

  /** If any value meets the rules, this one does. */
  function Candidate(rules: seq<Rule>, count: bool): (v: real)
  {
    if count then LowerCount(rules) as real
    else if Strict(rules) then (Lower(rules) + Upper(rules)) / 2.0
    else Lower(rules)
  }

  lemma WholeAtLeast(x: real, n: int)
    ensures x <= n as real ==> -(-x).Floor <= n
    ensures x < n as real ==> x.Floor + 1 <= n
  {
    var below, above := (-x).Floor, x.Floor;
    assert below as real <= -x < (below + 1) as real;
    assert above as real <= x < (above + 1) as real;
  }

  lemma OneBound(rule: Rule, v: real)
    requires InRange(v) && Holds(rule.operator, v, rule.value)
    ensures LowerOf(rule) <= v <= UpperOf(rule)
    ensures v == v.Floor as real ==> LeastCount(rule) as real <= v
  {
    if v == v.Floor as real { WholeAtLeast(rule.value, v.Floor); }
  }

  lemma {:induction false} BoundsHold(rules: seq<Rule>, v: real)
    requires InRange(v) && HoldsAll(rules, v)
    ensures Lower(rules) <= v <= Upper(rules)
    ensures v == v.Floor as real ==> LowerCount(rules) as real <= v
  {
    if rules != [] {
      var most, last := rules[..|rules| - 1], rules[|rules| - 1];
      assert HoldsAll(most, v);
      BoundsHold(most, v);
      OneBound(last, v);
    }
  }

  lemma CountHolds(rule: Rule, n: int, v: real)
    requires LeastCount(rule) <= n && n as real <= v && Holds(rule.operator, v, rule.value)
    ensures Holds(rule.operator, n as real, rule.value)
  {
  }

  lemma CandidateHolds(rules: seq<Rule>, count: bool, v: real)
    requires InRange(v) && HoldsAll(rules, v) && (count ==> IsCountValue(v))
    ensures var w := Candidate(rules, count);
            InRange(w) && HoldsAll(rules, w) && (count ==> IsCountValue(w))
  {
    hide Lower, Upper, LowerCount, LeastCount;
    BoundsHold(rules, v);
    if count {
      forall i | 0 <= i < |rules|
        ensures Holds(rules[i].operator, LowerCount(rules) as real, rules[i].value)
      {
        CountHolds(rules[i], LowerCount(rules), v);
      }
    } else if Strict(rules) {
      assert Lower(rules) < v;
    }
  }

  /** The value worth trying meets all rules of a metric. */
  predicate Agreed(c: Config, metric: string)
  {
    Common(c, metric, Candidate(Under(c.rules, metric), IsCount(c.metrics, metric)))
  }

  /** One value decides whether a metric's rules can be met together. */
  lemma CommonIsDecided(c: Config, metric: string)
    ensures (exists v :: Common(c, metric, v)) <==> Agreed(c, metric)
  {
    hide Candidate, Under, IsCount, HoldsAll, InRange;
    if v :| Common(c, metric, v) {
      CandidateHolds(Under(c.rules, metric), IsCount(c.metrics, metric), v);
    }
  }

  // ---------- the condition ----------

  function DeclaredHistograms(m: Metrics): (ids: set<string>)
  {
    Dict(m.histograms, HistogramId).Keys
  }

  /** The metrics that the summary fields repeat are all observed. */
  predicate SummaryDeclared(m: Metrics)
  {
    && CompletionMetric(Scalar(m)) in Scalar(m) && FailureMetric(Scalar(m)) in Scalar(m) && "sample_count" in Scalar(m)
    && "throughput" in Scalar(m) && "cpu_time_ns" in Scalar(m) && "allocation_bytes" in Scalar(m)
    && "results_dropped" in Scalar(m) && "queue_overflows" in Scalar(m)
  }

  /** Some document can report on these metrics, leaving the rules aside. */
  predicate Collectable(m: Metrics)
  {
    && 1 <= |Scalar(m)| <= MAX_OBSERVATIONS && 1 <= |DeclaredHistograms(m)| <= MAX_HISTOGRAMS
    && SummaryDeclared(m)
    && forall metric | metric in Scalar(m) ::
         Percentile(metric).Some? ==> Percentile(metric).value.0 in DeclaredHistograms(m)
  }

  /** A percentile is not asked to be below zero, and every other rule is about something observed. */
  predicate RuleReachable(rule: Rule, m: Metrics)
  {
    if Percentile(rule.metric).Some? then !(rule.operator == Below && rule.value == 0.0)
    else rule.metric in Scalar(m)
  }

  /** Every rule can be reached, and the rules for each observed metric agree. */
  predicate Satisfiable(c: Config)
  {
    && (forall i | 0 <= i < |c.rules| :: RuleReachable(c.rules[i], c.metrics))
    && forall metric | metric in Scalar(c.metrics) :: Percentile(metric).None? ==> Agreed(c, metric)
  }

  ghost predicate Completable(c: Config)
  {
    exists e :: Accepted(c, e) && e.status.RunCompleted?
  }

  // ---------- a completed run shows the condition ----------

  lemma {:induction false} DictSize<T>(xs: seq<T>, key: T -> string)
    requires Distinct(xs, key)
    ensures |Dict(xs, key).Keys| == |xs|
  {
    if xs != [] {
      var most := xs[..|xs| - 1];
      DictSize(most, key);
      DictNext(xs, key, |xs| - 1);
      assert xs[..|xs| - 1 + 1] == xs;
      assert Dict(xs, key).Keys == Dict(most, key).Keys + {key(xs[|xs| - 1])};
    }
  }

  lemma AcceptedCollects(c: Config, e: Evidence)
    requires Accepted(c, e)
    ensures MeasurementsOk(e, c) && Dict(e.observations, ObservationId).Keys == Scalar(c.metrics)
  {
    hide ConfigOk, ScalarsOk, HistogramsOk, AllBound, ThresholdsOk, Dict, Scalar;
  }

  lemma MeasuredIsCollectable(c: Config, e: Evidence)
    requires MeasurementsOk(e, c)
    ensures Collectable(c.metrics)
  {
    hide Registry, Dict, Percentile, ObservationOk, HistogramOk, Distinct, HistogramIds;
    var os, hs := e.observations, e.histograms;
    DictSize(os, ObservationId);
    DictSize(hs, HistogramRecordId);
    var observations, histograms := Dict(os, ObservationId), Dict(hs, HistogramRecordId);
    forall metric | metric in Scalar(c.metrics) && Percentile(metric).Some?
      ensures Percentile(metric).value.0 in DeclaredHistograms(c.metrics)
    {
      var i := DictFrom(os, ObservationId, metric);
      assert Bound(os[i], histograms);
    }
  }

  lemma ObservedIsPermitted(c: Config, e: Evidence, metric: string)
    requires MeasurementsOk(e, c) && metric in Scalar(c.metrics)
    ensures metric in Dict(e.observations, ObservationId)
    ensures Permitted(c.metrics, metric, Dict(e.observations, ObservationId)[metric].value)
  {
    hide Registry, Dict, Distinct, HistogramsOk, AllBound, HistogramIds;
    var i := DictFrom(e.observations, ObservationId, metric);
    assert ObservationOk(e.observations[i], Registry(c.metrics), Scalar(c.metrics));
  }

  lemma RuleIsReachable(c: Config, e: Evidence, rule: Rule)
    requires Meets(e, rule) && InRange(Measured(e, rule.metric).value)
    requires Dict(e.observations, ObservationId).Keys == Scalar(c.metrics)
    ensures RuleReachable(rule, c.metrics)
  {
    hide Percentile, Scalar, Dict;
  }

  lemma CompletedIsSatisfiable(c: Config, e: Evidence)
    requires Accepted(c, e) && e.status.RunCompleted?
    ensures Satisfiable(c)
  {
    hide Accepted, MeasurementsOk, Measured, Percentile, Scalar, Under, InRange, Permitted, Dict, Agreed;
    AcceptedCollects(c, e);
    forall i | 0 <= i < |c.rules|
      ensures RuleReachable(c.rules[i], c.metrics)
    {
      CompletedMeets(c, e, c.rules[i]);
      RuleIsReachable(c, e, c.rules[i]);
    }
    forall metric | metric in Scalar(c.metrics) && Percentile(metric).None?
      ensures Agreed(c, metric)
    {
      CommonIsDecided(c, metric);
      ObservedIsPermitted(c, e, metric);
      var v := Dict(e.observations, ObservationId)[metric].value;
      UnderMeans(c.rules, metric);
      forall i | 0 <= i < |Under(c.rules, metric)|
        ensures Holds(Under(c.rules, metric)[i].operator, v, Under(c.rules, metric)[i].value)
      {
        var rule := Under(c.rules, metric)[i];
        assert rule in Under(c.rules, metric);
        CompletedMeets(c, e, rule);
        MeasuredIsObserved(e, metric);
      }
      assert Common(c, metric, v);
    }
  }

  // ---------- and the condition gives a completed run ----------

  /** One element more, with a key not seen before. */
  lemma DictSnoc<T>(xs: seq<T>, key: T -> string, x: T)
    requires Distinct(xs, key) && key(x) !in Dict(xs, key)
    ensures Distinct(xs + [x], key) && Dict(xs + [x], key).Keys == Dict(xs, key).Keys + {key(x)}
  {
    hide Dict, Distinct;
    var more := xs + [x];
    assert more[..|xs|] == xs && more[..|xs| + 1] == more;
    DictNext(more, key, |xs|);
  }

  lemma NoElements<T>(key: T -> string)
    ensures Distinct([], key) && Dict([], key).Keys == {}
  {
  }

  function ZeroRecord(h: Histogram): (r: HistogramRecord)
  {
    HistogramRecord(h.id, h.unit, 1, 0.0, 0.0, 0.0)
  }

  /** A record of zeroes for each declared histogram. */
  lemma RecordsFor(keys: set<string>, declared: map<string, Histogram>) returns (hs: seq<HistogramRecord>)
    requires keys <= declared.Keys
    ensures |hs| == |keys| && Distinct(hs, HistogramRecordId) && Dict(hs, HistogramRecordId).Keys == keys
    ensures forall i | 0 <= i < |hs| :: hs[i].id in declared && hs[i] == ZeroRecord(declared[hs[i].id].(id := hs[i].id))
    decreases |keys|
  {
    hide Dict, Distinct;
    if keys == {} {
      hs := [];
      NoElements(HistogramRecordId);
    } else {
      var k :| k in keys;
      var rest := RecordsFor(keys - {k}, declared);
      var one := ZeroRecord(declared[k].(id := k));
      DictSnoc(rest, HistogramRecordId, one);
      hs := rest + [one];
    }
  }

  /** An observation of each metric, at the given values. */
  lemma ObservationsFor(ids: set<string>, registry: map<string, Entry>, values: map<string, real>)
    returns (os: seq<Observation>)
    requires ids <= registry.Keys && ids <= values.Keys
    ensures |os| == |ids| && Distinct(os, ObservationId) && Dict(os, ObservationId).Keys == ids
    ensures forall i | 0 <= i < |os| ::
              os[i].id in ids && os[i] == Observation(os[i].id, values[os[i].id], registry[os[i].id].unit, WholeRun)
    decreases |ids|
  {
    hide Dict, Distinct;
    if ids == {} {
      os := [];
      NoElements(ObservationId);
    } else {
      var k :| k in ids;
      var rest := ObservationsFor(ids - {k}, registry, values);
      var one := Observation(k, values[k], registry[k].unit, WholeRun);
      DictSnoc(rest, ObservationId, one);
      os := rest + [one];
    }
  }

  /** A value for each observed metric: zero for percentiles, a common value of its rules otherwise. */
  function ValueFor(c: Config, metric: string): (v: real)
  {
    if Percentile(metric).None? then Candidate(Under(c.rules, metric), IsCount(c.metrics, metric)) else 0.0
  }

  function ValuesFor(c: Config): (values: map<string, real>)
  {
    map metric | metric in Scalar(c.metrics) :: ValueFor(c, metric)
  }

  function Summary(c: Config): (s: Scalars)
  {
    var scalar := Scalar(c.metrics);
    Scalars(
      Whole(ValueFor(c, CompletionMetric(scalar)).Floor), Whole(ValueFor(c, "sample_count").Floor),
      Float(ValueFor(c, "throughput")), Float(ValueFor(c, "cpu_time_ns")), Float(ValueFor(c, "allocation_bytes")),
      Whole(ValueFor(c, FailureMetric(scalar)).Floor), Whole(ValueFor(c, "results_dropped").Floor),
      Whole(ValueFor(c, "queue_overflows").Floor))
  }

  lemma ValueIsPermitted(c: Config, metric: string)
    requires Satisfiable(c) && metric in Scalar(c.metrics)
    ensures Permitted(c.metrics, metric, ValueFor(c, metric))
    ensures Percentile(metric).None? ==> HoldsAll(Under(c.rules, metric), ValueFor(c, metric))
    ensures Percentile(metric).Some? ==> ValueFor(c, metric) == 0.0
  {
    hide Percentile, Scalar, Under, HoldsAll, Candidate;
  }

  lemma SummaryIsLinked(c: Config, observations: map<string, Observation>)
    requires Collectable(c.metrics) && Satisfiable(c) && observations.Keys == Scalar(c.metrics)
    requires forall metric | metric in observations :: observations[metric].value == ValueFor(c, metric)
    ensures ScalarsOk(Summary(c), observations)
  {
    hide Satisfiable, Scalar, ValueFor, Percentile, Under, HoldsAll;
    forall metric | metric in Scalar(c.metrics)
      ensures Permitted(c.metrics, metric, ValueFor(c, metric))
    {
      ValueIsPermitted(c, metric);
    }
  }

  lemma ZeroIsBound(o: Observation, histograms: map<string, HistogramRecord>)
    requires Percentile(o.id).Some? ==> o.value == 0.0 && Percentile(o.id).value.0 in histograms
    requires forall h | h in histograms :: histograms[h].p95 == histograms[h].p99 == 0.0
    ensures Bound(o, histograms)
  {
    hide Percentile;
  }

  /** Observations at those values and histograms of zeroes are in good order. */
  lemma MeasurementsFor(c: Config) returns (e: Evidence)
    requires Collectable(c.metrics) && Satisfiable(c)
    ensures MeasurementsOk(e, c)
    ensures forall metric | metric in Dict(e.observations, ObservationId) ::
              Dict(e.observations, ObservationId)[metric].value == ValueFor(c, metric)
    ensures forall h | h in Dict(e.histograms, HistogramRecordId) ::
              Dict(e.histograms, HistogramRecordId)[h].p95 == Dict(e.histograms, HistogramRecordId)[h].p99 == 0.0
  {
    hide Dict, Distinct, Registry, HistogramIds, ValueFor, Percentile, Summary, ScalarsOk, Satisfiable;
    var m := c.metrics;
    var os := ObservationsFor(Scalar(m), Registry(m), ValuesFor(c));
    var hs := RecordsFor(DeclaredHistograms(m), Dict(m.histograms, HistogramId));
    e := Evidence(RunCompleted, os, Summary(c), hs, c.baselines, [], Passed);
    var observations, histograms := Dict(os, ObservationId), Dict(hs, HistogramRecordId);
    forall metric | metric in observations
      ensures observations[metric].value == ValueFor(c, metric)
    {
      var i := DictFrom(os, ObservationId, metric);
    }
    forall h | h in histograms
      ensures histograms[h].p95 == histograms[h].p99 == 0.0
    {
      var i := DictFrom(hs, HistogramRecordId, h);
    }
    SummaryIsLinked(c, observations);
    forall i | 0 <= i < |os|
      ensures ObservationOk(os[i], Registry(m), Scalar(m)) && Bound(os[i], histograms)
    {
      ValueIsPermitted(c, os[i].id);
      ZeroIsBound(os[i], histograms);
    }
    assert forall i | 0 <= i < |hs| :: HistogramOk(hs[i], Dict(m.histograms, HistogramId));
  }

  lemma MeasuredKeys(e: Evidence, c: Config)
    requires MeasurementsOk(e, c)
    ensures Dict(e.observations, ObservationId).Keys == Scalar(c.metrics)
    ensures Dict(e.histograms, HistogramRecordId).Keys == DeclaredHistograms(c.metrics)
  {
    hide Dict, Scalar, ScalarsOk, AllBound, ObservationOk, HistogramOk, Distinct;
  }

  /** A percentile rule is a ceiling on a declared histogram. */
  lemma RuleIsCeiling(c: Config, i: nat)
    requires ConfigOk(c) && i < |c.rules|
    ensures InRange(c.rules[i].value)
    ensures Percentile(c.rules[i].metric).Some? ==>
              && c.rules[i].operator in {Below, AtMost}
              && Percentile(c.rules[i].metric).value.0 in DeclaredHistograms(c.metrics)
  {
    hide Unambiguous, RulesCover, Distinct, Registry, Dict, Percentile, CountsTrouble;
    assert RuleOk(c.rules[i], Registry(c.metrics), Dict(c.metrics.histograms, HistogramId));
  }

  lemma MeetsAtValue(c: Config, e: Evidence, i: nat)
    requires ConfigOk(c) && Satisfiable(c) && MeasurementsOk(e, c) && i < |c.rules|
    requires forall metric | metric in Dict(e.observations, ObservationId) ::
               Dict(e.observations, ObservationId)[metric].value == ValueFor(c, metric)
    requires forall h | h in Dict(e.histograms, HistogramRecordId) ::
               Dict(e.histograms, HistogramRecordId)[h].p95 == Dict(e.histograms, HistogramRecordId)[h].p99 == 0.0
    ensures Meets(e, c.rules[i])
  {
    hide ConfigOk, MeasurementsOk, Dict, Scalar, ValueFor, Percentile, Under;
    RuleIsCeiling(c, i);
    MeasuredKeys(e, c);
    var rule := c.rules[i];
    assert RuleReachable(rule, c.metrics);
    if Percentile(rule.metric).None? {
      ValueIsPermitted(c, rule.metric);
      UnderMeans(c.rules, rule.metric);
      assert rule in Under(c.rules, rule.metric);
    }
  }

  lemma Attained(c: Config) returns (e: Evidence)
    requires ConfigOk(c) && Collectable(c.metrics) && Satisfiable(c)
    ensures Accepted(c, e) && e.status.RunCompleted?
  {
    hide ConfigOk, Collectable, Satisfiable, Accepted, MeasurementsOk, Meets, ValueFor, Dict, Account;
    var measured := MeasurementsFor(c);
    forall i | 0 <= i < |c.rules|
      ensures Meets(measured, c.rules[i])
    {
      MeetsAtValue(c, measured, i);
    }
    AccountAccepted(measured, c);
    e := Completed(measured, c, Account(measured, c));
  }

  /**
   Some run can complete an accepted configuration if and only if its metrics can be reported
   on, every rule is about something reported, and the rules for each metric have a common
   value that the metric can be observed at.  All of it can be computed from the configuration.
   */
  lemma CompletableExactly(c: Config)
    requires ConfigOk(c)
    ensures Completable(c) <==> Collectable(c.metrics) && Satisfiable(c)
  {
    hide ConfigOk, Collectable, Satisfiable, Accepted, MeasurementsOk;
    if e :| Accepted(c, e) && e.status.RunCompleted? {
      AcceptedCollects(c, e);
      MeasuredIsCollectable(c, e);
      CompletedIsSatisfiable(c, e);
    }
    if Collectable(c.metrics) && Satisfiable(c) {
      var e := Attained(c);
    }
  }
}
