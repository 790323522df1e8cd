/**
 The evidence gate: the validator of collected measurements against a configuration, and what
 it guarantees of a completed run together with the validator of the configuration.
 */
module EvidenceGate {
  import opened Prelude
  import opened ThresholdRules

  const MAX_OBSERVATIONS := 256
  const MAX_HISTOGRAMS := 64

  // ---------- what is collected ----------

  /** A JSON number: an integer and an equal float compare equal, but only the first is an integer. */
  datatype Number = Whole(n: int) | Float(x: real)
  {
    function Amount(): (v: real) { match this case Whole(n) => n as real case Float(x) => x }
  }

  datatype Status = Passed | Failed

  datatype RunStatus = RunCompleted | RunFailed | OtherStatus(text: string)

  datatype Observation = Observation(id: string, value: real, unit: string, scope: Scope)

  datatype HistogramRecord = HistogramRecord(id: string, unit: string, count: int, p50: real, p95: real, p99: real)

  datatype RuleRecord = RuleRecord(
    id: string, metric: string, operator: Operator, threshold: real, observed: real, unit: string, status: Status,
    histogram: Option<(string, int)>)

  datatype Scalars = Scalars(
    completionCount: Number, sampleCount: Number, throughput: Number, cpuTime: Number, allocation: Number,
    samplesFailed: Number, resultsDropped: Number, queueOverflows: Number)

  datatype Evidence = Evidence(
    status: RunStatus, observations: seq<Observation>, scalars: Scalars, histograms: seq<HistogramRecord>,
    baselines: Baselines, rules: seq<RuleRecord>, thresholdStatus: Status)

  datatype GateError =
    | BadConfig(reason: ThresholdError)
    | BadObservation
    | WrongScalar
    | BadHistogram
    | BadRecord
    | WrongStatus

  function ObservationId(o: Observation): (id: string) { o.id }

  function HistogramRecordId(h: HistogramRecord): (id: string) { h.id }

  // ---------- observations ----------

  predicate ObservationOk(o: Observation, registry: map<string, Entry>, allowed: set<string>)
  {
    o.id in allowed && o.id in registry && o.unit == registry[o.id].unit && InRange(o.value) && SupportedScope(o.scope)
  }

  function HistogramIds(m: Metrics): (ids: set<string>)
  {
    set h | h in m.histograms :: h.id
  }

  /** The identities that need an observation: everything but the histograms. */
  function Scalar(m: Metrics): (ids: set<string>)
  {
    Registry(m).Keys - HistogramIds(m)
  }

  /** One observation of each scalar metric, and no other. */
  ghost predicate ObservationsOk(os: seq<Observation>, m: Metrics)
  {
    && 1 <= |os| <= MAX_OBSERVATIONS
    && (forall i | 0 <= i < |os| :: ObservationOk(os[i], Registry(m), Scalar(m)))
    && Distinct(os, ObservationId)
    && Dict(os, ObservationId).Keys == Scalar(m)
  }

  predicate Linked(field: Number, observations: map<string, Observation>, metric: string, whole: bool)
  {
    && metric in observations && field.Amount() == observations[metric].value
    && (if whole then field.Whole? && 0 <= field.n <= MAX_SAMPLE_COUNT else InRange(field.Amount()))
  }

  function FailureMetric(names: set<string>): (metric: string)
  {
    if "samples_failed" in names then "samples_failed" else "operations_failed"
  }

  /** The summary fields repeat the observations they are named after. */
  predicate ScalarsOk(s: Scalars, observations: map<string, Observation>)
  {
    && Linked(s.completionCount, observations, CompletionMetric(observations.Keys), true)
    && Linked(s.sampleCount, observations, "sample_count", true)
    && Linked(s.throughput, observations, "throughput", false)
    && Linked(s.cpuTime, observations, "cpu_time_ns", false)
    && Linked(s.allocation, observations, "allocation_bytes", false)
    && Linked(s.samplesFailed, observations, FailureMetric(observations.Keys), true)
    && Linked(s.resultsDropped, observations, "results_dropped", true)
    && Linked(s.queueOverflows, observations, "queue_overflows", true)
  }

  method ValidateEvidenceMetrics(e: Evidence, m: Metrics, registry: map<string, Entry>)
    returns (r: Result<map<string, Observation>, GateError>)
    requires registry == Registry(m)
    ensures r.Ok? <==> ObservationsOk(e.observations, m) && ScalarsOk(e.scalars, Dict(e.observations, ObservationId))
    ensures r.Ok? ==> r.value == Dict(e.observations, ObservationId)
  {
    hide Registry, Dict, ObservationOk, ScalarsOk, Distinct;
    var os := e.observations;
    if !(1 <= |os| <= MAX_OBSERVATIONS) {
      return Err(BadObservation);
    }
    var required := registry.Keys - HistogramIds(m);
    var byId: map<string, Observation> := map[];
    var i := 0;
    DictStarts(os, ObservationId);
    while i < |os|
      invariant 0 <= i <= |os|
      invariant byId == Dict(os[..i], ObservationId) && Distinct(os[..i], ObservationId)
      invariant forall k | 0 <= k < i :: ObservationOk(os[k], registry, required)
    {
      DictNext(os, ObservationId, i);
      if os[i].id in byId {
        RepeatStays(os, ObservationId, i);
        return Err(BadObservation);
      }
      if !ObservationOk(os[i], registry, required) {
        return Err(BadObservation);
      }
      byId := byId[os[i].id := os[i]];
      i := i + 1;
    }
    assert os[..i] == os;
    if byId.Keys != required {
      return Err(BadObservation);
    }
    if !ScalarsOk(e.scalars, byId) {
      return Err(WrongScalar);
    }
    return Ok(byId);
  }

  // ---------- histograms ----------

  predicate HistogramOk(h: HistogramRecord, declared: map<string, Histogram>)
  {
    && h.id in declared && h.unit == declared[h.id].unit && 1 <= h.count <= MAX_SAMPLE_COUNT
    && InRange(h.p50) && InRange(h.p95) && InRange(h.p99) && h.p50 <= h.p95 <= h.p99
  }

  ghost predicate HistogramsOk(hs: seq<HistogramRecord>, m: Metrics)
  {
    && 1 <= |hs| <= MAX_HISTOGRAMS
    && (forall i | 0 <= i < |hs| :: HistogramOk(hs[i], Dict(m.histograms, HistogramId)))
    && Distinct(hs, HistogramRecordId)
    && Dict(hs, HistogramRecordId).Keys == Dict(m.histograms, HistogramId).Keys
  }

  method ValidateEvidenceHistograms(hs: seq<HistogramRecord>, m: Metrics)
    returns (r: Result<map<string, HistogramRecord>, GateError>)
    ensures r.Ok? <==> HistogramsOk(hs, m)
    ensures r.Ok? ==> r.value == Dict(hs, HistogramRecordId)
  {
    hide Dict, HistogramOk, Distinct;
    if !(1 <= |hs| <= MAX_HISTOGRAMS) {
      return Err(BadHistogram);
    }
    var declared := Dict(m.histograms, HistogramId);
    var actual: map<string, HistogramRecord> := map[];
    var i := 0;
    DictStarts(hs, HistogramRecordId);
    while i < |hs|
      invariant 0 <= i <= |hs|
      invariant actual == Dict(hs[..i], HistogramRecordId) && Distinct(hs[..i], HistogramRecordId)
      invariant forall k | 0 <= k < i :: HistogramOk(hs[k], declared)
    {
      DictNext(hs, HistogramRecordId, i);
      if hs[i].id in actual {
        RepeatStays(hs, HistogramRecordId, i);
        return Err(BadHistogram);
      }
      if !HistogramOk(hs[i], declared) {
        return Err(BadHistogram);
      }
      actual := actual[hs[i].id := hs[i]];
      i := i + 1;
    }
    assert hs[..i] == hs;
    if actual.Keys != declared.Keys {
      return Err(BadHistogram);
    }
    return Ok(actual);
  }

  // ---------- rule by rule ----------

  /** The measured value a rule is about: a histogram percentile by name, else an observation. */
  function MetricValue(metric: string, observations: map<string, Observation>, histograms: map<string, HistogramRecord>)
    : (v: Option<real>)
  {
    match Percentile(metric)
    case Some((h, p)) =>
      if h !in histograms then None else if p == 95 then Some(histograms[h].p95) else Some(histograms[h].p99)
    case None => if metric in observations then Some(observations[metric].value) else None
  }

  predicate Holds(operator: Operator, observed: real, threshold: real)
  {
    match operator
    case Below => observed < threshold
    case AtMost => observed <= threshold
    case Equals => observed == threshold
    case AtLeast => observed >= threshold
    case Above => observed > threshold
    case OtherOperator(_) => false
  }

  /** The one record a rule and a measured value allow. */
  function RecordOf(rule: Rule, observed: real): (record: RuleRecord)
  {
    RuleRecord(rule.id, rule.metric, rule.operator, rule.value, observed, rule.unit,
               if Holds(rule.operator, observed, rule.value) then Passed else Failed, Percentile(rule.metric))
  }

  predicate RecordOk(record: RuleRecord, rule: Rule, observations: map<string, Observation>,
                     histograms: map<string, HistogramRecord>)
  {
    var v := MetricValue(rule.metric, observations, histograms);
    && v.Some? && InRange(v.value) && InRange(record.threshold) && !rule.operator.OtherOperator?
    && record == RecordOf(rule, v.value)
  }

  /** The records answer the rules one for one, in order. */
  ghost predicate RecordsOk(records: seq<RuleRecord>, rules: seq<Rule>, observations: map<string, Observation>,
                            histograms: map<string, HistogramRecord>)
  {
    && |records| == |rules| && 1 <= |records| <= MAX_RULES
    && forall i | 0 <= i < |records| :: RecordOk(records[i], rules[i], observations, histograms)
  }

  function RecordId(r: RuleRecord): (id: string) { r.id }

  ghost predicate EachAnswers(records: seq<RuleRecord>, declared: map<string, Rule>,
                              observations: map<string, Observation>, histograms: map<string, HistogramRecord>)
  {
    && Distinct(records, RecordId)
    && forall i | 0 <= i < |records| ::
         records[i].id in declared && RecordOk(records[i], declared[records[i].id], observations, histograms)
  }

  /** The dictionary loop: each record is looked up by its own identity. */
  method CheckRecords(records: seq<RuleRecord>, declared: map<string, Rule>, observations: map<string, Observation>,
                      histograms: map<string, HistogramRecord>)
    returns (ok: bool)
    ensures ok <==> EachAnswers(records, declared, observations, histograms)
  {
    hide Dict, RecordOk, Distinct;
    var seen: map<string, RuleRecord> := map[];
    var i := 0;
    DictStarts(records, RecordId);
    while i < |records|
      invariant 0 <= i <= |records|
      invariant seen == Dict(records[..i], RecordId) && Distinct(records[..i], RecordId)
      invariant forall k | 0 <= k < i ::
                  records[k].id in declared && RecordOk(records[k], declared[records[k].id], observations, histograms)
    {
      DictNext(records, RecordId, i);
      var record := records[i];
      if record.id in seen {
        RepeatStays(records, RecordId, i);
        return false;
      }
      if record.id !in declared || !RecordOk(record, declared[record.id], observations, histograms) {
        return false;
      }
      seen := seen[record.id := record];
      i := i + 1;
    }
    assert records[..i] == records;
    return true;
  }

  predicate SameOrder(records: seq<RuleRecord>, rules: seq<Rule>)
  {
    |records| == |rules| && forall i | 0 <= i < |records| :: records[i].id == rules[i].id
  }

  lemma RuleFiled(rules: seq<Rule>, i: nat)
    requires Distinct(rules, RuleId) && i < |rules|
    ensures rules[i].id in Dict(rules, RuleId) && Dict(rules, RuleId)[rules[i].id] == rules[i]
  {
    DictHolds(rules, RuleId, i);
    assert forall j | i < j < |rules| :: RuleId(rules[i]) != RuleId(rules[j]);
  }

  lemma DistinctRecords(records: seq<RuleRecord>, rules: seq<Rule>)
    requires Distinct(rules, RuleId) && SameOrder(records, rules)
    ensures Distinct(records, RecordId)
  {
    forall i, j | 0 <= i < j < |records|
      ensures RecordId(records[i]) != RecordId(records[j])
    {
      assert RuleId(rules[i]) != RuleId(rules[j]);
    }
  }

  /** Lookup by identity, then the same order, is the pointwise answer. */
  lemma LookupIsPointwise(records: seq<RuleRecord>, rules: seq<Rule>, observations: map<string, Observation>,
                          histograms: map<string, HistogramRecord>)
    requires Distinct(rules, RuleId)
    ensures EachAnswers(records, Dict(rules, RuleId), observations, histograms) && SameOrder(records, rules) <==>
            |records| == |rules| &&
            forall i | 0 <= i < |records| :: RecordOk(records[i], rules[i], observations, histograms)
  {
    hide Dict, Distinct, MetricValue, Holds, InRange;
    if SameOrder(records, rules) {
      forall i | 0 <= i < |records|
        ensures records[i].id in Dict(rules, RuleId) && Dict(rules, RuleId)[records[i].id] == rules[i]
      {
        RuleFiled(rules, i);
      }
      DistinctRecords(records, rules);
    } else if |records| == |rules| {
      var i :| 0 <= i < |records| && records[i].id != rules[i].id;
      assert !RecordOk(records[i], rules[i], observations, histograms);
    }
  }

  function Verdict(records: seq<RuleRecord>): (status: Status)
  {
    if forall i | 0 <= i < |records| :: records[i].status.Passed? then Passed else Failed
  }

  ghost predicate ThresholdsOk(e: Evidence, c: Config)
  {
    && e.baselines == c.baselines
    && RecordsOk(e.rules, c.rules, Dict(e.observations, ObservationId), Dict(e.histograms, HistogramRecordId))
    && e.thresholdStatus == Verdict(e.rules)
  }

  method ValidateEvidenceThresholds(e: Evidence, c: Config, observations: map<string, Observation>,
                                    histograms: map<string, HistogramRecord>)
    returns (r: Result<(), GateError>)
    requires Distinct(c.rules, RuleId)
    requires observations == Dict(e.observations, ObservationId) && histograms == Dict(e.histograms, HistogramRecordId)
    ensures r.Ok? <==> ThresholdsOk(e, c)
  {
    hide Dict, Distinct, RecordOk, EachAnswers, Verdict;
    LookupIsPointwise(e.rules, c.rules, observations, histograms);
    if e.baselines != c.baselines || !(1 <= |e.rules| <= MAX_RULES) {
      return Err(BadRecord);
    }
    var declared := Dict(c.rules, RuleId);
    var answered := CheckRecords(e.rules, declared, observations, histograms);
    if !answered || !SameOrder(e.rules, c.rules) {
      return Err(BadRecord);
    }
    if e.thresholdStatus != Verdict(e.rules) {
      return Err(WrongStatus);
    }
    return Ok(());
  }

  // ---------- the whole document ----------

  /** An observation named after a percentile repeats the histogram. */
  predicate Bound(o: Observation, histograms: map<string, HistogramRecord>)
  {
    Percentile(o.id).Some? ==> MetricValue(o.id, map[], histograms) == Some(o.value)
  }

  predicate AllBound(os: seq<Observation>, histograms: map<string, HistogramRecord>)
  {
    forall i | 0 <= i < |os| :: Bound(os[i], histograms)
  }

  ghost predicate Accepted(c: Config, e: Evidence)
  {
    && ConfigOk(c)
    && !e.status.OtherStatus?
    && ObservationsOk(e.observations, c.metrics)
    && ScalarsOk(e.scalars, Dict(e.observations, ObservationId))
    && HistogramsOk(e.histograms, c.metrics)
    && AllBound(e.observations, Dict(e.histograms, HistogramRecordId))
    && ThresholdsOk(e, c)
    && (e.status.RunCompleted? ==> e.thresholdStatus.Passed?)
  }

  lemma ConfigCovers(c: Config)
    requires ConfigOk(c)
    ensures Distinct(c.rules, RuleId) && 1 <= |c.rules| <= MAX_RULES
    ensures ZeroesCovered(c.rules, Registry(c.metrics))
    ensures FloorCovered(c.rules, CompletionMetric(Registry(c.metrics).Keys), c.baselines.minimumCompletion)
    ensures FloorCovered(c.rules, "sample_count", c.baselines.minimumSamples)
  {
    hide Distinct, Unambiguous, RuleOk, Dict, Registry, ZeroesCovered, FloorCovered;
  }

  method ValidateCollectedEvidence(e: Evidence, c: Config) returns (r: Result<(), GateError>)
    ensures r.Ok? <==> Accepted(c, e)
  {
    hide ConfigOk, Dict, ObservationsOk, ScalarsOk, HistogramsOk, Bound, ThresholdsOk, Registry;
    var config := ValidateThresholds(c);
    if config.Err? {
      return Err(BadConfig(config.error));
    }
    if e.status.OtherStatus? {
      return Err(WrongStatus);
    }
    ConfigCovers(c);
    var metrics := ValidateEvidenceMetrics(e, c.metrics, Registry(c.metrics));
    if metrics.Err? {
      return Err(metrics.error);
    }
    var histograms := ValidateEvidenceHistograms(e.histograms, c.metrics);
    if histograms.Err? {
      return Err(histograms.error);
    }
    if !AllBound(e.observations, histograms.value) {
      return Err(BadHistogram);
    }
    var thresholds := ValidateEvidenceThresholds(e, c, metrics.value, histograms.value);
    if thresholds.Err? {
      return thresholds;
    }
    if e.status.RunCompleted? && e.thresholdStatus.Failed? {
      return Err(WrongStatus);
    }
    return Ok(());
  }

  // ---------- what acceptance guarantees ----------

  lemma AcceptedConfig(c: Config, e: Evidence)
    requires Accepted(c, e)
    ensures ConfigOk(c)
  {
    hide ConfigOk;
  }

  ghost function Measured(e: Evidence, metric: string): (v: Option<real>)
  {
    MetricValue(metric, Dict(e.observations, ObservationId), Dict(e.histograms, HistogramRecordId))
  }

  ghost predicate Meets(e: Evidence, rule: Rule)
  {
    Measured(e, rule.metric).Some? && Holds(rule.operator, Measured(e, rule.metric).value, rule.value)
  }

  /** Accepted evidence passes exactly when the measured values meet every declared rule. */
  lemma VerdictIsTrue(c: Config, e: Evidence)
    requires Accepted(c, e)
    ensures e.thresholdStatus.Passed? <==> forall i | 0 <= i < |c.rules| :: Meets(e, c.rules[i])
  {
    hide ConfigOk, ObservationsOk, ScalarsOk, HistogramsOk, Dict, Bound, MetricValue, Holds, Percentile;
    assert forall i | 0 <= i < |c.rules| :: e.rules[i].status.Passed? <==> Meets(e, c.rules[i]);
    assert forall i | 0 <= i < |e.rules| :: e.rules[i] in e.rules;
  }

  /** The measurements force every record and the verdict: no second account of them is accepted. */
  lemma VerdictIsForced(c: Config, e: Evidence, other: Evidence)
    requires Accepted(c, e) && Accepted(c, other)
    requires e.observations == other.observations && e.histograms == other.histograms
    ensures e.rules == other.rules && e.thresholdStatus == other.thresholdStatus
  {
    hide ConfigOk, ObservationsOk, ScalarsOk, HistogramsOk, Dict, Bound, MetricValue, Holds, Percentile, Verdict;
    assert forall i | 0 <= i < |e.rules| :: e.rules[i] == other.rules[i];
  }

  lemma LastOf(s: string, suffix: string)
    requires suffix != []
    ensures EndsWith(s, suffix) ==> s != [] && s[|s| - 1] == suffix[|suffix| - 1]
  {
  }

  lemma NamesAreObservations(metric: string)
    requires EndsWith(metric, "_failed") || metric in {
      "results_dropped", "queue_overflows", "sample_count", "operations_completed", "samples_completed"}
    ensures Percentile(metric).None?
  {
    hide EndsWith;
    LastOf(metric, "_failed");
    LastOf(metric, "_p95");
    LastOf(metric, "_p99");
  }

  lemma CompletedMeets(c: Config, e: Evidence, rule: Rule)
    requires Accepted(c, e) && e.status.RunCompleted? && rule in c.rules
    ensures Meets(e, rule) && InRange(Measured(e, rule.metric).value)
  {
    hide ConfigOk, ObservationsOk, ScalarsOk, HistogramsOk, Dict, Bound, MetricValue, Holds, Percentile, InRange;
    VerdictIsTrue(c, e);
    var i :| 0 <= i < |c.rules| && c.rules[i] == rule;
    assert RecordOk(e.rules[i], c.rules[i], Dict(e.observations, ObservationId), Dict(e.histograms, HistogramRecordId));
  }

  /** What a completed run observed of one scalar metric. */
  ghost predicate Observed(e: Evidence, metric: string, v: real)
  {
    exists o | o in e.observations :: o.id == metric && o.value == v
  }

  lemma MeasuredIsObserved(e: Evidence, metric: string)
    requires Percentile(metric).None? && Measured(e, metric).Some?
    ensures metric in Dict(e.observations, ObservationId)
    ensures Dict(e.observations, ObservationId)[metric].value == Measured(e, metric).value
    ensures Observed(e, metric, Measured(e, metric).value)
  {
    hide Dict, Percentile;
    var i := DictFrom(e.observations, ObservationId, metric);
    assert e.observations[i] in e.observations;
  }

  /** No completed run was accepted with a failure, a dropped result or an overflow. */
  lemma CompletedHasNoFailures(c: Config, e: Evidence, metric: string)
    requires Accepted(c, e) && e.status.RunCompleted? && metric in ZeroMetrics(Registry(c.metrics))
    ensures metric in Dict(e.observations, ObservationId) && Dict(e.observations, ObservationId)[metric].value == 0.0
    ensures Observed(e, metric, 0.0)
  {
    hide Dict, Registry, Observed, Accepted, ConfigOk, EndsWith, Measured, Percentile, Under;
    assert ZeroCovered(c.rules, metric) by { AcceptedConfig(c, e); ConfigCovers(c); }
    UnderMeans(c.rules, metric);
    var i :| 0 <= i < |Under(c.rules, metric)| && IsZeroCeiling(Under(c.rules, metric)[i]);
    var rule := Under(c.rules, metric)[i];
    assert rule in Under(c.rules, metric);
    CompletedMeets(c, e, rule);
    NamesAreObservations(metric);
    MeasuredIsObserved(e, metric);
  }

  lemma CompletedReaches(c: Config, e: Evidence, metric: string, minimum: int)
    requires Accepted(c, e) && e.status.RunCompleted? && FloorCovered(c.rules, metric, minimum)
    requires metric in {"sample_count", "operations_completed", "samples_completed"}
    ensures metric in Dict(e.observations, ObservationId)
    ensures Dict(e.observations, ObservationId)[metric].value >= minimum as real
  {
    hide Dict, Observed, Accepted, EndsWith, Measured, Percentile, Under;
    UnderMeans(c.rules, metric);
    var i :| 0 <= i < |Under(c.rules, metric)| && IsFloor(Under(c.rules, metric)[i], minimum);
    var rule := Under(c.rules, metric)[i];
    assert rule in Under(c.rules, metric);
    CompletedMeets(c, e, rule);
    NamesAreObservations(metric);
    MeasuredIsObserved(e, metric);
  }

  lemma ScalarsFollow(c: Config, e: Evidence)
    requires Accepted(c, e)
    ensures ScalarsOk(e.scalars, Dict(e.observations, ObservationId))
    ensures Dict(e.observations, ObservationId).Keys == Registry(c.metrics).Keys - HistogramIds(c.metrics)
  {
    hide ConfigOk, HistogramsOk, Dict, Bound, ThresholdsOk, Registry, ScalarsOk, HistogramIds;
  }

  lemma FailureMetricFails(names: set<string>, registry: map<string, Entry>)
    requires names <= registry.Keys && FailureMetric(names) in names
    ensures FailureMetric(names) in ZeroMetrics(registry)
  {
  }

  /**
   The gate: whatever list of rules a configuration used, evidence accepted as completed
   counted no failure, drop or overflow, and reached the configured completions and samples.
   */
  lemma GateIsSound(c: Config, e: Evidence)
    requires Accepted(c, e) && e.status.RunCompleted?
    ensures forall metric | metric in ZeroMetrics(Registry(c.metrics)) :: Observed(e, metric, 0.0)
    ensures e.scalars.samplesFailed == Whole(0) && e.scalars.resultsDropped == Whole(0)
    ensures e.scalars.queueOverflows == Whole(0)
    ensures e.scalars.completionCount.Whole? && e.scalars.completionCount.n >= c.baselines.minimumCompletion
    ensures e.scalars.sampleCount.Whole? && e.scalars.sampleCount.n >= c.baselines.minimumSamples
  {
    hide Dict, Registry, Observed, Accepted, ConfigOk, HistogramIds, FloorCovered, ZeroesCovered;
    forall metric | metric in ZeroMetrics(Registry(c.metrics))
      ensures Observed(e, metric, 0.0)
    {
      CompletedHasNoFailures(c, e, metric);
    }
    ScalarsFollow(c, e);
    AcceptedConfig(c, e);
    ConfigCovers(c);
    var observations := Dict(e.observations, ObservationId);
    CompletedHasNoFailures(c, e, "results_dropped");
    CompletedHasNoFailures(c, e, "queue_overflows");
    FailureMetricFails(observations.Keys, Registry(c.metrics));
    CompletedHasNoFailures(c, e, FailureMetric(observations.Keys));
    CompletedReaches(c, e, "sample_count", c.baselines.minimumSamples);
    CompletedReaches(c, e, CompletionMetric(Registry(c.metrics).Keys), c.baselines.minimumCompletion);
  }

  /** A ceiling strictly below zero passes the validator of configurations, but no run can meet it. */
  lemma BelowZeroNeverCompletes(c: Config, e: Evidence, rule: Rule)
    requires rule in c.rules && rule.operator == Below && rule.value == 0.0
    ensures !(Accepted(c, e) && e.status.RunCompleted?)
  {
    hide Accepted, Measured;
    if Accepted(c, e) && e.status.RunCompleted? { CompletedMeets(c, e, rule); }
  }

  // ---------- what the gate lets through ----------

  /** Measurements in good order for a configuration, before any rule is applied. */
  ghost predicate MeasurementsOk(e: Evidence, c: Config)
  {
    && ObservationsOk(e.observations, c.metrics) && ScalarsOk(e.scalars, Dict(e.observations, ObservationId))
    && HistogramsOk(e.histograms, c.metrics)
    && AllBound(e.observations, Dict(e.histograms, HistogramRecordId))
  }

  lemma MeasuredInRange(e: Evidence, c: Config, metric: string)
    requires MeasurementsOk(e, c)
    ensures Measured(e, metric).Some? ==> InRange(Measured(e, metric).value)
  {
    hide Dict, Percentile, ScalarsOk, Bound, InRange, Registry;
    var observations, histograms := Dict(e.observations, ObservationId), Dict(e.histograms, HistogramRecordId);
    var p := Percentile(metric);
    if p.Some? && p.value.0 in histograms {
      var i := DictFrom(e.histograms, HistogramRecordId, p.value.0);
      assert HistogramOk(e.histograms[i], Dict(c.metrics.histograms, HistogramId));
    }
    if p.None? && metric in observations {
      var i := DictFrom(e.observations, ObservationId, metric);
      assert ObservationOk(e.observations[i], Registry(c.metrics), Scalar(c.metrics));
    }
  }

  /** The account of the rules that the measurements of `e` force. */
  ghost function Account(e: Evidence, c: Config): (records: seq<RuleRecord>)
    ensures |records| == |c.rules|
  {
    seq(|c.rules|, i requires 0 <= i < |c.rules| =>
      RecordOf(c.rules[i], if Measured(e, c.rules[i].metric).Some? then Measured(e, c.rules[i].metric).value else 0.0))
  }

  lemma RuleInRange(c: Config, i: nat)
    requires ConfigOk(c) && i < |c.rules|
    ensures InRange(c.rules[i].value) && !c.rules[i].operator.OtherOperator?
  {
    hide Unambiguous, RulesCover, Distinct, Registry, Dict, Percentile, CountsTrouble;
    assert RuleOk(c.rules[i], Registry(c.metrics), Dict(c.metrics.histograms, HistogramId));
  }

  lemma AccountAnswers(e: Evidence, c: Config, i: nat)
    requires ConfigOk(c) && MeasurementsOk(e, c) && i < |c.rules| && Meets(e, c.rules[i])
    ensures RecordOk(Account(e, c)[i], c.rules[i], Dict(e.observations, ObservationId),
                     Dict(e.histograms, HistogramRecordId))
    ensures Account(e, c)[i].status.Passed?
  {
    RuleInRange(c, i);
    hide ConfigOk, MeasurementsOk, Dict, Percentile, MetricValue, Holds, InRange;
    MeasuredInRange(e, c, c.rules[i].metric);
  }

  ghost function Completed(e: Evidence, c: Config, records: seq<RuleRecord>): (done: Evidence)
  {
    e.(status := RunCompleted, baselines := c.baselines, rules := records, thresholdStatus := Passed)
  }

  lemma SameMeasurements(e: Evidence, c: Config, records: seq<RuleRecord>, rule: Rule)
    ensures MeasurementsOk(Completed(e, c, records), c) <==> MeasurementsOk(e, c)
    ensures Meets(Completed(e, c, records), rule) <==> Meets(e, rule)
  {
    hide ObservationsOk, ScalarsOk, HistogramsOk, Bound, Dict, MetricValue, Holds;
  }

  lemma AccountAccepted(e: Evidence, c: Config)
    requires ConfigOk(c) && MeasurementsOk(e, c) && forall i | 0 <= i < |c.rules| :: Meets(e, c.rules[i])
    ensures Accepted(c, Completed(e, c, Account(e, c)))
  {
    hide ConfigOk, ObservationsOk, ScalarsOk, HistogramsOk, Bound, Dict, Account, Meets, RecordOk;
    var records := Account(e, c);
    ConfigCovers(c);
    forall i | 0 <= i < |c.rules|
      ensures RecordOk(records[i], c.rules[i], Dict(e.observations, ObservationId),
                       Dict(e.histograms, HistogramRecordId))
      ensures records[i].status.Passed?
    {
      AccountAnswers(e, c, i);
    }
    assert Verdict(records) == Passed;
    var done := Completed(e, c, records);
    assert RecordsOk(done.rules, c.rules, Dict(done.observations, ObservationId),
                     Dict(done.histograms, HistogramRecordId));
  }

  /** Measurements can be reported as a completed run if and only if they meet every rule. */
  lemma CompletedExactly(e: Evidence, c: Config)
    requires ConfigOk(c) && MeasurementsOk(e, c)
    ensures (exists records :: Accepted(c, Completed(e, c, records))) <==>
            forall i | 0 <= i < |c.rules| :: Meets(e, c.rules[i])
  {
    hide ConfigOk, MeasurementsOk, Accepted, Meets, Account;
    if forall i | 0 <= i < |c.rules| :: Meets(e, c.rules[i]) {
      AccountAccepted(e, c);
    }
    if records :| Accepted(c, Completed(e, c, records)) {
      VerdictIsTrue(c, Completed(e, c, records));
      forall i | 0 <= i < |c.rules|
        ensures Meets(e, c.rules[i])
      {
        SameMeasurements(e, c, records, c.rules[i]);
      }
    }
  }
}
