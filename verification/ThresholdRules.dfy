/**
 Declared performance thresholds: the metric registry, and the validator that files the rules
 under their metrics and checks what they cover.
 */
module ThresholdRules {
  import opened Prelude

  const MAX_THRESHOLD_VALUE := 1_000_000_000_000_000.0
  const MAX_SAMPLE_COUNT := 10_000_000
  const MAX_RULES := 256

  // ---------- declarations ----------

  datatype Operator = Below | AtMost | Equals | AtLeast | Above | OtherOperator(text: string)

  datatype Scope = WholeRun | SteadyState | FinalWindow | OtherScope(text: string)

  datatype Rule = Rule(id: string, metric: string, operator: Operator, value: real, unit: string, scope: Scope)

  datatype Histogram = Histogram(id: string, unit: string, percentiles: seq<real>)

  /** A metric identity and its unit. */
  datatype Entry = Entry(id: string, unit: string)

  datatype Metrics = Metrics(histograms: seq<Histogram>, counters: seq<string>, derived: seq<Entry>,
                             resources: seq<Entry>)

  datatype Baselines = Baselines(minimumCompletion: int, minimumSamples: int, minimumSteadyState: int)

  /** `capacity` is virtual users times iterations, when the workload bounds its iterations. */
  datatype Config = Config(metrics: Metrics, baselines: Baselines, rules: seq<Rule>, capacity: Option<int>)

  datatype ThresholdError =
    | ReusedMetric
    | BadRule
    | DuplicateId
    | UncoveredMetric
    | BaselineOutOfReach

  // ---------- names ----------

  predicate EndsWith(s: string, suffix: string)
  {
    |suffix| <= |s| && s[|s| - |suffix|..] == suffix
  }

  predicate Mentions(s: string, token: string)
  {
    token <= s || (s != [] && Mentions(s[1..], token))
  }

  /** The histogram and percentile a metric name stands for. */
  function Percentile(metric: string): (p: Option<(string, int)>)
  {
    if EndsWith(metric, "_p95") then Some((metric[..|metric| - 4], 95))
    else if EndsWith(metric, "_p99") then Some((metric[..|metric| - 4], 99))
    else None
  }

  predicate CountsTrouble(metric: string)
  {
    Mentions(metric, "failed") || Mentions(metric, "dropped") || Mentions(metric, "overflow")
  }

  // ---------- dictionaries filled in a loop ----------

  /** Later elements replace earlier ones with the same key. */
  function Dict<T>(xs: seq<T>, key: T -> string): (m: map<string, T>)
  {
    if xs == [] then map[] else Dict(xs[..|xs| - 1], key)[key(xs[|xs| - 1]) := xs[|xs| - 1]]
  }

  ghost predicate Distinct<T>(xs: seq<T>, key: T -> string)
  {
    forall i, j | 0 <= i < j < |xs| :: key(xs[i]) != key(xs[j])
  }

  lemma {:induction false} DictHolds<T>(xs: seq<T>, key: T -> string, i: nat)
    requires i < |xs|
    ensures key(xs[i]) in Dict(xs, key)
    ensures (forall j | i < j < |xs| :: key(xs[j]) != key(xs[i])) ==> Dict(xs, key)[key(xs[i])] == xs[i]
  {
    if i < |xs| - 1 { DictHolds(xs[..|xs| - 1], key, i); }
  }

  lemma {:induction false} DictFrom<T>(xs: seq<T>, key: T -> string, k: string) returns (i: nat)
    requires k in Dict(xs, key)
    ensures i < |xs| && key(xs[i]) == k && Dict(xs, key)[k] == xs[i]
  {
    var last := |xs| - 1;
    if key(xs[last]) == k { i := last; } else { i := DictFrom(xs[..last], key, k); }
  }

  lemma {:induction false} DictLacks<T>(xs: seq<T>, key: T -> string, k: string)
    requires forall i | 0 <= i < |xs| :: key(xs[i]) != k
    ensures k !in Dict(xs, key)
  {
    if xs != [] { DictLacks(xs[..|xs| - 1], key, k); }
  }

  /** Without repeated keys the dictionary is the list. */
  lemma DictExactly<T>(xs: seq<T>, key: T -> string)
    requires Distinct(xs, key)
    ensures forall i | 0 <= i < |xs| :: key(xs[i]) in Dict(xs, key) && Dict(xs, key)[key(xs[i])] == xs[i]
    ensures forall k | k in Dict(xs, key) :: exists i :: 0 <= i < |xs| && key(xs[i]) == k
  {
    hide Dict;
    forall i | 0 <= i < |xs| ensures key(xs[i]) in Dict(xs, key) && Dict(xs, key)[key(xs[i])] == xs[i] {
      DictHolds(xs, key, i);
    }
    forall k | k in Dict(xs, key) ensures exists i :: 0 <= i < |xs| && key(xs[i]) == k {
      var i := DictFrom(xs, key, k);
    }
  }

  lemma DictStarts<T>(xs: seq<T>, key: T -> string)
    ensures Dict(xs[..0], key) == map[] && Distinct(xs[..0], key)
  {
  }

  lemma DictNext<T>(xs: seq<T>, key: T -> string, i: nat)
    requires i < |xs|
    ensures Dict(xs[..i + 1], key) == Dict(xs[..i], key)[key(xs[i]) := xs[i]]
    ensures Distinct(xs[..i + 1], key) <==> Distinct(xs[..i], key) && key(xs[i]) !in Dict(xs[..i], key)
  {
    var more, fewer := xs[..i + 1], xs[..i];
    assert more[..i] == fewer;
    forall a | 0 <= a < i
      ensures key(fewer[a]) in Dict(fewer, key)
    {
      DictHolds(fewer, key, a);
    }
    if forall a | 0 <= a < i :: key(more[a]) != key(more[i]) {
      DictLacks(fewer, key, key(xs[i]));
      assert Distinct(fewer, key) <==> Distinct(more, key);
    } else {
      assert !Distinct(more, key);
    }
  }

  lemma RepeatStays<T>(xs: seq<T>, key: T -> string, i: nat)
    requires i < |xs| && !Distinct(xs[..i + 1], key)
    ensures !Distinct(xs, key)
  {
  }

  function EntryId(e: Entry): (id: string) { e.id }

  function HistogramId(h: Histogram): (id: string) { h.id }

  function RuleId(r: Rule): (id: string) { r.id }

  // ---------- the metric registry ----------

  function HistogramEntries(hs: seq<Histogram>): (es: seq<Entry>)
  {
    seq(|hs|, i requires 0 <= i < |hs| => Entry(hs[i].id, hs[i].unit))
  }

  function CounterEntries(counters: seq<string>): (es: seq<Entry>)
  {
    seq(|counters|, i requires 0 <= i < |counters| => Entry(counters[i], "count"))
  }

  /** Histograms, counters, derived metrics, resources, in the order they are registered. */
  function Entries(m: Metrics): (es: seq<Entry>)
  {
    HistogramEntries(m.histograms) + CounterEntries(m.counters) + m.derived + m.resources
  }

  function Registry(m: Metrics): (registry: map<string, Entry>)
  {
    Dict(Entries(m), EntryId)
  }

  /** No identity after the histograms was seen before it. */
  ghost predicate Unambiguous(m: Metrics, upTo: nat)
    requires upTo <= |Entries(m)|
  {
    forall i, j | 0 <= i < j < upTo && |m.histograms| <= j :: Entries(m)[i].id != Entries(m)[j].id
  }

  lemma EntrySeen(es: seq<Entry>, n: nat)
    requires n < |es|
    ensures es[n].id in Dict(es[..n], EntryId) <==> exists i | 0 <= i < n :: es[i].id == es[n].id
  {
    if es[n].id in Dict(es[..n], EntryId) {
      var i := DictFrom(es[..n], EntryId, es[n].id);
      assert es[i].id == es[n].id;
    }
    if i :| 0 <= i < n && es[i].id == es[n].id { DictHolds(es[..n], EntryId, i); }
  }

  lemma UnambiguousNext(m: Metrics, n: nat)
    requires n < |Entries(m)|
    ensures Unambiguous(m, n + 1) <==>
            Unambiguous(m, n) && (n < |m.histograms| || Entries(m)[n].id !in Dict(Entries(m)[..n], EntryId))
  {
    hide Entries, Dict;
    var es := Entries(m);
    EntrySeen(es, n);
    if n >= |m.histograms| && es[n].id in Dict(es[..n], EntryId) {
      var i :| 0 <= i < n && es[i].id == es[n].id;
      assert !Unambiguous(m, n + 1);
    }
  }

  lemma {:induction false} UnambiguousPrefix(m: Metrics, n: nat, k: nat)
    requires n <= k <= |Entries(m)| && Unambiguous(m, k)
    ensures Unambiguous(m, n)
  {
  }

  lemma EntriesStart(m: Metrics)
    ensures Unambiguous(m, 0) && Dict(Entries(m)[..0], EntryId) == map[] && |m.histograms| <= |Entries(m)|
  {
  }

  /** One dictionary of all identities, refused exactly when an identity is used again. */
  method MetricRegistry(m: Metrics) returns (r: Result<map<string, Entry>, ThresholdError>)
    ensures r.Ok? <==> Unambiguous(m, |Entries(m)|)
    ensures r.Ok? ==> r.value == Registry(m)
    ensures r.Err? ==> r.error == ReusedMetric
  {
    hide Unambiguous, Dict, Entries, HistogramEntries;
    var es := Entries(m);
    EntriesStart(m);
    var registry: map<string, Entry> := map[];
    var i := 0;
    while i < |es|
      invariant 0 <= i <= |es|
      invariant registry == Dict(es[..i], EntryId)
      invariant Unambiguous(m, i)
    {
      UnambiguousNext(m, i);
      DictNext(es, EntryId, i);
      if i >= |m.histograms| && es[i].id in registry {
        if Unambiguous(m, |es|) { UnambiguousPrefix(m, i + 1, |es|); }
        return Err(ReusedMetric);
      }
      registry := registry[es[i].id := es[i]];
      i := i + 1;
    }
    assert es[..i] == es;
    return Ok(registry);
  }

  // ---------- declared rules ----------

  predicate LowerOrDigit(c: char)
  {
    'a' <= c <= 'z' || '0' <= c <= '9'
  }

  /** A lower-case letter or digit, and from 2 to 63 more, or hyphens. */
  predicate IsId(s: string)
  {
    3 <= |s| <= 64 && LowerOrDigit(s[0]) && forall i | 0 <= i < |s| :: LowerOrDigit(s[i]) || s[i] == '-'
  }

  /** A lower-case letter, and from 2 to 95 more, or digits, underscores or dots. */
  predicate IsMetricPath(s: string)
  {
    && 3 <= |s| <= 96 && 'a' <= s[0] <= 'z'
    && forall i | 0 <= i < |s| :: LowerOrDigit(s[i]) || s[i] == '_' || s[i] == '.'
  }

  predicate SupportedScope(scope: Scope) { !scope.OtherScope? }

  predicate InRange(v: real) { 0.0 <= v <= MAX_THRESHOLD_VALUE }

  /** A percentile rule needs a declared histogram that reports the percentile. */
  predicate Backed(histograms: map<string, Histogram>, p: (string, int))
  {
    p.0 in histograms && p.1 as real in histograms[p.0].percentiles
  }

  predicate RuleOk(rule: Rule, registry: map<string, Entry>, histograms: map<string, Histogram>)
  {
    && IsId(rule.id) && IsMetricPath(rule.metric)
    && rule.metric in registry
    && !rule.operator.OtherOperator?
    && InRange(rule.value)
    && rule.unit == registry[rule.metric].unit
    && (Percentile(rule.metric).Some? ==>
          Backed(histograms, Percentile(rule.metric).value) && rule.operator in {Below, AtMost})
    && (rule.metric in {"throughput", "sample_count", "operations_completed", "samples_completed"} ==>
          rule.operator in {Above, AtLeast, Equals})
    && (CountsTrouble(rule.metric) && rule.value == 0.0 ==> rule.operator in {Equals, Below, AtMost})
    && SupportedScope(rule.scope)
  }

  predicate IsZeroCeiling(rule: Rule)
  {
    rule.value == 0.0 && rule.operator in {Equals, Below, AtMost}
  }

  predicate IsFloor(rule: Rule, minimum: int)
  {
    rule.operator in {Above, AtLeast} && rule.value >= minimum as real
  }

  function ZeroMetrics(registry: map<string, Entry>): (ms: set<string>)
  {
    (set metric | metric in registry && EndsWith(metric, "_failed")) + {"results_dropped", "queue_overflows"}
  }

  function CompletionMetric(names: set<string>): (metric: string)
  {
    if "operations_completed" in names then "operations_completed" else "samples_completed"
  }

  /** The rules for one metric, in order. */
  function Under(rules: seq<Rule>, metric: string): (r: seq<Rule>)
  {
    if rules == [] then []
    else
      var last := rules[|rules| - 1];
      Under(rules[..|rules| - 1], metric) + if last.metric == metric then [last] else []
  }

  lemma {:induction false} UnderMeans(rules: seq<Rule>, metric: string)
    ensures forall rule :: rule in Under(rules, metric) <==> rule in rules && rule.metric == metric
  {
    if rules != [] {
      UnderMeans(rules[..|rules| - 1], metric);
      assert rules == rules[..|rules| - 1] + [rules[|rules| - 1]];
    }
  }

  ghost predicate Covered(rules: seq<Rule>, metric: string)
  {
    Under(rules, metric) != []
  }

  predicate SuffixCovered(rules: seq<Rule>, suffix: string)
  {
    rules != [] && (EndsWith(rules[|rules| - 1].metric, suffix) || SuffixCovered(rules[..|rules| - 1], suffix))
  }

  ghost predicate CoveredPercentiles(rules: seq<Rule>, histogram: string)
  {
    Covered(rules, histogram + "_p95") && Covered(rules, histogram + "_p99")
  }

  ghost predicate LatencyCovered(rules: seq<Rule>, histograms: map<string, Histogram>)
  {
    && SuffixCovered(rules, "_p95") && SuffixCovered(rules, "_p99")
    && ("operation_elapsed" in histograms ==> CoveredPercentiles(rules, "operation_elapsed"))
    && ("sample_elapsed" in histograms ==> CoveredPercentiles(rules, "sample_elapsed"))
    && CoveredPercentiles(rules, "schedule_delay")
  }

  predicate AnyZeroCeiling(rules: seq<Rule>)
  {
    exists i | 0 <= i < |rules| :: IsZeroCeiling(rules[i])
  }

  predicate AnyFloor(rules: seq<Rule>, minimum: int)
  {
    exists i | 0 <= i < |rules| :: IsFloor(rules[i], minimum)
  }

  ghost predicate ZeroCovered(rules: seq<Rule>, metric: string)
  {
    AnyZeroCeiling(Under(rules, metric))
  }

  ghost predicate ZeroesCovered(rules: seq<Rule>, registry: map<string, Entry>)
  {
    forall metric | metric in ZeroMetrics(registry) :: ZeroCovered(rules, metric)
  }

  ghost predicate FloorCovered(rules: seq<Rule>, metric: string, minimum: int)
  {
    AnyFloor(Under(rules, metric), minimum)
  }

  predicate BaselinesOk(b: Baselines)
  {
    && 1 <= b.minimumCompletion <= MAX_SAMPLE_COUNT && 1 <= b.minimumSamples <= MAX_SAMPLE_COUNT
    && 1 <= b.minimumSteadyState <= MAX_SAMPLE_COUNT
  }

  predicate WithinCapacity(b: Baselines, capacity: Option<int>)
  {
    capacity.Some? ==> b.minimumCompletion <= capacity.value && b.minimumSamples <= capacity.value
  }

  ghost predicate RulesOk(c: Config)
  {
    && 1 <= |c.rules| <= MAX_RULES
    && (forall i | 0 <= i < |c.rules| ::
          RuleOk(c.rules[i], Registry(c.metrics), Dict(c.metrics.histograms, HistogramId)))
    && Distinct(c.rules, RuleId)
  }

  /** What a rule list has to cover, said of the list itself. */
  ghost predicate RulesCover(c: Config)
  {
    && LatencyCovered(c.rules, Dict(c.metrics.histograms, HistogramId))
    && Covered(c.rules, "throughput") && Covered(c.rules, "sample_count")
    && ZeroesCovered(c.rules, Registry(c.metrics))
    && FloorCovered(c.rules, CompletionMetric(Registry(c.metrics).Keys), c.baselines.minimumCompletion)
    && FloorCovered(c.rules, "sample_count", c.baselines.minimumSamples)
  }

  ghost predicate ConfigOk(c: Config)
  {
    && Unambiguous(c.metrics, |Entries(c.metrics)|) && BaselinesOk(c.baselines)
    && RulesOk(c) && RulesCover(c) && WithinCapacity(c.baselines, c.capacity)
  }

  function Filed(byMetric: map<string, seq<Rule>>, metric: string): (rules: seq<Rule>)
  {
    if metric in byMetric then byMetric[metric] else []
  }

  /** The rules filed under their metrics, in order, and no metric filed without a rule. */
  ghost predicate Grouped(byMetric: map<string, seq<Rule>>, rules: seq<Rule>)
  {
    && (forall metric: string :: Filed(byMetric, metric) == Under(rules, metric))
    && (forall metric | metric in byMetric :: byMetric[metric] != [])
  }

  lemma NoneGrouped(rules: seq<Rule>)
    ensures Grouped(map[], rules[..0])
  {
  }

  lemma GroupedNext(byMetric: map<string, seq<Rule>>, rules: seq<Rule>, i: nat)
    requires i < |rules| && Grouped(byMetric, rules[..i])
    ensures Grouped(byMetric[rules[i].metric := Filed(byMetric, rules[i].metric) + [rules[i]]], rules[..i + 1])
  {
    var more := byMetric[rules[i].metric := Filed(byMetric, rules[i].metric) + [rules[i]]];
    forall metric: string
      ensures Filed(more, metric) == Under(rules[..i + 1], metric)
    {
      assert rules[..i + 1][..i] == rules[..i];
      assert Filed(byMetric, metric) == Under(rules[..i], metric);
    }
  }

  lemma GroupedCovers(byMetric: map<string, seq<Rule>>, rules: seq<Rule>, metric: string)
    requires Grouped(byMetric, rules)
    ensures metric in byMetric <==> Covered(rules, metric)
    ensures Filed(byMetric, metric) == Under(rules, metric)
  {
    hide Under;
  }

  method DistinctIds(rules: seq<Rule>) returns (unique: bool)
    ensures unique <==> Distinct(rules, RuleId)
  {
    hide Dict, Distinct;
    var ids: map<string, Rule> := map[];
    var i := 0;
    DictStarts(rules, RuleId);
    while i < |rules|
      invariant 0 <= i <= |rules|
      invariant ids == Dict(rules[..i], RuleId) && Distinct(rules[..i], RuleId)
    {
      DictNext(rules, RuleId, i);
      if rules[i].id in ids {
        RepeatStays(rules, RuleId, i);
        return false;
      }
      ids := ids[rules[i].id := rules[i]];
      i := i + 1;
    }
    assert rules[..i] == rules;
    return true;
  }

  method CheckPercentiles(rules: seq<Rule>, byMetric: map<string, seq<Rule>>, histogram: string) returns (ok: bool)
    requires Grouped(byMetric, rules)
    ensures ok <==> CoveredPercentiles(rules, histogram)
  {
    hide Grouped, Covered;
    GroupedCovers(byMetric, rules, histogram + "_p95");
    GroupedCovers(byMetric, rules, histogram + "_p99");
    ok := histogram + "_p95" in byMetric && histogram + "_p99" in byMetric;
  }

  lemma {:induction false} SuffixMeans(rules: seq<Rule>, suffix: string)
    ensures SuffixCovered(rules, suffix) <==> exists rule | rule in rules :: EndsWith(rule.metric, suffix)
  {
    hide EndsWith;
    if rules != [] {
      SuffixMeans(rules[..|rules| - 1], suffix);
      assert rules == rules[..|rules| - 1] + [rules[|rules| - 1]];
    }
  }

  lemma SomeSuffix(byMetric: map<string, seq<Rule>>, rules: seq<Rule>, suffix: string)
    requires Grouped(byMetric, rules)
    ensures (exists metric | metric in byMetric :: EndsWith(metric, suffix)) <==> SuffixCovered(rules, suffix)
  {
    hide EndsWith, SuffixCovered, Under;
    SuffixMeans(rules, suffix);
    if metric :| metric in byMetric && EndsWith(metric, suffix) {
      var rule := byMetric[metric][0];
      UnderMeans(rules, metric);
      assert Filed(byMetric, metric) == Under(rules, metric);
      assert rule in Under(rules, metric);
    }
    if rule :| rule in rules && EndsWith(rule.metric, suffix) {
      UnderMeans(rules, rule.metric);
      assert rule in Under(rules, rule.metric);
      assert Filed(byMetric, rule.metric) == Under(rules, rule.metric);
    }
  }

  method CheckLatency(rules: seq<Rule>, histograms: map<string, Histogram>, byMetric: map<string, seq<Rule>>)
    returns (ok: bool)
    requires Grouped(byMetric, rules)
    ensures ok <==> LatencyCovered(rules, histograms)
  {
    hide Grouped, EndsWith, Covered, SuffixCovered;
    SomeSuffix(byMetric, rules, "_p95");
    SomeSuffix(byMetric, rules, "_p99");
    var anyP95 := exists metric | metric in byMetric :: EndsWith(metric, "_p95");
    var anyP99 := exists metric | metric in byMetric :: EndsWith(metric, "_p99");
    var operation := CheckPercentiles(rules, byMetric, "operation_elapsed");
    var sample := CheckPercentiles(rules, byMetric, "sample_elapsed");
    var schedule := CheckPercentiles(rules, byMetric, "schedule_delay");
    ok := && anyP95 && anyP99 && ("operation_elapsed" in histograms ==> operation)
          && ("sample_elapsed" in histograms ==> sample) && schedule;
  }

  method CheckZeroes(rules: seq<Rule>, registry: map<string, Entry>, byMetric: map<string, seq<Rule>>)
    returns (ok: bool)
    requires Grouped(byMetric, rules)
    ensures ok <==> ZeroesCovered(rules, registry)
  {
    hide Grouped, ZeroMetrics, AnyZeroCeiling, Under;
    var todo := ZeroMetrics(registry);
    while todo != {}
      invariant todo <= ZeroMetrics(registry)
      invariant forall metric | metric in ZeroMetrics(registry) :: metric in todo || ZeroCovered(rules, metric)
      decreases |todo|
    {
      var metric :| metric in todo;
      GroupedCovers(byMetric, rules, metric);
      var covered := AnyZeroCeiling(Filed(byMetric, metric));
      if !covered {
        assert metric in ZeroMetrics(registry);
        return false;
      }
      todo := todo - {metric};
    }
    return true;
  }

  method CheckCoverage(c: Config, registry: map<string, Entry>, histograms: map<string, Histogram>,
                       byMetric: map<string, seq<Rule>>)
    returns (ok: bool)
    requires registry == Registry(c.metrics) && histograms == Dict(c.metrics.histograms, HistogramId)
    requires Grouped(byMetric, c.rules)
    ensures ok <==> RulesCover(c)
  {
    hide Registry, Dict, Grouped, LatencyCovered, ZeroesCovered, AnyFloor, Under;
    var latency := CheckLatency(c.rules, histograms, byMetric);
    var zeroes := CheckZeroes(c.rules, registry, byMetric);
    GroupedCovers(byMetric, c.rules, "throughput");
    GroupedCovers(byMetric, c.rules, "sample_count");
    var completion := CompletionMetric(registry.Keys);
    GroupedCovers(byMetric, c.rules, completion);
    var b := c.baselines;
    var completionFloor := AnyFloor(Filed(byMetric, completion), b.minimumCompletion);
    var sampleFloor := AnyFloor(Filed(byMetric, "sample_count"), b.minimumSamples);
    ok := latency && "throughput" in byMetric && "sample_count" in byMetric && zeroes && completionFloor && sampleFloor;
  }

  /** Accepts exactly the configurations whose rules are sound one by one and cover what they must. */
  method ValidateThresholds(c: Config) returns (r: Result<(), ThresholdError>)
    ensures r.Ok? <==> ConfigOk(c)
  {
    hide Unambiguous, Entries, Registry, Dict, RuleOk, RulesCover, Distinct, Grouped;
    var registered := MetricRegistry(c.metrics);
    if registered.Err? {
      return Err(registered.error);
    }
    var registry := registered.value;
    var histograms := Dict(c.metrics.histograms, HistogramId);
    if !BaselinesOk(c.baselines) || !(1 <= |c.rules| <= MAX_RULES) {
      return Err(BaselineOutOfReach);
    }
    var byMetric: map<string, seq<Rule>> := map[];
    var i := 0;
    NoneGrouped(c.rules);
    while i < |c.rules|
      invariant 0 <= i <= |c.rules|
      invariant forall k | 0 <= k < i :: RuleOk(c.rules[k], registry, histograms)
      invariant Grouped(byMetric, c.rules[..i])
    {
      var rule := c.rules[i];
      if !RuleOk(rule, registry, histograms) {
        return Err(BadRule);
      }
      GroupedNext(byMetric, c.rules, i);
      byMetric := byMetric[rule.metric := Filed(byMetric, rule.metric) + [rule]];
      i := i + 1;
    }
    assert c.rules[..i] == c.rules;
    var unique := DistinctIds(c.rules);
    if !unique {
      return Err(DuplicateId);
    }
    var covered := CheckCoverage(c, registry, histograms, byMetric);
    if !covered {
      return Err(UncoveredMetric);
    }
    if !WithinCapacity(c.baselines, c.capacity) {
      return Err(BaselineOutOfReach);
    }
    return Ok(());
  }
}
