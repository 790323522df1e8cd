/**
 A configuration that the gate accepts and a run can complete, and what one more rule does to it.
 */
module GateExample {
  import opened Prelude
  import opened ThresholdRules
  import opened EvidenceGate
  import opened Attainable

  // ---------- one more rule ----------

  function WithRule(c: Config, rule: Rule): (r: Config)
  {
    c.(rules := c.rules + [rule])
  }

  lemma UnderSnoc(rules: seq<Rule>, rule: Rule, metric: string)
    ensures Under(rules + [rule], metric) == Under(rules, metric) + if rule.metric == metric then [rule] else []
  {
    assert (rules + [rule])[..|rules|] == rules;
  }

  lemma AnyStays(rules: seq<Rule>, more: seq<Rule>, minimum: int)
    ensures AnyZeroCeiling(rules) ==> AnyZeroCeiling(rules + more)
    ensures AnyFloor(rules, minimum) ==> AnyFloor(rules + more, minimum)
  {
    hide IsZeroCeiling, IsFloor;
    if i :| 0 <= i < |rules| && IsZeroCeiling(rules[i]) { assert (rules + more)[i] == rules[i]; }
    if i :| 0 <= i < |rules| && IsFloor(rules[i], minimum) { assert (rules + more)[i] == rules[i]; }
  }

  lemma SuffixStays(rules: seq<Rule>, rule: Rule, suffix: string)
    ensures SuffixCovered(rules, suffix) ==> SuffixCovered(rules + [rule], suffix)
  {
    assert (rules + [rule])[..|rules|] == rules;
  }

  lemma MetricStays(rules: seq<Rule>, rule: Rule, metric: string, minimum: int)
    ensures Covered(rules, metric) ==> Covered(rules + [rule], metric)
    ensures ZeroCovered(rules, metric) ==> ZeroCovered(rules + [rule], metric)
    ensures FloorCovered(rules, metric, minimum) ==> FloorCovered(rules + [rule], metric, minimum)
  {
    hide Under, AnyZeroCeiling, AnyFloor;
    UnderSnoc(rules, rule, metric);
    AnyStays(Under(rules, metric), if rule.metric == metric then [rule] else [], minimum);
  }

  lemma PercentilesStay(rules: seq<Rule>, rule: Rule, histogram: string)
    ensures CoveredPercentiles(rules, histogram) ==> CoveredPercentiles(rules + [rule], histogram)
  {
    hide Covered;
    MetricStays(rules, rule, histogram + "_p95", 0);
    MetricStays(rules, rule, histogram + "_p99", 0);
  }

  lemma LatencyStays(rules: seq<Rule>, rule: Rule, histograms: map<string, Histogram>)
    ensures LatencyCovered(rules, histograms) ==> LatencyCovered(rules + [rule], histograms)
  {
    hide CoveredPercentiles, SuffixCovered;
    SuffixStays(rules, rule, "_p95");
    SuffixStays(rules, rule, "_p99");
    PercentilesStay(rules, rule, "operation_elapsed");
    PercentilesStay(rules, rule, "sample_elapsed");
    PercentilesStay(rules, rule, "schedule_delay");
  }

  /** What a rule list covers, a longer one covers. */
  lemma CoverStays(c: Config, rule: Rule)
    requires RulesCover(c)
    ensures RulesCover(WithRule(c, rule))
  {
    hide Covered, ZeroCovered, FloorCovered, LatencyCovered, Registry, Dict, ZeroMetrics;
    LatencyStays(c.rules, rule, Dict(c.metrics.histograms, HistogramId));
    MetricStays(c.rules, rule, "throughput", 0);
    MetricStays(c.rules, rule, "sample_count", c.baselines.minimumSamples);
    MetricStays(c.rules, rule, CompletionMetric(Registry(c.metrics).Keys), c.baselines.minimumCompletion);
    forall metric | metric in ZeroMetrics(Registry(c.metrics))
      ensures ZeroCovered(c.rules + [rule], metric)
    {
      MetricStays(c.rules, rule, metric, 0);
    }
  }

  /** An accepted configuration stays accepted with one more rule that is sound by itself and has a new identity. */
  lemma OneMoreRule(c: Config, rule: Rule)
    requires ConfigOk(c) && |c.rules| < MAX_RULES
    requires RuleOk(rule, Registry(c.metrics), Dict(c.metrics.histograms, HistogramId))
    requires forall i | 0 <= i < |c.rules| :: c.rules[i].id != rule.id
    ensures ConfigOk(WithRule(c, rule))
  {
    hide RuleOk, Registry, Dict, RulesCover, Unambiguous, Entries;
    CoverStays(c, rule);
    var more := WithRule(c, rule);
    forall i, j | 0 <= i < j < |more.rules|
      ensures RuleId(more.rules[i]) != RuleId(more.rules[j])
    {
      if j < |c.rules| { assert RuleId(c.rules[i]) != RuleId(c.rules[j]); }
    }
  }

  /** No dropped result is less than none. */
  function BelowZero(c: Config, id: string): (rule: Rule)
  {
    Rule(id, "results_dropped", Below, 0.0,
         if "results_dropped" in Registry(c.metrics) then Registry(c.metrics)["results_dropped"].unit else "", WholeRun)
  }

  lemma RuleIsDeclared(c: Config, i: nat)
    requires RulesOk(c) && i < |c.rules|
    ensures c.rules[i].metric in Registry(c.metrics) && IsMetricPath(c.rules[i].metric)
  {
    hide Registry, Dict, Distinct, Percentile, CountsTrouble, IsId, IsMetricPath;
    assert RuleOk(c.rules[i], Registry(c.metrics), Dict(c.metrics.histograms, HistogramId));
  }

  lemma DroppedIsDeclared(c: Config)
    requires ConfigOk(c)
    ensures "results_dropped" in Registry(c.metrics) && IsMetricPath("results_dropped")
  {
    hide IsMetricPath, Registry, Dict, Unambiguous, Under, RuleOk, LatencyCovered, FloorCovered;
    assert ZeroCovered(c.rules, "results_dropped");
    UnderMeans(c.rules, "results_dropped");
    var i :| 0 <= i < |Under(c.rules, "results_dropped")| && IsZeroCeiling(Under(c.rules, "results_dropped")[i]);
    var rule := Under(c.rules, "results_dropped")[i];
    assert rule in Under(c.rules, "results_dropped");
    var j :| 0 <= j < |c.rules| && c.rules[j] == rule;
    RuleIsDeclared(c, j);
  }

  /**
   Every accepted configuration, with a rule that asks for fewer than no dropped results, is
   still accepted, and no run can complete it.
   */
  lemma BelowZeroIsAccepted(c: Config, id: string)
    requires ConfigOk(c) && |c.rules| < MAX_RULES
    requires IsId(id) && forall i | 0 <= i < |c.rules| :: c.rules[i].id != id
    ensures ConfigOk(WithRule(c, BelowZero(c, id))) && !Completable(WithRule(c, BelowZero(c, id)))
  {
    hide ConfigOk, Registry, Dict, Accepted, IsId, IsMetricPath;
    var rule := BelowZero(c, id);
    DroppedIsDeclared(c);
    NamesAreObservations("results_dropped");
    assert RuleOk(rule, Registry(c.metrics), Dict(c.metrics.histograms, HistogramId));
    OneMoreRule(c, rule);
    forall e ensures !(Accepted(WithRule(c, rule), e) && e.status.RunCompleted?) {
      BelowZeroNeverCompletes(WithRule(c, rule), e, rule);
    }
  }

  // ---------- a configuration that a run can complete ----------

  const DELAY := Histogram("schedule_delay", "nanoseconds", [95.0, 99.0])

  const METRICS := Metrics(
    [DELAY],
    ["samples_failed", "results_dropped", "queue_overflows", "samples_completed"],
    [Entry("schedule_delay_p95", "nanoseconds"), Entry("schedule_delay_p99", "nanoseconds"),
     Entry("throughput", "operations-per-second"), Entry("sample_count", "count")],
    [Entry("cpu_time_ns", "nanoseconds"), Entry("allocation_bytes", "bytes")])

  const RULES := [
    Rule("a-1", "schedule_delay_p95", AtMost, 1.0, "nanoseconds", WholeRun),
    Rule("b-1", "schedule_delay_p99", AtMost, 1.0, "nanoseconds", WholeRun),
    Rule("c-1", "throughput", AtLeast, 1.0, "operations-per-second", WholeRun),
    Rule("d-1", "sample_count", AtLeast, 1.0, "count", WholeRun),
    Rule("e-1", "samples_failed", Equals, 0.0, "count", WholeRun),
    Rule("f-1", "results_dropped", Equals, 0.0, "count", WholeRun),
    Rule("g-1", "queue_overflows", Equals, 0.0, "count", WholeRun),
    Rule("h-1", "samples_completed", AtLeast, 1.0, "count", WholeRun)]

  const CONFIG := Config(METRICS, Baselines(1, 1, 1), RULES, None)

  /** The identities, in the order they are registered. */
  function Listing(): (es: seq<Entry>)
  {
    [Entry("schedule_delay", "nanoseconds"), Entry("samples_failed", "count"), Entry("results_dropped", "count"),
     Entry("queue_overflows", "count"), Entry("samples_completed", "count"), Entry("schedule_delay_p95", "nanoseconds"),
     Entry("schedule_delay_p99", "nanoseconds"), Entry("throughput", "operations-per-second"),
     Entry("sample_count", "count"), Entry("cpu_time_ns", "nanoseconds"), Entry("allocation_bytes", "bytes")]
  }

  /** A name is told from the others by its length and a letter. */
  function Position(name: string): (i: int)
  {
    match |name|
    case 14 => if name[1] == 'c' then 0 else 1
    case 15 => if name[0] == 'r' then 2 else 3
    case 17 => 4
    case 18 => if name[17] == '5' then 5 else 6
    case 10 => 7
    case 12 => 8
    case 11 => 9
    case 16 => 10
    case _ => -1
  }

  lemma Positioned(i: nat)
    requires i < |Listing()|
    ensures Position(Listing()[i].id) == i
  {
  }

  lemma Listed()
    ensures Entries(METRICS) == Listing() && |Listing()| == 11 && Listing()[0].id == "schedule_delay"
    ensures Distinct(Listing(), EntryId)
  {
    assert HistogramEntries(METRICS.histograms) == Listing()[..1];
    assert CounterEntries(METRICS.counters) == Listing()[1..5];
    forall i, j | 0 <= i < j < |Listing()| ensures EntryId(Listing()[i]) != EntryId(Listing()[j]) {
      Positioned(i);
      Positioned(j);
    }
  }

  lemma DelayPercentiles()
    ensures Percentile("schedule_delay_p95") == Some(("schedule_delay", 95))
    ensures Percentile("schedule_delay_p99") == Some(("schedule_delay", 99))
  {
    var p95, p99 := "schedule_delay_p95", "schedule_delay_p99";
    assert p95[14..] == "_p95" && p95[..14] == "schedule_delay";
    assert p99[14..] == "_p99" && p99[..14] == "schedule_delay";
    LastOf(p99, "_p95");
  }

  /** What the last letters of a name rule out. */
  lemma Letters(name: string)
    requires name != []
    ensures name[|name| - 1] != '5' && name[|name| - 1] != '9' ==> Percentile(name).None?
    ensures EndsWith(name, "_failed") ==> |name| >= 7 && name[|name| - 1] == 'd' && name[|name| - 3] == 'l'
  {
    LastOf(name, "_p95");
    LastOf(name, "_p99");
    if EndsWith(name, "_failed") {
      assert name[|name| - 7..][6] == name[|name| - 1] && name[|name| - 7..][4] == name[|name| - 3];
    }
  }

  /** What the validators look for in the listed names. */
  lemma Name(i: nat)
    requires i < |Listing()|
    ensures var name := Listing()[i].id;
            && name != "operations_completed" && (EndsWith(name, "_failed") ==> i == 1)
            && Percentile(name) == if i == 5 then Some(("schedule_delay", 95))
                                   else if i == 6 then Some(("schedule_delay", 99)) else None
  {
    hide EndsWith, Percentile;
    DelayPercentiles();
    Letters(Listing()[i].id);
  }

  lemma Registered()
    ensures Unambiguous(METRICS, |Entries(METRICS)|) && |Registry(METRICS).Keys| == |Listing()|
    ensures forall i | 0 <= i < |Listing()| ::
              Listing()[i].id in Registry(METRICS) && Registry(METRICS)[Listing()[i].id] == Listing()[i]
    ensures forall name | name in Registry(METRICS) :: exists i :: 0 <= i < |Listing()| && Listing()[i].id == name
  {
    hide Dict, Listing, Entries;
    Listed();
    DictExactly(Listing(), EntryId);
    DictSize(Listing(), EntryId);
  }

  lemma DelayDeclared()
    ensures var histograms := Dict(METRICS.histograms, HistogramId);
            && histograms.Keys == {"schedule_delay"} && histograms["schedule_delay"] == DELAY
            && "operation_elapsed" !in histograms && "sample_elapsed" !in histograms
  {
    assert METRICS.histograms[..0] == [];
    assert |"operation_elapsed"| == 17 && "sample_elapsed"[1] != "schedule_delay"[1];
  }

  /** Where in the listing a rule's metric stands. */
  function Place(j: nat): (i: nat)
    requires j < |RULES|
    ensures 0 < i < |Listing()| && Listing()[i] == Entry(RULES[j].metric, RULES[j].unit)
  {
    if j < 4 then 5 + j else j - 3
  }

  lemma RuleHasId(j: nat)
    requires j < |RULES|
    ensures IsId(RULES[j].id)
  {
  }

  lemma RuleHasPath(j: nat)
    requires j < |RULES|
    ensures IsMetricPath(RULES[j].metric)
  {
  }

  lemma RuleIsSound(j: nat)
    requires j < |RULES|
    ensures RuleOk(RULES[j], Registry(METRICS), Dict(METRICS.histograms, HistogramId))
  {
    hide Registry, Dict, Percentile, CountsTrouble, EndsWith, IsId, IsMetricPath;
    RuleHasId(j);
    RuleHasPath(j);
    Registered();
    Name(Place(j));
    DelayDeclared();
    assert 95.0 in DELAY.percentiles && 99.0 in DELAY.percentiles;
  }

  lemma RulesAreSound()
    ensures RulesOk(CONFIG)
  {
    hide RuleOk, Registry, Dict;
    forall j | 0 <= j < |RULES|
      ensures RuleOk(CONFIG.rules[j], Registry(METRICS), Dict(METRICS.histograms, HistogramId))
    {
      RuleIsSound(j);
    }
    assert forall j | 0 <= j < |RULES| :: RULES[j].id[0] as int == 'a' as int + j;
  }

  /** A rule of the list is filed under its metric. */
  lemma RuleCovers(j: nat)
    requires j < |RULES|
    ensures Covered(RULES, RULES[j].metric)
    ensures IsZeroCeiling(RULES[j]) ==> ZeroCovered(RULES, RULES[j].metric)
    ensures IsFloor(RULES[j], 1) ==> FloorCovered(RULES, RULES[j].metric, 1)
  {
    hide Under, IsZeroCeiling, IsFloor;
    UnderMeans(RULES, RULES[j].metric);
    assert RULES[j] in RULES;
    var i :| 0 <= i < |Under(RULES, RULES[j].metric)| && Under(RULES, RULES[j].metric)[i] == RULES[j];
  }

  lemma LatencyIsCovered()
    ensures LatencyCovered(RULES, Dict(METRICS.histograms, HistogramId))
  {
    hide Dict, SuffixCovered, Covered;
    RuleCovers(0);
    RuleCovers(1);
    DelayDeclared();
    var p95, p99 := RULES[0].metric, RULES[1].metric;
    assert p95 == "schedule_delay" + "_p95" && p99 == "schedule_delay" + "_p99";
    assert EndsWith(p95, "_p95") && EndsWith(p99, "_p99");
    SuffixMeans(RULES, "_p95");
    SuffixMeans(RULES, "_p99");
    assert RULES[0] in RULES && RULES[1] in RULES;
  }

  lemma ZeroesAreCovered()
    ensures ZeroesCovered(RULES, Registry(METRICS))
  {
    hide Registry, ZeroCovered, EndsWith, Percentile;
    RuleCovers(4);
    RuleCovers(5);
    RuleCovers(6);
    forall metric | metric in ZeroMetrics(Registry(METRICS))
      ensures ZeroCovered(RULES, metric)
    {
      if metric in Registry(METRICS) && EndsWith(metric, "_failed") {
        Registered();
        var i :| 0 <= i < |Listing()| && Listing()[i].id == metric;
        Name(i);
      }
    }
  }

  /** What the observations of a run are about: everything listed but the histogram. */
  lemma Scalars()
    ensures forall i | 0 < i < |Listing()| :: Listing()[i].id in Scalar(METRICS)
    ensures forall name | name in Scalar(METRICS) :: exists i :: 0 <= i < |Listing()| && Listing()[i].id == name
    ensures "operations_completed" !in Registry(METRICS)
  {
    hide Registry, Listing, EndsWith, Percentile;
    Registered();
    Listed();
    assert forall i | 0 < i < |Listing()| :: EntryId(Listing()[0]) != EntryId(Listing()[i]);
    forall i | 0 <= i < |Listing()| ensures Listing()[i].id != "operations_completed" { Name(i); }
  }

  /** The validator accepts the configuration. */
  lemma ConfigIsAccepted()
    ensures ConfigOk(CONFIG)
  {
    hide Unambiguous, Entries, RulesOk, LatencyCovered, ZeroesCovered, FloorCovered, Covered, Registry, Dict;
    Registered();
    Scalars();
    RulesAreSound();
    LatencyIsCovered();
    ZeroesAreCovered();
    RuleCovers(2);
    RuleCovers(3);
    RuleCovers(7);
  }

  // ---------- its observations ----------

  lemma SetSize<T>(a: set<T>, b: set<T>)
    requires a <= b
    ensures |a| <= |b|
    decreases a
  {
    if a != {} {
      var x :| x in a;
      SetSize(a - {x}, b - {x});
    }
  }

  lemma SummaryIsDeclared()
    ensures SummaryDeclared(METRICS)
  {
    hide Scalar, Registry;
    Scalars();
    assert forall i | 0 < i < 11 :: Listing()[i].id in Scalar(METRICS);
    assert Listing()[1].id == "samples_failed" && Listing()[4].id == "samples_completed";
    assert Listing()[2].id == "results_dropped" && Listing()[3].id == "queue_overflows";
    assert Listing()[7].id == "throughput" && Listing()[8].id == "sample_count";
    assert Listing()[9].id == "cpu_time_ns" && Listing()[10].id == "allocation_bytes";
  }

  lemma MetricsCollectable()
    ensures Collectable(METRICS)
  {
    hide Registry, Percentile, Dict, SummaryDeclared, Listing, EndsWith, Distinct, Unambiguous, Entries;
    Listed();
    Registered();
    Scalars();
    SummaryIsDeclared();
    DelayDeclared();
    SetSize(Scalar(METRICS), Registry(METRICS).Keys);
    assert Listing()[1].id in Scalar(METRICS);
    forall metric | metric in Scalar(METRICS) && Percentile(metric).Some?
      ensures Percentile(metric).value.0 in DeclaredHistograms(METRICS)
    {
      var i :| 0 <= i < |Listing()| && Listing()[i].id == metric;
      Name(i);
    }
  }

  /** A value that every rule of a metric accepts. */
  function Suitable(metric: string): (v: real)
  {
    if metric in {"throughput", "sample_count", "samples_completed"} then 1.0 else 0.0
  }

  lemma SuitableHolds(j: nat)
    requires j < |RULES|
    ensures Holds(RULES[j].operator, Suitable(RULES[j].metric), RULES[j].value)
  {
  }

  lemma SuitableIsPermitted(metric: string)
    ensures Permitted(METRICS, metric, Suitable(metric))
  {
    hide IsCount;
    var v := Suitable(metric);
    assert v.Floor as real == v;
  }

  lemma SuitableIsCommon(metric: string)
    ensures Agreed(CONFIG, metric)
  {
    hide Under, Permitted, Holds, Suitable, Agreed;
    var v := Suitable(metric);
    UnderMeans(RULES, metric);
    forall i | 0 <= i < |Under(RULES, metric)|
      ensures Holds(Under(RULES, metric)[i].operator, v, Under(RULES, metric)[i].value)
    {
      var rule := Under(RULES, metric)[i];
      assert rule in Under(RULES, metric);
      var j :| 0 <= j < |RULES| && RULES[j] == rule;
      SuitableHolds(j);
    }
    SuitableIsPermitted(metric);
    assert Common(CONFIG, metric, v);
    CommonIsDecided(CONFIG, metric);
  }

  /** Some run completes it. */
  lemma ConfigIsCompletable()
    ensures ConfigOk(CONFIG) && Completable(CONFIG)
  {
    hide ConfigOk, Completable, Collectable, Agreed, Registry, Scalar, Percentile, EndsWith;
    ConfigIsAccepted();
    MetricsCollectable();
    Scalars();
    forall metric: string ensures Agreed(CONFIG, metric) { SuitableIsCommon(metric); }
    forall j | 0 <= j < |RULES| ensures RuleReachable(CONFIG.rules[j], METRICS) { Name(Place(j)); }
    CompletableExactly(CONFIG);
  }

  /** One more rule, and none does. */
  lemma ConfigIsSpoiled()
    ensures var spoiled := WithRule(CONFIG, BelowZero(CONFIG, "z-1")); ConfigOk(spoiled) && !Completable(spoiled)
  {
    hide ConfigOk, Completable, BelowZero;
    ConfigIsAccepted();
    assert forall j | 0 <= j < |RULES| :: RULES[j].id[0] != 'z';
    BelowZeroIsAccepted(CONFIG, "z-1");
  }
}
