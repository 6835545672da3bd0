/**
 * Metric collections: the counters and the gauges of a service, each kind a
 * map from metric name to metric, with names kept unique within a kind by the
 * map and across the two kinds by the checks of `MetricCollection`.
 *
 * A `MetricKindCollection` is a value owned by its `MetricCollection`; its
 * in-place updates are functions returning the updated collection, and its two
 * looping operations (`new` and `merge`) are methods returning the result.
 * `MetricCollection` is a class whose two fields its methods update.
 */
module MetricCollections {
  import opened Wrappers
  import opened Counters
  import opened Labels
  import opened MetricNames
  import Samples
  import SampleCollections
  import Metrics

  type Metric<T> = Metrics.Metric<T>
  type Gauge = Samples.Gauge
  type Timestamp = Samples.Timestamp

  datatype Error =
    | MetricNameCollisionInConstructor(counterNames: set<string>, gaugeNames: set<string>)
    | DuplicateMetricNameInList(metricName: MetricName)
    | MetricNameCollisionInMerge(metricName: MetricName)
    | MetricNameCollisionAdding(metricName: MetricName)

  /** The texts of a set of names (`to_string` of each). */
  function NameTexts(names: set<MetricName>): set<string>
  {
    set n | n in names :: n.name
  }

  datatype MetricKindCollection<T> = MetricKindCollection(metrics: map<MetricName, Metric<T>>)
  {
    /** Every metric is stored under its own name, and its samples are keyed uniquely. */
    ghost predicate Valid()
    {
      forall n :: n in metrics ==> metrics[n].name == n && metrics[n].Valid()
    }

    /** `names`. */
    function Names(): set<MetricName>
    {
      metrics.Keys
    }

    /** `insert`: the metric is stored under its name, replacing any metric of that name. */
    function Insert(metric: Metric<T>): (r: MetricKindCollection<T>)
      ensures r.Names() == Names() + {metric.name}
      ensures r.metrics[metric.name] == metric
      ensures forall n :: n in metrics && n != metric.name ==> r.metrics[n] == metrics[n]
      ensures Valid() && metric.Valid() ==> r.Valid()
    {
      MetricKindCollection(metrics[metric.name := metric])
    }

    /** `insert_if_absent`: a metric already stored under the name is never overwritten. */
    function InsertIfAbsent(metric: Metric<T>): (r: MetricKindCollection<T>)
      ensures metric.name in metrics ==> r == this
      ensures metric.name !in metrics ==> r == Insert(metric)
      ensures r.Names() == Names() + {metric.name}
      ensures Valid() && metric.Valid() ==> r.Valid()
    {
      if metric.name in metrics then this else Insert(metric)
    }

    /** `get_value`: the value of the named metric's sample for the label set, if both exist. */
    function GetValue(name: MetricName, labelSet: LabelSet): (r: Option<T>)
      ensures r.Some? <==> name in metrics && metrics[name].GetSampleData(labelSet).Some?
      ensures r.Some? ==> r.value == metrics[name].GetSampleData(labelSet).value.value
    {
      if name in metrics then
        match metrics[name].GetSampleData(labelSet)
        case Some(m) => Some(m.value)
        case None => None
      else None
    }
  }

  /** `MetricKindCollection::default()`. */
  function EmptyKind<T>(): (r: MetricKindCollection<T>)
    ensures r.Valid() && r.Names() == {}
  {
    MetricKindCollection(map[])
  }

  /**
   * Storing, under `name`, an update of the metric there (or of a new empty
   * one) that changes one label set leaves every other (name, label set)
   * value as it was.
   */
  lemma StoreUpdated<T>(c: MetricKindCollection<T>, name: MetricName, labelSet: LabelSet, m: Metric<T>)
    requires forall ls :: ls != labelSet ==>
               m.GetSampleData(ls) == c.InsertIfAbsent(Metrics.NewEmptyWithName(name)).metrics[name].GetSampleData(ls)
    ensures var c1 := c.InsertIfAbsent(Metrics.NewEmptyWithName(name));
            forall n, ls :: n != name || ls != labelSet ==> c1.(metrics := c1.metrics[name := m]).GetValue(n, ls) == c.GetValue(n, ls)
  {
    var e := Metrics.NewEmptyWithName<T>(name);
    var c1 := c.InsertIfAbsent(e);
    var r := c1.(metrics := c1.metrics[name := m]);
    forall n, ls | n != name || ls != labelSet ensures r.GetValue(n, ls) == c.GetValue(n, ls) {
      if n == name {
        if name !in c.metrics {
          assert e.IsEmpty();
          assert e.GetSampleData(ls).None?;
        }
      } else if n in c.metrics {
        assert r.metrics[n] == c1.metrics[n] == c.metrics[n];
      }
    }
  }

  /**
   * `MetricKindCollection<Counter>::increment`: the named metric is created if
   * absent, and its sample for the label set goes up by one (starting at 1);
   * every other (name, label set) keeps its value.
   */
  function IncrementCounterIn(c: MetricKindCollection<Counter>, name: MetricName, labelSet: LabelSet, time: Timestamp)
    : (r: MetricKindCollection<Counter>)
    ensures r.Names() == c.Names() + {name}
    ensures c.Valid() ==> r.Valid()
    ensures r.GetValue(name, labelSet) ==
            Some(if c.GetValue(name, labelSet).Some? then c.GetValue(name, labelSet).value.Increment(1) else Counter(1))
    ensures forall n, ls :: n != name || ls != labelSet ==> r.GetValue(n, ls) == c.GetValue(n, ls)
    ensures name in c.metrics ==> r.metrics[name].unit == c.metrics[name].unit
                                  && r.metrics[name].description == c.metrics[name].description
  {
    assert Metrics.NewEmptyWithName<Counter>(name).IsEmpty();
    var c1 := c.InsertIfAbsent(Metrics.NewEmptyWithName(name));
    var m := Metrics.IncrementCounter(c1.metrics[name], labelSet, time);
    StoreUpdated(c, name, labelSet, m);
    c1.(metrics := c1.metrics[name := m])
  }

  /**
   * `MetricKindCollection<Counter>::absolute`: the named metric is created if
   * absent, and its sample for the label set holds `v`; every other (name,
   * label set) keeps its value.
   */
  function AbsoluteCounterIn(c: MetricKindCollection<Counter>, name: MetricName, labelSet: LabelSet, v: U64, time: Timestamp)
    : (r: MetricKindCollection<Counter>)
    ensures r.Names() == c.Names() + {name}
    ensures c.Valid() ==> r.Valid()
    ensures r.GetValue(name, labelSet) == Some(Counter(v))
    ensures forall n, ls :: n != name || ls != labelSet ==> r.GetValue(n, ls) == c.GetValue(n, ls)
  {
    var c1 := c.InsertIfAbsent(Metrics.NewEmptyWithName(name));
    var m := Metrics.AbsoluteCounter(c1.metrics[name], labelSet, v, time);
    StoreUpdated(c, name, labelSet, m);
    c1.(metrics := c1.metrics[name := m])
  }

  /** `MetricKindCollection<Gauge>::set`. */
  function SetGaugeIn(c: MetricKindCollection<Gauge>, name: MetricName, labelSet: LabelSet, v: real, time: Timestamp)
    : (r: MetricKindCollection<Gauge>)
    ensures r.Names() == c.Names() + {name}
    ensures c.Valid() ==> r.Valid()
    ensures r.GetValue(name, labelSet) == Some(Samples.Gauge(v))
    ensures forall n, ls :: n != name || ls != labelSet ==> r.GetValue(n, ls) == c.GetValue(n, ls)
  {
    var c1 := c.InsertIfAbsent(Metrics.NewEmptyWithName(name));
    var m := Metrics.SetGauge(c1.metrics[name], labelSet, v, time);
    StoreUpdated(c, name, labelSet, m);
    c1.(metrics := c1.metrics[name := m])
  }

  /** `MetricKindCollection<Gauge>::increment`: one more, starting from 0.0. */
  function IncrementGaugeIn(c: MetricKindCollection<Gauge>, name: MetricName, labelSet: LabelSet, time: Timestamp)
    : (r: MetricKindCollection<Gauge>)
    ensures r.Names() == c.Names() + {name}
    ensures c.Valid() ==> r.Valid()
    ensures r.GetValue(name, labelSet).Some?
    ensures r.GetValue(name, labelSet).value.value == c.GetValue(name, labelSet).GetOr(Samples.GaugeZero()).value + 1.0
    ensures forall n, ls :: n != name || ls != labelSet ==> r.GetValue(n, ls) == c.GetValue(n, ls)
  {
    assert Metrics.NewEmptyWithName<Gauge>(name).IsEmpty();
    var c1 := c.InsertIfAbsent(Metrics.NewEmptyWithName(name));
    var m := Metrics.IncrementGauge(c1.metrics[name], labelSet, time);
    StoreUpdated(c, name, labelSet, m);
    c1.(metrics := c1.metrics[name := m])
  }

  /** `MetricKindCollection<Gauge>::decrement`: one less, starting from 0.0. */
  function DecrementGaugeIn(c: MetricKindCollection<Gauge>, name: MetricName, labelSet: LabelSet, time: Timestamp)
    : (r: MetricKindCollection<Gauge>)
    ensures r.Names() == c.Names() + {name}
    ensures c.Valid() ==> r.Valid()
    ensures r.GetValue(name, labelSet).Some?
    ensures r.GetValue(name, labelSet).value.value == c.GetValue(name, labelSet).GetOr(Samples.GaugeZero()).value - 1.0
    ensures forall n, ls :: n != name || ls != labelSet ==> r.GetValue(n, ls) == c.GetValue(n, ls)
  {
    assert Metrics.NewEmptyWithName<Gauge>(name).IsEmpty();
    var c1 := c.InsertIfAbsent(Metrics.NewEmptyWithName(name));
    var m := Metrics.DecrementGauge(c1.metrics[name], labelSet, time);
    StoreUpdated(c, name, labelSet, m);
    c1.(metrics := c1.metrics[name := m])
  }

  /** Two increments of a counter that does not exist yet leave it at 2. */
  lemma IncrementTwiceFromScratch(c: MetricKindCollection<Counter>, name: MetricName, labelSet: LabelSet,
                                  t1: Timestamp, t2: Timestamp)
    requires name !in c.metrics
    ensures IncrementCounterIn(IncrementCounterIn(c, name, labelSet, t1), name, labelSet, t2).GetValue(name, labelSet)
            == Some(Counter(2))
  {
    var c1 := IncrementCounterIn(c, name, labelSet, t1);
    assert c1.GetValue(name, labelSet) == Some(Counter(1));
    assert Counter(1).Increment(1) == Counter(2);
  }

  /** No two metrics of the list share a name. */
  predicate DistinctNames<T>(metrics: seq<Metric<T>>)
  {
    forall i, j :: 0 <= i < j < |metrics| ==> metrics[i].name != metrics[j].name
  }

  /**
   * `MetricKindCollection::new`: the metrics keyed by name, or
   * `DuplicateMetricNameInList` naming the first name that repeats.
   */
  method NewKindCollection<T>(metrics: seq<Metric<T>>) returns (r: Result<MetricKindCollection<T>, Error>)
    ensures r.Ok? <==> DistinctNames(metrics)
    ensures r.Ok? ==> r.value.Names() == set i | 0 <= i < |metrics| :: metrics[i].name
    ensures r.Ok? ==> forall i :: 0 <= i < |metrics| ==> r.value.metrics[metrics[i].name] == metrics[i]
    ensures r.Ok? && (forall i :: 0 <= i < |metrics| ==> metrics[i].Valid()) ==> r.value.Valid()
    ensures r.Err? ==> exists j :: 0 <= j < |metrics| && r.error == DuplicateMetricNameInList(metrics[j].name)
                          && DistinctNames(metrics[..j])
                          && exists i :: 0 <= i < j && metrics[i].name == metrics[j].name
  {
    var m: map<MetricName, Metric<T>> := map[];
    for j := 0 to |metrics|
      invariant m.Keys == set i | 0 <= i < j :: metrics[i].name
      invariant forall i :: 0 <= i < j ==> m[metrics[i].name] == metrics[i]
      invariant DistinctNames(metrics[..j])
    {
      var metricName := metrics[j].name;
      if metricName in m {
        var i :| 0 <= i < j && metrics[i].name == metricName;
        assert !DistinctNames(metrics);
        return Err(DuplicateMetricNameInList(metricName));
      }
      assert forall i :: 0 <= i < j ==> metrics[..j + 1][i] == metrics[..j][i];
      m := m[metricName := metrics[j]];
    }
    assert metrics[..|metrics|] == metrics;
    r := Ok(MetricKindCollection(m));
  }

  /**
   * `check_for_name_collision`: fails with `MetricNameCollisionInMerge`
   * naming a metric present in both collections, if there is one.
   */
  method CheckForNameCollision<T>(self: MetricKindCollection<T>, other: MetricKindCollection<T>) returns (r: Result<(), Error>)
    ensures r.Ok? <==> self.Names() !! other.Names()
    ensures r.Err? ==> r.error.MetricNameCollisionInMerge? && r.error.metricName in self.Names() * other.Names()
  {
    var remaining := other.metrics.Keys;
    while remaining != {}
      invariant remaining <= other.metrics.Keys
      invariant forall n :: n in other.metrics.Keys - remaining ==> n !in self.metrics
      decreases remaining
    {
      var n :| n in remaining;
      if n in self.metrics {
        return Err(MetricNameCollisionInMerge(n));
      }
      remaining := remaining - {n};
    }
    return Ok(());
  }

  /** The entries of `m` whose names are in `names`. */
  function Restrict<T>(m: map<MetricName, Metric<T>>, names: set<MetricName>): (r: map<MetricName, Metric<T>>)
    ensures r.Keys == m.Keys * names
    ensures forall n :: n in r ==> r[n] == m[n]
  {
    map n | n in m && n in names :: m[n]
  }

  /** Adding one more entry of `other` to a partial merge. */
  lemma MergeStep<T>(base: map<MetricName, Metric<T>>, other: map<MetricName, Metric<T>>, done: set<MetricName>, n: MetricName)
    requires n in other
    ensures (base + Restrict(other, done))[n := other[n]] == base + Restrict(other, done + {n})
  {
  }

  /** A finished merge holds every entry of `other`. */
  lemma MergeDone<T>(base: map<MetricName, Metric<T>>, other: map<MetricName, Metric<T>>)
    ensures base + Restrict(other, other.Keys) == base + other
  {
    assert Restrict(other, other.Keys) == other;
  }

  /** The union of two well-formed kind collections is well formed, and holds both name sets. */
  lemma UnionValid<T>(a: MetricKindCollection<T>, b: MetricKindCollection<T>)
    ensures MetricKindCollection(a.metrics + b.metrics).Names() == a.Names() + b.Names()
    ensures a.Valid() && b.Valid() ==> MetricKindCollection(a.metrics + b.metrics).Valid()
  {
  }

  /** The insertion loop of `merge`: every entry of `other` is stored, over those of `base`. */
  method InsertAll<T>(base: map<MetricName, Metric<T>>, other: map<MetricName, Metric<T>>) returns (acc: map<MetricName, Metric<T>>)
    ensures acc == base + other
  {
    acc := base;
    var remaining := other.Keys;
    ghost var done: set<MetricName> := {};
    assert Restrict(other, done) == map[];
    while remaining != {}
      invariant remaining <= other.Keys
      invariant done == other.Keys - remaining
      invariant acc == base + Restrict(other, done)
      decreases remaining
    {
      var n :| n in remaining;
      MergeStep(base, other, done, n);
      acc := acc[n := other[n]];
      remaining := remaining - {n};
      done := done + {n};
    }
    MergeDone(base, other);
  }

  /**
   * `MetricKindCollection::merge`: on a name collision nothing is merged;
   * otherwise every metric of `other` is added.
   */
  method MergeKind<T>(self: MetricKindCollection<T>, other: MetricKindCollection<T>) returns (r: Result<MetricKindCollection<T>, Error>)
    ensures r.Ok? <==> self.Names() !! other.Names()
    ensures r.Err? ==> r.error.MetricNameCollisionInMerge? && r.error.metricName in self.Names() * other.Names()
    ensures r.Ok? ==> r.value.metrics == self.metrics + other.metrics
    ensures r.Ok? ==> r.value.Names() == self.Names() + other.Names()
    ensures r.Ok? && self.Valid() && other.Valid() ==> r.value.Valid()
  {
    var check := CheckForNameCollision(self, other);
    if check.Err? {
      return Err(check.error);
    }
    var acc := InsertAll(self.metrics, other.metrics);
    UnionValid(self, other);
    return Ok(MetricKindCollection(acc));
  }

  /** `MetricCollection`: the counters and the gauges. */
  class MetricCollection {
    var counters: MetricKindCollection<Counter>
    var gauges: MetricKindCollection<Gauge>

    /** Both kinds are well formed. */
    ghost predicate Valid()
      reads this
    {
      counters.Valid() && gauges.Valid()
    }

    /** No name is both a counter and a gauge. */
    ghost predicate NamesDisjoint()
      reads this
    {
      counters.Names() !! gauges.Names()
    }

    /** `MetricCollection::default()`. */
    constructor ()
      ensures counters == EmptyKind() && gauges == EmptyKind()
      ensures Valid() && NamesDisjoint()
    {
      counters := EmptyKind();
      gauges := EmptyKind();
    }

    constructor Of(counters: MetricKindCollection<Counter>, gauges: MetricKindCollection<Gauge>)
      ensures this.counters == counters && this.gauges == gauges
    {
      this.counters := counters;
      this.gauges := gauges;
    }

    /**
     * `MetricCollection::new`: refuses two kind collections that share a name,
     * reporting the names of both.
     */
    static method New(counters: MetricKindCollection<Counter>, gauges: MetricKindCollection<Gauge>)
      returns (r: Result<MetricCollection, Error>)
      ensures r.Ok? <==> counters.Names() !! gauges.Names()
      ensures r.Ok? ==> fresh(r.value) && r.value.counters == counters && r.value.gauges == gauges
                        && r.value.NamesDisjoint()
      ensures r.Err? ==> r.error == MetricNameCollisionInConstructor(NameTexts(counters.Names()), NameTexts(gauges.Names()))
    {
      var counterNames := counters.Names();
      var gaugeNames := gauges.Names();
      if !(counterNames !! gaugeNames) {
        return Err(MetricNameCollisionInConstructor(NameTexts(counterNames), NameTexts(gaugeNames)));
      }
      var c := new MetricCollection.Of(counters, gauges);
      return Ok(c);
    }

    /** `collect_names`: the names of both kinds. */
    function CollectNames(): set<MetricName>
      reads this
    {
      counters.Names() + gauges.Names()
    }

    /**
     * `check_cross_type_collision`: fails with `MetricNameCollisionInMerge`
     * naming a metric, of either kind, that both collections hold.
     */
    method CheckCrossTypeCollision(other: MetricCollection) returns (r: Result<(), Error>)
      ensures r.Ok? <==> CollectNames() !! other.CollectNames()
      ensures r.Err? ==> r.error.MetricNameCollisionInMerge? && r.error.metricName in CollectNames() * other.CollectNames()
    {
      var common := CollectNames() * other.CollectNames();
      if common != {} {
        var name :| name in common;
        return Err(MetricNameCollisionInMerge(name));
      }
      assert forall n :: n in CollectNames() ==> n !in other.CollectNames() by {
        forall n | n in CollectNames() ensures n !in other.CollectNames() {
          assert n !in common;
        }
      }
      return Ok(());
    }

    /**
     * `merge`: fails, changing nothing, when the two collections share any
     * name; otherwise both kinds of `other` are added.
     */
    method Merge(other: MetricCollection) returns (r: Result<(), Error>)
      requires other != this
      modifies this
      ensures r.Ok? <==> old(CollectNames()) !! other.CollectNames()
      ensures r.Err? ==> r.error.MetricNameCollisionInMerge? && r.error.metricName in old(CollectNames()) * other.CollectNames()
      ensures r.Err? ==> counters == old(counters) && gauges == old(gauges)
      ensures r.Ok? ==> counters.metrics == old(counters.metrics) + other.counters.metrics
                        && gauges.metrics == old(gauges.metrics) + other.gauges.metrics
      ensures r.Ok? ==> CollectNames() == old(CollectNames()) + other.CollectNames()
      ensures old(Valid()) && other.Valid() ==> Valid()
      ensures old(NamesDisjoint()) && other.NamesDisjoint() ==> NamesDisjoint()
    {
      r := CheckCrossTypeCollision(other);
      if r.Err? {
        return;
      }
      var mergedCounters := MergeKind(counters, other.counters);
      // The cross-type check has already excluded the collision `merge` reports.
      assert mergedCounters.Ok?;
      counters := mergedCounters.value;
      var mergedGauges := MergeKind(gauges, other.gauges);
      assert mergedGauges.Ok?;
      gauges := mergedGauges.value;
    }

    /**
     * `describe_counter`: an empty counter metric with this unit and
     * description replaces any counter of the name. The gauges are not
     * consulted, so a gauge of the same name makes the names overlap.
     */
    method DescribeCounter(name: MetricName, unit: Option<string>, description: Option<string>)
      modifies this
      ensures counters == old(counters).Insert(Metrics.NewMetric(name, unit, description, SampleCollections.EmptyCollection()))
      ensures gauges == old(gauges)
      ensures ContainsCounter(name)
      ensures old(Valid()) ==> Valid()
      ensures ContainsGauge(name) ==> !NamesDisjoint()
    {
      var metric := Metrics.NewMetric(name, unit, description, SampleCollections.EmptyCollection());
      counters := counters.Insert(metric);
    }

    /** `contains_counter`. */
    predicate ContainsCounter(name: MetricName)
      reads this
    {
      name in counters.metrics
    }

    /** `get_counter_value`. */
    function GetCounterValue(name: MetricName, labelSet: LabelSet): Option<Counter>
      reads this
    {
      counters.GetValue(name, labelSet)
    }

    /**
     * `increment_counter`: refused with `MetricNameCollisionAdding`, changing
     * nothing, when a gauge has the name; otherwise the counter goes up by one.
     */
    method IncrementCounter(name: MetricName, labelSet: LabelSet, time: Timestamp) returns (r: Result<(), Error>)
      modifies this
      ensures r.Err? <==> old(ContainsGauge(name))
      ensures r.Err? ==> r.error == MetricNameCollisionAdding(name) && counters == old(counters)
      ensures r.Ok? ==> counters == IncrementCounterIn(old(counters), name, labelSet, time)
      ensures gauges == old(gauges)
      ensures old(Valid()) ==> Valid()
      ensures old(NamesDisjoint()) ==> NamesDisjoint()
    {
      if name in gauges.metrics {
        return Err(MetricNameCollisionAdding(name));
      }
      counters := IncrementCounterIn(counters, name, labelSet, time);
      return Ok(());
    }

    /**
     * `set_counter`: refused with `MetricNameCollisionAdding`, changing
     * nothing, when a gauge has the name; otherwise the counter holds `v`.
     */
    method SetCounter(name: MetricName, labelSet: LabelSet, v: U64, time: Timestamp) returns (r: Result<(), Error>)
      modifies this
      ensures r.Err? <==> old(ContainsGauge(name))
      ensures r.Err? ==> r.error == MetricNameCollisionAdding(name) && counters == old(counters)
      ensures r.Ok? ==> counters == AbsoluteCounterIn(old(counters), name, labelSet, v, time)
      ensures r.Ok? ==> GetCounterValue(name, labelSet) == Some(Counter(v))
      ensures gauges == old(gauges)
      ensures old(Valid()) ==> Valid()
      ensures old(NamesDisjoint()) ==> NamesDisjoint()
    {
      if name in gauges.metrics {
        return Err(MetricNameCollisionAdding(name));
      }
      counters := AbsoluteCounterIn(counters, name, labelSet, v, time);
      return Ok(());
    }

    /**
     * `describe_gauge`: an empty gauge metric with this unit and description
     * replaces any gauge of the name. The counters are not consulted.
     */
    method DescribeGauge(name: MetricName, unit: Option<string>, description: Option<string>)
      modifies this
      ensures gauges == old(gauges).Insert(Metrics.NewMetric(name, unit, description, SampleCollections.EmptyCollection()))
      ensures counters == old(counters)
      ensures ContainsGauge(name)
      ensures old(Valid()) ==> Valid()
      ensures ContainsCounter(name) ==> !NamesDisjoint()
    {
      var metric := Metrics.NewMetric(name, unit, description, SampleCollections.EmptyCollection());
      gauges := gauges.Insert(metric);
    }

    /** `contains_gauge`. */
    predicate ContainsGauge(name: MetricName)
      reads this
    {
      name in gauges.metrics
    }

    /** `get_gauge_value`. */
    function GetGaugeValue(name: MetricName, labelSet: LabelSet): Option<Gauge>
      reads this
    {
      gauges.GetValue(name, labelSet)
    }

    /**
     * `set_gauge`: refused with `MetricNameCollisionAdding`, changing nothing,
     * when a counter has the name; otherwise the gauge holds `v`.
     */
    method SetGauge(name: MetricName, labelSet: LabelSet, v: real, time: Timestamp) returns (r: Result<(), Error>)
      modifies this
      ensures r.Err? <==> old(ContainsCounter(name))
      ensures r.Err? ==> r.error == MetricNameCollisionAdding(name) && gauges == old(gauges)
      ensures r.Ok? ==> gauges == SetGaugeIn(old(gauges), name, labelSet, v, time)
      ensures r.Ok? ==> GetGaugeValue(name, labelSet) == Some(Samples.Gauge(v))
      ensures counters == old(counters)
      ensures old(Valid()) ==> Valid()
      ensures old(NamesDisjoint()) ==> NamesDisjoint()
    {
      if name in counters.metrics {
        return Err(MetricNameCollisionAdding(name));
      }
      gauges := SetGaugeIn(gauges, name, labelSet, v, time);
      return Ok(());
    }

    /**
     * `increment_gauge`: refused with `MetricNameCollisionAdding`, changing
     * nothing, when a counter has the name; otherwise the gauge goes up by one.
     */
    method IncrementGauge(name: MetricName, labelSet: LabelSet, time: Timestamp) returns (r: Result<(), Error>)
      modifies this
      ensures r.Err? <==> old(ContainsCounter(name))
      ensures r.Err? ==> r.error == MetricNameCollisionAdding(name) && gauges == old(gauges)
      ensures r.Ok? ==> gauges == IncrementGaugeIn(old(gauges), name, labelSet, time)
      ensures counters == old(counters)
      ensures old(Valid()) ==> Valid()
      ensures old(NamesDisjoint()) ==> NamesDisjoint()
    {
      if name in counters.metrics {
        return Err(MetricNameCollisionAdding(name));
      }
      gauges := IncrementGaugeIn(gauges, name, labelSet, time);
      return Ok(());
    }

    /**
     * `decrement_gauge`: refused with `MetricNameCollisionAdding`, changing
     * nothing, when a counter has the name; otherwise the gauge goes down by one.
     */
    method DecrementGauge(name: MetricName, labelSet: LabelSet, time: Timestamp) returns (r: Result<(), Error>)
      modifies this
      ensures r.Err? <==> old(ContainsCounter(name))
      ensures r.Err? ==> r.error == MetricNameCollisionAdding(name) && gauges == old(gauges)
      ensures r.Ok? ==> gauges == DecrementGaugeIn(old(gauges), name, labelSet, time)
      ensures counters == old(counters)
      ensures old(Valid()) ==> Valid()
      ensures old(NamesDisjoint()) ==> NamesDisjoint()
    {
      if name in counters.metrics {
        return Err(MetricNameCollisionAdding(name));
      }
      gauges := DecrementGaugeIn(gauges, name, labelSet, time);
      return Ok(());
    }
  }
}
