/**
 * A metric: a name, an optional unit and description, and the sample
 * collection holding one measurement per label set; and the counter sum over
 * the samples that match a label-set criterion.
 *
 * A metric is a value owned by its metric collection; its in-place updates are
 * functions returning the updated metric.
 */
module Metrics {
  import opened Wrappers
  import Assoc
  import opened Counters
  import opened Labels
  import opened MetricNames
  import Samples
  import SampleCollections

  type Measurement<T> = Samples.Measurement<T>
  type Entries<T> = SampleCollections.Entries<T>
  type SampleCollection<T> = SampleCollections.SampleCollection<T>

  /**
   * `Metric<T>`. The `Unit` enumeration and the `MetricDescription` text are
   * carried as their names.
   */
  datatype Metric<T> = Metric(
    name: MetricName,
    unit: Option<string>,
    description: Option<string>,
    sampleCollection: SampleCollection<T>)
  {
    ghost predicate Valid()
    {
      sampleCollection.Valid()
    }

    /** `get_sample_data`: the collection's measurement for the label set. */
    function GetSampleData(labelSet: LabelSet): (r: Option<Measurement<T>>)
      ensures r.Some? ==> (labelSet, r.value) in sampleCollection.samples
      ensures r.None? <==> forall e :: e in sampleCollection.samples ==> e.0 != labelSet
    {
      sampleCollection.Get(labelSet)
    }

    /** `number_of_samples`: the number of distinct label sets. */
    function NumberOfSamples(): (r: nat)
      ensures Valid() ==> r == |sampleCollection.LabelSets()|
    {
      sampleCollection.Len()
    }

    /** `is_empty`: there are no samples. */
    function IsEmpty(): (r: bool)
      ensures r <==> NumberOfSamples() == 0
      ensures r <==> forall ls :: GetSampleData(ls).None?
    {
      assert forall ls :: GetSampleData(ls) == sampleCollection.Get(ls);
      sampleCollection.IsEmpty()
    }

    /** `collect_matching_samples`: exactly the samples whose label set matches the criteria. */
    function CollectMatchingSamples(criteria: LabelSet): (r: Entries<T>)
      ensures forall i :: 0 <= i < |r| ==> r[i] in sampleCollection.samples && r[i].0.Matches(criteria)
      ensures forall i :: 0 <= i < |sampleCollection.samples| && sampleCollection.samples[i].0.Matches(criteria) ==>
                sampleCollection.samples[i] in r
      ensures Valid() ==> Assoc.UniqueKeys(r)
    {
      MatchingEntriesMembers(sampleCollection.samples, criteria);
      MatchingEntriesUnique(sampleCollection.samples, criteria);
      MatchingEntries(sampleCollection.samples, criteria)
    }
  }

  /** The entries whose label set matches the criteria, in collection order. */
  function MatchingEntries<T>(s: Entries<T>, criteria: LabelSet): (r: Entries<T>)
    ensures |r| <= |s|
  {
    if |s| == 0 then []
    else
      var rest := MatchingEntries(s[1..], criteria);
      if s[0].0.Matches(criteria) then [s[0]] + rest else rest
  }

  /** The filter keeps exactly the matching entries. */
  lemma {:induction false} MatchingEntriesMembers<T>(s: Entries<T>, criteria: LabelSet)
    ensures forall i :: 0 <= i < |MatchingEntries(s, criteria)| ==>
              MatchingEntries(s, criteria)[i] in s && MatchingEntries(s, criteria)[i].0.Matches(criteria)
    ensures forall i :: 0 <= i < |s| && s[i].0.Matches(criteria) ==> s[i] in MatchingEntries(s, criteria)
  {
    if |s| > 0 {
      var rest := MatchingEntries(s[1..], criteria);
      var r := MatchingEntries(s, criteria);
      MatchingEntriesMembers(s[1..], criteria);
      forall i | 0 <= i < |r| ensures r[i] in s && r[i].0.Matches(criteria) {
        if s[0].0.Matches(criteria) && i == 0 {
        } else {
          var k := if s[0].0.Matches(criteria) then i - 1 else i;
          assert r[i] == rest[k];
          assert rest[k] in s[1..];
        }
      }
      forall i | 0 <= i < |s| && s[i].0.Matches(criteria) ensures s[i] in r {
        if i > 0 {
          assert s[1..][i - 1] == s[i];
        }
      }
    }
  }

  /** Filtering a collection with unique label sets keeps them unique. */
  lemma {:induction false} MatchingEntriesUnique<T>(s: Entries<T>, criteria: LabelSet)
    ensures Assoc.UniqueKeys(s) ==> Assoc.UniqueKeys(MatchingEntries(s, criteria))
  {
    if |s| > 0 && Assoc.UniqueKeys(s) {
      var rest := MatchingEntries(s[1..], criteria);
      Assoc.NotHasKeyTail(s);
      forall i, j | 0 <= i < j < |s| - 1 ensures s[1..][i].0 != s[1..][j].0 {
        assert s[1..][i] == s[i + 1] && s[1..][j] == s[j + 1];
      }
      MatchingEntriesUnique(s[1..], criteria);
      if s[0].0.Matches(criteria) {
        MatchingEntriesMembers(s[1..], criteria);
        var r := [s[0]] + rest;
        forall i, j | 0 <= i < j < |r| ensures r[i].0 != r[j].0 {
          assert r[j] == rest[j - 1] && rest[j - 1] in s[1..];
          if i > 0 {
            assert r[i] == rest[i - 1];
          }
        }
      }
    }
  }

  /** `Metric::new`. */
  function NewMetric<T>(name: MetricName, unit: Option<string>, description: Option<string>,
                        samples: SampleCollection<T>): (r: Metric<T>)
    ensures r.name == name && r.unit == unit && r.description == description && r.sampleCollection == samples
  {
    Metric(name, unit, description, samples)
  }

  /** `new_empty_with_name`: no unit, no description, no samples. */
  function NewEmptyWithName<T>(name: MetricName): (r: Metric<T>)
    ensures r.name == name && r.unit.None? && r.description.None?
    ensures r.Valid() && r.NumberOfSamples() == 0 && r.IsEmpty()
  {
    Metric(name, None, None, SampleCollections.EmptyCollection())
  }

  /** `Metric<Counter>::increment`: only the addressed sample changes. */
  function IncrementCounter(m: Metric<Counter>, labelSet: LabelSet, time: Samples.Timestamp): (r: Metric<Counter>)
    ensures r.name == m.name && r.unit == m.unit && r.description == m.description
    ensures m.Valid() ==> r.Valid()
    ensures m.GetSampleData(labelSet).None? ==> r.GetSampleData(labelSet) == Some(Samples.Measurement(Counter(1), time))
    ensures m.GetSampleData(labelSet).Some? ==>
              r.GetSampleData(labelSet) == Some(Samples.CounterIncrement(m.GetSampleData(labelSet).value, time))
    ensures forall other :: other != labelSet ==> r.GetSampleData(other) == m.GetSampleData(other)
  {
    m.(sampleCollection := SampleCollections.IncrementCounter(m.sampleCollection, labelSet, time))
  }

  /** `Metric<Counter>::absolute`: only the addressed sample changes, and it holds `v`. */
  function AbsoluteCounter(m: Metric<Counter>, labelSet: LabelSet, v: U64, time: Samples.Timestamp): (r: Metric<Counter>)
    ensures r.name == m.name && r.unit == m.unit && r.description == m.description
    ensures m.Valid() ==> r.Valid()
    ensures r.GetSampleData(labelSet) == Some(Samples.Measurement(Counter(v), time))
    ensures forall other :: other != labelSet ==> r.GetSampleData(other) == m.GetSampleData(other)
  {
    m.(sampleCollection := SampleCollections.AbsoluteCounter(m.sampleCollection, labelSet, v, time))
  }

  /** `Metric<Gauge>::set`. */
  function SetGauge(m: Metric<Samples.Gauge>, labelSet: LabelSet, v: real, time: Samples.Timestamp): (r: Metric<Samples.Gauge>)
    ensures r.name == m.name && (m.Valid() ==> r.Valid())
    ensures r.GetSampleData(labelSet) == Some(Samples.Measurement(Samples.Gauge(v), time))
    ensures forall other :: other != labelSet ==> r.GetSampleData(other) == m.GetSampleData(other)
  {
    m.(sampleCollection := SampleCollections.SetGauge(m.sampleCollection, labelSet, v, time))
  }

  /** `Metric<Gauge>::increment`. */
  function IncrementGauge(m: Metric<Samples.Gauge>, labelSet: LabelSet, time: Samples.Timestamp): (r: Metric<Samples.Gauge>)
    ensures r.name == m.name && (m.Valid() ==> r.Valid())
    ensures r.GetSampleData(labelSet).Some? && r.GetSampleData(labelSet).value.recordedAt == time
    ensures r.GetSampleData(labelSet).value.value.value ==
              (if m.GetSampleData(labelSet).Some? then m.GetSampleData(labelSet).value.value.value else 0.0) + 1.0
    ensures forall other :: other != labelSet ==> r.GetSampleData(other) == m.GetSampleData(other)
  {
    m.(sampleCollection := SampleCollections.IncrementGauge(m.sampleCollection, labelSet, time))
  }

  /** `Metric<Gauge>::decrement`. */
  function DecrementGauge(m: Metric<Samples.Gauge>, labelSet: LabelSet, time: Samples.Timestamp): (r: Metric<Samples.Gauge>)
    ensures r.name == m.name && (m.Valid() ==> r.Valid())
    ensures r.GetSampleData(labelSet).Some? && r.GetSampleData(labelSet).value.recordedAt == time
    ensures r.GetSampleData(labelSet).value.value.value ==
              (if m.GetSampleData(labelSet).Some? then m.GetSampleData(labelSet).value.value.value else 0.0) - 1.0
    ensures forall other :: other != labelSet ==> r.GetSampleData(other) == m.GetSampleData(other)
  {
    m.(sampleCollection := SampleCollections.DecrementGauge(m.sampleCollection, labelSet, time))
  }

  // ---------------------------------------------------------------------------
  // The counter sum (`Sum for Metric<Counter>`)
  // ---------------------------------------------------------------------------

  /** The total of the counters of the entries. */
  function Total(s: Entries<Counter>): nat
  {
    if |s| == 0 then 0 else s[0].1.value.Primitive() + Total(s[1..])
  }

  /** `sum(criteria)`: the total of the counters of the samples whose label set matches. */
  function Sum(m: Metric<Counter>, criteria: LabelSet): nat
  {
    Total(m.CollectMatchingSamples(criteria))
  }

  /** Empty criteria match every sample, so the sum is the total of all samples. */
  lemma {:induction false} EmptyCriteriaSumAll(m: Metric<Counter>)
    ensures Sum(m, Empty()) == Total(m.sampleCollection.samples)
  {
    MatchAll(m.sampleCollection.samples);
  }

  lemma {:induction false} MatchAll<T>(s: Entries<T>)
    ensures MatchingEntries(s, Empty()) == s
  {
    if |s| > 0 {
      var none := Empty();
      MatchAll(s[1..]);
      assert s[0].0.Matches(none);
      calc {
        MatchingEntries(s, none);
        [s[0]] + MatchingEntries(s[1..], none);
        [s[0]] + s[1..];
        s;
      }
    }
  }

  /** With no matching sample the sum is zero; in particular a metric with no samples sums to zero. */
  lemma NoMatchSumsToZero(m: Metric<Counter>, criteria: LabelSet)
    requires forall i :: 0 <= i < |m.sampleCollection.samples| ==> !m.sampleCollection.samples[i].0.Matches(criteria)
    ensures Sum(m, criteria) == 0
  {
    NoMatchNoEntries(m.sampleCollection.samples, criteria);
  }

  lemma {:induction false} NoMatchNoEntries<T>(s: Entries<T>, criteria: LabelSet)
    requires forall i :: 0 <= i < |s| ==> !s[i].0.Matches(criteria)
    ensures MatchingEntries(s, criteria) == []
  {
    if |s| > 0 {
      assert !s[0].0.Matches(criteria);
      NoMatchNoEntries(s[1..], criteria);
    }
  }

  lemma EmptyMetricSumsToZero(m: Metric<Counter>, criteria: LabelSet)
    requires m.IsEmpty()
    ensures Sum(m, criteria) == 0
  {
    NoMatchSumsToZero(m, criteria);
  }

  /** A one-pair criterion sums exactly the samples carrying that pair, whatever their other labels. */
  lemma {:induction false} SinglePairSum(m: Metric<Counter>, pair: LabelPair)
    ensures Sum(m, Singleton(pair)) == Total(Carrying(m.sampleCollection.samples, pair))
  {
    SingleMatchIsCarrying(m.sampleCollection.samples, pair);
  }

  /** The entries whose label set holds `pair`. */
  function Carrying<T>(s: Entries<T>, pair: LabelPair): Entries<T>
  {
    if |s| == 0 then []
    else if s[0].0.ContainsPair(pair.0, pair.1) then [s[0]] + Carrying(s[1..], pair)
    else Carrying(s[1..], pair)
  }

  lemma {:induction false} SingleMatchIsCarrying<T>(s: Entries<T>, pair: LabelPair)
    ensures MatchingEntries(s, Singleton(pair)) == Carrying(s, pair)
  {
    if |s| > 0 {
      SingleMatchIsCarrying(s[1..], pair);
      MatchesSingleton(s[0].0, pair);
    }
  }

  /** The total after an entry is appended. */
  lemma {:induction false} MatchingTotalSnoc(s: Entries<Counter>, e: (LabelSet, Measurement<Counter>), criteria: LabelSet)
    ensures Total(MatchingEntries(s + [e], criteria)) ==
            Total(MatchingEntries(s, criteria)) + (if e.0.Matches(criteria) then e.1.value.value else 0)
  {
    if |s| > 0 {
      assert (s + [e])[1..] == s[1..] + [e];
      MatchingTotalSnoc(s[1..], e, criteria);
    }
  }

  /** The total after the measurement of a present key is replaced. */
  lemma {:induction false} MatchingTotalReplace(s: Entries<Counter>, ls: LabelSet, old0: Measurement<Counter>,
                                                new0: Measurement<Counter>, criteria: LabelSet)
    requires Assoc.UniqueKeys(s) && Assoc.Get(s, ls) == Some(old0)
    ensures Total(MatchingEntries(Assoc.Replace(s, ls, new0), criteria)) + (if ls.Matches(criteria) then old0.value.value else 0)
            == Total(MatchingEntries(s, criteria)) + (if ls.Matches(criteria) then new0.value.value else 0)
  {
    var r := Assoc.Replace(s, ls, new0);
    assert r[1..] == Assoc.Replace(s[1..], ls, new0);
    if s[0].0 == ls {
      Assoc.NotHasKeyTail(s);
      Assoc.ReplaceAbsent(s[1..], ls, new0);
    } else {
      MatchingTotalReplace(s[1..], ls, old0, new0, criteria);
    }
  }

  /**
   * Incrementing one sample raises the sum of every criterion it matches by
   * one and leaves the others alone (when the counter does not wrap).
   */
  lemma IncrementRaisesSum(m: Metric<Counter>, labelSet: LabelSet, time: Samples.Timestamp, criteria: LabelSet)
    requires m.Valid()
    requires m.GetSampleData(labelSet).Some? ==> m.GetSampleData(labelSet).value.value.value + 1 < U64_MODULUS
    ensures Sum(IncrementCounter(m, labelSet, time), criteria) == Sum(m, criteria) + (if labelSet.Matches(criteria) then 1 else 0)
  {
    var s := m.sampleCollection.samples;
    match Assoc.Get(s, labelSet)
    case Some(old0) =>
      MatchingTotalReplace(s, labelSet, old0, Samples.CounterIncrement(old0, time), criteria);
    case None =>
      MatchingTotalSnoc(s, (labelSet, Samples.CounterIncrement(SampleCollections.FreshCounter(time), time)), criteria);
  }
}
