/**
 * Sample collections: the measurements of one metric, keyed by label set.
 *
 * The source keeps them in a `HashMap`; here they are a list of entries with
 * unique label sets, in insertion order (the source's iteration order is
 * unspecified). The collection is a value owned by its metric; its in-place
 * updates are functions returning the updated collection.
 */
module SampleCollections {
  import opened Wrappers
  import Assoc
  import opened Counters
  import opened Labels
  import opened Samples

  datatype CollectionError = DuplicateLabelSetInList(labelSet: LabelSet)

  type Entries<T> = seq<(LabelSet, Measurement<T>)>

  datatype SampleCollection<T> = SampleCollection(samples: Entries<T>) {

    ghost predicate Valid()
    {
      Assoc.UniqueKeys(samples)
    }

    /** `get`: the measurement stored for the label set. */
    function Get(labelSet: LabelSet): (r: Option<Measurement<T>>)
      ensures r.Some? ==> (labelSet, r.value) in samples
      ensures Valid() ==> forall i :: 0 <= i < |samples| && samples[i].0 == labelSet ==> r == Some(samples[i].1)
      ensures r.None? <==> forall e :: e in samples ==> e.0 != labelSet
    {
      Assoc.GetMember(samples, labelSet);
      Assoc.GetIndex(samples, labelSet);
      assert Valid() ==> forall i :: 0 <= i < |samples| ==> Assoc.Get(samples, samples[i].0) == Some(samples[i].1) by {
        if Valid() {
          forall i | 0 <= i < |samples| ensures Assoc.Get(samples, samples[i].0) == Some(samples[i].1) {
            Assoc.GetAt(samples, i);
          }
        }
      }
      Assoc.Get(samples, labelSet)
    }

    /** The label sets that have a measurement. */
    ghost function LabelSets(): set<LabelSet>
    {
      set e | e in samples :: e.0
    }

    /** `len`: the number of distinct label sets. */
    function Len(): (r: nat)
      ensures Valid() ==> r == |LabelSets()|
    {
      Assoc.UniqueKeysCardinality(samples);
      |samples|
    }

    /** `is_empty`: no label set has a measurement. */
    function IsEmpty(): (r: bool)
      ensures r <==> Len() == 0
      ensures r <==> forall ls :: Get(ls).None?
    {
      assert |samples| > 0 ==> Get(samples[0].0).Some?;
      |samples| == 0
    }
  }

  /** `SampleCollection::default()`. */
  function EmptyCollection<T>(): (r: SampleCollection<T>)
    ensures r.Valid() && r.IsEmpty()
  {
    SampleCollection([])
  }

  /**
   * `entry(label_set).or_insert_with(initial)` followed by `step` on the entry:
   * the label set's measurement (or `initial` when it has none) is replaced by
   * `step` of it; every other label set keeps its measurement.
   */
  function Entry<T>(c: SampleCollection<T>, labelSet: LabelSet, initial: Measurement<T>,
                    step: Measurement<T> -> Measurement<T>): (r: SampleCollection<T>)
    ensures c.Valid() ==> r.Valid()
    ensures r.Get(labelSet) == Some(step(c.Get(labelSet).GetOr(initial)))
    ensures forall other :: other != labelSet ==> r.Get(other) == c.Get(other)
    ensures |r.samples| == if c.Get(labelSet).Some? then |c.samples| else |c.samples| + 1
  {
    match c.Get(labelSet)
    case Some(m) =>
      var r := Assoc.Replace(c.samples, labelSet, step(m));
      Assoc.ReplaceUnique(c.samples, labelSet, step(m));
      assert forall x :: Assoc.Get(r, x) == if x == labelSet then Some(step(m)) else Assoc.Get(c.samples, x) by {
        forall x ensures Assoc.Get(r, x) == if x == labelSet then Some(step(m)) else Assoc.Get(c.samples, x) {
          Assoc.GetReplace(c.samples, labelSet, step(m), x);
        }
      }
      SampleCollection(r)
    case None =>
      var e := (labelSet, step(initial));
      Assoc.SnocUnique(c.samples, e);
      assert forall x :: Assoc.Get(c.samples + [e], x) == if x == labelSet then Some(step(initial)) else Assoc.Get(c.samples, x) by {
        forall x ensures Assoc.Get(c.samples + [e], x) == if x == labelSet then Some(step(initial)) else Assoc.Get(c.samples, x) {
          Assoc.GetSnoc(c.samples, e, x);
        }
      }
      SampleCollection(c.samples + [e])
  }

  /** The measurement a counter update starts from when the label set is new: zero, recorded now. */
  function FreshCounter(time: Timestamp): Measurement<Counter>
  {
    Measurement(Zero(), time)
  }

  /**
   * `SampleCollection<Counter>::increment`: a new label set starts at 1, a
   * present one goes up by one; the time becomes `time` and other label sets
   * are untouched.
   */
  function IncrementCounter(c: SampleCollection<Counter>, labelSet: LabelSet, time: Timestamp): (r: SampleCollection<Counter>)
    ensures c.Valid() ==> r.Valid()
    ensures c.Get(labelSet).None? ==> r.Get(labelSet) == Some(Measurement(Counter(1), time))
    ensures c.Get(labelSet).Some? ==> r.Get(labelSet) == Some(Samples.CounterIncrement(c.Get(labelSet).value, time))
    ensures forall other :: other != labelSet ==> r.Get(other) == c.Get(other)
    ensures c.Valid() ==> r.Len() == c.Len() + (if c.Get(labelSet).None? then 1 else 0)
  {
    Entry(c, labelSet, FreshCounter(time), m => Samples.CounterIncrement(m, time))
  }

  /** `SampleCollection<Counter>::absolute`: the label set's counter is `v`, created if absent. */
  function AbsoluteCounter(c: SampleCollection<Counter>, labelSet: LabelSet, v: U64, time: Timestamp): (r: SampleCollection<Counter>)
    ensures c.Valid() ==> r.Valid()
    ensures r.Get(labelSet) == Some(Measurement(Counter(v), time))
    ensures forall other :: other != labelSet ==> r.Get(other) == c.Get(other)
    ensures c.Valid() ==> r.Len() == c.Len() + (if c.Get(labelSet).None? then 1 else 0)
  {
    Entry(c, labelSet, FreshCounter(time), m => Samples.CounterAbsolute(m, v, time))
  }

  function FreshGauge(time: Timestamp): Measurement<Gauge>
  {
    Measurement(GaugeZero(), time)
  }

  /** `SampleCollection<Gauge>::set`. */
  function SetGauge(c: SampleCollection<Gauge>, labelSet: LabelSet, v: real, time: Timestamp): (r: SampleCollection<Gauge>)
    ensures c.Valid() ==> r.Valid()
    ensures r.Get(labelSet) == Some(Measurement(Gauge(v), time))
    ensures forall other :: other != labelSet ==> r.Get(other) == c.Get(other)
  {
    Entry(c, labelSet, FreshGauge(time), m => Samples.GaugeSet(m, v, time))
  }

  /** `SampleCollection<Gauge>::increment`: a new label set starts at 1.0. */
  function IncrementGauge(c: SampleCollection<Gauge>, labelSet: LabelSet, time: Timestamp): (r: SampleCollection<Gauge>)
    ensures c.Valid() ==> r.Valid()
    ensures r.Get(labelSet).Some? && r.Get(labelSet).value.recordedAt == time
    ensures r.Get(labelSet).value.value.value == c.Get(labelSet).GetOr(FreshGauge(time)).value.value + 1.0
    ensures forall other :: other != labelSet ==> r.Get(other) == c.Get(other)
  {
    Entry(c, labelSet, FreshGauge(time), m => Samples.GaugeIncrement(m, time))
  }

  /** `SampleCollection<Gauge>::decrement`: a new label set starts at -1.0. */
  function DecrementGauge(c: SampleCollection<Gauge>, labelSet: LabelSet, time: Timestamp): (r: SampleCollection<Gauge>)
    ensures c.Valid() ==> r.Valid()
    ensures r.Get(labelSet).Some? && r.Get(labelSet).value.recordedAt == time
    ensures r.Get(labelSet).value.value.value == c.Get(labelSet).GetOr(FreshGauge(time)).value.value - 1.0
    ensures forall other :: other != labelSet ==> r.Get(other) == c.Get(other)
  {
    Entry(c, labelSet, FreshGauge(time), m => Samples.GaugeDecrement(m, time))
  }

  /** The entries a list of samples turns into, in list order. */
  function Pairs<T>(samples: seq<Sample<T>>): (r: Entries<T>)
    ensures |r| == |samples|
    ensures forall i :: 0 <= i < |samples| ==> r[i] == IntoPair(samples[i])
  {
    seq(|samples|, i requires 0 <= i < |samples| => IntoPair(samples[i]))
  }

  /** No two samples of the list share a label set. */
  predicate DistinctLabelSets<T>(samples: seq<Sample<T>>)
  {
    forall i, j :: 0 <= i < j < |samples| ==> samples[i].labelSet != samples[j].labelSet
  }

  /** Samples with distinct label sets give unique keys, each holding its sample's measurement. */
  lemma PairsOfDistinct<T>(samples: seq<Sample<T>>)
    requires DistinctLabelSets(samples)
    ensures Assoc.UniqueKeys(Pairs(samples))
    ensures forall i :: 0 <= i < |samples| ==> Assoc.Get(Pairs(samples), samples[i].labelSet) == Some(samples[i].measurement)
  {
    var entries := Pairs(samples);
    assert Assoc.UniqueKeys(entries) by {
      forall i, j | 0 <= i < j < |entries| ensures entries[i].0 != entries[j].0 {
        assert entries[i].0 == samples[i].labelSet && entries[j].0 == samples[j].labelSet;
      }
    }
    forall i | 0 <= i < |samples| ensures Assoc.Get(entries, samples[i].labelSet) == Some(samples[i].measurement) {
      Assoc.GetAt(entries, i);
    }
  }

  /**
   * `SampleCollection::new`: the samples keyed by label set, or
   * `DuplicateLabelSetInList` naming the first label set that repeats.
   */
  method New<T>(samples: seq<Sample<T>>) returns (r: Result<SampleCollection<T>, CollectionError>)
    ensures r.Ok? <==> DistinctLabelSets(samples)
    ensures r.Ok? ==> r.value.Valid() && r.value.samples == Pairs(samples)
    ensures r.Ok? ==> forall i :: 0 <= i < |samples| ==>
                        r.value.Get(samples[i].labelSet) == Some(samples[i].measurement)
    ensures r.Err? ==> exists j :: 0 <= j < |samples| && r.error == DuplicateLabelSetInList(samples[j].labelSet)
                          && DistinctLabelSets(samples[..j])
                          && exists i :: 0 <= i < j && samples[i].labelSet == samples[j].labelSet
  {
    var entries: Entries<T> := [];
    for j := 0 to |samples|
      invariant |entries| == j
      invariant forall i :: 0 <= i < j ==> entries[i] == IntoPair(samples[i])
      invariant forall i, k :: 0 <= i < k < j ==> samples[i].labelSet != samples[k].labelSet
    {
      var (labelSet, measurement) := IntoPair(samples[j]);
      Assoc.GetIndex(entries, labelSet);
      if Assoc.HasKey(entries, labelSet) {
        var i :| 0 <= i < |entries| && entries[i].0 == labelSet;
        assert 0 <= i < j < |samples| && samples[i].labelSet == samples[j].labelSet;
        assert !DistinctLabelSets(samples);
        assert DistinctLabelSets(samples[..j]) by {
          forall a, b | 0 <= a < b < j ensures samples[..j][a].labelSet != samples[..j][b].labelSet {
            assert samples[..j][a] == samples[a] && samples[..j][b] == samples[b];
          }
        }
        return Err(DuplicateLabelSetInList(labelSet));
      }
      entries := entries + [(labelSet, measurement)];
    }
    assert entries == Pairs(samples);
    PairsOfDistinct(samples);
    r := Ok(SampleCollection(entries));
    assert r.value.Valid();
    assert forall i :: 0 <= i < |samples| ==> r.value.Get(samples[i].labelSet) == Some(samples[i].measurement);
  }
}
