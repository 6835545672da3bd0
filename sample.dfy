/**
 * Measurements and samples: a value with the time it was last recorded, and
 * a measurement together with the label set it belongs to.
 *
 * Both are values owned by a sample collection; their in-place updates are
 * modelled as functions returning the updated value. A gauge is a real
 * number: the rounding of the source's `f64` is not modelled.
 */
module Samples {
  import opened Counters
  import opened Labels

  /** `DurationSinceUnixEpoch`, as a count of time units. */
  type Timestamp = nat

  /** `Gauge`: a value that is set, incremented and decremented. */
  datatype Gauge = Gauge(value: real)

  function GaugeZero(): (r: Gauge)
    ensures r.value == 0.0
  {
    Gauge(0.0)
  }

  datatype Measurement<T> = Measurement(value: T, recordedAt: Timestamp)

  /** `Measurement::set_recorded_at`. */
  function SetRecordedAt<T>(m: Measurement<T>, time: Timestamp): (r: Measurement<T>)
    ensures r.value == m.value && r.recordedAt == time
  {
    m.(recordedAt := time)
  }

  /** `Measurement<Counter>::increment`: the counter goes up by one and the time is `time`. */
  function CounterIncrement(m: Measurement<Counter>, time: Timestamp): (r: Measurement<Counter>)
    ensures m.value.value + 1 < U64_MODULUS ==> r.value.value == m.value.value + 1
    ensures r.value == m.value.Increment(1)
    ensures r.recordedAt == time
  {
    SetRecordedAt(Measurement(m.value.Increment(1), m.recordedAt), time)
  }

  /** `Measurement<Counter>::absolute`: the counter holds `v` and the time is `time`. */
  function CounterAbsolute(m: Measurement<Counter>, v: U64, time: Timestamp): (r: Measurement<Counter>)
    ensures r == Measurement(Counter(v), time)
  {
    SetRecordedAt(Measurement(m.value.Absolute(v), m.recordedAt), time)
  }

  /** `Measurement<Gauge>::set`. */
  function GaugeSet(m: Measurement<Gauge>, v: real, time: Timestamp): (r: Measurement<Gauge>)
    ensures r == Measurement(Gauge(v), time)
  {
    SetRecordedAt(Measurement(Gauge(v), m.recordedAt), time)
  }

  /** `Measurement<Gauge>::increment`: one more. */
  function GaugeIncrement(m: Measurement<Gauge>, time: Timestamp): (r: Measurement<Gauge>)
    ensures r.value.value == m.value.value + 1.0 && r.recordedAt == time
  {
    SetRecordedAt(Measurement(Gauge(m.value.value + 1.0), m.recordedAt), time)
  }

  /** `Measurement<Gauge>::decrement`: one less. */
  function GaugeDecrement(m: Measurement<Gauge>, time: Timestamp): (r: Measurement<Gauge>)
    ensures r.value.value == m.value.value - 1.0 && r.recordedAt == time
  {
    SetRecordedAt(Measurement(Gauge(m.value.value - 1.0), m.recordedAt), time)
  }

  datatype Sample<T> = Sample(measurement: Measurement<T>, labelSet: LabelSet) {

    function Value(): T
    {
      measurement.value
    }

    function RecordedAt(): Timestamp
    {
      measurement.recordedAt
    }

    function Labels(): LabelSet
    {
      labelSet
    }
  }

  /** `Sample::new`: its accessors give back what it was built from. */
  function NewSample<T>(value: T, recordedAt: Timestamp, labelSet: LabelSet): (r: Sample<T>)
    ensures r.Value() == value && r.RecordedAt() == recordedAt && r.Labels() == labelSet
  {
    Sample(Measurement(value, recordedAt), labelSet)
  }

  /** `From<Sample<T>> for (LabelSet, Measurement<T>)`: the two parts of the sample. */
  function IntoPair<T>(s: Sample<T>): (r: (LabelSet, Measurement<T>))
    ensures r.0 == s.Labels() && r.1.value == s.Value() && r.1.recordedAt == s.RecordedAt()
  {
    (s.labelSet, s.measurement)
  }

  /** Taking a sample apart and building it again from its parts restores it. */
  lemma IntoPairRoundTrip<T>(s: Sample<T>)
    ensures var p := IntoPair(s); NewSample(p.1.value, p.1.recordedAt, p.0) == s
  {
  }

  /** `Sample<Counter>::increment`: the measurement is incremented, the labels are kept. */
  function SampleIncrement(s: Sample<Counter>, time: Timestamp): (r: Sample<Counter>)
    ensures r.Labels() == s.Labels() && r.measurement == CounterIncrement(s.measurement, time)
  {
    s.(measurement := CounterIncrement(s.measurement, time))
  }

  /**
   * `Sample<Counter>::to_prometheus`: the label set's text (nothing when it is
   * empty), a space and the counter's decimal value.
   */
  function CounterSampleToPrometheus(s: Sample<Counter>): (r: string)
    ensures r == s.labelSet.ToPrometheus() + " " + s.Value().ToPrometheus()
  {
    if s.labelSet.IsEmpty() then " " + s.measurement.value.ToPrometheus()
    else s.labelSet.ToPrometheus() + " " + s.measurement.value.ToPrometheus()
  }
}
