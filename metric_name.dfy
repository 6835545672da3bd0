/**
 * Metric names and their rewriting into the Prometheus text format, where a
 * metric name must match `[a-zA-Z_:][a-zA-Z0-9_:]*`.
 */
module MetricNames {
  import opened Wrappers
  import opened Strings

  /** `MetricName`; the name is any string (the derived `Default` is the empty one). */
  datatype MetricName = MetricName(name: string)

  /** `MetricName::new`, which panics on the empty name: that panic is `None` here. */
  function NewMetricName(name: string): (r: Option<MetricName>)
    ensures r.None? <==> name == ""
    ensures r.Some? ==> r.value.name == name
  {
    if name == "" then None else Some(MetricName(name))
  }

  /** Whether character `c` may stand at position `i` of a Prometheus metric name. */
  predicate ValidMetricChar(i: nat, c: char)
  {
    if i == 0 then IsAsciiAlphabetic(c) || c == '_' || c == ':'
    else IsAsciiAlphanumeric(c) || c == '_' || c == ':'
  }

  predicate AllValidMetricChars(s: string)
  {
    forall i :: 0 <= i < |s| ==> ValidMetricChar(i, s[i])
  }

  /** `MetricName::to_prometheus`: every character not valid at its position becomes '_'. */
  function ToPrometheus(n: MetricName): (r: string)
    ensures |r| == |n.name|
    ensures AllValidMetricChars(r)
    ensures forall i :: 0 <= i < |r| ==> (r[i] == n.name[i] <==> ValidMetricChar(i, n.name[i]))
    ensures forall i :: 0 <= i < |r| && r[i] != n.name[i] ==> r[i] == '_'
  {
    seq(|n.name|, i requires 0 <= i < |n.name| => if ValidMetricChar(i, n.name[i]) then n.name[i] else '_')
  }

  /** The sanitiser leaves a name unchanged exactly when it is already a valid metric name. */
  lemma ToPrometheusFixedPoints(n: MetricName)
    ensures ToPrometheus(n) == n.name <==> AllValidMetricChars(n.name)
  {
    if AllValidMetricChars(n.name) {
      assert forall i :: 0 <= i < |n.name| ==> ToPrometheus(n)[i] == n.name[i];
    }
  }

  lemma ToPrometheusIdempotent(n: MetricName)
    ensures ToPrometheus(MetricName(ToPrometheus(n))) == ToPrometheus(n)
  {
    ToPrometheusFixedPoints(MetricName(ToPrometheus(n)));
  }
}
