/**
 * Label names of the metrics library and their rewriting into the Prometheus
 * text format, where a label name must match `[a-zA-Z_][a-zA-Z0-9_]*` and
 * names beginning with two underscores are reserved. The sanitiser does not
 * remove that prefix: a name starting with exactly two underscores gets a
 * third, and one starting with three or more is kept as it is.
 */
module LabelNames {
  import opened Wrappers
  import opened Strings

  /** `LabelName`; the name is any string (the derived `Default` is the empty one). */
  datatype LabelName = LabelName(name: string)

  /** `LabelName::new`, which panics on the empty name: that panic is `None` here. */
  function NewLabelName(name: string): (r: Option<LabelName>)
    ensures r.None? <==> name == ""
    ensures r.Some? ==> r.value.name == name
  {
    if name == "" then None else Some(LabelName(name))
  }

  /** Whether character `c` may stand at position `i` of a Prometheus label name. */
  predicate ValidLabelChar(i: nat, c: char)
  {
    if i == 0 then IsAsciiAlphabetic(c) || c == '_' else IsAsciiAlphanumeric(c) || c == '_'
  }

  /** A string that matches `[a-zA-Z_][a-zA-Z0-9_]*` at every position. */
  predicate AllValidLabelChars(s: string)
  {
    forall i :: 0 <= i < |s| ==> ValidLabelChar(i, s[i])
  }

  /** The first pass of `to_prometheus`: every character that is not valid at its position becomes '_'. */
  function ReplaceInvalidLabelChars(s: string): string
  {
    seq(|s|, i requires 0 <= i < |s| => if ValidLabelChar(i, s[i]) then s[i] else '_')
  }

  /** The sanitiser's test: exactly two leading underscores, not three. */
  predicate StartsWithExactlyTwoUnderscores(s: string)
  {
    StartsWith(s, "__") && !StartsWith(s, "___")
  }

  /**
   * `LabelName::to_prometheus`: invalid characters become '_', and a result
   * that would start with exactly two underscores gets a third one.
   */
  function ToPrometheus(n: LabelName): (r: string)
    ensures AllValidLabelChars(r)
    ensures |r| == |n.name| + (if StartsWithExactlyTwoUnderscores(ReplaceInvalidLabelChars(n.name)) then 1 else 0)
    ensures var offset := |r| - |n.name|;
            forall i :: 0 <= i < |n.name| ==>
              r[offset + i] == if ValidLabelChar(i, n.name[i]) then n.name[i] else '_'
    ensures !StartsWithExactlyTwoUnderscores(r)
  {
    var processed := ReplaceInvalidLabelChars(n.name);
    if StartsWithExactlyTwoUnderscores(processed) then
      assert ("_" + processed)[..3] == "___" by { assert processed[..2] == "__"; }
      "_" + processed
    else
      processed
  }

  /** The sanitiser changes a name exactly when it has an invalid character or starts with exactly two underscores. */
  lemma ToPrometheusFixedPoints(n: LabelName)
    ensures ToPrometheus(n) == n.name <==> AllValidLabelChars(n.name) && !StartsWithExactlyTwoUnderscores(n.name)
  {
    var processed := ReplaceInvalidLabelChars(n.name);
    if AllValidLabelChars(n.name) && !StartsWithExactlyTwoUnderscores(n.name) {
      assert processed == n.name;
    }
  }

  /** Sanitising a sanitised name changes nothing. */
  lemma ToPrometheusIdempotent(n: LabelName)
    ensures ToPrometheus(LabelName(ToPrometheus(n))) == ToPrometheus(n)
  {
    ToPrometheusFixedPoints(LabelName(ToPrometheus(n)));
  }
}
