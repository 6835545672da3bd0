/**
 * Label sets: the ordered map from label name to label value that identifies
 * one sample of a metric, with its subset matching and its two renderings
 * (`Display` and the Prometheus text format).
 *
 * A `LabelSet` is a value that the source copies (it is a `HashMap` key); its
 * in-place `upsert` is modelled as a function returning the updated set.
 */
module Labels {
  import opened Wrappers
  import Assoc
  import opened Strings
  import LabelNames

  type LabelName = LabelNames.LabelName

  /** `LabelValue`: any string. */
  type LabelValue = string

  type LabelPair = (LabelName, LabelValue)

  /** The key order of the `BTreeMap`: label names as strings. */
  predicate NameLess(a: LabelName, b: LabelName)
  {
    StringLess(a.name, b.name)
  }

  lemma NameLessIsStrictTotalOrder()
    ensures Assoc.StrictTotalOrder(NameLess)
  {
    StringLessIsStrictTotalOrder();
    forall a: LabelName, b: LabelName, c: LabelName | NameLess(a, b) && NameLess(b, c) ensures NameLess(a, c) {
      assert StringLess(a.name, b.name) && StringLess(b.name, c.name);
    }
  }

  /** The `name="value"` text of a pair in `Display`. */
  function PairText(p: LabelPair): string
  {
    p.0.name + "=\"" + p.1 + "\""
  }

  /** The `name="value"` text of a pair in the Prometheus format: the name is sanitised, the value is not. */
  function PairPrometheus(p: LabelPair): (r: string)
    ensures |r| > 0
  {
    LabelNames.ToPrometheus(p.0) + "=\"" + p.1 + "\""
  }

  function DisplayTexts(pairs: seq<LabelPair>): (r: seq<string>)
    ensures |r| == |pairs|
  {
    if |pairs| == 0 then [] else [PairText(pairs[0])] + DisplayTexts(pairs[1..])
  }

  function PrometheusTexts(pairs: seq<LabelPair>): (r: seq<string>)
    ensures |r| == |pairs|
  {
    if |pairs| == 0 then [] else [PairPrometheus(pairs[0])] + PrometheusTexts(pairs[1..])
  }

  /**
   * The fold of `to_prometheus`: push a ',' unless the output is still empty,
   * then push the pair's text.
   */
  function PushPairs(output: string, pairs: seq<LabelPair>): string
    decreases |pairs|
  {
    if |pairs| == 0 then output
    else PushPairs((if output != "" then output + "," else output) + PairPrometheus(pairs[0]), pairs[1..])
  }

  datatype LabelSet = LabelSet(items: seq<LabelPair>) {

    /** The entries are in strictly ascending name order, as in a `BTreeMap`. */
    ghost predicate Valid()
    {
      Assoc.Ascending(items, NameLess)
    }

    /** `upsert`: insert the pair, or overwrite the value of a present name; other names keep their values. */
    function Upsert(name: LabelName, value: LabelValue): (r: LabelSet)
      ensures Valid() ==> r.Valid()
      ensures Assoc.Get(r.items, name) == Some(value)
      ensures forall n :: n != name ==> Assoc.Get(r.items, n) == Assoc.Get(items, n)
      ensures |r.items| == if Assoc.HasKey(items, name) then |items| else |items| + 1
    {
      UpsertFacts(items, name, value);
      LabelSet(Assoc.Put(items, name, value, NameLess))
    }

    function IsEmpty(): (r: bool)
      ensures r <==> forall n :: Assoc.Get(items, n).None?
    {
      assert |items| > 0 ==> Assoc.Get(items, items[0].0).Some?;
      |items| == 0
    }

    /** `contains_pair`: the name is present and its value is `value`. */
    function ContainsPair(name: LabelName, value: LabelValue): (r: bool)
      ensures r <==> Assoc.Get(items, name) == Some(value)
      ensures Valid() ==> (r <==> (name, value) in items)
    {
      Assoc.GetMember(items, name);
      ValidUnique();
      match Assoc.Get(items, name)
      case Some(existing) => existing == value
      case None => false
    }

    /** `matches`: every pair of the criteria is in the set; empty criteria match every set. */
    function Matches(criteria: LabelSet): (r: bool)
      ensures Valid() ==> (r <==> forall e :: e in criteria.items ==> e in items)
      ensures criteria.items == [] ==> r
    {
      forall i :: 0 <= i < |criteria.items| ==> ContainsPair(criteria.items[i].0, criteria.items[i].1)
    }

    /** `iter`: the pairs in ascending name order. */
    function Iter(): (r: seq<LabelPair>)
      ensures forall e :: e in r <==> e in items
      ensures Valid() ==> forall i, j :: 0 <= i < j < |r| ==> StringLess(r[i].0.name, r[j].0.name)
    {
      items
    }

    /** `Display`: `{` followed by the raw `name="value"` pairs joined by ',', then `}`. */
    function Display(): string
    {
      "{" + Join(DisplayTexts(items), ",") + "}"
    }

    /** `to_prometheus`: the empty string for the empty set, else the sanitised pairs between braces. */
    function ToPrometheus(): (r: string)
      ensures IsEmpty() ==> r == ""
      ensures !IsEmpty() ==> r == "{" + Join(PrometheusTexts(items), ",") + "}"
    {
      if IsEmpty() then ""
      else
        PushPairsIsJoin("", items);
        "{" + PushPairs("", items) + "}"
    }

    lemma ValidUnique()
      ensures Valid() ==> Assoc.UniqueKeys(items)
    {
      if Valid() {
        NameLessIsStrictTotalOrder();
        Assoc.AscendingUnique(items, NameLess);
      }
    }
  }

  lemma UpsertFacts(items: seq<LabelPair>, name: LabelName, value: LabelValue)
    ensures Assoc.Ascending(items, NameLess) ==> Assoc.Ascending(Assoc.Put(items, name, value, NameLess), NameLess)
    ensures forall n :: Assoc.Get(Assoc.Put(items, name, value, NameLess), n) == if n == name then Some(value) else Assoc.Get(items, n)
    ensures |Assoc.Put(items, name, value, NameLess)| == if Assoc.HasKey(items, name) then |items| else |items| + 1
  {
    NameLessIsStrictTotalOrder();
    if Assoc.Ascending(items, NameLess) {
      Assoc.PutAscending(items, name, value, NameLess);
    }
    forall n ensures Assoc.Get(Assoc.Put(items, name, value, NameLess), n) == if n == name then Some(value) else Assoc.Get(items, n) {
      Assoc.GetPut(items, name, value, NameLess, n);
    }
    Assoc.GetPut(items, name, value, NameLess, name);
  }

  /** The fold builds the same text as joining the pair texts with ','. */
  lemma {:induction false} PushPairsIsJoin(output: string, pairs: seq<LabelPair>)
    ensures PushPairs(output, pairs) ==
            if |pairs| == 0 then output
            else (if output == "" then "" else output + ",") + Join(PrometheusTexts(pairs), ",")
    decreases |pairs|
  {
    if |pairs| > 0 {
      var next := (if output != "" then output + "," else output) + PairPrometheus(pairs[0]);
      PushPairsIsJoin(next, pairs[1..]);
      assert PrometheusTexts(pairs)[1..] == PrometheusTexts(pairs[1..]);
    }
  }

  /** `LabelSet::empty` (and `Default`). */
  function Empty(): (r: LabelSet)
    ensures r.Valid() && r.IsEmpty()
  {
    LabelSet([])
  }

  /** `From<LabelPair>`: the set holding just that pair. */
  function Singleton(pair: LabelPair): (r: LabelSet)
    ensures r.Valid() && Assoc.Get(r.items, pair.0) == Some(pair.1)
    ensures forall n :: n != pair.0 ==> Assoc.Get(r.items, n).None?
  {
    LabelSet([pair])
  }

  /** The value of the last pair in `pairs` named `name`. */
  function LastValue(pairs: seq<LabelPair>, name: LabelName): Option<LabelValue>
  {
    if |pairs| == 0 then None
    else if pairs[|pairs| - 1].0 == name then Some(pairs[|pairs| - 1].1)
    else LastValue(pairs[..|pairs| - 1], name)
  }

  /**
   * `From<Vec<LabelPair>>` (and the array conversions): insert the pairs in
   * order, so that a later pair overwrites an earlier one with the same name.
   */
  method FromPairs(pairs: seq<LabelPair>) returns (r: LabelSet)
    ensures r.Valid()
    ensures forall n :: Assoc.Get(r.items, n) == LastValue(pairs, n)
  {
    r := Empty();
    for i := 0 to |pairs|
      invariant r.Valid()
      invariant forall n :: Assoc.Get(r.items, n) == LastValue(pairs[..i], n)
    {
      assert pairs[..i + 1][..i] == pairs[..i];
      r := r.Upsert(pairs[i].0, pairs[i].1);
    }
    assert pairs[..|pairs|] == pairs;
  }

  /** The empty set displays as "{}" and renders as "" in the Prometheus format. */
  lemma EmptyRenderings()
    ensures Empty().Display() == "{}"
    ensures Empty().ToPrometheus() == ""
  {
  }

  /**
   * When no name needs sanitising, the Prometheus text of a non-empty set is
   * its `Display` text.
   */
  lemma {:induction false} PrometheusIsDisplayForCleanNames(s: LabelSet)
    requires !s.IsEmpty()
    requires forall e :: e in s.items ==> LabelNames.ToPrometheus(e.0) == e.0.name
    ensures s.ToPrometheus() == s.Display()
  {
    TextsAgree(s.items);
  }

  lemma {:induction false} TextsAgree(pairs: seq<LabelPair>)
    requires forall e :: e in pairs ==> LabelNames.ToPrometheus(e.0) == e.0.name
    ensures PrometheusTexts(pairs) == DisplayTexts(pairs)
  {
    if |pairs| > 0 {
      assert pairs[0] in pairs;
      assert forall e :: e in pairs[1..] ==> e in pairs;
      TextsAgree(pairs[1..]);
    }
  }

  /** A single-pair criterion matches exactly the sets that contain that pair. */
  lemma MatchesSingleton(s: LabelSet, pair: LabelPair)
    ensures s.Matches(Singleton(pair)) <==> s.ContainsPair(pair.0, pair.1)
  {
    assert Singleton(pair).items[0] == pair;
  }

  /** Every set matches itself, and matching is transitive. */
  lemma MatchesIsPreorder(a: LabelSet, b: LabelSet, c: LabelSet)
    requires a.Valid() && b.Valid() && c.Valid()
    ensures a.Matches(a)
    ensures a.Matches(b) && b.Matches(c) ==> a.Matches(c)
  {
  }

  /**
   * Two ordered sets with the same lookups are the same set: the model's
   * equality of label sets is the source's map equality.
   */
  lemma {:induction false} SameLookupsSameSet(a: LabelSet, b: LabelSet)
    requires a.Valid() && b.Valid()
    requires forall n :: Assoc.Get(a.items, n) == Assoc.Get(b.items, n)
    ensures a == b
  {
    SameLookupsSameItems(a.items, b.items);
  }

  lemma {:induction false} SameLookupsSameItems(s: seq<LabelPair>, t: seq<LabelPair>)
    requires Assoc.Ascending(s, NameLess) && Assoc.Ascending(t, NameLess)
    requires forall n :: Assoc.Get(s, n) == Assoc.Get(t, n)
    ensures s == t
    decreases |s|
  {
    NameLessIsStrictTotalOrder();
    if |s| == 0 {
      if |t| > 0 {
        assert Assoc.Get(t, t[0].0).Some?;
      }
    } else {
      assert Assoc.Get(s, s[0].0).Some?;
      assert |t| > 0;
      assert Assoc.Get(t, t[0].0).Some?;
      if NameLess(s[0].0, t[0].0) {
        BelowHeadAbsent(t, s[0].0);
      } else if NameLess(t[0].0, s[0].0) {
        BelowHeadAbsent(s, t[0].0);
      }
      assert s[0] == t[0];
      Assoc.AscendingTail(s, NameLess);
      Assoc.AscendingTail(t, NameLess);
      if |s| > 1 { assert s[1..][0] in s[1..]; }
      if |t| > 1 { assert t[1..][0] in t[1..]; }
      BelowHeadAbsent(s[1..], s[0].0);
      BelowHeadAbsent(t[1..], t[0].0);
      forall n ensures Assoc.Get(s[1..], n) == Assoc.Get(t[1..], n) {
        if n != s[0].0 {
          assert Assoc.Get(s, n) == Assoc.Get(s[1..], n);
          assert Assoc.Get(t, n) == Assoc.Get(t[1..], n);
        }
      }
      SameLookupsSameItems(s[1..], t[1..]);
      assert s == [s[0]] + s[1..] && t == [t[0]] + t[1..];
    }
  }

  /** In an ascending list, nothing is stored below the first key. */
  lemma BelowHeadAbsent(s: seq<LabelPair>, k: LabelName)
    requires Assoc.Ascending(s, NameLess)
    requires |s| > 0 ==> NameLess(k, s[0].0)
    ensures Assoc.Get(s, k).None?
  {
    NameLessIsStrictTotalOrder();
    Assoc.GetIndex(s, k);
  }
}
