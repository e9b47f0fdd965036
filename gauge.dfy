/** GCMGauge: a gauge whose values are kept per label tuple in a
    std::map, read with a default of 0, overwritten by Set, and written
    out as text lines or as Cloud Monitoring JSON blocks, one per stored
    tuple in the map's order.

    A label tuple is a sequence of label values, each a string or an
    integer, ordered lexicographically as std::tuple's operator< orders
    them. Gauge values are integers. */
module Gauges {

  import opened Basics
  import opened Streams

  // ---------------------------------------------------------------------
  // Label tuples and their order
  // ---------------------------------------------------------------------

  datatype LabelValue = LStr(s: string) | LInt(i: int)

  type Labels = seq<LabelValue>

  /** operator< on one label position. Tuples of a gauge have one type per
      position, so the order across the two kinds only needs to be total. */
  predicate LabelLess(a: LabelValue, b: LabelValue)
  {
    match (a, b)
    case (LStr(x), LStr(y)) => StrLess(x, y)
    case (LInt(x), LInt(y)) => x < y
    case (LStr(_), LInt(_)) => true
    case (LInt(_), LStr(_)) => false
  }

  lemma LabelLessIrreflexive(a: LabelValue)
    ensures !LabelLess(a, a)
  {
    if a.LStr? {
      StrLessIrreflexive(a.s);
    }
  }

  lemma LabelLessTransitive(a: LabelValue, b: LabelValue, c: LabelValue)
    requires LabelLess(a, b) && LabelLess(b, c)
    ensures LabelLess(a, c)
  {
    if a.LStr? && b.LStr? && c.LStr? {
      StrLessTransitive(a.s, b.s, c.s);
    }
  }

  lemma LabelLessTotal(a: LabelValue, b: LabelValue)
    ensures a == b || LabelLess(a, b) || LabelLess(b, a)
  {
    if a.LStr? && b.LStr? {
      StrLessTotal(a.s, b.s);
    }
  }

  /** std::tuple's operator<: lexicographic. */
  predicate TupleLess(a: Labels, b: Labels)
    decreases |a|
  {
    if a == [] then b != []
    else if b == [] then false
    else if a[0] != b[0] then LabelLess(a[0], b[0])
    else TupleLess(a[1..], b[1..])
  }

  lemma {:induction false} TupleLessIrreflexive(a: Labels)
    ensures !TupleLess(a, a)
    decreases |a|
  {
    if a != [] {
      TupleLessIrreflexive(a[1..]);
    }
  }

  lemma {:induction false} TupleLessTransitive(a: Labels, b: Labels, c: Labels)
    requires TupleLess(a, b) && TupleLess(b, c)
    ensures TupleLess(a, c)
    decreases |a|
  {
    if a != [] && b != [] && c != [] {
      if a[0] == b[0] && b[0] == c[0] {
        TupleLessTransitive(a[1..], b[1..], c[1..]);
      } else if a[0] != b[0] && b[0] != c[0] {
        LabelLessTransitive(a[0], b[0], c[0]);
        LabelLessIrreflexive(a[0]);
      }
    }
  }

  lemma {:induction false} TupleLessTotal(a: Labels, b: Labels)
    ensures a == b || TupleLess(a, b) || TupleLess(b, a)
    decreases |a|
  {
    if a != [] && b != [] {
      if a[0] == b[0] {
        TupleLessTotal(a[1..], b[1..]);
        if a[1..] == b[1..] {
          assert a == [a[0]] + a[1..] && b == [b[0]] + b[1..];
        }
      } else {
        LabelLessTotal(a[0], b[0]);
      }
    }
  }

  // ---------------------------------------------------------------------
  // The value map
  // ---------------------------------------------------------------------

  type Entry = (Labels, int)

  /** values_, as its entries in the map's order. */
  predicate StrictlySorted(m: seq<Entry>)
  {
    forall i, j :: 0 <= i < j < |m| ==> TupleLess(m[i].0, m[j].0)
  }

  function Keys(m: seq<Entry>): set<Labels>
  {
    set i | 0 <= i < |m| :: m[i].0
  }

  /** GCMGauge::Get on the map: the stored value, or 0 for a tuple never
      set. */
  function Lookup(m: seq<Entry>, k: Labels): (r: int)
    ensures k !in Keys(m) ==> r == 0
  {
    if m == [] then 0
    else if m[0].0 == k then m[0].1
    else
      assert Keys(m) == {m[0].0} + Keys(m[1..]) by {
        assert forall i :: 0 < i < |m| ==> m[i] == m[1..][i - 1];
      }
      Lookup(m[1..], k)
  }

  /** In an ordered map, Lookup reads the value stored with the tuple. */
  lemma {:induction false} LookupAt(m: seq<Entry>, k: Labels, i: nat)
    requires StrictlySorted(m) && i < |m| && m[i].0 == k
    ensures Lookup(m, k) == m[i].1
    decreases i
  {
    if m[0].0 == k {
      TupleLessIrreflexive(k);
    } else {
      LookupAt(m[1..], k, i - 1);
    }
  }

  /** `values_[k] = v`: replaces k's value or inserts k in its place, so
      k joins the keys and no other key does. */
  function Store(m: seq<Entry>, k: Labels, v: int): (r: seq<Entry>)
    ensures Keys(r) == Keys(m) + {k}
    decreases |m|
  {
    if m == [] then
      KeysCons((k, v), m);
      [(k, v)] + m
    else
      assert m == [m[0]] + m[1..];
      KeysCons(m[0], m[1..]);
      if m[0].0 == k then
        KeysCons((k, v), m[1..]);
        [(k, v)] + m[1..]
      else if TupleLess(k, m[0].0) then
        KeysCons((k, v), m);
        [(k, v)] + m
      else
        KeysCons(m[0], Store(m[1..], k, v));
        [m[0]] + Store(m[1..], k, v)
  }

  lemma KeysCons(e: Entry, m: seq<Entry>)
    ensures Keys([e] + m) == {e.0} + Keys(m)
  {
    var r := [e] + m;
    forall x | x in Keys(r)
      ensures x == e.0 || x in Keys(m)
    {
      var i :| 0 <= i < |r| && r[i].0 == x;
      if i > 0 {
        assert m[i - 1].0 == x;
      }
    }
    forall x | x in Keys(m)
      ensures x in Keys(r)
    {
      var i :| 0 <= i < |m| && m[i].0 == x;
      assert r[i + 1].0 == x;
    }
    assert r[0].0 == e.0;
  }

  /** Every key of a strictly sorted map other than its first is above
      the first. */
  lemma SortedFirst(m: seq<Entry>, x: Labels)
    requires StrictlySorted(m) && m != [] && x in Keys(m[1..])
    ensures TupleLess(m[0].0, x)
  {
    var i :| 0 <= i < |m[1..]| && m[1..][i].0 == x;
    assert m[i + 1].0 == x;
  }

  /** Store keeps the map's order. */
  lemma {:induction false} StoreSorted(m: seq<Entry>, k: Labels, v: int)
    requires StrictlySorted(m)
    ensures StrictlySorted(Store(m, k, v))
    decreases |m|
  {
    if m != [] {
      var r := Store(m, k, v);
      if m[0].0 == k {
        assert forall i :: 0 < i < |r| ==> r[i] == m[i];
      } else if TupleLess(k, m[0].0) {
        forall i | 0 <= i < |m|
          ensures TupleLess(k, m[i].0)
        {
          if i > 0 {
            TupleLessTransitive(k, m[0].0, m[i].0);
          }
        }
      } else {
        TupleLessTotal(k, m[0].0);
        var rest := Store(m[1..], k, v);
        StoreSorted(m[1..], k, v);
        forall j | 0 <= j < |rest|
          ensures TupleLess(m[0].0, rest[j].0)
        {
          assert rest[j].0 in Keys(rest);
          if rest[j].0 != k {
            SortedFirst(m, rest[j].0);
          }
        }
        assert forall j :: 0 < j < |r| ==> r[j] == rest[j - 1];
      }
    }
  }

  /** Store grows the map only when k is new. */
  lemma {:induction false} StoreLength(m: seq<Entry>, k: Labels, v: int)
    requires StrictlySorted(m)
    ensures |Store(m, k, v)| == |m| + (if k in Keys(m) then 0 else 1)
    decreases |m|
  {
    if m != [] {
      assert m == [m[0]] + m[1..];
      KeysCons(m[0], m[1..]);
      if m[0].0 == k {
      } else if TupleLess(k, m[0].0) {
        TupleLessIrreflexive(k);
        if k in Keys(m[1..]) {
          SortedFirst(m, k);
          TupleLessTransitive(k, m[0].0, k);
        }
      } else {
        StoreLength(m[1..], k, v);
      }
    }
  }

  /** Set then Get on the same tuple reads the value set; every other
      tuple reads what it read before. */
  lemma {:induction false} LookupStore(m: seq<Entry>, k: Labels, v: int, k': Labels)
    requires StrictlySorted(m)
    ensures Lookup(Store(m, k, v), k') == if k' == k then v else Lookup(m, k')
    decreases |m|
  {
    if m != [] && m[0].0 != k && !TupleLess(k, m[0].0) {
      LookupStore(m[1..], k, v, k');
    }
  }

  // ---------------------------------------------------------------------
  // Rendering
  // ---------------------------------------------------------------------

  /** `oss << value` for one label value. */
  function LabelString(v: LabelValue): string
  {
    match v
    case LStr(s) => s
    case LInt(i) => IntToDecimal(i)
  }

  /** label_values: one string per tuple element, first element first. */
  function LabelValues(t: Labels): (r: seq<string>)
    ensures |r| == |t|
    ensures forall i :: 0 <= i < |t| ==> r[i] == LabelString(t[i])
    decreases |t|
  {
    if t == [] then [] else [LabelString(t[0])] + LabelValues(t[1..])
  }

  /** Pieces joined with a comma between consecutive ones: no comma
      before the first or after the last. */
  function Join(parts: seq<string>): (r: string)
    ensures |parts| == 1 ==> r == parts[0]
  {
    if parts == [] then []
    else if |parts| == 1 then parts[0]
    else Join(parts[..|parts| - 1]) + "," + parts[|parts| - 1]
  }

  /** Joining n pieces adds exactly n - 1 commas. */
  lemma {:induction false} JoinLength(parts: seq<string>)
    requires parts != []
    ensures |Join(parts)| == LengthSum(parts) + |parts| - 1
    decreases |parts|
  {
    if |parts| > 1 {
      JoinLength(parts[..|parts| - 1]);
      assert parts[..|parts| - 1] + [parts[|parts| - 1]] == parts;
      LengthSumAppend(parts[..|parts| - 1], parts[|parts| - 1]);
    }
  }

  /** One more piece is written after a comma. */
  lemma JoinAppend(parts: seq<string>, p: string)
    requires parts != []
    ensures Join(parts + [p]) == Join(parts) + "," + p
  {
    assert (parts + [p])[..|parts|] == parts;
  }

  /** The joined text starts with the first piece itself, so no comma
      leads. */
  lemma {:induction false} JoinStartsWithFirst(parts: seq<string>)
    requires parts != []
    ensures |parts[0]| <= |Join(parts)| && Join(parts)[..|parts[0]|] == parts[0]
    decreases |parts|
  {
    if |parts| > 1 {
      var init := parts[..|parts| - 1];
      JoinStartsWithFirst(init);
      assert init[0] == parts[0];
      var j := Join(init);
      assert Join(parts) == j + ("," + parts[|parts| - 1]);
      assert (j + ("," + parts[|parts| - 1]))[..|parts[0]|] == j[..|parts[0]|];
    }
  }

  /** How many commas a text holds. */
  function Commas(s: string): nat
  {
    if s == [] then 0 else Commas(s[..|s| - 1]) + (if s[|s| - 1] == ',' then 1 else 0)
  }

  lemma {:induction false} CommasAppend(a: string, b: string)
    ensures Commas(a + b) == Commas(a) + Commas(b)
    decreases |b|
  {
    if b == [] {
      assert a + b == a;
    } else {
      assert (a + b)[..|a + b| - 1] == a + b[..|b| - 1];
      CommasAppend(a, b[..|b| - 1]);
    }
  }

  /** Joining n comma-free pieces writes exactly n - 1 commas. */
  lemma {:induction false} JoinCommas(parts: seq<string>)
    requires parts != []
    requires forall i :: 0 <= i < |parts| ==> Commas(parts[i]) == 0
    ensures Commas(Join(parts)) == |parts| - 1
    decreases |parts|
  {
    if |parts| > 1 {
      var init := parts[..|parts| - 1];
      JoinCommas(init);
      CommasAppend(Join(init) + ",", parts[|parts| - 1]);
      CommasAppend(Join(init), ",");
      assert Commas(",") == Commas([]) + 1;
    }
  }

  function LengthSum(parts: seq<string>): nat
  {
    if parts == [] then 0 else LengthSum(parts[..|parts| - 1]) + |parts[|parts| - 1]|
  }

  lemma LengthSumAppend(parts: seq<string>, s: string)
    ensures LengthSum(parts + [s]) == LengthSum(parts) + |s|
  {
    assert (parts + [s])[..|parts|] == parts;
  }

  /** The "name=value" pieces of a text line. */
  function LabelPairs(names: seq<string>, values: seq<string>): (r: seq<string>)
    requires |names| == |values|
    ensures |r| == |names|
    ensures forall i :: 0 <= i < |r| ==> r[i] == names[i] + "=" + values[i]
  {
    seq(|names|, i requires 0 <= i < |names| => names[i] + "=" + values[i])
  }

  /** ExportText's line for one entry. */
  function TextLine(name: string, labelNames: seq<string>, e: Entry): string
    requires |e.0| == |labelNames|
  {
    name + "{" + Join(LabelPairs(labelNames, LabelValues(e.0))) + "} = " + IntToDecimal(e.1) + "\n"
  }

  /** Whether every stored tuple has one value per label name. */
  predicate Arity(m: seq<Entry>, n: nat)
  {
    forall i :: 0 <= i < |m| ==> |m[i].0| == n
  }

  /** ExportText's output: one line per entry, in the map's order. */
  function GaugeText(name: string, labelNames: seq<string>, m: seq<Entry>): string
    requires Arity(m, |labelNames|)
  {
    if m == [] then []
    else GaugeText(name, labelNames, m[..|m| - 1]) + TextLine(name, labelNames, m[|m| - 1])
  }

  /** Writing one more entry's line extends the text by that line. */
  lemma GaugeTextStep(name: string, labelNames: seq<string>, m: seq<Entry>, e: nat)
    requires Arity(m, |labelNames|) && e < |m|
    ensures GaugeText(name, labelNames, m[..e + 1])
            == GaugeText(name, labelNames, m[..e]) + TextLine(name, labelNames, m[e])
  {
    assert m[..e + 1][..e] == m[..e];
  }

  /** The custom-metric prefix of every exported metric name. */
  const CustomMonitoringRoot :=
    "custom.cloudmonitoring.googleapis.com/certificate-transparency.org/super-duper/"

  function JsonLabelLine(name: string, value: string): string
  {
    "      \"" + name + "\": \"" + value + "\",\n"
  }

  function JsonLabelLines(names: seq<string>, values: seq<string>): string
    requires |names| == |values|
  {
    if names == [] then []
    else JsonLabelLines(names[..|names| - 1], values[..|values| - 1])
         + JsonLabelLine(names[|names| - 1], values[|values| - 1])
  }

  /** The "point" object of a block: start and end are both `timestamp`. */
  function JsonPoint(timestamp: string, value: int): string
  {
    "  \"point\": {\n"
    + "    \"start\": \"" + timestamp + "\",\n"
    + "    \"end\": \"" + timestamp + "\",\n"
    + "    \"doubleValue\": \"" + IntToDecimal(value) + "\",\n"
    + "  },\n"
  }

  function JsonHead(name: string): string
  {
    "{\n" + "  \"timeseriesDesc\": {\n"
    + "    \"metric\": \"" + CustomMonitoringRoot + name + "\",\n"
    + "    \"labels\": {\n"
  }

  const JsonLabelsEnd := "    },\n  },\n"
  const JsonBlockEnd := "},\n"

  /** Export's block for one entry. */
  function JsonBlock(name: string, labelNames: seq<string>, e: Entry, timestamp: string): string
    requires |e.0| == |labelNames|
  {
    JsonHead(name) + JsonLabelLines(labelNames, LabelValues(e.0)) + JsonLabelsEnd
    + JsonPoint(timestamp, e.1) + JsonBlockEnd
  }

  /** Export's output: one block per entry, in the map's order, all with
      the same timestamp. */
  function GaugeJson(name: string, labelNames: seq<string>, m: seq<Entry>, timestamp: string): string
    requires Arity(m, |labelNames|)
  {
    if m == [] then []
    else GaugeJson(name, labelNames, m[..|m| - 1], timestamp)
         + JsonBlock(name, labelNames, m[|m| - 1], timestamp)
  }

  /** Writing one more entry's block extends the JSON by that block. */
  lemma GaugeJsonStep(name: string, labelNames: seq<string>, m: seq<Entry>, e: nat, timestamp: string)
    requires Arity(m, |labelNames|) && e < |m|
    ensures GaugeJson(name, labelNames, m[..e + 1], timestamp)
            == GaugeJson(name, labelNames, m[..e], timestamp) + JsonBlock(name, labelNames, m[e], timestamp)
  {
    assert m[..e + 1][..e] == m[..e];
  }

  /** Each entry's block carries the timestamp as both start and end:
      the block splits at its point object, which is the point written for
      that entry's value at that one timestamp. */
  lemma JsonBlockPoint(name: string, labelNames: seq<string>, e: Entry, timestamp: string)
    requires |e.0| == |labelNames|
    ensures var b := JsonBlock(name, labelNames, e, timestamp);
      var p := JsonPoint(timestamp, e.1);
      var k := |b| - |JsonBlockEnd| - |p|;
      0 <= k && b[k..|b| - |JsonBlockEnd|] == p
      && b[..|JsonHead(name)|] == JsonHead(name)
  {
    var head := JsonHead(name);
    var labels := JsonLabelLines(labelNames, LabelValues(e.0));
    var pre := head + labels + JsonLabelsEnd;
    var p := JsonPoint(timestamp, e.1);
    MiddleOfAppend(pre, p, JsonBlockEnd);
    PrefixOfAppend(pre + p, JsonBlockEnd, |head|);
    PrefixOfAppend(pre, p, |head|);
    PrefixOfAppend(head + labels, JsonLabelsEnd, |head|);
    PrefixOfAppend(head, labels, |head|);
  }

  // ---------------------------------------------------------------------
  // The gauge
  // ---------------------------------------------------------------------

  class Gauge {
    const name: string
    const labelNames: seq<string>
    /** values_ */
    var values: seq<Entry>

    /** The map's order, and a value for each label name in every tuple
        (the C++ tuple type guarantees this). */
    ghost predicate Valid()
      reads this
    {
      StrictlySorted(values) && Arity(values, |labelNames|)
    }

    constructor (name: string, labelNames: seq<string>)
      ensures Valid() && this.name == name && this.labelNames == labelNames && values == []
    {
      this.name, this.labelNames, values := name, labelNames, [];
    }

    /** GCMGauge::Get */
    method Get(labels: Labels) returns (r: int)
      requires Valid()
      ensures r == Lookup(values, labels)
    {
      var i := 0;
      while i < |values| && values[i].0 != labels
        invariant 0 <= i <= |values|
        invariant forall j :: 0 <= j < i ==> values[j].0 != labels
      {
        i := i + 1;
      }
      if i == |values| {
        assert labels !in Keys(values);
        return 0;
      }
      LookupAt(values, labels, i);
      return values[i].1;
    }

    /** GCMGauge::Set */
    method Set(labels: Labels, value: int)
      requires Valid() && |labels| == |labelNames|
      modifies this
      ensures Valid() && values == Store(old(values), labels, value)
    {
      StoreSorted(values, labels, value);
      values := Store(values, labels, value);
      assert forall i :: 0 <= i < |values| ==> values[i].0 in Keys(values);
    }

    /** GCMGauge::ExportText. The check that each tuple has as many values
        as there are label names always holds. */
    method ExportText(os: OStream)
      requires Valid()
      modifies os
      ensures os.text == old(os.text) + GaugeText(name, labelNames, values)
    {
      WriteTextLines(os, name, labelNames, values);
    }

    /** GCMGauge::Export, given the export time already rendered. */
    method Export(os: OStream, timestamp: string)
      requires Valid()
      modifies os
      ensures os.text == old(os.text) + GaugeJson(name, labelNames, values, timestamp)
    {
      WriteJsonBlocks(os, name, labelNames, values, timestamp);
    }
  }

  /** The loop of ExportText over the map's entries. */
  method WriteTextLines(os: OStream, name: string, labelNames: seq<string>, entries: seq<Entry>)
    requires Arity(entries, |labelNames|)
    modifies os
    ensures os.text == old(os.text) + GaugeText(name, labelNames, entries)
  {
    for e := 0 to |entries|
      invariant os.text == old(os.text) + GaugeText(name, labelNames, entries[..e])
    {
      ghost var before := GaugeText(name, labelNames, entries[..e]);
      WriteTextLine(os, name, labelNames, entries[e]);
      GaugeTextStep(name, labelNames, entries, e);
      AppendAssoc(old(os.text), before, TextLine(name, labelNames, entries[e]));
    }
    assert entries[..|entries|] == entries;
  }

  /** The loop of Export over the map's entries. */
  method WriteJsonBlocks(os: OStream, name: string, labelNames: seq<string>, entries: seq<Entry>, timestamp: string)
    requires Arity(entries, |labelNames|)
    modifies os
    ensures os.text == old(os.text) + GaugeJson(name, labelNames, entries, timestamp)
  {
    for e := 0 to |entries|
      invariant os.text == old(os.text) + GaugeJson(name, labelNames, entries[..e], timestamp)
    {
      ghost var before := GaugeJson(name, labelNames, entries[..e], timestamp);
      WriteJsonBlock(os, name, labelNames, entries[e], timestamp);
      GaugeJsonStep(name, labelNames, entries, e, timestamp);
      AppendAssoc(old(os.text), before, JsonBlock(name, labelNames, entries[e], timestamp));
    }
    assert entries[..|entries|] == entries;
  }

  /** The body of ExportText's loop for one entry. */
  method WriteTextLine(os: OStream, name: string, labelNames: seq<string>, e: Entry)
    requires |e.0| == |labelNames|
    modifies os
    ensures os.text == old(os.text) + TextLine(name, labelNames, e)
  {
    var labelStrings := LabelValues(e.0);
    ghost var t0 := os.text;
    var head := name + "{";
    os.Write(head);
    WriteLabelPairs(os, labelNames, labelStrings);
    var tail := "} = " + IntToDecimal(e.1) + "\n";
    os.Write(tail);
    ghost var joined := Join(LabelPairs(labelNames, labelStrings));
    assert TextLine(name, labelNames, e) == head + joined + tail;
    AppendAssoc(t0, head + joined, tail);
    AppendAssoc(t0, head, joined);
  }

  /** The body of Export's loop for one entry. */
  method WriteJsonBlock(os: OStream, name: string, labelNames: seq<string>, e: Entry, timestamp: string)
    requires |e.0| == |labelNames|
    modifies os
    ensures os.text == old(os.text) + JsonBlock(name, labelNames, e, timestamp)
  {
    var labelStrings := LabelValues(e.0);
    ghost var t0 := os.text;
    var head := JsonHead(name);
    os.Write(head);
    WriteJsonLabels(os, labelNames, labelStrings);
    os.Write(JsonLabelsEnd);
    var point := JsonPoint(timestamp, e.1);
    os.Write(point);
    os.Write(JsonBlockEnd);
    ghost var labels := JsonLabelLines(labelNames, labelStrings);
    AppendAssoc(t0, head + labels + JsonLabelsEnd + point, JsonBlockEnd);
    AppendAssoc(t0, head + labels + JsonLabelsEnd, point);
    AppendAssoc(t0, head + labels, JsonLabelsEnd);
    AppendAssoc(t0, head, labels);
  }

  /** The label loop of ExportText: each "name=value", followed by a comma
      unless it is the last. */
  method WriteLabelPairs(os: OStream, names: seq<string>, values: seq<string>)
    requires |names| == |values|
    modifies os
    ensures os.text == old(os.text) + Join(LabelPairs(names, values))
  {
    var pairs := LabelPairs(names, values);
    for i := 0 to |values|
      invariant os.text == old(os.text) + Join(pairs[..i]) + (if 0 < i < |values| then "," else "")
    {
      assert pairs[..i + 1][..i] == pairs[..i];
      os.Write(names[i] + "=" + values[i]);
      if i < |values| - 1 {
        os.Write(",");
      }
    }
    assert pairs[..|values|] == pairs;
  }

  /** The label loop of Export: one JSON member per label. */
  method WriteJsonLabels(os: OStream, names: seq<string>, values: seq<string>)
    requires |names| == |values|
    modifies os
    ensures os.text == old(os.text) + JsonLabelLines(names, values)
  {
    for i := 0 to |values|
      invariant os.text == old(os.text) + JsonLabelLines(names[..i], values[..i])
    {
      assert names[..i + 1][..i] == names[..i] && values[..i + 1][..i] == values[..i];
      os.Write(JsonLabelLine(names[i], values[i]));
    }
    assert names[..|names|] == names && values[..|values|] == values;
  }
}
