/** Registry: the process-wide set of metrics to export. Metrics are
    identified by their address, and std::set keeps them in ascending
    address order; the registry is a strictly ascending sequence of
    addresses that AddMetric and ResetForTestingOnly replace. What a
    metric writes when exported is a parameter: `render(m)` is the text
    m->Export writes and `renderText(m)` the text m->ExportText writes. */
module Registries {

  import opened Basics
  import opened Streams

  /** A metric, by its address. */
  type MetricRef = nat

  predicate Ascending(s: seq<MetricRef>)
  {
    forall i, j :: 0 <= i < j < |s| ==> s[i] < s[j]
  }

  function Elements(s: seq<MetricRef>): set<MetricRef>
  {
    set i | 0 <= i < |s| :: s[i]
  }

  /** std::set::insert: the set in order with m added, or unchanged when
      m is already there. */
  function Insert(s: seq<MetricRef>, m: MetricRef): (r: seq<MetricRef>)
    decreases |s|
  {
    if s == [] then [m]
    else if s[0] == m then s
    else if m < s[0] then [m] + s
    else [s[0]] + Insert(s[1..], m)
  }

  lemma ElementsCons(x: MetricRef, s: seq<MetricRef>)
    ensures Elements([x] + s) == {x} + Elements(s)
  {
    var r := [x] + s;
    forall y | y in Elements(r)
      ensures y == x || y in Elements(s)
    {
      var i :| 0 <= i < |r| && r[i] == y;
      if i > 0 {
        assert s[i - 1] == y;
      }
    }
    forall y | y in Elements(s)
      ensures y in Elements(r)
    {
      var i :| 0 <= i < |s| && s[i] == y;
      assert r[i + 1] == y;
    }
    assert r[0] == x;
  }

  /** Insert adds exactly m to the set. */
  lemma {:induction false} InsertElements(s: seq<MetricRef>, m: MetricRef)
    ensures Elements(Insert(s, m)) == Elements(s) + {m}
    decreases |s|
  {
    if s == [] {
      assert Insert(s, m) == [m] + s;
      ElementsCons(m, s);
    } else {
      assert s == [s[0]] + s[1..];
      ElementsCons(s[0], s[1..]);
      if s[0] == m {
      } else if m < s[0] {
        ElementsCons(m, s);
      } else {
        InsertElements(s[1..], m);
        ElementsCons(s[0], Insert(s[1..], m));
      }
    }
  }

  /** Every element of an ascending sequence after the first is above it. */
  lemma AscendingFirst(s: seq<MetricRef>, x: MetricRef)
    requires Ascending(s) && s != [] && x in Elements(s[1..])
    ensures s[0] < x
  {
    var i :| 0 <= i < |s[1..]| && s[1..][i] == x;
    assert s[i + 1] == x;
  }

  /** An element below everything in an ascending sequence can go in front. */
  lemma AscendingCons(x: MetricRef, r: seq<MetricRef>)
    requires Ascending(r) && forall j :: 0 <= j < |r| ==> x < r[j]
    ensures Ascending([x] + r)
  {
    assert forall j :: 0 < j < |[x] + r| ==> ([x] + r)[j] == r[j - 1];
  }

  /** Insert keeps the set in ascending order. */
  lemma {:induction false} InsertAscending(s: seq<MetricRef>, m: MetricRef)
    requires Ascending(s)
    ensures Ascending(Insert(s, m))
    decreases |s|
  {
    if s == [] {
    } else if s[0] == m {
    } else if m < s[0] {
      AscendingCons(m, s);
    } else {
      var rest := Insert(s[1..], m);
      InsertAscending(s[1..], m);
      InsertElements(s[1..], m);
      forall j | 0 <= j < |rest|
        ensures s[0] < rest[j]
      {
        assert rest[j] in Elements(rest);
        if rest[j] != m {
          AscendingFirst(s, rest[j]);
        }
      }
      AscendingCons(s[0], rest);
    }
  }

  /** Adding a metric that is already registered changes nothing. */
  lemma {:induction false} InsertPresent(s: seq<MetricRef>, m: MetricRef)
    requires Ascending(s) && m in Elements(s)
    ensures Insert(s, m) == s
    decreases |s|
  {
    assert s == [s[0]] + s[1..];
    ElementsCons(s[0], s[1..]);
    if s[0] != m && !(m < s[0]) {
      InsertPresent(s[1..], m);
    }
  }

  /** What Export writes: each metric's Export output, in set order. */
  function ExportedText(s: seq<MetricRef>, render: MetricRef -> string): string
  {
    if s == [] then [] else ExportedText(s[..|s| - 1], render) + render(s[|s| - 1])
  }

  const HtmlHeader := "<html>\n<body>\n  <h1>Metrics</h1>\n<table>\n"
  const HtmlFooter := "</table>\n</body>\n</html>\n"
  const RowEnd := "\n</code></td></tr>\n"

  /** The background of the row at `index`: bg_flip starts false and
      flips after every row. */
  function RowColour(index: nat): (c: string)
    ensures index % 2 == 0 ==> c == "eeffee"
    ensures index % 2 == 1 ==> c == "bbffbb"
  {
    if index % 2 == 0 then "eeffee" else "bbffbb"
  }

  function RowStart(index: nat): string
  {
    "<tr><td style='background-color:#" + RowColour(index) + "'><code>\n"
  }

  /** One table row holding the metric's text output. */
  function Row(index: nat, text: string): string
  {
    RowStart(index) + text + RowEnd
  }

  /** The rows for `s`, numbered from 0. */
  function Rows(s: seq<MetricRef>, renderText: MetricRef -> string): string
  {
    if s == [] then []
    else Rows(s[..|s| - 1], renderText) + Row(|s| - 1, renderText(s[|s| - 1]))
  }

  /** One more metric adds its row, coloured by its position. */
  lemma RowsStep(s: seq<MetricRef>, i: nat, renderText: MetricRef -> string)
    requires i < |s|
    ensures Rows(s[..i + 1], renderText) == Rows(s[..i], renderText) + Row(i, renderText(s[i]))
  {
    assert s[..i + 1][..i] == s[..i];
  }

  /** What ExportHTML writes. */
  function HtmlText(s: seq<MetricRef>, renderText: MetricRef -> string): string
  {
    HtmlHeader + Rows(s, renderText) + HtmlFooter
  }

  /** Consecutive rows have different backgrounds, and the first is
      "eeffee". */
  lemma RowColoursAlternate(index: nat)
    ensures RowColour(0) == "eeffee"
    ensures RowColour(index) != RowColour(index + 1)
  {
  }

  /** The HTML page is the fixed header, then the rows, then the matching
      footer; and it has one row per metric: removing the last metric
      removes exactly its row, which is coloured by its position. */
  lemma HtmlLayout(s: seq<MetricRef>, renderText: MetricRef -> string)
    ensures var t := HtmlText(s, renderText);
      |t| >= |HtmlHeader| + |HtmlFooter|
      && t[..|HtmlHeader|] == HtmlHeader
      && t[|t| - |HtmlFooter|..] == HtmlFooter
    ensures s != [] ==>
      var last := |s| - 1;
      Rows(s, renderText) == Rows(s[..last], renderText) + RowStart(last) + renderText(s[last]) + RowEnd
  {
    var rows := Rows(s, renderText);
    AppendAssoc(HtmlHeader, rows, HtmlFooter);
    PrefixOfAppend(HtmlHeader, rows + HtmlFooter, |HtmlHeader|);
    SuffixOfAppend(HtmlHeader + rows, HtmlFooter);
  }

  /** Exporting writes every metric's output: the text for s + [m] is the
      text for s followed by m's. */
  lemma ExportedTextAppend(s: seq<MetricRef>, m: MetricRef, render: MetricRef -> string)
    ensures ExportedText(s + [m], render) == ExportedText(s, render) + render(m)
  {
    assert (s + [m])[..|s|] == s;
  }

  class Registry {
    /** metrics_, in the set's order. */
    var metrics: seq<MetricRef>

    ghost predicate Valid()
      reads this
    {
      Ascending(metrics)
    }

    /** The registered metrics, as a set. */
    ghost function Metrics(): set<MetricRef>
      reads this
    {
      Elements(metrics)
    }

    /** The default constructor: no metrics. */
    constructor ()
      ensures Valid() && metrics == []
    {
      metrics := [];
    }

    /** Registry::AddMetric */
    method AddMetric(m: MetricRef)
      requires Valid()
      modifies this
      ensures Valid() && metrics == Insert(old(metrics), m)
      ensures Metrics() == old(Metrics()) + {m}
    {
      InsertAscending(metrics, m);
      InsertElements(metrics, m);
      metrics := Insert(metrics, m);
    }

    /** Registry::ResetForTestingOnly */
    method ResetForTestingOnly()
      modifies this
      ensures Valid() && metrics == [] && Metrics() == {}
    {
      metrics := [];
    }

    /** Registry::GetMetrics: a copy of the set. The copy is a value, so
        later changes to the registry do not reach it. */
    method GetMetrics() returns (r: seq<MetricRef>)
      requires Valid()
      ensures r == metrics && Ascending(r)
    {
      r := metrics;
    }

    /** Registry::Export: each metric's Export, once each, in set order. */
    method Export(os: OStream, render: MetricRef -> string)
      modifies os
      ensures os.text == old(os.text) + ExportedText(metrics, render)
    {
      for i := 0 to |metrics|
        invariant os.text == old(os.text) + ExportedText(metrics[..i], render)
      {
        assert metrics[..i + 1][..i] == metrics[..i];
        ghost var before := ExportedText(metrics[..i], render);
        os.Write(render(metrics[i]));
        AppendAssoc(old(os.text), before, render(metrics[i]));
      }
      assert metrics[..|metrics|] == metrics;
    }

    /** Registry::ExportHTML */
    method ExportHTML(os: OStream, renderText: MetricRef -> string)
      modifies os
      ensures os.text == old(os.text) + HtmlText(metrics, renderText)
    {
      ghost var t0 := os.text;
      os.Write(HtmlHeader);
      WriteRows(os, metrics, renderText);
      os.Write(HtmlFooter);
      ghost var rows := Rows(metrics, renderText);
      AppendAssoc(t0, HtmlHeader + rows, HtmlFooter);
      AppendAssoc(t0, HtmlHeader, rows);
    }
  }

  /** The loop of ExportHTML, with its bg_flip flag. */
  method WriteRows(os: OStream, metrics: seq<MetricRef>, renderText: MetricRef -> string)
    modifies os
    ensures os.text == old(os.text) + Rows(metrics, renderText)
  {
    var bgFlip := false;
    for i := 0 to |metrics|
      invariant bgFlip <==> i % 2 == 1
      invariant os.text == old(os.text) + Rows(metrics[..i], renderText)
    {
      ghost var before := Rows(metrics[..i], renderText);
      WriteRow(os, bgFlip, i, renderText(metrics[i]));
      RowsStep(metrics, i, renderText);
      ParityStep(i);
      bgFlip := !bgFlip;
      AppendAssoc(old(os.text), before, Row(i, renderText(metrics[i])));
    }
    assert metrics[..|metrics|] == metrics;
  }

  /** bg_flip's value after a row is the opposite of its value before. */
  lemma ParityStep(i: nat)
    ensures (i + 1) % 2 == 1 <==> i % 2 != 1
  {
  }

  /** One iteration of ExportHTML's loop. */
  method WriteRow(os: OStream, bgFlip: bool, index: nat, text: string)
    requires bgFlip <==> index % 2 == 1
    modifies os
    ensures os.text == old(os.text) + Row(index, text)
  {
    ghost var t0 := os.text;
    var colour := if bgFlip then "bbffbb" else "eeffee";
    os.Write("<tr><td style='background-color:#" + colour + "'><code>\n");
    os.Write(text);
    os.Write(RowEnd);
    AppendAssoc(t0, RowStart(index) + text, RowEnd);
    AppendAssoc(t0, RowStart(index), text);
  }

  /** Registry::Instance's function-local static: created on the first
      call, the same object on every later one. */
  class Process {
    var registry: Registry?

    constructor ()
      ensures registry == null
    {
      registry := null;
    }

    method Instance() returns (r: Registry)
      modifies this
      ensures registry == r
      ensures old(registry) != null ==> r == old(registry)
      ensures old(registry) == null ==> fresh(r) && r.metrics == []
    {
      if registry == null {
        registry := new Registry();
      }
      r := registry;
    }
  }

  /** Two calls of Instance return the same registry. */
  method InstanceTwice(p: Process) returns (a: Registry, b: Registry)
    modifies p
    ensures a == b
  {
    a := p.Instance();
    b := p.Instance();
  }
}
