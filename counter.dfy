/** GCMCounter: a counter that keeps its per-label-tuple values in a
    GCMGauge it owns, increments by a read-modify-write of that gauge, and
    exports exactly what the gauge exports. */
module Counters {

  import opened Streams
  import opened Gauges

  class Counter {
    /** gauge_: created with the counter and never replaced. */
    const gauge: Gauge

    ghost predicate Valid()
      reads this, gauge
    {
      gauge.Valid()
    }

    /** The constructor: a fresh gauge with the counter's name and label
        names and no stored values, so every tuple reads 0. */
    constructor (name: string, labelNames: seq<string>)
      ensures Valid() && fresh(gauge)
      ensures gauge.name == name && gauge.labelNames == labelNames && gauge.values == []
    {
      gauge := new Gauge(name, labelNames);
    }

    /** GCMCounter::IncrementBy: sets the tuple's value to what Get read
        plus the amount. */
    method IncrementBy(labels: Labels, amount: int)
      requires Valid() && |labels| == |gauge.labelNames|
      modifies gauge
      ensures Valid()
      ensures gauge.values == Increased(old(gauge.values), labels, amount)
    {
      var current := gauge.Get(labels);
      gauge.Set(labels, current + amount);
    }

    /** GCMCounter::Increment: IncrementBy with an amount of 1. */
    method Increment(labels: Labels)
      requires Valid() && |labels| == |gauge.labelNames|
      modifies gauge
      ensures Valid()
      ensures gauge.values == Increased(old(gauge.values), labels, 1)
    {
      IncrementBy(labels, 1);
    }

    /** GCMCounter::Get: the gauge's value for the tuple. */
    method Get(labels: Labels) returns (r: int)
      requires Valid()
      ensures r == Lookup(gauge.values, labels)
    {
      r := gauge.Get(labels);
    }

    /** GCMCounter::ExportText: the gauge's text, unchanged. */
    method ExportText(os: OStream)
      requires Valid()
      modifies os
      ensures os.text == old(os.text) + GaugeText(gauge.name, gauge.labelNames, gauge.values)
    {
      gauge.ExportText(os);
    }

    /** GCMCounter::Export: the gauge's JSON, unchanged. */
    method Export(os: OStream, timestamp: string)
      requires Valid()
      modifies os
      ensures os.text == old(os.text)
                         + GaugeJson(gauge.name, gauge.labelNames, gauge.values, timestamp)
    {
      gauge.Export(os, timestamp);
    }
  }

  /** The value map after one IncrementBy(labels, amount). */
  function Increased(m: seq<Entry>, labels: Labels, amount: int): seq<Entry>
  {
    Store(m, labels, Lookup(m, labels) + amount)
  }

  /** The value map after `count` successive Increment(labels) calls. */
  function Bumped(m: seq<Entry>, labels: Labels, count: nat): seq<Entry>
  {
    if count == 0 then m else Increased(Bumped(m, labels, count - 1), labels, 1)
  }

  /** One IncrementBy adds the amount to its own tuple, leaves every other
      tuple's value alone, and keeps the map ordered. */
  lemma IncreasedLookup(m: seq<Entry>, labels: Labels, amount: int, other: Labels)
    requires StrictlySorted(m)
    ensures StrictlySorted(Increased(m, labels, amount))
    ensures Lookup(Increased(m, labels, amount), other)
            == Lookup(m, other) + (if other == labels then amount else 0)
  {
    StoreSorted(m, labels, Lookup(m, labels) + amount);
    LookupStore(m, labels, Lookup(m, labels) + amount, other);
  }

  /** Any number of Increments keeps the map ordered. */
  lemma {:induction false} BumpedSorted(m: seq<Entry>, labels: Labels, count: nat)
    requires StrictlySorted(m)
    ensures StrictlySorted(Bumped(m, labels, count))
  {
    if count > 0 {
      BumpedSorted(m, labels, count - 1);
      var b := Bumped(m, labels, count - 1);
      StoreSorted(b, labels, Lookup(b, labels) + 1);
    }
  }

  /** After `count` Increments of one tuple, that tuple reads `count` more
      than before and every other tuple reads as before. */
  lemma {:induction false} BumpedLookup(m: seq<Entry>, labels: Labels, count: nat, other: Labels)
    requires StrictlySorted(m)
    ensures Lookup(Bumped(m, labels, count), other)
            == Lookup(m, other) + (if other == labels then count else 0)
  {
    if count > 0 {
      var b := Bumped(m, labels, count - 1);
      BumpedLookup(m, labels, count - 1, other);
      BumpedSorted(m, labels, count - 1);
      IncreasedLookup(b, labels, 1, other);
    }
  }

  /** After `count` Increments of a tuple never set (on a fresh counter,
      any tuple) Get reads `count`. */
  lemma FreshTupleCount(m: seq<Entry>, labels: Labels, count: nat)
    requires StrictlySorted(m) && labels !in Keys(m)
    ensures Lookup(Bumped(m, labels, count), labels) == count
  {
    BumpedLookup(m, labels, count, labels);
  }
}
