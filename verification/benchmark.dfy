/** Latency histograms and the collector that keeps one for each event. */
module Benchmark {
  import opened OrderStatistics

  const DEFAULT_MAX_SAMPLES: nat := 10000

  function FirstOf(s: seq<nat>, n: nat): (r: seq<nat>)
    ensures r <= s && |r| == if |s| <= n then |s| else n
  {
    if |s| <= n then s else s[..n]
  }

  class LatencyHistogram {
    var samples: seq<nat>
    const maxSamples: nat
    var totalCount: nat
    ghost var recorded: seq<nat>  // every latency since the last reset

    /** The samples are the first latencies recorded since the last reset, as many as are kept; the count
        counts all of them. */
    ghost predicate Valid()
      reads this
    {
      samples == FirstOf(recorded, maxSamples) && totalCount == |recorded|
    }

    constructor (maxSamples: nat)
      ensures Valid() && this.maxSamples == maxSamples && recorded == []
    {
      this.maxSamples, samples, totalCount, recorded := maxSamples, [], 0, [];
    }

    method Record(latency: nat)
      requires Valid()
      modifies this
      ensures Valid() && recorded == old(recorded) + [latency]
      ensures |samples| == if |recorded| <= maxSamples then |recorded| else maxSamples
      ensures forall i :: 0 <= i < |samples| ==> samples[i] == recorded[i]
    {
      if |samples| < maxSamples {
        samples := samples + [latency];
      }
      totalCount := totalCount + 1;
      recorded := recorded + [latency];
    }

    method Minimum() returns (m: nat)
      ensures m == if samples == [] then 0 else MinOf(samples)
    {
      if samples == [] {
        return 0;
      }
      m := samples[0];
      var i := 1;
      while i < |samples|
        invariant 1 <= i <= |samples|
        invariant m in samples[..i] && forall v <- samples[..i] :: m <= v
      {
        assert samples[..i + 1] == samples[..i] + [samples[i]];
        if samples[i] < m {
          m := samples[i];
        }
        i := i + 1;
      }
      assert samples[..i] == samples;
    }

    method Maximum() returns (m: nat)
      ensures m == if samples == [] then 0 else MaxOf(samples)
    {
      if samples == [] {
        return 0;
      }
      m := samples[0];
      var i := 1;
      while i < |samples|
        invariant 1 <= i <= |samples|
        invariant m in samples[..i] && forall v <- samples[..i] :: v <= m
      {
        assert samples[..i + 1] == samples[..i] + [samples[i]];
        if m < samples[i] {
          m := samples[i];
        }
        i := i + 1;
      }
      assert samples[..i] == samples;
    }

    /** The order statistic of the stored samples at p percent; 0 when there are none. */
    method PercentileAt(p: real) returns (x: nat)
      requires p >= 0.0
      ensures samples == [] ==> x == 0
      ensures samples != [] ==> CountBelow(samples, x) <= Rank(|samples|, p) < CountUpTo(samples, x)
      ensures x == Percentile(samples, p)
    {
      if samples == [] {
        return 0;
      }
      var sorted := Sort(samples);
      x := sorted[Rank(|sorted|, p)];
      PercentileIsOrderStatistic(samples, p, x);
    }

    /** The summary of a non-empty histogram is in order. */
    method Summary() returns (low: nat, p50: nat, p95: nat, p99: nat, high: nat)
      ensures low <= p50 <= p95 <= p99 <= high
    {
      low := Minimum();
      p50 := PercentileAt(50.0);
      p95 := PercentileAt(95.0);
      p99 := PercentileAt(99.0);
      high := Maximum();
      PercentileMonotone(samples, 50.0, 95.0);
      PercentileMonotone(samples, 95.0, 99.0);
      if samples != [] {
        PercentileIsOrderStatistic(samples, 50.0, 0);
        PercentileIsOrderStatistic(samples, 99.0, 0);
      }
    }

    method Reset()
      modifies this
      ensures Valid() && recorded == []
    {
      samples := [];
      totalCount := 0;
      recorded := [];
    }
  }

  // ---- The collector ----

  /** One recorded measurement. */
  datatype Measurement = Measurement(event: string, latency: nat)

  function LatenciesOf(log: seq<Measurement>, event: string): seq<nat> {
    if log == [] then []
    else
      var before, last := LatenciesOf(log[..|log| - 1], event), log[|log| - 1];
      if last.event == event then before + [last.latency] else before
  }

  ghost function SumOfCounts(events: set<string>, log: seq<Measurement>): nat {
    if events == {} then 0
    else
      var e :| e in events;
      |LatenciesOf(log, e)| + SumOfCounts(events - {e}, log)
  }

  /** The sum does not depend on the order in which the events are picked. */
  lemma {:induction false} SumSplit(events: set<string>, log: seq<Measurement>, e: string)
    requires e in events
    ensures SumOfCounts(events, log) == |LatenciesOf(log, e)| + SumOfCounts(events - {e}, log)
    decreases events
  {
    var d := Picked(events, log);
    if d != e {
      SumSplit(events - {d}, log, e);
      SumSplit(events - {e}, log, d);
      assert events - {d} - {e} == events - {e} - {d};
    }
  }

  lemma {:induction false} Picked(events: set<string>, log: seq<Measurement>) returns (d: string)
    requires events != {}
    ensures d in events
    ensures SumOfCounts(events, log) == |LatenciesOf(log, d)| + SumOfCounts(events - {d}, log)
  {
    assert exists e :: e in events && SumOfCounts(events, log)
                                      == |LatenciesOf(log, e)| + SumOfCounts(events - {e}, log);
    d :| d in events && SumOfCounts(events, log) == |LatenciesOf(log, d)| + SumOfCounts(events - {d}, log);
  }

  lemma {:induction false} SumOneMore(events: set<string>, log: seq<Measurement>, m: Measurement)
    ensures SumOfCounts(events, log + [m]) == SumOfCounts(events, log) + if m.event in events then 1 else 0
    decreases events
  {
    assert (log + [m])[..|log|] == log;
    if events != {} {
      var e := Picked(events, log + [m]);
      SumSplit(events, log, e);
      SumOneMore(events - {e}, log, m);
    }
  }

  /** Conservation: every measurement is counted under exactly one event. */
  lemma {:induction false} CountsAddUp(events: set<string>, log: seq<Measurement>)
    requires forall m <- log :: m.event in events
    ensures SumOfCounts(events, log) == |log|
    decreases |log|
  {
    if log == [] {
      SumOfNothing(events);
    } else {
      var init, last := log[..|log| - 1], log[|log| - 1];
      CountsAddUp(events, init);
      SumOneMore(events, init, last);
      assert init + [last] == log;
      assert last in log;
    }
  }

  lemma {:induction false} SumOfNothing(events: set<string>)
    ensures SumOfCounts(events, []) == 0
    decreases events
  {
    if events != {} {
      var e := Picked(events, []);
      SumOfNothing(events - {e});
    }
  }

  class BenchmarkCollector {
    var histograms: map<string, LatencyHistogram>
    var totalMessages: nat
    ghost var log: seq<Measurement>  // every measurement since the last reset

    ghost predicate Distinct()
      reads this
    {
      forall d, e :: d in histograms && e in histograms && d != e ==> histograms[d] != histograms[e]
    }

    /** Every histogram holds exactly the latencies of its own event. */
    ghost predicate Valid()
      reads this, histograms.Values
    {
      && Distinct()
      && (forall e <- histograms :: histograms[e].Valid() && histograms[e].recorded == LatenciesOf(log, e)
                                    && histograms[e].maxSamples == DEFAULT_MAX_SAMPLES)
      && (forall m <- log :: m.event in histograms)
      && totalMessages == |log|
    }

    constructor ()
      ensures Valid() && histograms == map[] && log == []
    {
      histograms, totalMessages, log := map[], 0, [];
    }

    method Record(event: string, latency: nat)
      requires Valid()
      modifies this, histograms.Values
      ensures Valid() && log == old(log) + [Measurement(event, latency)] && totalMessages == old(totalMessages) + 1
      ensures fresh(histograms.Values - old(histograms.Values))
    {
      if event !in histograms {
        NoLatencies(log, event);
        var h := new LatencyHistogram(DEFAULT_MAX_SAMPLES);
        histograms := histograms[event := h];
      }
      histograms[event].Record(latency);
      totalMessages := totalMessages + 1;
      log := log + [Measurement(event, latency)];
      assert log[..|log| - 1] == old(log);
    }

    /** The histogram of an event: it has kept the event's first 10000 latencies and counted all of them. No
        histogram means that nothing was recorded under that name. */
    method Get(event: string) returns (h: LatencyHistogram?)
      requires Valid()
      ensures h == null ==> LatenciesOf(log, event) == []
      ensures h != null ==>
        var all := LatenciesOf(log, event);
        && h in histograms.Values && h.samples <= all && |h.samples| == (if |all| <= 10000 then |all| else 10000)
        && h.totalCount == |all|
    {
      if event !in histograms {
        NoLatencies(log, event);
        return null;
      }
      h := histograms[event];
    }

    method Reset()
      requires Valid()
      modifies this, histograms.Values
      ensures Valid() && log == [] && histograms == old(histograms)
    {
      var todo := histograms.Keys;
      while todo != {}
        invariant todo <= histograms.Keys && histograms == old(histograms) && Distinct()
        invariant forall e <- histograms :: histograms[e].maxSamples == DEFAULT_MAX_SAMPLES
        invariant forall e <- histograms :: e !in todo ==> histograms[e].Valid() && histograms[e].recorded == []
        decreases todo
      {
        var e :| e in todo;
        histograms[e].Reset();
        todo := todo - {e};
      }
      totalMessages := 0;
      log := [];
    }

    /** The total equals the sum of all histogram counts. */
    lemma TotalIsSumOfCounts()
      requires Valid()
      ensures totalMessages == SumOfCounts(histograms.Keys, log)
      ensures forall e <- histograms :: histograms[e].totalCount == |LatenciesOf(log, e)|
    {
      CountsAddUp(histograms.Keys, log);
    }
  }

  lemma {:induction false} NoLatencies(log: seq<Measurement>, event: string)
    requires forall m <- log :: m.event != event
    ensures LatenciesOf(log, event) == []
  {
    if log != [] {
      NoLatencies(log[..|log| - 1], event);
    }
  }
}
