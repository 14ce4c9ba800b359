/**
 * The collection service: the registered collectors run one after another, each in its own
 * exception guard, with a delay after each; their returned counts are summed. A single collector
 * can also be run by name, compared without regard to case.
 */
module Orchestration {
  import opened Wrappers
  import opened Text
  import opened SeqOps
  import Catalog
  import Logs
  import opened Collecting
  import PublicData
  import BokjiroCrawler
  import Youth

  /** The three `IDataCollector` implementations. */
  datatype Collector = PublicDataCollector | BokjiroCollector | YouthCenterCollector

  function SourceName(c: Collector): string {
    match c
    case PublicDataCollector => PublicData.SourceName
    case BokjiroCollector => BokjiroCrawler.SourceName
    case YouthCenterCollector => Youth.SourceName
  }

  /** The collectors the background host registers, in registration order. */
  const WorkerRegistry := [PublicDataCollector, BokjiroCollector, YouthCenterCollector]

  /** The collectors the web API host registers: the crawler is not among them. */
  const ApiRegistry := [PublicDataCollector, YouthCenterCollector]

  /** The two tables a run writes. */
  datatype Store = Store(table: Catalog.Table, logs: Logs.LogTable)

  /** Running one collector against the store: the store it leaves and how its call ended. */
  type Runner = (Collector, Store) -> (Store, Outcome)

  /** Everything the three collectors read besides the store. */
  datatype Inputs = Inputs(
    publicEnv: Env, publicKey: Option<string>, publicPages: seq<PageStep<PublicData.Response>>,
    bokjiroEnv: Env, bokjiroFetch: BokjiroCrawler.Fetch, bokjiroCancelAt: Option<nat>,
    youthEnv: Env, youthKey: Option<string>, youthPages: seq<PageStep<Youth.Response>>)

  /** `collector.CollectAsync(token)` for each implementation. */
  function RunOne(inputs: Inputs, c: Collector, s: Store): (Store, Outcome) {
    var r := match c
      case PublicDataCollector =>
        PublicData.Collect(inputs.publicEnv, inputs.publicKey, inputs.publicPages, s.table, s.logs)
      case BokjiroCollector =>
        BokjiroCrawler.Collect(inputs.bokjiroEnv, inputs.bokjiroFetch, inputs.bokjiroCancelAt, s.table, s.logs)
      case YouthCenterCollector =>
        Youth.Collect(inputs.youthEnv, inputs.youthKey, inputs.youthPages, s.table, s.logs);
    (Store(r.table, r.logs), r.outcome)
  }

  function Collectors(inputs: Inputs): Runner {
    (c: Collector, s: Store) => RunOne(inputs, c, s)
  }

  /** Whatever they read, the three collectors never store an external id twice. */
  lemma RunOneKeepsValid(inputs: Inputs, c: Collector, s: Store)
    requires Catalog.Valid(s.table)
    ensures Catalog.Valid(RunOne(inputs, c, s).0.table)
  {
    match c
    case PublicDataCollector =>
      PublicData.CollectKeepsValid(inputs.publicEnv, inputs.publicKey, inputs.publicPages, s.table, s.logs);
    case BokjiroCollector =>
      BokjiroCrawler.CollectKeepsValid(inputs.bokjiroEnv, inputs.bokjiroFetch, inputs.bokjiroCancelAt, s.table, s.logs);
    case YouthCenterCollector =>
      Youth.CollectKeepsValid(inputs.youthEnv, inputs.youthKey, inputs.youthPages, s.table, s.logs);
  }

  // ---------------------------------------------------------------------------------------------
  // Running every collector
  // ---------------------------------------------------------------------------------------------

  /**
   * One iteration of the `foreach` over the collectors: whether cancellation was requested at
   * its check, and whether the delay after the collector was cancelled.
   */
  datatype Slot = Slot(cancelled: bool, delayCancelled: bool)

  /**
   * How `RunAllCollectorsAsync` ended: normally with the total it logs, or with the exception a
   * cancelled delay throws, which escapes since the delay is outside the guard.
   */
  datatype AllEnd = AllDone(store: Store, total: int) | DelayCanceled(store: Store)

  /** The count a collector's call adds to the total: what it returned, nothing if it threw. */
  function Count(o: Outcome): int {
    if o.Returned? then o.count else 0
  }

  /** `RunAllCollectorsAsync`, from the running total `total`. */
  function RunAll(cs: seq<Collector>, run: Runner, slots: seq<Slot>, s: Store, total: int): (r: AllEnd)
    requires |slots| == |cs|
    ensures |cs| == 0 || slots[0].cancelled ==> r == AllDone(s, total)
    decreases |cs|
  {
    if |cs| == 0 || slots[0].cancelled then AllDone(s, total)
    else
      var next := run(cs[0], s);
      if slots[0].delayCancelled then DelayCanceled(next.0)
      else RunAll(cs[1..], run, slots[1..], next.0, total + Count(next.1))
  }

  /** Reference definition: every collector run in turn on the store the previous one left. */
  function Runs(cs: seq<Collector>, run: Runner, s: Store): (r: (Store, seq<Outcome>))
    ensures |r.1| == |cs|
    decreases |cs|
  {
    if |cs| == 0 then (s, [])
    else
      var next := run(cs[0], s);
      var rest := Runs(cs[1..], run, next.0);
      (rest.0, [next.1] + rest.1)
  }

  /** The sum of the counts returned by the calls that did not throw. */
  function SumCounts(os: seq<Outcome>): int
    decreases |os|
  {
    if |os| == 0 then 0 else Count(os[0]) + SumCounts(os[1..])
  }

  predicate Uninterrupted(slots: seq<Slot>) {
    forall i :: 0 <= i < |slots| ==> !slots[i].cancelled && !slots[i].delayCancelled
  }

  /**
   * Without cancellation every collector runs once, in order, whether or not an earlier one
   * threw, and the total is the sum of the counts of those that returned.
   */
  lemma {:induction false} RunAllRunsEach(cs: seq<Collector>, run: Runner, slots: seq<Slot>, s: Store, total: int)
    requires |slots| == |cs| && Uninterrupted(slots)
    ensures RunAll(cs, run, slots, s, total) == AllDone(Runs(cs, run, s).0, total + SumCounts(Runs(cs, run, s).1))
    decreases |cs|
  {
    if |cs| > 0 {
      var next := run(cs[0], s);
      assert Uninterrupted(slots[1..]) by {
        forall i | 0 <= i < |slots[1..]| ensures !slots[1..][i].cancelled && !slots[1..][i].delayCancelled {
          assert slots[1..][i] == slots[i + 1];
        }
      }
      RunAllRunsEach(cs[1..], run, slots[1..], next.0, total + Count(next.1));
      var os := Runs(cs, run, s).1;
      assert os[1..] == Runs(cs[1..], run, next.0).1;
    }
  }

  /**
   * Cancellation seen at collector `k` stops the loop there: exactly the collectors before it
   * ran, and the run ends normally with their total.
   */
  lemma {:induction false} RunAllStopsAtCancel(cs: seq<Collector>, run: Runner, slots: seq<Slot>, s: Store,
                                               total: int, k: nat)
    requires |slots| == |cs| && k < |cs| && slots[k].cancelled
    requires Uninterrupted(slots[..k])
    ensures RunAll(cs, run, slots, s, total) ==
      AllDone(Runs(cs[..k], run, s).0, total + SumCounts(Runs(cs[..k], run, s).1))
    decreases k
  {
    if k > 0 {
      var next := run(cs[0], s);
      assert slots[..k][0] == slots[0];
      var later := slots[1..][..k - 1];
      assert Uninterrupted(later) by {
        forall i | 0 <= i < |later| ensures !later[i].cancelled && !later[i].delayCancelled {
          assert later[i] == slots[..k][i + 1];
        }
      }
      RunAllStopsAtCancel(cs[1..], run, slots[1..], next.0, total + Count(next.1), k - 1);
      assert cs[1..][..k - 1] == cs[..k][1..];
      var os := Runs(cs[..k], run, s).1;
      assert os[1..] == Runs(cs[1..][..k - 1], run, next.0).1;
    }
  }

  /**
   * A cancelled delay after collector `k` ends the whole run with an exception, once collectors
   * 0 through `k` have run.
   */
  lemma {:induction false} RunAllDelayCanceled(cs: seq<Collector>, run: Runner, slots: seq<Slot>, s: Store,
                                               total: int, k: nat)
    requires |slots| == |cs| && k < |cs| && !slots[k].cancelled && slots[k].delayCancelled
    requires Uninterrupted(slots[..k])
    ensures RunAll(cs, run, slots, s, total) == DelayCanceled(Runs(cs[..k + 1], run, s).0)
    decreases k
  {
    if k > 0 {
      var next := run(cs[0], s);
      assert slots[..k][0] == slots[0];
      var later := slots[1..][..k - 1];
      assert Uninterrupted(later) by {
        forall i | 0 <= i < |later| ensures !later[i].cancelled && !later[i].delayCancelled {
          assert later[i] == slots[..k][i + 1];
        }
      }
      RunAllDelayCanceled(cs[1..], run, slots[1..], next.0, total + Count(next.1), k - 1);
      assert cs[1..][..k] == cs[..k + 1][1..];
    } else {
      assert cs[..1][1..] == [];
    }
  }

  /** A runner that, started on a valid table, always leaves a valid one. */
  ghost predicate KeepsValid(run: Runner) {
    forall c: Collector, s: Store :: Catalog.Valid(s.table) ==> Catalog.Valid(run(c, s).0.table)
  }

  /** Runs that each keep the table valid keep it valid across the whole loop. */
  lemma {:induction false} RunAllKeepsValidWith(cs: seq<Collector>, run: Runner, slots: seq<Slot>, s: Store, total: int)
    requires |slots| == |cs| && Catalog.Valid(s.table) && KeepsValid(run)
    ensures Catalog.Valid(RunAll(cs, run, slots, s, total).store.table)
    decreases |cs|
  {
    if |cs| > 0 && !slots[0].cancelled {
      var next := run(cs[0], s);
      if !slots[0].delayCancelled {
        RunAllKeepsValidWith(cs[1..], run, slots[1..], next.0, total + Count(next.1));
      }
    }
  }

  /** However the loop over the three collectors ends, the table it leaves is valid. */
  lemma RunAllKeepsValid(cs: seq<Collector>, inputs: Inputs, slots: seq<Slot>, s: Store, total: int)
    requires |slots| == |cs| && Catalog.Valid(s.table)
    ensures Catalog.Valid(RunAll(cs, Collectors(inputs), slots, s, total).store.table)
  {
    forall c: Collector, s': Store | Catalog.Valid(s'.table) ensures Catalog.Valid(Collectors(inputs)(c, s').0.table) {
      RunOneKeepsValid(inputs, c, s');
    }
    RunAllKeepsValidWith(cs, Collectors(inputs), slots, s, total);
  }

  // ---------------------------------------------------------------------------------------------
  // Running one collector by name
  // ---------------------------------------------------------------------------------------------

  /** `FirstOrDefault(c => c.SourceName.Equals(name, OrdinalIgnoreCase))` */
  function FindCollector(cs: seq<Collector>, name: string): (r: Option<Collector>)
    ensures r.Some? ==> r.value in cs && EqualsIgnoreCase(SourceName(r.value), name)
    ensures r.None? <==> forall k :: 0 <= k < |cs| ==> !EqualsIgnoreCase(SourceName(cs[k]), name)
  {
    FirstWhere(cs, (c: Collector) => EqualsIgnoreCase(SourceName(c), name))
  }

  /** The first collector whose name matches is the one found, whatever follows it. */
  lemma FindCollectorIsFirst(cs: seq<Collector>, name: string, k: nat)
    requires k < |cs| && EqualsIgnoreCase(SourceName(cs[k]), name)
    requires forall j :: 0 <= j < k ==> !EqualsIgnoreCase(SourceName(cs[j]), name)
    ensures FindCollector(cs, name) == Some(cs[k])
  {
    var p := (c: Collector) => EqualsIgnoreCase(SourceName(c), name);
    assert p(cs[k]);
  }

  /** `RunCollectorAsync(name)`: runs the matching collector once; an unknown name does nothing. */
  function RunCollector(cs: seq<Collector>, run: Runner, name: string, s: Store): (r: (Store, Option<Outcome>))
    ensures FindCollector(cs, name).None? ==> r == (s, None)
    ensures FindCollector(cs, name).Some? ==> r.1.Some? && (r.0, r.1.value) == run(FindCollector(cs, name).value, s)
  {
    match FindCollector(cs, name)
    case None => (s, None)
    case Some(c) => var next := run(c, s); (next.0, Some(next.1))
  }
}
