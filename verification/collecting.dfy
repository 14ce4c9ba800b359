/**
 * What the three collectors share: the decision each item leads to, how a decision changes the
 * subsidies table and the run's counts, the paged fetch loop, and the collection log each run
 * opens and closes.
 *
 * A run is a pure function of its inputs. The clock is read once (`now`); each fetched page
 * arrives with whether cancellation was requested before it was fetched and whether the
 * rate-limit delay after it was cancelled; the calls the model cannot see (`DateTime.TryParse`,
 * `WebUtility.HtmlDecode`, `string.GetHashCode`) are parameters.
 */
module Collecting {
  import opened Wrappers
  import opened Domain
  import opened Json
  import opened Text
  import Catalog
  import Logs

  /** The inputs a run reads besides the store and the fetched pages. */
  datatype Env = Env(
    now: Time,
    regions: seq<Region>,
    categories: seq<Category>,
    /** `DateTime.TryParse`. */
    parseDate: string -> Option<Time>,
    /** `WebUtility.HtmlDecode`. */
    htmlDecode: string -> string,
    /** `string.GetHashCode`, which .NET randomises per process. */
    hash: string -> int,
    /** The message of the exception `JsonElement` throws when a value has the wrong kind. */
    jsonError: string,
    /** The message of the exception adding the run's log row throws, if it does. */
    logAddError: Option<string>)

  /** `"... was canceled"`: the message `Task.Delay` throws when cancellation interrupts it. */
  const TaskCanceled := "A task was canceled."

  // ---------------------------------------------------------------------------------------------
  // Item decisions
  // ---------------------------------------------------------------------------------------------

  datatype SkipReason =
    | NoId        // the item has no external id
    | Unchanged   // the record exists and is not to be refreshed
    | Fault       // reading or resolving the item threw

  /**
   * What one item leads to. `Ignore` counts nowhere. `SkipChanged` is an item counted skipped
   * after it had already changed a tracked row in memory: the next save of the shared context
   * writes that row as it stands, without a new `UpdatedAt`.
   */
  datatype Decision =
    | Ignore
    | Skip(reason: SkipReason)
    | SkipChanged(record: Subsidy)
    | Refresh(record: Subsidy)
    | Insert(record: Subsidy)

  datatype Tally = Tally(collected: nat, updated: nat, skipped: nat)

  function Total(t: Tally): nat {
    t.collected + t.updated + t.skipped
  }

  /**
   * A decision the store can take without breaking its invariant: only an external id no row
   * carries is inserted, and a refresh writes over an existing row and keeps its external id.
   */
  predicate SafeFor(t: Catalog.Table, d: Decision) {
    match d
    case Insert(rec) => rec.externalId.Some? && !Catalog.Exists(t, rec.externalId.value)
    case Refresh(rec) => exists k :: 0 <= k < |t| && t[k].id == rec.id && t[k].externalId == rec.externalId
    case SkipChanged(rec) => exists k :: 0 <= k < |t| && t[k].id == rec.id && t[k].externalId == rec.externalId
    case _ => true
  }

  /**
   * Carries out one decision: an insert appends the record (`AddAsync`) and counts it collected,
   * a refresh writes it over its row (`UpdateAsync`, which stamps `UpdatedAt`) and counts it
   * updated, a skip counts it skipped; a skip after a change also saves the changed row as it
   * stands.
   */
  function Apply(t: Catalog.Table, tally: Tally, d: Decision, now: Time): (r: (Catalog.Table, Tally))
    ensures d.Ignore? || d.Skip? ==> r == (t, if d.Ignore? then tally else tally.(skipped := tally.skipped + 1))
    ensures d.Insert? ==> r == (Catalog.Add(t, d.record).0, tally.(collected := tally.collected + 1))
    ensures d.Refresh? && SafeFor(t, d) ==>
      r == (Catalog.Update(t, d.record, now).value, tally.(updated := tally.updated + 1))
    ensures d.SkipChanged? && SafeFor(t, d) ==>
      r == (Catalog.Save(t, d.record).value, tally.(skipped := tally.skipped + 1))
    ensures Total(r.1) == Total(tally) + (if d.Ignore? then 0 else 1)
    ensures |r.0| == |t| + (r.1.collected - tally.collected)
  {
    match d
    case Ignore => (t, tally)
    case Skip(_) => (t, tally.(skipped := tally.skipped + 1))
    case Insert(rec) => (Catalog.Add(t, rec).0, tally.(collected := tally.collected + 1))
    case SkipChanged(rec) =>
      (Catalog.Save(t, rec).GetOr(t), tally.(skipped := tally.skipped + 1))
    case Refresh(rec) =>
      match Catalog.Update(t, rec, now)
      case Some(t') => (t', tally.(updated := tally.updated + 1))
      case None => (t, tally.(skipped := tally.skipped + 1))
  }

  /** A safe decision keeps the table valid. */
  lemma ApplyKeepsValid(t: Catalog.Table, tally: Tally, d: Decision, now: Time)
    requires Catalog.Valid(t) && SafeFor(t, d)
    ensures Catalog.Valid(Apply(t, tally, d, now).0)
  {
    match d
    case Insert(rec) =>
      Catalog.AddKeepsUnique(t, rec);
    case Refresh(rec) =>
      var k :| 0 <= k < |t| && t[k].id == rec.id && t[k].externalId == rec.externalId;
      Catalog.UpdateKeepsValid(t, k, rec, now);
    case SkipChanged(rec) =>
      var k :| 0 <= k < |t| && t[k].id == rec.id && t[k].externalId == rec.externalId;
      Catalog.SaveKeepsValid(t, k, rec);
    case _ =>
  }

  /** No row is removed or renumbered: the table only grows at the end. */
  predicate Extends(t: Catalog.Table, t': Catalog.Table) {
    |t| <= |t'| && forall k :: 0 <= k < |t| ==> t'[k].id == t[k].id
  }

  lemma ApplyExtends(t: Catalog.Table, tally: Tally, d: Decision, now: Time)
    ensures Extends(t, Apply(t, tally, d, now).0)
  {
  }

  /** `decide(table, item)`: the decision and, when the item names one, the external id it lists. */
  type Decider<!I> = (Catalog.Table, I) -> (Decision, Option<string>)

  /** A decider that, on a valid table, only ever makes safe decisions. */
  ghost predicate SafeDecider<I(!new)>(decide: Decider<I>) {
    forall t: Catalog.Table, item: I :: Catalog.Valid(t) ==> SafeFor(t, decide(t, item).0)
  }

  /** A decider that never answers `Ignore`: every item is counted somewhere. */
  ghost predicate CountsEveryItem<I(!new)>(decide: Decider<I>) {
    forall t: Catalog.Table, item: I :: !decide(t, item).0.Ignore?
  }

  /** The state of a run's loop: the table, the counts, and the external ids listed so far. */
  datatype Progress = Progress(table: Catalog.Table, tally: Tally, seen: seq<string>)

  function Step<I>(p: Progress, decide: Decider<I>, item: I, now: Time): Progress {
    var (d, id) := decide(p.table, item);
    var (t', tally') := Apply(p.table, p.tally, d, now);
    Progress(t', tally', p.seen + (if id.Some? then [id.value] else []))
  }

  /**
   * The `foreach` over one page's items, in order. The counts grow by at most one per item (by
   * exactly one unless the item is ignored), the table grows by the number collected, and the
   * listed ids only grow.
   */
  function ProcessItems<I(!new)>(items: seq<I>, decide: Decider<I>, now: Time, p: Progress): (r: Progress)
    ensures Total(r.tally) <= Total(p.tally) + |items|
    ensures CountsEveryItem(decide) ==> Total(r.tally) == Total(p.tally) + |items|
    ensures r.tally.collected >= p.tally.collected
    ensures r.tally.updated >= p.tally.updated && r.tally.skipped >= p.tally.skipped
    ensures |r.table| == |p.table| + (r.tally.collected - p.tally.collected)
    ensures Extends(p.table, r.table)
    ensures |p.seen| <= |r.seen| && r.seen[..|p.seen|] == p.seen
    ensures SafeDecider(decide) && Catalog.Valid(p.table) ==> Catalog.Valid(r.table)
    decreases |items|
  {
    if |items| == 0 then p
    else
      var q := Step(p, decide, items[0], now);
      StepFacts(p, decide, items[0], now);
      var r := ProcessItems(items[1..], decide, now, q);
      PrefixTransitive(p.seen, q.seen, r.seen);
      r
  }

  lemma StepFacts<I(!new)>(p: Progress, decide: Decider<I>, item: I, now: Time)
    ensures Extends(p.table, Step(p, decide, item, now).table)
    ensures SafeDecider(decide) && Catalog.Valid(p.table) ==> Catalog.Valid(Step(p, decide, item, now).table)
  {
    ApplyExtends(p.table, p.tally, decide(p.table, item).0, now);
    if SafeDecider(decide) && Catalog.Valid(p.table) {
      ApplyKeepsValid(p.table, p.tally, decide(p.table, item).0, now);
    }
  }

  lemma PrefixTransitive<T>(a: seq<T>, b: seq<T>, c: seq<T>)
    requires |a| <= |b| && b[..|a|] == a
    requires |b| <= |c| && c[..|b|] == b
    ensures c[..|a|] == a
  {
    assert c[..|a|] == c[..|b|][..|a|];
  }

  // ---------------------------------------------------------------------------------------------
  // The paged loop
  // ---------------------------------------------------------------------------------------------

  /** What follows a page's items: another page, the end, or an exception reading the page. */
  datatype AfterBatch = MorePages | LastPage | RaiseAfter(message: string)

  /**
   * How a fetched page reads: the loop ends normally (`break`), an exception escapes before the
   * items are processed, or there are items to process.
   */
  datatype PageView<I> = Halt | Raise(message: string) | Batch(items: seq<I>, after: AfterBatch)

  /**
   * One iteration of `while (hasMore && !token.IsCancellationRequested)`: whether cancellation
   * was requested at the top of the iteration, the response, and whether the delay after it was cancelled.
   */
  datatype PageStep<R> = PageStep(cancelled: bool, response: R, delayCancelled: bool)

  /** How the loop ended: normally, or with an exception that leaves the table as it stands. */
  datatype LoopEnd = Finished(progress: Progress) | Aborted(table: Catalog.Table, message: string)

  function EndTable(e: LoopEnd): Catalog.Table {
    if e.Finished? then e.progress.table else e.table
  }

  /**
   * The loop over pages. It ends normally when cancellation is requested at the loop check, on a
   * page read as `Halt`, or after the last page's items and delay. An exception (a thrown fetch,
   * a bad read, a cancelled delay) aborts it. A script that runs out reads as cancellation.
   */
  function RunPages<R, I(!new)>(steps: seq<PageStep<R>>, view: R -> PageView<I>, decide: Decider<I>, now: Time, p: Progress): (r: LoopEnd)
    ensures Extends(p.table, EndTable(r))
    ensures r.Finished? ==> |r.progress.table| == |p.table| + (r.progress.tally.collected - p.tally.collected)
    ensures r.Finished? ==> |p.seen| <= |r.progress.seen| && r.progress.seen[..|p.seen|] == p.seen
    ensures SafeDecider(decide) && Catalog.Valid(p.table) ==> Catalog.Valid(EndTable(r))
    ensures |steps| == 0 || steps[0].cancelled ==> r == Finished(p)
    decreases |steps|
  {
    if |steps| == 0 || steps[0].cancelled then Finished(p)
    else
      match view(steps[0].response)
      case Halt => Finished(p)
      case Raise(m) => Aborted(p.table, m)
      case Batch(items, after) =>
        var q := ProcessItems(items, decide, now, p);
        if after.RaiseAfter? then Aborted(q.table, after.message)
        else if steps[0].delayCancelled then Aborted(q.table, TaskCanceled)
        else if after.LastPage? then Finished(q)
        else
          var r := RunPages(steps[1..], view, decide, now, q);
          if r.Finished? then
            PrefixTransitive(p.seen, q.seen, r.progress.seen);
            r
          else r
  }

  /** The loop stops at the first page read as `Halt` or `Raise`, whatever follows it. */
  lemma RunPagesStopsAt<R, I(!new)>(steps: seq<PageStep<R>>, view: R -> PageView<I>, decide: Decider<I>, now: Time, p: Progress)
    requires |steps| > 0 && !steps[0].cancelled
    requires view(steps[0].response).Halt? || view(steps[0].response).Raise?
    ensures RunPages(steps, view, decide, now, p) ==
      if view(steps[0].response).Halt? then Finished(p) else Aborted(p.table, view(steps[0].response).message)
  {
  }

  /** A last page ends the loop: later pages are never fetched. */
  lemma RunPagesIgnoresAfterLast<R, I(!new)>(steps: seq<PageStep<R>>, more: seq<PageStep<R>>, view: R -> PageView<I>,
                                              decide: Decider<I>, now: Time, p: Progress)
    requires |steps| > 0 && !steps[0].cancelled && !steps[0].delayCancelled
    requires view(steps[0].response).Batch? && view(steps[0].response).after.LastPage?
    ensures RunPages(steps + more, view, decide, now, p) == RunPages(steps[..1], view, decide, now, p)
  {
    assert (steps + more)[0] == steps[0] == steps[..1][0];
  }

  // ---------------------------------------------------------------------------------------------
  // The run and its log
  // ---------------------------------------------------------------------------------------------

  /** How `CollectAsync` ended: it returned a count, or an exception escaped it. */
  datatype Outcome = Returned(count: int) | Threw(message: string)

  datatype RunResult = RunResult(table: Catalog.Table, logs: Logs.LogTable, outcome: Outcome)

  /** The log a run adds before it starts: `Running`, started now, no counts. */
  function OpenedLog(source: string, sourceType: SourceType, now: Time): (l: CollectionLog)
    ensures l.status == Running && l.completedAt.None? && l.errorMessage.None?
    ensures l.itemsCollected == 0 && l.itemsUpdated == 0 && l.itemsSkipped == 0
  {
    CollectionLog(0, source, sourceType, now, None, 0, 0, 0, Running, None)
  }

  /** Writes the final state of the run's log over its row. */
  function CloseLog(logs: Logs.LogTable, final: CollectionLog): Logs.LogTable {
    match Logs.Update(logs, final)
    case Some(u) => u
    case None => logs
  }

  /**
   * The failure path (`catch`, or the missing-key branch): the log becomes `Failed` with the
   * message and the completion time, its counts stay 0, and the run returns 0.
   */
  function FailRun(t: Catalog.Table, logs: Logs.LogTable, log: CollectionLog, message: string, now: Time): (r: RunResult)
    ensures r.table == t && r.outcome == Returned(0)
  {
    var final := log.(status := Failed, errorMessage := Some(message), completedAt := Some(now));
    RunResult(t, CloseLog(logs, final), Returned(0))
  }

  /** The normal path: the log records the counts, the status and the completion time. */
  function CompleteRun(t: Catalog.Table, logs: Logs.LogTable, log: CollectionLog, tally: Tally,
                       status: CollectionStatus, now: Time): (r: RunResult)
    ensures r.table == t && r.outcome == Returned(tally.collected)
  {
    var final := log.(itemsCollected := tally.collected, itemsUpdated := tally.updated,
                      itemsSkipped := tally.skipped, status := status, completedAt := Some(now));
    RunResult(t, CloseLog(logs, final), Returned(tally.collected))
  }

  /** The run's log row, as the run left it. */
  predicate LogClosed(before: Logs.LogTable, after: Logs.LogTable, status: CollectionStatus, now: Time) {
    && |after| == |before| + 1
    && after[..|before|] == before
    && after[|before|].status == status
    && after[|before|].completedAt == Some(now)
  }

  /** Whichever way the run ends after the log is added, the added row is closed. */
  lemma FailRunClosesLog(t: Catalog.Table, logs: Logs.LogTable, source: string, sourceType: SourceType,
                         message: string, now: Time)
    requires Logs.WellFormed(logs)
    ensures var added := Logs.Add(logs, OpenedLog(source, sourceType, now));
      var r := FailRun(t, added.0, added.1, message, now);
      && LogClosed(logs, r.logs, Failed, now)
      && r.logs[|logs|].errorMessage == Some(message)
      && r.logs[|logs|].itemsCollected == 0 && r.logs[|logs|].itemsUpdated == 0
      && r.logs[|logs|].itemsSkipped == 0
      && r.logs[|logs|].source == source && r.logs[|logs|].sourceType == sourceType
  {
    var log := Logs.Add(logs, OpenedLog(source, sourceType, now)).1;
    var final := log.(status := Failed, errorMessage := Some(message), completedAt := Some(now));
    Logs.UpdateOfAdded(logs, OpenedLog(source, sourceType, now), final);
  }

  lemma CompleteRunClosesLog(t: Catalog.Table, logs: Logs.LogTable, source: string, sourceType: SourceType,
                             tally: Tally, status: CollectionStatus, now: Time)
    requires Logs.WellFormed(logs)
    ensures var added := Logs.Add(logs, OpenedLog(source, sourceType, now));
      var r := CompleteRun(t, added.0, added.1, tally, status, now);
      && LogClosed(logs, r.logs, status, now)
      && r.logs[|logs|].itemsCollected == tally.collected
      && r.logs[|logs|].itemsUpdated == tally.updated
      && r.logs[|logs|].itemsSkipped == tally.skipped
      && r.logs[|logs|].errorMessage.None?
      && r.logs[|logs|].source == source && r.logs[|logs|].sourceType == sourceType
  {
    var log := Logs.Add(logs, OpenedLog(source, sourceType, now)).1;
    var final := log.(itemsCollected := tally.collected, itemsUpdated := tally.updated,
                      itemsSkipped := tally.skipped, status := status, completedAt := Some(now));
    Logs.UpdateOfAdded(logs, OpenedLog(source, sourceType, now), final);
  }

  // ---------------------------------------------------------------------------------------------
  // Shared item rules
  // ---------------------------------------------------------------------------------------------

  /** The message a run without a usable API key logs. */
  const MissingKeyMessage := "API 키가 설정되지 않았습니다."

  /** The placeholder value the sample configuration ships with. */
  const PlaceholderKey := "YOUR_API_KEY_HERE"

  /** `string.IsNullOrEmpty(apiKey) || apiKey == "YOUR_API_KEY_HERE"`. */
  predicate KeyMissing(apiKey: Option<string>) {
    apiKey.None? || apiKey.value == "" || apiKey.value == PlaceholderKey
  }

  /** `existing.UpdatedAt < DateTime.UtcNow.AddDays(-1)`: last written more than a day ago. */
  predicate IsStale(existing: Subsidy, now: Time) {
    existing.updatedAt < now - OneDay
  }

  /** `incoming ?? previous`: the incoming value when there is one, the previous one otherwise. */
  predicate TakesOrKeeps<T(==)>(merged: T, incoming: Option<T>, previous: T) {
    (incoming.Some? ==> merged == incoming.value) && (incoming.None? ==> merged == previous)
  }

  /** The same, for a nullable field. */
  predicate TakesOrKeepsNullable<T(==)>(merged: Option<T>, incoming: Option<T>, previous: Option<T>) {
    (incoming.Some? ==> merged == incoming) && (incoming.None? ==> merged == previous)
  }

  /** An eligibility section: a labelled line (`heading` ends in a space) for a non-empty field, nothing otherwise. */
  function Section(heading: string, text: Option<string>): (r: seq<string>)
    ensures |r| <= 1
    ensures r == [] <==> IsNullOrEmpty(text)
  {
    if IsNullOrEmpty(text) then [] else [heading + text.value]
  }

  /** A new record's creation and update stamps, which the entity's initialisers set. */
  function Stamped(s: Subsidy, now: Time): (r: Subsidy)
    ensures r.createdAt == now && r.updatedAt == now
  {
    s.(createdAt := now, updatedAt := now)
  }
}
