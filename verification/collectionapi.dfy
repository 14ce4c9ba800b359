/**
 * The collection endpoints of the web API: the most recent collection logs as DTOs, a trigger
 * that runs one registered collector by name, and the list of registered source names.
 */
module CollectionApi {
  import opened Wrappers
  import opened Domain
  import opened Text
  import Logs
  import opened Collecting
  import opened Orchestration

  /** `CollectionLogDto`: a log with its two enums rendered as their names. */
  datatype LogDto = LogDto(
    id: int,
    source: string,
    sourceType: string,
    startedAt: Time,
    completedAt: Option<Time>,
    itemsCollected: int,
    itemsUpdated: int,
    itemsSkipped: int,
    status: string,
    errorMessage: Option<string>)

  /** Reading a DTO back: its enum names parsed, every other field taken as it is. */
  function FromDto(d: LogDto): Option<CollectionLog> {
    match (ParseSourceType(d.sourceType), ParseCollectionStatus(d.status))
    case (Some(t), Some(st)) =>
      Some(CollectionLog(d.id, d.source, t, d.startedAt, d.completedAt,
                         d.itemsCollected, d.itemsUpdated, d.itemsSkipped, st, d.errorMessage))
    case _ => None
  }

  /** The projection in `GetLogs`: nothing of the log is lost. */
  function ToDto(l: CollectionLog): (d: LogDto)
    ensures FromDto(d) == Some(l)
  {
    LogDto(l.id, l.source, SourceTypeName(l.sourceType), l.startedAt, l.completedAt,
           l.itemsCollected, l.itemsUpdated, l.itemsSkipped, CollectionStatusName(l.status), l.errorMessage)
  }

  /**
   * `GET logs?count=…` (the count defaults to `Logs.DefaultRecentCount`): at most `count` logs of
   * the table, newest first.
   */
  function GetLogs(t: Logs.LogTable, count: int): (r: seq<LogDto>)
    ensures |r| == if count < 0 || count >= |t| then |t| else count
    ensures forall i :: 0 <= i < |r| ==> FromDto(r[i]).Some? && FromDto(r[i]).value in t
    ensures forall i, j :: 0 <= i < j < |r| ==> r[i].startedAt >= r[j].startedAt
    ensures var recent := Logs.GetRecent(t, count);
      |r| == |recent| && forall i :: 0 <= i < |r| ==> FromDto(r[i]) == Some(recent[i])
  {
    var logs := Logs.GetRecent(t, count);
    forall i | 0 <= i < |logs| ensures logs[i] in t {
      RecentAreLogs(t, count, i);
    }
    ToDtos(logs)
  }

  /** The projection of each log, in order. */
  function ToDtos(logs: seq<CollectionLog>): (r: seq<LogDto>)
    ensures |r| == |logs|
    ensures forall i :: 0 <= i < |r| ==> FromDto(r[i]) == Some(logs[i]) && r[i].startedAt == logs[i].startedAt
  {
    seq(|logs|, i requires 0 <= i < |logs| => ToDto(logs[i]))
  }

  /** Every log `GetRecent` lists is a log of the table. */
  lemma RecentAreLogs(t: Logs.LogTable, count: int, i: nat)
    requires i < |Logs.GetRecent(t, count)|
    ensures Logs.GetRecent(t, count)[i] in t
  {
    var logs := Logs.GetRecent(t, count);
    var rest: seq<CollectionLog> :| multiset(logs) + multiset(rest) == multiset(t)
      && (forall x, y :: x in rest && y in logs ==> x.startedAt <= y.startedAt);
    assert logs[i] in multiset(logs);
    assert logs[i] in multiset(t);
  }

  /** A count at least the number of logs lists every log of the table. */
  lemma GetLogsListsAll(t: Logs.LogTable, count: int)
    requires count < 0 || count >= |t|
    ensures forall k :: 0 <= k < |t| ==> exists i :: 0 <= i < |GetLogs(t, count)| && FromDto(GetLogs(t, count)[i]) == Some(t[k])
  {
    var logs := Logs.GetRecent(t, count);
    var r := GetLogs(t, count);
    Logs.GetRecentAll(t, count);
    forall k | 0 <= k < |t| ensures exists i :: 0 <= i < |r| && FromDto(r[i]) == Some(t[k]) {
      assert t[k] in multiset(logs);
      var i :| 0 <= i < |logs| && logs[i] == t[k];
      assert r[i] == ToDto(logs[i]);
    }
  }

  // ---------------------------------------------------------------------------------------------
  // Sources
  // ---------------------------------------------------------------------------------------------

  /** `GET sources`: the registered collectors' names, in registration order. */
  function GetSources(cs: seq<Collector>): (r: seq<string>)
    ensures |r| == |cs|
    ensures forall i :: 0 <= i < |r| ==> FindCollector(cs, r[i]).Some?
  {
    seq(|cs|, i requires 0 <= i < |cs| => SourceName(cs[i]))
  }

  /** No two collectors of `cs` share a name, even ignoring case. */
  predicate DistinctNames(cs: seq<Collector>) {
    forall j, k :: 0 <= j < |cs| && 0 <= k < |cs| && j != k ==> !EqualsIgnoreCase(SourceName(cs[j]), SourceName(cs[k]))
  }

  /** Both hosts register collectors whose names differ. */
  lemma RegistriesHaveDistinctNames()
    ensures DistinctNames(WorkerRegistry) && DistinctNames(ApiRegistry)
  {
    assert |SourceName(PublicDataCollector)| == 16 && |SourceName(BokjiroCollector)| == 7;
    assert |SourceName(YouthCenterCollector)| == 11;
    DistinctNamesByLength(WorkerRegistry);
    DistinctNamesByLength(ApiRegistry);
  }

  /** Names of different lengths differ under any casing. */
  lemma DistinctNamesByLength(cs: seq<Collector>)
    requires forall j, k :: 0 <= j < |cs| && 0 <= k < |cs| && j != k ==> |SourceName(cs[j])| != |SourceName(cs[k])|
    ensures DistinctNames(cs)
  {
  }

  /** When the names differ, triggering a listed source runs the collector it was listed for. */
  lemma SourcesTriggerTheirCollector(cs: seq<Collector>, i: nat)
    requires DistinctNames(cs) && i < |cs|
    ensures FindCollector(cs, GetSources(cs)[i]) == Some(cs[i])
  {
    var name := GetSources(cs)[i];
    assert name == SourceName(cs[i]);
    FindCollectorIsFirst(cs, name, i);
  }

  // ---------------------------------------------------------------------------------------------
  // Trigger
  // ---------------------------------------------------------------------------------------------

  /**
   * The response of `POST trigger/{sourceName}`: 404 with a message for an unknown name, 200 with
   * the count and the name as given, or the collector's exception escaping the action.
   */
  datatype TriggerResponse = NotFound(message: string) | Ok(message: string, source: string) | Faulted(error: string)

  function NotFoundMessage(name: string): string {
    "수집기 '" + name + "'을(를) 찾을 수 없습니다."
  }

  const CountSuffix := "건 수집 완료"

  /** The count a success message reports, if it has the success message's shape. */
  function ReadCount(m: string): Option<int> {
    if |m| >= |CountSuffix| && m[|m| - |CountSuffix|..] == CountSuffix then
      ParseInt(m[..|m| - |CountSuffix|])
    else None
  }

  /** The success message for `count` collected items; the count reads back from it. */
  function CountMessage(count: int): (m: string)
    ensures ReadCount(m) == Some(count)
  {
    var m := IntToString(count) + CountSuffix;
    assert m[|m| - |CountSuffix|..] == CountSuffix;
    assert m[..|m| - |CountSuffix|] == IntToString(count);
    IntToStringRoundTrip(count);
    m
  }

  /**
   * `TriggerCollection(sourceName)`: the store the collector leaves (the store unchanged for an
   * unknown name) and the response.
   */
  function Trigger(cs: seq<Collector>, run: Runner, name: string, s: Store): (r: (Store, TriggerResponse))
    ensures r.0 == RunCollector(cs, run, name, s).0
    ensures r.1.NotFound? <==> FindCollector(cs, name).None?
    ensures r.1.NotFound? ==> r.1.message == NotFoundMessage(name)
    ensures r.1.Ok? ==>
              && r.1.source == name
              && run(FindCollector(cs, name).value, s).1.Returned?
              && ReadCount(r.1.message) == Some(run(FindCollector(cs, name).value, s).1.count)
    ensures r.1.Faulted? <==> FindCollector(cs, name).Some? && run(FindCollector(cs, name).value, s).1.Threw?
  {
    match FindCollector(cs, name)
    case None => (s, NotFound(NotFoundMessage(name)))
    case Some(c) =>
      var next := run(c, s);
      match next.1
      case Returned(n) => (next.0, Ok(CountMessage(n), name))
      case Threw(e) => (next.0, Faulted(e))
  }

  /**
   * The API host does not register the crawler, so triggering it there is a 404 that touches
   * nothing, while the background host does find it under any casing.
   */
  lemma CrawlerOnlyInWorker(run: Runner, s: Store)
    ensures Trigger(ApiRegistry, run, "bokjiro", s) == (s, NotFound(NotFoundMessage("bokjiro")))
    ensures FindCollector(WorkerRegistry, "bokjiro") == Some(BokjiroCollector)
  {
    ApiRegistryLacksCrawler();
    WorkerRegistryFindsCrawler();
  }

  lemma ApiRegistryLacksCrawler()
    ensures FindCollector(ApiRegistry, "bokjiro").None?
  {
    assert |SourceName(ApiRegistry[0])| != |"bokjiro"| && |SourceName(ApiRegistry[1])| != |"bokjiro"|;
  }

  lemma WorkerRegistryFindsCrawler()
    ensures FindCollector(WorkerRegistry, "bokjiro") == Some(BokjiroCollector)
  {
    assert EqualsIgnoreCase(SourceName(WorkerRegistry[1]), "bokjiro") by {
      assert UpperChar('B') == UpperChar('b');
    }
    assert |SourceName(WorkerRegistry[0])| != |"bokjiro"|;
    FindCollectorIsFirst(WorkerRegistry, "bokjiro", 1);
  }
}
