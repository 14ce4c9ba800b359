/**
 * The welfare-portal crawler (source name `Bokjiro`): one listing page, one record per service
 * title, keyed by the title's hash. It never refreshes a record, and a run that gets past the
 * fetch ends `Completed` when it collected something and `PartiallyCompleted` otherwise.
 */
module BokjiroCrawler {
  import opened Wrappers
  import opened Text
  import opened Domain
  import Catalog
  import Logs
  import ReferenceData
  import opened Collecting

  const SourceName := "Bokjiro"
  const SiteOrigin := "https://www.bokjiro.go.kr"
  const BaseUrl := SiteOrigin + "/ssis-tbu/twataa/wlfareInfo/moveTWAT52011M.do"
  const IdPrefix := "bokjiro_"
  const Organization := "보건복지부"
  const AllRegionCode := "ALL"
  const LivingCategoryCode := "LIVING"

  /** An HTML element as the crawler reads it: its text and its `href` attribute, if any. */
  datatype Element = Element(innerText: string, href: Option<string>)

  /**
   * A listing node: the element itself, its first descendant anchor, `strong`, paragraph, and
   * `span` whose class mentions `desc` (each `SelectSingleNode`, null when there is none).
   */
  datatype ServiceNode = ServiceNode(
    own: Element,
    anchor: Option<Element>,
    strong: Option<Element>,
    para: Option<Element>,
    descSpan: Option<Element>)

  /**
   * What fetching the listing gave: a network failure (caught and logged), any other exception
   * (which fails the run), a non-success status, or a page with the matches of the three node
   * selectors in the order they are tried (`SelectNodes` gives null when nothing matches).
   */
  datatype Fetch =
    | NetworkError(message: string)
    | Faulted(message: string)
    | NotSuccess
    | Page(serviceList: Option<seq<ServiceNode>>, list: Option<seq<ServiceNode>>, cont: Option<seq<ServiceNode>>)

  // ---------------------------------------------------------------------------------------------
  // Reading a node
  // ---------------------------------------------------------------------------------------------

  /** The element the title is read from: the anchor, else the `strong`, else the node. */
  function TitleElement(n: ServiceNode): Element {
    n.anchor.GetOr(n.strong.GetOr(n.own))
  }

  function Title(n: ServiceNode): string {
    Trim(TitleElement(n).innerText)
  }

  /** The title element's `href`, or "" without one. */
  function Link(n: ServiceNode): string {
    TitleElement(n).href.GetOr("")
  }

  /** The trimmed text of the paragraph, else of the `desc` span, else "". */
  function Description(n: ServiceNode): string {
    match n.para.OrElse(n.descSpan)
    case Some(e) => Trim(e.innerText)
    case None => ""
  }

  /** `$"bokjiro_{hash:X8}"`: the prefix and the hash's 32-bit pattern in eight hex digits. */
  function ExternalId(hash: string -> int, title: string): (r: string)
    ensures |r| == |IdPrefix| + 8 && StartsWith(r, IdPrefix)
    ensures forall i :: |IdPrefix| <= i < |r| ==> IsHexDigit(r[i])
  {
    IdPrefix + Hex8(hash(title))
  }

  /** The id gives back the hash it was made from, modulo 2^32: equal ids mean equal hashes. */
  lemma ExternalIdEncodesHash(hash: string -> int, title: string)
    ensures HexValue(ExternalId(hash, title)[|IdPrefix|..]) == hash(title) % TwoTo32
  {
    assert ExternalId(hash, title)[|IdPrefix|..] == Hex8(hash(title));
    Hex8RoundTrip(hash(title));
  }

  /**
   * The record's source address: the listing page when there is no link, the link when it
   * starts with "http", and the link under the portal's origin otherwise.
   */
  function SourceUrl(link: string): (r: string)
    ensures link == "" ==> r == BaseUrl
    ensures link != "" && StartsWith(link, "http") ==> r == link
    ensures link != "" && !StartsWith(link, "http") ==> r == SiteOrigin + link
  {
    if link == "" then BaseUrl else if StartsWith(link, "http") then link else SiteOrigin + link
  }

  /** Whatever the link, the source address is absolute. */
  lemma SourceUrlIsAbsolute(link: string)
    ensures StartsWith(SourceUrl(link), "http")
  {
    assert SiteOrigin[..4] == "http" by {
      assert SiteOrigin[0] == 'h' && SiteOrigin[1] == 't' && SiteOrigin[2] == 't' && SiteOrigin[3] == 'p';
    }
    assert BaseUrl[..4] == SiteOrigin[..4];
    assert (SiteOrigin + link)[..4] == SiteOrigin[..4];
  }

  /** The defaults every new record gets: the `ALL` region and the `LIVING` category. */
  predicate HasDefaults(env: Env) {
    ReferenceData.RegionByCode(env.regions, AllRegionCode).Some?
    && ReferenceData.CategoryByCode(env.categories, LivingCategoryCode).Some?
  }

  // ---------------------------------------------------------------------------------------------
  // The per-node decision
  // ---------------------------------------------------------------------------------------------

  /**
   * One iteration of the node loop. A blank title is passed over without being counted. A title
   * whose id is stored is skipped; so is a node when the `ALL` region or the `LIVING` category is
   * missing (the null dereference is caught). Anything else is inserted with the decoded title
   * and description.
   */
  function Decide(env: Env, t: Catalog.Table, n: ServiceNode): (r: (Decision, Option<string>))
    ensures r.1.None? && !r.0.Refresh?
    ensures r.0.Ignore? <==> IsBlank(Title(n))
    ensures r.0 == Skip(Unchanged) <==> !IsBlank(Title(n)) && Catalog.Exists(t, ExternalId(env.hash, Title(n)))
    ensures r.0.Insert? <==>
      !IsBlank(Title(n)) && !Catalog.Exists(t, ExternalId(env.hash, Title(n))) && HasDefaults(env)
    ensures r.0 == Skip(Fault) <==>
      !IsBlank(Title(n)) && !Catalog.Exists(t, ExternalId(env.hash, Title(n))) && !HasDefaults(env)
    ensures r.0.Ignore? || r.0.Skip? || r.0.Insert?
    ensures r.0.Insert? ==>
      && r.0.record.externalId == Some(ExternalId(env.hash, Title(n)))
      && r.0.record.title == env.htmlDecode(Title(n))
      && r.0.record.description == env.htmlDecode(Description(n))
      && r.0.record.organization == Organization
      && r.0.record.sourceUrl == Some(SourceUrl(Link(n)))
      && r.0.record.sourceType == Bokjiro && r.0.record.status == Active
      && r.0.record.regionId == ReferenceData.RegionByCode(env.regions, AllRegionCode).value.id
      && r.0.record.categoryId == ReferenceData.CategoryByCode(env.categories, LivingCategoryCode).value.id
      && r.0.record.createdAt == env.now && r.0.record.updatedAt == env.now
  {
    var title := Title(n);
    if IsBlank(title) then (Ignore, None)
    else
      var ext := ExternalId(env.hash, title);
      if Catalog.Exists(t, ext) then (Skip(Unchanged), None)
      else
        var region := ReferenceData.RegionByCode(env.regions, AllRegionCode);
        var category := ReferenceData.CategoryByCode(env.categories, LivingCategoryCode);
        if region.None? || category.None? then (Skip(Fault), None)
        else
          (Insert(Stamped(Subsidy(
            id := 0,
            title := env.htmlDecode(title),
            description := env.htmlDecode(Description(n)),
            organization := Organization,
            amount := None,
            eligibilityCriteria := None,
            applicationMethod := None,
            applicationUrl := None,
            contactInfo := None,
            sourceUrl := Some(SourceUrl(Link(n))),
            externalId := Some(ext),
            applicationStartDate := None,
            applicationEndDate := None,
            status := Active,
            sourceType := Bokjiro,
            regionId := region.value.id,
            categoryId := category.value.id,
            targetGroupIds := [],
            viewCount := 0,
            createdAt := 0,
            updatedAt := 0), env.now)), None)
  }

  function Decider(env: Env): Collecting.Decider<ServiceNode> {
    (t: Catalog.Table, n: ServiceNode) => Decide(env, t, n)
  }

  /** The crawler only inserts ids no row carries. */
  lemma DeciderIsSafe(env: Env)
    ensures SafeDecider(Decider(env))
  {
  }

  // ---------------------------------------------------------------------------------------------
  // The crawl
  // ---------------------------------------------------------------------------------------------

  /** The nodes of the first selector that matched anything; none for any other fetch. */
  function Nodes(fetch: Fetch): seq<ServiceNode> {
    if fetch.Page? then fetch.serviceList.OrElse(fetch.list).OrElse(fetch.cont).GetOr([]) else []
  }

  /** The nodes the loop reaches: all of them, or those before the one at which it sees cancellation. */
  function Reached(nodes: seq<ServiceNode>, cancelAt: Option<nat>): (r: seq<ServiceNode>)
    ensures r <= nodes
    ensures cancelAt.None? ==> r == nodes
  {
    if cancelAt.Some? && cancelAt.value < |nodes| then nodes[..cancelAt.value] else nodes
  }

  /** The node loop from an empty tally. */
  function Crawl(env: Env, nodes: seq<ServiceNode>, t: Catalog.Table): Progress {
    ProcessItems(nodes, Decider(env), env.now, Progress(t, Tally(0, 0, 0), []))
  }

  /** `collected > 0 ? Completed : PartiallyCompleted` */
  function FinalStatus(collected: nat): (s: CollectionStatus)
    ensures s == Completed <==> collected > 0
    ensures s in {Completed, PartiallyCompleted}
  {
    if collected > 0 then Completed else PartiallyCompleted
  }

  /**
   * `CollectAsync`: adds the run's `Running` log (an exception there escapes), fetches the
   * listing, runs the node loop, and closes the log with the counts; an exception other than a
   * network failure closes it `Failed` and returns 0.
   */
  function Collect(env: Env, fetch: Fetch, cancelAt: Option<nat>, t: Catalog.Table, logs: Logs.LogTable): (r: RunResult)
    ensures r.outcome.Threw? <==> env.logAddError.Some?
    ensures r.outcome.Threw? || fetch.Faulted? ==> r.table == t
  {
    if env.logAddError.Some? then RunResult(t, logs, Threw(env.logAddError.value))
    else
      var added := Logs.Add(logs, OpenedLog(SourceName, Bokjiro, env.now));
      if fetch.Faulted? then FailRun(t, added.0, added.1, fetch.message, env.now)
      else
        var p := Crawl(env, Reached(Nodes(fetch), cancelAt), t);
        CompleteRun(p.table, added.0, added.1, p.tally, FinalStatus(p.tally.collected), env.now)
  }

  /** The crawler never refreshes: the table only grows at the end, and the updated count stays put. */
  lemma {:induction false} CrawlOnlyAppends(env: Env, nodes: seq<ServiceNode>, p: Progress)
    ensures var r := ProcessItems(nodes, Decider(env), env.now, p);
      r.table[..|p.table|] == p.table && r.tally.updated == p.tally.updated
    decreases |nodes|
  {
    if |nodes| > 0 {
      var q := Step(p, Decider(env), nodes[0], env.now);
      CrawlStep(env, p, nodes[0]);
      CrawlOnlyAppends(env, nodes[1..], q);
      var r := ProcessItems(nodes[1..], Decider(env), env.now, q);
      PrefixTransitive(p.table, q.table, r.table);
    }
  }

  lemma CollectKeepsValid(env: Env, fetch: Fetch, cancelAt: Option<nat>, t: Catalog.Table, logs: Logs.LogTable)
    requires Catalog.Valid(t)
    ensures Catalog.Valid(Collect(env, fetch, cancelAt, t, logs).table)
  {
    DeciderIsSafe(env);
  }

  /**
   * Every run that gets its log added leaves that one row closed: `Failed` with the message when
   * the fetch threw, and otherwise `Completed` exactly when something was collected, with no
   * updates counted and the collected count returned.
   */
  lemma CollectClosesLog(env: Env, fetch: Fetch, cancelAt: Option<nat>, t: Catalog.Table, logs: Logs.LogTable)
    requires Logs.WellFormed(logs) && env.logAddError.None?
    ensures var r := Collect(env, fetch, cancelAt, t, logs);
      && |r.logs| == |logs| + 1 && r.logs[..|logs|] == logs
      && r.logs[|logs|].source == SourceName && r.logs[|logs|].sourceType == Bokjiro
      && r.logs[|logs|].completedAt == Some(env.now)
      && (r.logs[|logs|].status == Failed <==> fetch.Faulted?)
      && (fetch.Faulted? ==> r.outcome == Returned(0) && r.logs[|logs|].errorMessage == Some(fetch.message))
      && (!fetch.Faulted? ==>
            && r.outcome == Returned(r.logs[|logs|].itemsCollected)
            && r.logs[|logs|].itemsUpdated == 0
            && (r.logs[|logs|].status == Completed <==> r.logs[|logs|].itemsCollected > 0)
            && r.logs[|logs|].status in {Completed, PartiallyCompleted})
  {
    if fetch.Faulted? {
      FaultedRunClosesLog(env, fetch, cancelAt, t, logs);
    } else {
      CrawlRunClosesLog(env, fetch, cancelAt, t, logs);
    }
  }

  lemma FaultedRunClosesLog(env: Env, fetch: Fetch, cancelAt: Option<nat>, t: Catalog.Table, logs: Logs.LogTable)
    requires Logs.WellFormed(logs) && env.logAddError.None? && fetch.Faulted?
    ensures var r := Collect(env, fetch, cancelAt, t, logs);
      && |r.logs| == |logs| + 1 && r.logs[..|logs|] == logs
      && r.logs[|logs|].source == SourceName && r.logs[|logs|].sourceType == Bokjiro
      && r.logs[|logs|].completedAt == Some(env.now) && r.logs[|logs|].status == Failed
      && r.outcome == Returned(0) && r.logs[|logs|].errorMessage == Some(fetch.message)
  {
    var added := Logs.Add(logs, OpenedLog(SourceName, Bokjiro, env.now));
    FailRunClosesLog(t, logs, SourceName, Bokjiro, fetch.message, env.now);
    assert Collect(env, fetch, cancelAt, t, logs) == FailRun(t, added.0, added.1, fetch.message, env.now);
  }

  lemma CrawlRunClosesLog(env: Env, fetch: Fetch, cancelAt: Option<nat>, t: Catalog.Table, logs: Logs.LogTable)
    requires Logs.WellFormed(logs) && env.logAddError.None? && !fetch.Faulted?
    ensures var r := Collect(env, fetch, cancelAt, t, logs);
      && |r.logs| == |logs| + 1 && r.logs[..|logs|] == logs
      && r.logs[|logs|].source == SourceName && r.logs[|logs|].sourceType == Bokjiro
      && r.logs[|logs|].completedAt == Some(env.now)
      && r.outcome == Returned(r.logs[|logs|].itemsCollected)
      && r.logs[|logs|].itemsUpdated == 0
      && (r.logs[|logs|].status == Completed <==> r.logs[|logs|].itemsCollected > 0)
      && r.logs[|logs|].status in {Completed, PartiallyCompleted}
  {
    CrawlRunLogRow(env, fetch, cancelAt, t, logs);
    CrawlRunCounts(env, fetch, cancelAt, t, logs);
  }

  /** The crawl's run appends exactly its own row, closed at `now`. */
  lemma CrawlRunLogRow(env: Env, fetch: Fetch, cancelAt: Option<nat>, t: Catalog.Table, logs: Logs.LogTable)
    requires Logs.WellFormed(logs) && env.logAddError.None? && !fetch.Faulted?
    ensures var r := Collect(env, fetch, cancelAt, t, logs);
      && |r.logs| == |logs| + 1 && r.logs[..|logs|] == logs
      && r.logs[|logs|].source == SourceName && r.logs[|logs|].sourceType == Bokjiro
      && r.logs[|logs|].completedAt == Some(env.now)
  {
    var p := Crawl(env, Reached(Nodes(fetch), cancelAt), t);
    CrawlRunIsCompleteRun(env, fetch, cancelAt, t, logs);
    CompleteRunClosesLog(p.table, logs, SourceName, Bokjiro, p.tally, FinalStatus(p.tally.collected), env.now);
  }

  /** The crawl's run returns the collected count its row records, with no updates. */
  lemma CrawlRunCounts(env: Env, fetch: Fetch, cancelAt: Option<nat>, t: Catalog.Table, logs: Logs.LogTable)
    requires Logs.WellFormed(logs) && env.logAddError.None? && !fetch.Faulted?
    ensures var r := Collect(env, fetch, cancelAt, t, logs);
      && |r.logs| == |logs| + 1
      && r.outcome == Returned(r.logs[|logs|].itemsCollected)
      && r.logs[|logs|].itemsUpdated == 0
      && (r.logs[|logs|].status == Completed <==> r.logs[|logs|].itemsCollected > 0)
      && r.logs[|logs|].status in {Completed, PartiallyCompleted}
  {
    var p := Crawl(env, Reached(Nodes(fetch), cancelAt), t);
    CrawlRunIsCompleteRun(env, fetch, cancelAt, t, logs);
    CompleteRunClosesLog(p.table, logs, SourceName, Bokjiro, p.tally, FinalStatus(p.tally.collected), env.now);
    CrawlCountsNoUpdates(env, Reached(Nodes(fetch), cancelAt), t);
  }

  /** Past the fetch, the run closes its log through the normal path with the crawl's tally. */
  lemma CrawlRunIsCompleteRun(env: Env, fetch: Fetch, cancelAt: Option<nat>, t: Catalog.Table, logs: Logs.LogTable)
    requires env.logAddError.None? && !fetch.Faulted?
    ensures var added := Logs.Add(logs, OpenedLog(SourceName, Bokjiro, env.now));
      var p := Crawl(env, Reached(Nodes(fetch), cancelAt), t);
      Collect(env, fetch, cancelAt, t, logs) ==
        CompleteRun(p.table, added.0, added.1, p.tally, FinalStatus(p.tally.collected), env.now)
  {
  }

  /** A crawl from an empty tally counts no updates. */
  lemma CrawlCountsNoUpdates(env: Env, nodes: seq<ServiceNode>, t: Catalog.Table)
    ensures Crawl(env, nodes, t).tally.updated == 0
  {
    CrawlOnlyAppends(env, nodes, Progress(t, Tally(0, 0, 0), []));
  }

  /** Without a listing to read, nothing is stored and the run ends `PartiallyCompleted` with 0. */
  lemma NoListingNoChange(env: Env, fetch: Fetch, cancelAt: Option<nat>, t: Catalog.Table, logs: Logs.LogTable)
    requires env.logAddError.None? && Logs.WellFormed(logs)
    requires fetch.NetworkError? || fetch.NotSuccess? || (fetch.Page? && fetch.serviceList.None? && fetch.list.None? && fetch.cont.None?)
    ensures var r := Collect(env, fetch, cancelAt, t, logs);
      r.table == t && r.outcome == Returned(0) && r.logs[|logs|].status == PartiallyCompleted
  {
    assert Reached(Nodes(fetch), cancelAt) == [];
    assert Crawl(env, [], t) == Progress(t, Tally(0, 0, 0), []);
    CompleteRunClosesLog(t, logs, SourceName, Bokjiro, Tally(0, 0, 0), PartiallyCompleted, env.now);
  }

  // ---------------------------------------------------------------------------------------------
  // Crawling the same listing again
  // ---------------------------------------------------------------------------------------------

  /** A node a later crawl with the same hash will not insert. */
  predicate Settled(env: Env, t: Catalog.Table, n: ServiceNode) {
    IsBlank(Title(n)) || Catalog.Exists(t, ExternalId(env.hash, Title(n))) || !HasDefaults(env)
  }

  lemma SettledPersists(env: Env, t: Catalog.Table, t': Catalog.Table, n: ServiceNode)
    requires |t| <= |t'| && t'[..|t|] == t
    requires Settled(env, t, n)
    ensures Settled(env, t', n)
  {
    var ext := ExternalId(env.hash, Title(n));
    if Catalog.Exists(t, ext) {
      var k :| 0 <= k < |t| && Catalog.HasExternalId(t[k], ext);
      assert t'[k] == t[k];
    }
  }

  /**
   * One node: existing rows stay in place and no update is counted; afterwards the node is
   * settled; and a node already settled changes nothing.
   */
  lemma CrawlStep(env: Env, p: Progress, n: ServiceNode)
    ensures var q := Step(p, Decider(env), n, env.now);
      && |p.table| <= |q.table| && q.table[..|p.table|] == p.table && q.tally.updated == p.tally.updated
      && Settled(env, q.table, n)
      && (Settled(env, p.table, n) ==> q.table == p.table && q.tally.collected == p.tally.collected)
  {
    var q := Step(p, Decider(env), n, env.now);
    var d := Decide(env, p.table, n).0;
    if d.Insert? {
      assert q.table == p.table + [d.record.(id := |p.table| + 1)];
      assert q.table[|p.table|].externalId == d.record.externalId;
    } else {
      assert q.table == p.table;
    }
  }

  /** After a crawl, every node it reached is settled. */
  lemma {:induction false} CrawlSettles(env: Env, nodes: seq<ServiceNode>, p: Progress)
    ensures var r := ProcessItems(nodes, Decider(env), env.now, p);
      forall i :: 0 <= i < |nodes| ==> Settled(env, r.table, nodes[i])
    decreases |nodes|
  {
    if |nodes| > 0 {
      var q := Step(p, Decider(env), nodes[0], env.now);
      var r := ProcessItems(nodes[1..], Decider(env), env.now, q);
      CrawlStep(env, p, nodes[0]);
      CrawlSettles(env, nodes[1..], q);
      CrawlOnlyAppends(env, nodes[1..], q);
      SettledPersists(env, q.table, r.table, nodes[0]);
      forall i | 1 <= i < |nodes| ensures Settled(env, r.table, nodes[i]) {
        assert nodes[i] == nodes[1..][i - 1];
      }
    }
  }

  /** A crawl over settled nodes inserts nothing and leaves the table as it is. */
  lemma {:induction false} SettledCrawlIsQuiet(env: Env, nodes: seq<ServiceNode>, p: Progress)
    requires forall i :: 0 <= i < |nodes| ==> Settled(env, p.table, nodes[i])
    ensures var r := ProcessItems(nodes, Decider(env), env.now, p);
      r.table == p.table && r.tally.collected == p.tally.collected
    decreases |nodes|
  {
    if |nodes| > 0 {
      var q := Step(p, Decider(env), nodes[0], env.now);
      assert Settled(env, p.table, nodes[0]);
      CrawlStep(env, p, nodes[0]);
      forall i | 0 <= i < |nodes[1..]| ensures Settled(env, q.table, nodes[1..][i]) {
        assert nodes[1..][i] == nodes[i + 1];
      }
      SettledCrawlIsQuiet(env, nodes[1..], q);
    }
  }

  /**
   * Within one process (one hash function), crawling the same listing a second time adds no
   * record and returns 0.
   */
  lemma RecrawlAddsNothing(env: Env, fetch: Fetch, t: Catalog.Table, logs: Logs.LogTable)
    requires env.logAddError.None?
    ensures var first := Collect(env, fetch, None, t, logs);
      var second := Collect(env, fetch, None, first.table, first.logs);
      second.table == first.table && second.outcome == Returned(0)
  {
    if !fetch.Faulted? {
      var nodes := Nodes(fetch);
      var first := Collect(env, fetch, None, t, logs);
      CollectStoresCrawl(env, fetch, None, t, logs);
      CrawlSettles(env, nodes, Progress(t, Tally(0, 0, 0), []));
      CollectStoresCrawl(env, fetch, None, first.table, first.logs);
      SettledCrawlIsQuiet(env, nodes, Progress(first.table, Tally(0, 0, 0), []));
    }
  }

  /** Past the fetch, the run stores what the crawl of the reached nodes stored and returns its count. */
  lemma CollectStoresCrawl(env: Env, fetch: Fetch, cancelAt: Option<nat>, t: Catalog.Table, logs: Logs.LogTable)
    requires env.logAddError.None? && !fetch.Faulted?
    ensures var p := Crawl(env, Reached(Nodes(fetch), cancelAt), t);
      var r := Collect(env, fetch, cancelAt, t, logs);
      r.table == p.table && r.outcome == Returned(p.tally.collected)
  {
  }
}
