/**
 * The public-service collector (source name `PublicDataPortal`): pages of 100 services, one record
 * per service id, refreshes of stale records. Unlike the youth collector it closes nothing and
 * its runs that get past the key check always end `Completed` or `Failed`.
 */
module PublicData {
  import opened Wrappers
  import opened Text
  import opened Json
  import opened Domain
  import Catalog
  import Logs
  import ReferenceData
  import Mapping
  import opened Collecting

  const SourceName := "PublicDataPortal"
  const PageSize := 100
  const DetailUrlPrefix := "https://www.gov.kr/portal/rcvfvrSvc/dtlEx/"
  const DefaultTitle := "제목 없음"

  /** The two deadline texts that mean "no deadline". */
  const AlwaysOpen := "상시"
  const AnnouncedSeparately := "별도공지"

  /** What fetching a page gave: a non-success status, an exception, or a parsed body. */
  datatype Response = Unsuccessful | Thrown(message: string) | Body(root: Value)

  // ---------------------------------------------------------------------------------------------
  // Eligibility text
  // ---------------------------------------------------------------------------------------------

  function Target(f: map<string, Value>): Option<string> {
    GetStr(f, "지원대상")
  }

  function Criteria(f: map<string, Value>): Option<string> {
    GetStr(f, "선정기준")
  }

  /**
   * `BuildEligibility(item)`: the support target and the selection criteria, each labelled, one
   * per line in that order; null when both are empty.
   */
  function Eligibility(f: map<string, Value>): (r: Option<string>)
    ensures r.None? <==> IsNullOrEmpty(Target(f)) && IsNullOrEmpty(Criteria(f))
  {
    var parts := Section("[지원대상] ", Target(f)) + Section("[선정기준] ", Criteria(f));
    if |parts| == 0 then None else Some(Join("\n", parts))
  }

  /** The eligibility text in each of its three shapes. */
  lemma EligibilityShapes(f: map<string, Value>)
    ensures !IsNullOrEmpty(Target(f)) && !IsNullOrEmpty(Criteria(f)) ==>
      Eligibility(f) == Some("[지원대상] " + Target(f).value + "\n" + "[선정기준] " + Criteria(f).value)
    ensures !IsNullOrEmpty(Target(f)) && IsNullOrEmpty(Criteria(f)) ==>
      Eligibility(f) == Some("[지원대상] " + Target(f).value)
    ensures IsNullOrEmpty(Target(f)) && !IsNullOrEmpty(Criteria(f)) ==>
      Eligibility(f) == Some("[선정기준] " + Criteria(f).value)
  {
    var parts := Section("[지원대상] ", Target(f)) + Section("[선정기준] ", Criteria(f));
    if |parts| == 2 {
      assert parts[1..][1..] == [];
      var a, b := "[지원대상] " + Target(f).value, "[선정기준] " + Criteria(f).value;
      assert Join("\n", parts) == a + "\n" + b;
      assert a + "\n" + b == "[지원대상] " + Target(f).value + "\n" + "[선정기준] " + Criteria(f).value;
    } else if |parts| == 1 {
      assert parts[1..] == [];
    }
  }

  // ---------------------------------------------------------------------------------------------
  // Refreshing an existing record
  // ---------------------------------------------------------------------------------------------

  /** Every field but the seven the refresh writes is as in `existing`. */
  predicate SameOtherFields(r: Subsidy, existing: Subsidy) {
    r.(title := existing.title, description := existing.description, organization := existing.organization,
       amount := existing.amount, eligibilityCriteria := existing.eligibilityCriteria,
       applicationMethod := existing.applicationMethod, contactInfo := existing.contactInfo) == existing
  }

  /**
   * `UpdateSubsidyFromApi(existing, item)`: each of seven fields takes the item's value unless
   * that is null. The view count and the status are not touched.
   */
  function Merge(existing: Subsidy, f: map<string, Value>): (r: Subsidy)
    ensures SameOtherFields(r, existing)
    ensures && TakesOrKeeps(r.title, GetStr(f, "서비스명"), existing.title)
            && TakesOrKeeps(r.description, GetStr(f, "서비스목적요약"), existing.description)
            && TakesOrKeeps(r.organization, GetStr(f, "소관기관명"), existing.organization)
            && TakesOrKeepsNullable(r.amount, GetStr(f, "지원내용"), existing.amount)
            && TakesOrKeepsNullable(r.eligibilityCriteria, Eligibility(f), existing.eligibilityCriteria)
            && TakesOrKeepsNullable(r.applicationMethod, GetStr(f, "신청방법"), existing.applicationMethod)
            && TakesOrKeepsNullable(r.contactInfo, GetStr(f, "전화문의"), existing.contactInfo)
  {
    existing.(
      title := GetStr(f, "서비스명").GetOr(existing.title),
      description := GetStr(f, "서비스목적요약").GetOr(existing.description),
      organization := GetStr(f, "소관기관명").GetOr(existing.organization),
      amount := GetStr(f, "지원내용").OrElse(existing.amount),
      eligibilityCriteria := Eligibility(f).OrElse(existing.eligibilityCriteria),
      applicationMethod := GetStr(f, "신청방법").OrElse(existing.applicationMethod),
      contactInfo := GetStr(f, "전화문의").OrElse(existing.contactInfo))
  }

  /** Refreshing twice from the same item gives what refreshing once gives. */
  lemma MergeIdempotent(existing: Subsidy, f: map<string, Value>)
    ensures Merge(Merge(existing, f), f) == Merge(existing, f)
  {
  }

  /** An item with none of the seven fields leaves the record as it was. */
  lemma MergeOfBareItem(existing: Subsidy)
    ensures Merge(existing, map[]) == existing
  {
    assert Eligibility(map[]).None?;
  }

  // ---------------------------------------------------------------------------------------------
  // Inserting a new record
  // ---------------------------------------------------------------------------------------------

  /**
   * The application deadline: none for an empty text, for "상시" (always open) and for "별도공지"
   * (announced separately); otherwise whatever parsing the text, untrimmed, gives.
   */
  function Deadline(text: Option<string>, parseDate: string -> Option<Time>): (r: Option<Time>)
    ensures IsNullOrEmpty(text) || text.value in {AlwaysOpen, AnnouncedSeparately} ==> r.None?
    ensures !IsNullOrEmpty(text) && text.value !in {AlwaysOpen, AnnouncedSeparately} ==> r == parseDate(text.value)
  {
    if IsNullOrEmpty(text) || text.value == AlwaysOpen || text.value == AnnouncedSeparately then None
    else parseDate(text.value)
  }

  /** However lenient the date parser, the two no-deadline texts never become a deadline. */
  lemma NoDeadlineWords(parseDate: string -> Option<Time>)
    ensures Deadline(Some(AlwaysOpen), parseDate).None?
    ensures Deadline(Some(AnnouncedSeparately), parseDate).None?
  {
  }

  /** The category code the service field maps to (`ETC` when nothing matches). */
  function CategoryCode(f: map<string, Value>): string {
    Mapping.ResolveCode(Mapping.ServiceFieldTable, GetStr(f, "서비스분야"))
  }

  /** The category for a new record: the mapped one, else `ETC`; `None` when neither exists. */
  function ServiceCategory(categories: seq<Category>, f: map<string, Value>): (r: Option<Category>)
    ensures r.Some? ==> r.value in categories && r.value.code in {CategoryCode(f), "ETC"}
    ensures ReferenceData.CategoryByCode(categories, CategoryCode(f)).Some? ==>
      r.Some? && r.value.code == CategoryCode(f)
    ensures r.None? <==> forall k :: 0 <= k < |categories| ==> categories[k].code !in {CategoryCode(f), "ETC"}
  {
    ReferenceData.CategoryByCode(categories, CategoryCode(f))
      .OrElse(ReferenceData.CategoryByCode(categories, "ETC"))
  }

  /**
   * The new record for service `ext`; `None` stands for the null dereference that abandons the
   * item when there is no category to fall back to or no `ALL` region.
   */
  function NewRecord(env: Env, f: map<string, Value>, ext: string): (r: Option<Subsidy>)
    ensures r.None? <==>
      ServiceCategory(env.categories, f).None? || Mapping.ResolveRegion(env.regions, GetStr(f, "소관기관명")).None?
    ensures r.Some? ==>
      && r.value.externalId == Some(ext)
      && r.value.sourceType == PublicDataPortal && r.value.status == Active
      && r.value.categoryId == ServiceCategory(env.categories, f).value.id
      && r.value.regionId == Mapping.ResolveRegion(env.regions, GetStr(f, "소관기관명")).value.id
      && r.value.title == GetStr(f, "서비스명").GetOr(DefaultTitle)
      && r.value.organization == GetStr(f, "소관기관명").GetOr("")
      && r.value.eligibilityCriteria == Eligibility(f)
      && r.value.applicationUrl == GetStr(f, "상세조회URL")
      && r.value.sourceUrl == Some(GetStr(f, "상세조회URL").GetOr(DetailUrlPrefix + ext))
      && r.value.applicationStartDate.None?
      && r.value.applicationEndDate == Deadline(GetStr(f, "신청기한"), env.parseDate)
      && r.value.viewCount == 0 && r.value.targetGroupIds == []
      && r.value.createdAt == env.now && r.value.updatedAt == env.now
    ensures r.Some? ==>
      && r.value.description == GetStr(f, "서비스목적요약").GetOr("")
      && r.value.amount == GetStr(f, "지원내용")
      && r.value.applicationMethod == GetStr(f, "신청방법")
      && r.value.contactInfo == GetStr(f, "전화문의")
  {
    var category := ServiceCategory(env.categories, f);
    var region := Mapping.ResolveRegion(env.regions, GetStr(f, "소관기관명"));
    if category.None? || region.None? then None
    else
      Some(Stamped(Subsidy(
        id := 0,
        title := GetStr(f, "서비스명").GetOr(DefaultTitle),
        description := GetStr(f, "서비스목적요약").GetOr(""),
        organization := GetStr(f, "소관기관명").GetOr(""),
        amount := GetStr(f, "지원내용"),
        eligibilityCriteria := Eligibility(f),
        applicationMethod := GetStr(f, "신청방법"),
        applicationUrl := GetStr(f, "상세조회URL"),
        contactInfo := GetStr(f, "전화문의"),
        sourceUrl := Some(GetStr(f, "상세조회URL").GetOr(DetailUrlPrefix + ext)),
        externalId := Some(ext),
        applicationStartDate := None,
        applicationEndDate := Deadline(GetStr(f, "신청기한"), env.parseDate),
        status := Active,
        sourceType := PublicDataPortal,
        regionId := region.value.id,
        categoryId := category.value.id,
        targetGroupIds := [],
        viewCount := 0,
        createdAt := 0,
        updatedAt := 0), env.now))
  }

  // ---------------------------------------------------------------------------------------------
  // The per-item decision
  // ---------------------------------------------------------------------------------------------

  /**
   * One iteration of the item loop. A non-object item throws on its first read and is skipped,
   * as is an item without a service id. A stored id is refreshed only when the item carries a
   * modification stamp and the record was last written more than a day ago, and is never
   * inserted again. The collector lists no ids.
   */
  function Decide(env: Env, t: Catalog.Table, item: Value): (r: (Decision, Option<string>))
    ensures r.1.None?
    ensures !item.Obj? ==> r.0 == Skip(Fault)
    ensures item.Obj? && IsNullOrEmpty(GetStr(item.fields, "서비스ID")) ==> r.0 == Skip(NoId)
    ensures r.0.Refresh? <==>
      && item.Obj? && !IsNullOrEmpty(GetStr(item.fields, "서비스ID"))
      && Catalog.Exists(t, GetStr(item.fields, "서비스ID").value)
      && !IsNullOrEmpty(GetStr(item.fields, "수정일시"))
      && IsStale(Catalog.GetByExternalId(t, GetStr(item.fields, "서비스ID").value).value, env.now)
    ensures r.0.Refresh? ==>
      r.0.record == Merge(Catalog.GetByExternalId(t, GetStr(item.fields, "서비스ID").value).value, item.fields)
    ensures r.0.Insert? <==>
      && item.Obj? && !IsNullOrEmpty(GetStr(item.fields, "서비스ID"))
      && !Catalog.Exists(t, GetStr(item.fields, "서비스ID").value)
      && NewRecord(env, item.fields, GetStr(item.fields, "서비스ID").value).Some?
    ensures r.0.Insert? ==> r.0.record.externalId == GetStr(item.fields, "서비스ID")
    ensures r.0.Insert? ==> NewRecord(env, item.fields, GetStr(item.fields, "서비스ID").value) == Some(r.0.record)
    ensures !r.0.Ignore?
  {
    match item
    case Obj(f) =>
      var ext := GetStr(f, "서비스ID");
      if IsNullOrEmpty(ext) then (Skip(NoId), None)
      else
        Catalog.ExistsIffFound(t, ext.value);
        (match Catalog.GetByExternalId(t, ext.value)
         case Some(existing) =>
           if !IsNullOrEmpty(GetStr(f, "수정일시")) && IsStale(existing, env.now) then
             (Refresh(Merge(existing, f)), None)
           else (Skip(Unchanged), None)
         case None =>
           match NewRecord(env, f, ext.value)
           case Some(rec) => (Insert(rec), None)
           case None => (Skip(Fault), None))
    case _ => (Skip(Fault), None)
  }

  function Decider(env: Env): Collecting.Decider<Value> {
    (t: Catalog.Table, item: Value) => Decide(env, t, item)
  }

  /** The decider never inserts a stored id and refreshes only rows it found. */
  lemma DeciderIsSafe(env: Env)
    ensures SafeDecider(Decider(env))
    ensures CountsEveryItem(Decider(env))
  {
    forall t: Catalog.Table, item: Value | Catalog.Valid(t)
      ensures SafeFor(t, Decide(env, t, item).0)
    {
      var r := Decide(env, t, item);
      if r.0.Refresh? {
        var existing := Catalog.GetByExternalId(t, GetStr(item.fields, "서비스ID").value).value;
        var k :| 0 <= k < |t| && t[k] == existing;
        assert r.0.record.id == existing.id && r.0.record.externalId == existing.externalId;
      }
    }
  }

  // ---------------------------------------------------------------------------------------------
  // Reading a page
  // ---------------------------------------------------------------------------------------------

  /** The `totalCount` read, which only logs but throws on a value of the wrong kind. */
  predicate TotalCountReadable(f: map<string, Value>) {
    "totalCount" !in f || GetInt32(f["totalCount"]).Some?
  }

  /**
   * What the page's `currentCount` says once its items are processed: it is read with
   * `GetInt32` (which may throw) when present, and is the number of items otherwise; fewer than
   * 100 ends the loop.
   */
  function AfterItems(f: map<string, Value>, n: nat, jsonError: string): (r: AfterBatch)
    ensures "currentCount" !in f ==> (r.LastPage? <==> n < PageSize) && !r.RaiseAfter?
    ensures "currentCount" in f ==> (r.RaiseAfter? <==> GetInt32(f["currentCount"]).None?)
    ensures "currentCount" in f && r.LastPage? ==> GetInt32(f["currentCount"]).value < PageSize
  {
    if "currentCount" in f then
      match GetInt32(f["currentCount"])
      case None => RaiseAfter(jsonError)
      case Some(c) => if c < PageSize then LastPage else MorePages
    else if n < PageSize then LastPage else MorePages
  }

  /**
   * How one response reads. A non-success status and a missing or empty `data` array end the
   * loop normally; a read of the wrong kind throws. Otherwise the services are processed.
   */
  function View(env: Env, resp: Response): (r: PageView<Value>)
    ensures resp.Unsuccessful? ==> r == Halt
    ensures resp.Thrown? ==> r == Raise(resp.message)
    ensures r.Batch? ==>
      && resp.Body? && resp.root.Obj? && "data" in resp.root.fields && TotalCountReadable(resp.root.fields)
      && resp.root.fields["data"].Arr? && r.items == resp.root.fields["data"].items && 0 < |r.items|
      && r.after == AfterItems(resp.root.fields, |r.items|, env.jsonError)
    ensures resp.Body? && resp.root.Obj? && "data" !in resp.root.fields ==> r == Halt
  {
    match resp
    case Unsuccessful => Halt
    case Thrown(m) => Raise(m)
    case Body(root) =>
      if !root.Obj? then Raise(env.jsonError)
      else
        var f := root.fields;
        if "data" !in f then Halt
        else
          match ArrayLength(f["data"])
          case None => Raise(env.jsonError)
          case Some(n) =>
            if n == 0 then Halt
            else if !TotalCountReadable(f) then Raise(env.jsonError)
            else Batch(f["data"].items, AfterItems(f, n, env.jsonError))
  }

  // ---------------------------------------------------------------------------------------------
  // The run
  // ---------------------------------------------------------------------------------------------

  function Loop(env: Env, pages: seq<PageStep<Response>>, t: Catalog.Table): LoopEnd {
    RunPages(pages, (resp: Response) => View(env, resp), Decider(env), env.now, Progress(t, Tally(0, 0, 0), []))
  }

  /**
   * `CollectAsync`: adds the run's `Running` log (an exception there escapes), checks the key,
   * runs the page loop and closes the log `Completed` with the counts; any exception in between
   * closes it `Failed` and returns 0.
   */
  function Collect(env: Env, apiKey: Option<string>, pages: seq<PageStep<Response>>,
                   t: Catalog.Table, logs: Logs.LogTable): (r: RunResult)
    ensures r.outcome.Threw? <==> env.logAddError.Some?
    ensures r.outcome.Threw? ==> r.table == t && r.logs == logs
    ensures env.logAddError.None? && !KeyMissing(apiKey) && Loop(env, pages, t).Finished? ==>
      r.table == Loop(env, pages, t).progress.table
  {
    if env.logAddError.Some? then RunResult(t, logs, Threw(env.logAddError.value))
    else
      var added := Logs.Add(logs, OpenedLog(SourceName, PublicDataPortal, env.now));
      if KeyMissing(apiKey) then FailRun(t, added.0, added.1, MissingKeyMessage, env.now)
      else
        match Loop(env, pages, t)
        case Aborted(t', m) => FailRun(t', added.0, added.1, m, env.now)
        case Finished(p) => CompleteRun(p.table, added.0, added.1, p.tally, Completed, env.now)
  }

  /** A run never inserts a stored external id twice: a valid table stays valid. */
  lemma CollectKeepsValid(env: Env, apiKey: Option<string>, pages: seq<PageStep<Response>>,
                          t: Catalog.Table, logs: Logs.LogTable)
    requires Catalog.Valid(t)
    ensures Catalog.Valid(Collect(env, apiKey, pages, t, logs).table)
  {
    DeciderIsSafe(env);
  }

  /**
   * A run never removes or renumbers a row, and grows the table by exactly the count it
   * returns when it completes.
   */
  lemma CollectOnlyAppends(env: Env, apiKey: Option<string>, pages: seq<PageStep<Response>>,
                           t: Catalog.Table, logs: Logs.LogTable)
    ensures Extends(t, Collect(env, apiKey, pages, t, logs).table)
    ensures var r := Collect(env, apiKey, pages, t, logs);
      env.logAddError.None? && !KeyMissing(apiKey) && Loop(env, pages, t).Finished? ==>
        r.outcome.Returned? && |r.table| == |t| + r.outcome.count
  {
  }

  /**
   * Every run that gets its log added leaves that one row closed: `Completed` with the counts and
   * the return value equal to the collected count, or `Failed` with a message, counts 0 and a
   * return of 0. The rows before it are untouched.
   */
  lemma CollectClosesLog(env: Env, apiKey: Option<string>, pages: seq<PageStep<Response>>,
                         t: Catalog.Table, logs: Logs.LogTable)
    requires Logs.WellFormed(logs) && env.logAddError.None?
    ensures var r := Collect(env, apiKey, pages, t, logs);
      && |r.logs| == |logs| + 1 && r.logs[..|logs|] == logs
      && r.logs[|logs|].source == SourceName && r.logs[|logs|].sourceType == PublicDataPortal
      && r.logs[|logs|].startedAt == env.now && r.logs[|logs|].completedAt == Some(env.now)
      && r.logs[|logs|].status in {Completed, Failed}
      && (r.logs[|logs|].status == Completed ==>
            r.outcome == Returned(r.logs[|logs|].itemsCollected) && r.logs[|logs|].errorMessage.None?)
      && (r.logs[|logs|].status == Failed ==>
            && r.outcome == Returned(0) && r.logs[|logs|].errorMessage.Some?
            && r.logs[|logs|].itemsCollected == 0)
  {
    if KeyMissing(apiKey) {
      FailRunClosesLog(t, logs, SourceName, PublicDataPortal, MissingKeyMessage, env.now);
    } else {
      match Loop(env, pages, t)
      case Aborted(t', m) =>
        FailRunClosesLog(t', logs, SourceName, PublicDataPortal, m, env.now);
      case Finished(p) =>
        CompleteRunClosesLog(p.table, logs, SourceName, PublicDataPortal, p.tally, Completed, env.now);
    }
  }

  /** Without a usable key nothing is fetched or stored, and the log says why. */
  lemma MissingKeyFails(env: Env, apiKey: Option<string>, pages: seq<PageStep<Response>>,
                        t: Catalog.Table, logs: Logs.LogTable)
    requires Logs.WellFormed(logs) && env.logAddError.None? && KeyMissing(apiKey)
    ensures var r := Collect(env, apiKey, pages, t, logs);
      && r.table == t && r.outcome == Returned(0)
      && r.logs[|logs|].status == Failed && r.logs[|logs|].errorMessage == Some(MissingKeyMessage)
  {
    FailRunClosesLog(t, logs, SourceName, PublicDataPortal, MissingKeyMessage, env.now);
  }
}
