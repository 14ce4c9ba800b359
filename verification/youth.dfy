/**
 * The youth-policy collector (source name `YouthCenter`): pages of 100 policies, one record per
 * policy number, refreshes of stale records, and the closure of listed-no-more policies.
 */
module Youth {
  import opened Wrappers
  import opened Text
  import opened Json
  import opened Domain
  import Catalog
  import Logs
  import ReferenceData
  import Mapping
  import opened Collecting

  const SourceName := "YouthCenter"
  const PageSize := 100
  const IdPrefix := "youth_"
  const PolicyUrlPrefix := "https://www.youthcenter.go.kr/youthPolicy/bis498/"
  const DefaultTitle := "제목 없음"
  const DefaultOrganization := "온통청년"

  /** What fetching a page gave: a non-success status, an exception, or a parsed body. */
  datatype Response = Unsuccessful | Thrown(message: string) | Body(root: Value)

  // ---------------------------------------------------------------------------------------------
  // Eligibility text
  // ---------------------------------------------------------------------------------------------

  /** Both ages are given, and neither is "0". */
  predicate AgesGiven(f: map<string, Value>) {
    var lo := GetStr(f, "sprtTrgtMinAge");
    var hi := GetStr(f, "sprtTrgtMaxAge");
    !IsNullOrEmpty(lo) && !IsNullOrEmpty(hi) && lo.value != "0" && hi.value != "0"
  }

  function AgeSection(f: map<string, Value>): string
    requires AgesGiven(f)
  {
    "[연령] " + GetStr(f, "sprtTrgtMinAge").value + "세 ~ " + GetStr(f, "sprtTrgtMaxAge").value + "세"
  }

  /** The sections in their fixed order: ages, qualification, exclusions. */
  function Sections(f: map<string, Value>): (r: seq<string>)
    ensures r == [] <==>
      !AgesGiven(f) && IsNullOrEmpty(GetStr(f, "addAplyQlfcCndCn")) && IsNullOrEmpty(GetStr(f, "ptcpPrpTrgtCn"))
  {
    (if AgesGiven(f) then [AgeSection(f)] else [])
      + Section("[자격요건] ", GetStr(f, "addAplyQlfcCndCn"))
      + Section("[참여제외] ", GetStr(f, "ptcpPrpTrgtCn"))
  }

  /**
   * `BuildEligibility(item)`: the sections joined by line breaks, or null when there is none.
   * The age section, when there is one, comes first.
   */
  function Eligibility(f: map<string, Value>): (r: Option<string>)
    ensures r.None? <==>
      !AgesGiven(f) && IsNullOrEmpty(GetStr(f, "addAplyQlfcCndCn")) && IsNullOrEmpty(GetStr(f, "ptcpPrpTrgtCn"))
    ensures AgesGiven(f) ==> r.Some? && StartsWith(r.value, AgeSection(f))
  {
    var parts := Sections(f);
    if |parts| > 0 then
      JoinStartsWithFirst("\n", parts);
      Some(Join("\n", parts))
    else None
  }

  /** Every non-empty labelled field appears in the eligibility text under its label. */
  lemma EligibilityShowsEachField(f: map<string, Value>)
    ensures !IsNullOrEmpty(GetStr(f, "addAplyQlfcCndCn")) ==>
      Contains(Eligibility(f).value, "[자격요건] " + GetStr(f, "addAplyQlfcCndCn").value)
    ensures !IsNullOrEmpty(GetStr(f, "ptcpPrpTrgtCn")) ==>
      Contains(Eligibility(f).value, "[참여제외] " + GetStr(f, "ptcpPrpTrgtCn").value)
  {
    var parts := Sections(f);
    var a := if AgesGiven(f) then [AgeSection(f)] else [];
    var q := Section("[자격요건] ", GetStr(f, "addAplyQlfcCndCn"));
    var x := Section("[참여제외] ", GetStr(f, "ptcpPrpTrgtCn"));
    assert parts == a + q + x;
    if |parts| > 0 {
      assert Eligibility(f) == Some(Join("\n", parts));
    }
    if q != [] {
      assert parts[|a|] == q[0];
      JoinContainsEach("\n", parts, |a|);
    }
    if x != [] {
      assert parts[|a| + |q|] == x[0];
      JoinContainsEach("\n", parts, |a| + |q|);
    }
  }

  /** With every section present, the text reads ages, qualification, exclusions, line by line. */
  lemma EligibilityOrder(f: map<string, Value>)
    requires AgesGiven(f)
    requires !IsNullOrEmpty(GetStr(f, "addAplyQlfcCndCn")) && !IsNullOrEmpty(GetStr(f, "ptcpPrpTrgtCn"))
    ensures Eligibility(f) == Some(AgeSection(f) + "\n" + "[자격요건] " + GetStr(f, "addAplyQlfcCndCn").value
                                   + "\n" + "[참여제외] " + GetStr(f, "ptcpPrpTrgtCn").value)
  {
    var parts := Sections(f);
    assert parts == [AgeSection(f), "[자격요건] " + GetStr(f, "addAplyQlfcCndCn").value,
                     "[참여제외] " + GetStr(f, "ptcpPrpTrgtCn").value];
    assert Join("\n", parts[1..][1..]) == parts[2] by {
      assert parts[1..][1..] == [parts[2]];
    }
    assert Join("\n", parts[1..]) == parts[1] + "\n" + parts[2];
    assert Join("\n", parts) == parts[0] + "\n" + (parts[1] + "\n" + parts[2]);
    var a, q, x := AgeSection(f), GetStr(f, "addAplyQlfcCndCn").value, GetStr(f, "ptcpPrpTrgtCn").value;
    assert a + "\n" + ("[자격요건] " + q + "\n" + ("[참여제외] " + x))
        == a + "\n" + "[자격요건] " + q + "\n" + "[참여제외] " + x;
    assert Eligibility(f) == Some(Join("\n", parts));
  }

  // ---------------------------------------------------------------------------------------------
  // Refreshing an existing record
  // ---------------------------------------------------------------------------------------------

  /** The fields the refresh leaves alone, as in `existing`. */
  predicate SameUnmergedFields(r: Subsidy, existing: Subsidy) {
    r.(title := existing.title, description := existing.description, organization := existing.organization,
       amount := existing.amount, eligibilityCriteria := existing.eligibilityCriteria,
       applicationMethod := existing.applicationMethod, contactInfo := existing.contactInfo,
       viewCount := existing.viewCount) == existing
  }

  /**
   * How `UpdateSubsidyFromApi` leaves the tracked record: with every assignment done, or with the
   * seven text fields assigned and the view count not, when reading it threw.
   */
  datatype MergeResult = Merged(record: Subsidy) | Interrupted(record: Subsidy)

  /**
   * `UpdateSubsidyFromApi(existing, item)`: each listed field takes the item's value unless that
   * is null; the view count, assigned last, is always overwritten. When reading the view count
   * throws, the seven assignments before it have already changed the record.
   */
  function Merge(existing: Subsidy, f: map<string, Value>): (r: MergeResult)
    ensures r.Interrupted? <==> GetInt(f, "inqCnt").Throws?
    ensures SameUnmergedFields(r.record, existing)
    ensures r.record.viewCount == if r.Merged? then GetInt(f, "inqCnt").value else existing.viewCount
    ensures
      && TakesOrKeeps(r.record.title, GetStr(f, "plcyNm"), existing.title)
      && TakesOrKeeps(r.record.description, GetStr(f, "plcyExplnCn"), existing.description)
      && TakesOrKeeps(r.record.organization, GetStr(f, "sprvsnInstCdNm"), existing.organization)
      && TakesOrKeepsNullable(r.record.amount, GetStr(f, "plcySprtCn"), existing.amount)
      && TakesOrKeepsNullable(r.record.eligibilityCriteria, Eligibility(f), existing.eligibilityCriteria)
      && TakesOrKeepsNullable(r.record.applicationMethod, GetStr(f, "plcyAplyMthdCn"), existing.applicationMethod)
      && TakesOrKeepsNullable(r.record.contactInfo, GetStr(f, "sprvsnInstPicNm"), existing.contactInfo)
  {
    var partial := existing.(
      title := GetStr(f, "plcyNm").GetOr(existing.title),
      description := GetStr(f, "plcyExplnCn").GetOr(existing.description),
      organization := GetStr(f, "sprvsnInstCdNm").GetOr(existing.organization),
      amount := GetStr(f, "plcySprtCn").OrElse(existing.amount),
      eligibilityCriteria := Eligibility(f).OrElse(existing.eligibilityCriteria),
      applicationMethod := GetStr(f, "plcyAplyMthdCn").OrElse(existing.applicationMethod),
      contactInfo := GetStr(f, "sprvsnInstPicNm").OrElse(existing.contactInfo));
    match GetInt(f, "inqCnt")
    case Throws => Interrupted(partial)
    case Read(views) => Merged(partial.(viewCount := views))
  }

  /** Refreshing twice from the same item gives what refreshing once gives. */
  lemma MergeIdempotent(existing: Subsidy, f: map<string, Value>)
    requires Merge(existing, f).Merged?
    ensures Merge(Merge(existing, f).record, f) == Merge(existing, f)
  {
  }

  /** An item with none of the merged fields changes only the view count, to 0. */
  lemma MergeOfBareItem(existing: Subsidy)
    ensures Merge(existing, map[]) == Merged(existing.(viewCount := 0))
  {
    assert !AgesGiven(map[]);
  }

  // ---------------------------------------------------------------------------------------------
  // Inserting a new record
  // ---------------------------------------------------------------------------------------------

  /** A business-period date: set only when the trimmed text has at least 8 characters and parses. */
  function PeriodDate(text: Option<string>, parseDate: string -> Option<Time>): (r: Option<Time>)
    ensures text.None? || |Trim(text.value)| < 8 ==> r.None?
    ensures text.Some? && |Trim(text.value)| >= 8 ==> r == parseDate(Trim(text.value))
  {
    if text.Some? && |Trim(text.value)| >= 8 then parseDate(Trim(text.value)) else None
  }

  /** The category every new youth record gets: `YOUTH`, or `ETC` when that is missing. */
  function YouthCategory(categories: seq<Category>): (r: Option<Category>)
    ensures r.Some? ==> r.value in categories && r.value.code in {"YOUTH", "ETC"}
    ensures ReferenceData.CategoryByCode(categories, "YOUTH").Some? ==> r.Some? && r.value.code == "YOUTH"
  {
    ReferenceData.CategoryByCode(categories, "YOUTH").OrElse(ReferenceData.CategoryByCode(categories, "ETC"))
  }

  /** The organisation name the region is inferred from: the supervising body, else the registrar. */
  function RegionSource(f: map<string, Value>): Option<string> {
    GetStr(f, "sprvsnInstCdNm").OrElse(GetStr(f, "rgtrInstCdNm"))
  }

  /**
   * The new record for policy `plcyNo`; `None` stands for the exceptions that abandon the item:
   * no category to fall back to, no `ALL` region, or an unreadable view count.
   */
  function NewRecord(env: Env, f: map<string, Value>, plcyNo: string): (r: Option<Subsidy>)
    ensures r.None? <==>
      YouthCategory(env.categories).None? || Mapping.ResolveRegion(env.regions, RegionSource(f)).None?
      || GetInt(f, "inqCnt").Throws?
    ensures r.Some? ==>
      && r.value.externalId == Some(IdPrefix + plcyNo)
      && r.value.sourceType == YouthCenter && r.value.status == Active
      && r.value.categoryId == YouthCategory(env.categories).value.id
      && r.value.regionId == Mapping.ResolveRegion(env.regions, RegionSource(f)).value.id
      && r.value.title == GetStr(f, "plcyNm").GetOr(DefaultTitle)
      && r.value.organization == GetStr(f, "sprvsnInstCdNm").GetOr(DefaultOrganization)
      && r.value.sourceUrl == Some(GetStr(f, "refUrlAddr1").GetOr(PolicyUrlPrefix + plcyNo))
      && r.value.applicationStartDate == PeriodDate(GetStr(f, "bizPrdBgngYmd"), env.parseDate)
      && r.value.applicationEndDate == PeriodDate(GetStr(f, "bizPrdEndYmd"), env.parseDate)
      && r.value.createdAt == env.now && r.value.updatedAt == env.now
    ensures r.Some? ==>
      && r.value.description == GetStr(f, "plcyExplnCn").GetOr("")
      && r.value.amount == GetStr(f, "plcySprtCn")
      && r.value.eligibilityCriteria == Eligibility(f)
      && r.value.applicationMethod == GetStr(f, "plcyAplyMthdCn")
      && r.value.applicationUrl == GetStr(f, "aplyUrlAddr")
      && r.value.contactInfo == GetStr(f, "sprvsnInstPicNm")
      && r.value.targetGroupIds == []
      && r.value.viewCount == GetInt(f, "inqCnt").value
  {
    var category := YouthCategory(env.categories);
    var region := Mapping.ResolveRegion(env.regions, RegionSource(f));
    var views := GetInt(f, "inqCnt");
    if category.None? || region.None? || views.Throws? then None
    else
      Some(Stamped(Subsidy(
        id := 0,
        title := GetStr(f, "plcyNm").GetOr(DefaultTitle),
        description := GetStr(f, "plcyExplnCn").GetOr(""),
        organization := GetStr(f, "sprvsnInstCdNm").GetOr(DefaultOrganization),
        amount := GetStr(f, "plcySprtCn"),
        eligibilityCriteria := Eligibility(f),
        applicationMethod := GetStr(f, "plcyAplyMthdCn"),
        applicationUrl := GetStr(f, "aplyUrlAddr"),
        contactInfo := GetStr(f, "sprvsnInstPicNm"),
        sourceUrl := Some(GetStr(f, "refUrlAddr1").GetOr(PolicyUrlPrefix + plcyNo)),
        externalId := Some(IdPrefix + plcyNo),
        applicationStartDate := PeriodDate(GetStr(f, "bizPrdBgngYmd"), env.parseDate),
        applicationEndDate := PeriodDate(GetStr(f, "bizPrdEndYmd"), env.parseDate),
        status := Active,
        sourceType := YouthCenter,
        regionId := region.value.id,
        categoryId := category.value.id,
        targetGroupIds := [],
        viewCount := views.value,
        createdAt := 0,
        updatedAt := 0), env.now))
  }

  // ---------------------------------------------------------------------------------------------
  // The per-item decision
  // ---------------------------------------------------------------------------------------------

  /** The decision for an item whose policy number is known and whose id is `IdPrefix + plcyNo`. */
  function DecideKnown(env: Env, t: Catalog.Table, f: map<string, Value>, plcyNo: string): Decision {
    match Catalog.GetByExternalId(t, IdPrefix + plcyNo)
    case Some(existing) =>
      if !IsNullOrEmpty(GetStr(f, "lastMdfcnDt")) && IsStale(existing, env.now) then
        match Merge(existing, f)
        case Merged(merged) => Refresh(merged)
        case Interrupted(changed) => SkipChanged(changed)
      else Skip(Unchanged)
    case None =>
      match NewRecord(env, f, plcyNo)
      case Some(rec) => Insert(rec)
      case None => Skip(Fault)
  }

  /**
   * One iteration of the item loop. A non-object item throws on its first read and is skipped.
   * An item without a policy number is skipped and lists no id; otherwise its id is listed
   * before the lookup. A stored id is refreshed only when the item carries a modification stamp
   * and the record was last written more than a day ago, and is never inserted again.
   */
  function Decide(env: Env, t: Catalog.Table, item: Value): (r: (Decision, Option<string>))
    ensures !item.Obj? ==> r == (Skip(Fault), None)
    ensures item.Obj? && IsNullOrEmpty(GetStr(item.fields, "plcyNo")) ==> r == (Skip(NoId), None)
    ensures item.Obj? && !IsNullOrEmpty(GetStr(item.fields, "plcyNo")) ==>
      r.1 == Some(IdPrefix + GetStr(item.fields, "plcyNo").value)
    ensures r.1.Some? ==> Catalog.Exists(t, r.1.value) ==> !r.0.Insert?
    ensures r.0.Refresh? <==>
      && r.1.Some? && Catalog.Exists(t, r.1.value)
      && !IsNullOrEmpty(GetStr(item.fields, "lastMdfcnDt"))
      && IsStale(Catalog.GetByExternalId(t, r.1.value).value, env.now)
      && GetInt(item.fields, "inqCnt").Read?
    ensures r.0.SkipChanged? <==>
      && r.1.Some? && Catalog.Exists(t, r.1.value)
      && !IsNullOrEmpty(GetStr(item.fields, "lastMdfcnDt"))
      && IsStale(Catalog.GetByExternalId(t, r.1.value).value, env.now)
      && GetInt(item.fields, "inqCnt").Throws?
    ensures r.0.Refresh? || r.0.SkipChanged? ==>
      r.0.record == Merge(Catalog.GetByExternalId(t, r.1.value).value, item.fields).record
    ensures r.0.Insert? <==>
      && r.1.Some? && item.Obj? && !Catalog.Exists(t, r.1.value)
      && NewRecord(env, item.fields, GetStr(item.fields, "plcyNo").value).Some?
    ensures r.0.Insert? ==> item.Obj? && NewRecord(env, item.fields, GetStr(item.fields, "plcyNo").value) == Some(r.0.record)
    ensures r.0.Insert? ==> r.0.record.externalId == r.1 && r.0.record.sourceType == YouthCenter
    ensures !r.0.Ignore?
  {
    match item
    case Obj(f) =>
      var plcyNo := GetStr(f, "plcyNo");
      if IsNullOrEmpty(plcyNo) then (Skip(NoId), None)
      else
        Catalog.ExistsIffFound(t, IdPrefix + plcyNo.value);
        (DecideKnown(env, t, f, plcyNo.value), Some(IdPrefix + plcyNo.value))
    case _ => (Skip(Fault), None)
  }

  function Decider(env: Env): Collecting.Decider<Value> {
    (t: Catalog.Table, item: Value) => Decide(env, t, item)
  }

  /** The youth decider never inserts a stored id and refreshes only rows it found. */
  lemma DeciderIsSafe(env: Env)
    ensures SafeDecider(Decider(env))
    ensures CountsEveryItem(Decider(env))
  {
    forall t: Catalog.Table, item: Value | Catalog.Valid(t)
      ensures SafeFor(t, Decide(env, t, item).0)
    {
      var r := Decide(env, t, item);
      if r.0.Refresh? || r.0.SkipChanged? {
        var ext := r.1.value;
        var existing := Catalog.GetByExternalId(t, ext).value;
        var k :| 0 <= k < |t| && t[k] == existing;
        assert r.0.record.id == existing.id && r.0.record.externalId == existing.externalId;
      }
    }
  }

  // ---------------------------------------------------------------------------------------------
  // Reading a page
  // ---------------------------------------------------------------------------------------------

  /** `resultCode`, read with `GetInt32` when present (0 when absent); `None` when that throws. */
  function ResultCode(f: map<string, Value>): Option<int> {
    if "resultCode" in f then GetInt32(f["resultCode"]) else Some(0)
  }

  /** The `pagging.totCount` read, which only logs but throws on a value of the wrong kind. */
  predicate PagingReadable(res: map<string, Value>) {
    "pagging" !in res
    || (res["pagging"].Obj? && ("totCount" !in res["pagging"].fields || GetInt32(res["pagging"].fields["totCount"]).Some?))
  }

  /**
   * How one response reads. A non-success status, a result code other than 200, a missing
   * `result`, and a missing or empty policy list end the loop normally; a read of the wrong kind
   * throws. Otherwise the policies are processed, and a page of fewer than 100 is the last.
   */
  function View(env: Env, resp: Response): (r: PageView<Value>)
    ensures resp.Unsuccessful? ==> r == Halt
    ensures resp.Thrown? ==> r == Raise(resp.message)
    ensures r.Batch? ==> 0 < |r.items| && (r.after.LastPage? <==> |r.items| < PageSize) && !r.after.RaiseAfter?
    ensures r.Batch? ==> resp.Body? && resp.root.Obj? && ResultCode(resp.root.fields) == Some(200)
  {
    match resp
    case Unsuccessful => Halt
    case Thrown(m) => Raise(m)
    case Body(root) =>
      if !root.Obj? then Raise(env.jsonError)
      else
        var f := root.fields;
        match ResultCode(f)
        case None => Raise(env.jsonError)
        case Some(code) =>
          if code != 200 then
            (if "resultMessage" in f && GetString(f["resultMessage"]).None? then Raise(env.jsonError) else Halt)
          else if "result" !in f then Halt
          else if !f["result"].Obj? then Raise(env.jsonError)
          else
            var res := f["result"].fields;
            if "youthPolicyList" !in res then Halt
            else
              match ArrayLength(res["youthPolicyList"])
              case None => Raise(env.jsonError)
              case Some(n) =>
                if n == 0 then Halt
                else if !PagingReadable(res) then Raise(env.jsonError)
                else Batch(res["youthPolicyList"].items, if n < PageSize then LastPage else MorePages)
  }

  // ---------------------------------------------------------------------------------------------
  // The run
  // ---------------------------------------------------------------------------------------------

  /** The rows the closure step leaves: listed ids keep theirs; when nothing was listed, no closure runs. */
  function CloseUnlisted(t: Catalog.Table, seen: seq<string>): (r: Catalog.Table)
    ensures |seen| == 0 ==> r == t
    ensures |seen| > 0 ==> r == Catalog.CloseMissing(t, YouthCenter, set id | id in seen).0
  {
    if |seen| > 0 then Catalog.CloseMissing(t, YouthCenter, set id | id in seen).0 else t
  }

  /** The loop as the run drives it: from an empty tally and no listed ids. */
  function Loop(env: Env, pages: seq<PageStep<Response>>, t: Catalog.Table): LoopEnd {
    RunPages(pages, (resp: Response) => View(env, resp), Decider(env), env.now, Progress(t, Tally(0, 0, 0), []))
  }

  /**
   * `CollectAsync`: adds the run's `Running` log (an exception there escapes), checks the key,
   * runs the page loop, closes listed-no-more records when any id was listed, and closes the log
   * `Completed` with the counts; any exception in between closes it `Failed` and returns 0.
   */
  function Collect(env: Env, apiKey: Option<string>, pages: seq<PageStep<Response>>,
                   t: Catalog.Table, logs: Logs.LogTable): (r: RunResult)
    ensures r.outcome.Threw? <==> env.logAddError.Some?
    ensures r.outcome.Threw? ==> r.table == t && r.logs == logs
  {
    if env.logAddError.Some? then RunResult(t, logs, Threw(env.logAddError.value))
    else
      var added := Logs.Add(logs, OpenedLog(SourceName, YouthCenter, env.now));
      if KeyMissing(apiKey) then FailRun(t, added.0, added.1, MissingKeyMessage, env.now)
      else
        match Loop(env, pages, t)
        case Aborted(t', m) => FailRun(t', added.0, added.1, m, env.now)
        case Finished(p) => CompleteRun(CloseUnlisted(p.table, p.seen), added.0, added.1, p.tally, Completed, env.now)
  }

  /** A run never inserts a stored external id twice: a valid table stays valid. */
  lemma CollectKeepsValid(env: Env, apiKey: Option<string>, pages: seq<PageStep<Response>>,
                          t: Catalog.Table, logs: Logs.LogTable)
    requires Catalog.Valid(t)
    ensures Catalog.Valid(Collect(env, apiKey, pages, t, logs).table)
  {
    DeciderIsSafe(env);
    var e := Loop(env, pages, t);
    if e.Finished? && |e.progress.seen| > 0 {
      Catalog.CloseMissingKeepsValid(e.progress.table, YouthCenter, set id | id in e.progress.seen);
    }
  }

  /**
   * Every run that gets its log added leaves that one row closed: `Completed` with the counts and
   * the return value equal to the collected count, or `Failed` with a message, counts 0 and a
   * return of 0. The rows before it are untouched.
   */
  lemma CollectClosesLog(env: Env, apiKey: Option<string>, pages: seq<PageStep<Response>>,
                         t: Catalog.Table, logs: Logs.LogTable)
    requires Logs.WellFormed(logs) && env.logAddError.None?
    ensures var r := Collect(env, apiKey, pages, t, logs);
      && |r.logs| == |logs| + 1 && r.logs[..|logs|] == logs
      && r.logs[|logs|].source == SourceName && r.logs[|logs|].sourceType == YouthCenter
      && r.logs[|logs|].startedAt == env.now && r.logs[|logs|].completedAt == Some(env.now)
      && r.logs[|logs|].status in {Completed, Failed}
      && (r.logs[|logs|].status == Completed ==>
            r.outcome == Returned(r.logs[|logs|].itemsCollected) && r.logs[|logs|].errorMessage.None?)
      && (r.logs[|logs|].status == Failed ==>
            && r.outcome == Returned(0) && r.logs[|logs|].errorMessage.Some?
            && r.logs[|logs|].itemsCollected == 0 && r.logs[|logs|].itemsUpdated == 0
            && r.logs[|logs|].itemsSkipped == 0)
  {
    var added := Logs.Add(logs, OpenedLog(SourceName, YouthCenter, env.now));
    if KeyMissing(apiKey) {
      FailRunClosesLog(t, logs, SourceName, YouthCenter, MissingKeyMessage, env.now);
    } else {
      match Loop(env, pages, t)
      case Aborted(t', m) =>
        FailRunClosesLog(t', logs, SourceName, YouthCenter, m, env.now);
      case Finished(p) =>
        CompleteRunClosesLog(CloseUnlisted(p.table, p.seen), logs, SourceName, YouthCenter, p.tally, Completed, env.now);
    }
  }

  /** Without a usable key nothing is fetched or stored, and the log says why. */
  lemma MissingKeyFails(env: Env, apiKey: Option<string>, pages: seq<PageStep<Response>>,
                        t: Catalog.Table, logs: Logs.LogTable)
    requires Logs.WellFormed(logs) && env.logAddError.None? && KeyMissing(apiKey)
    ensures var r := Collect(env, apiKey, pages, t, logs);
      && r.table == t && r.outcome == Returned(0)
      && r.logs[|logs|].status == Failed && r.logs[|logs|].errorMessage == Some(MissingKeyMessage)
  {
    FailRunClosesLog(t, logs, SourceName, YouthCenter, MissingKeyMessage, env.now);
  }

  /**
   * A run that completes grows the table by exactly the collected count; records it did not list
   * are closed only when it listed some id, and records it listed are never closed.
   */
  lemma CompletedRunAccounting(env: Env, apiKey: Option<string>, pages: seq<PageStep<Response>>,
                               t: Catalog.Table, logs: Logs.LogTable, k: nat)
    requires env.logAddError.None? && !KeyMissing(apiKey)
    requires Loop(env, pages, t).Finished?
    ensures var p := Loop(env, pages, t).progress;
      var r := Collect(env, apiKey, pages, t, logs);
      && r.outcome == Returned(p.tally.collected)
      && |r.table| == |t| + p.tally.collected
      && (k < |r.table| && r.table[k].externalId.Some? && r.table[k].externalId.value in p.seen ==>
            r.table[k] == p.table[k])
      && (|p.seen| == 0 ==> r.table == p.table)
  {
    var p := Loop(env, pages, t).progress;
    if |p.seen| > 0 && k < |p.table| {
      var active := set id | id in p.seen;
      if p.table[k].externalId.Some? && p.table[k].externalId.value in p.seen {
        Catalog.CloseMissingLeavesOthers(p.table, YouthCenter, active, k);
      }
    }
  }
}
