/**
 * The subsidies endpoints: the filtered, sorted and paged listing, the detail of one record,
 * and the keyword search, each projecting records onto the DTOs the web front end reads.
 */
module SubsidiesApi {
  import opened Wrappers
  import opened Domain
  import opened Text
  import opened SeqOps
  import Catalog
  import opened SubsidyQuery
  import opened Paging

  /** The reference rows a record's navigation properties load. */
  datatype References = References(regions: seq<Region>, categories: seq<Category>, groups: seq<TargetGroup>)

  datatype ListDto = ListDto(
    id: int,
    title: string,
    organization: string,
    amount: Option<string>,
    regionName: string,
    categoryName: string,
    targetGroups: seq<string>,
    status: string,
    applicationEndDate: Option<Time>,
    createdAt: Time)

  datatype DetailDto = DetailDto(
    id: int,
    title: string,
    description: string,
    organization: string,
    amount: Option<string>,
    eligibilityCriteria: Option<string>,
    applicationMethod: Option<string>,
    applicationUrl: Option<string>,
    contactInfo: Option<string>,
    sourceUrl: Option<string>,
    applicationStartDate: Option<Time>,
    applicationEndDate: Option<Time>,
    status: string,
    regionName: string,
    categoryName: string,
    targetGroups: seq<string>,
    createdAt: Time,
    updatedAt: Time)

  /** The largest page either listing endpoint serves. */
  const MaxPageSize := 100

  const EmptyKeywordMessage := "검색어를 입력해주세요."

  // ---------------------------------------------------------------------------------------------
  // Projections
  // ---------------------------------------------------------------------------------------------

  /** `s.Region?.Name ?? ""`: the name of the region with that id, or empty when none is loaded. */
  function RegionName(refs: References, id: int): (r: string)
    ensures r != "" ==> exists k :: 0 <= k < |refs.regions| && refs.regions[k].id == id && refs.regions[k].name == r
    ensures (forall k :: 0 <= k < |refs.regions| ==> refs.regions[k].id != id) ==> r == ""
    ensures forall k :: 0 <= k < |refs.regions| && refs.regions[k].id == id && (forall j :: 0 <= j < k ==> refs.regions[j].id != id)
              ==> r == refs.regions[k].name
  {
    var p := (g: Region) => g.id == id;
    FirstWhereIsFirst(refs.regions, p);
    match FirstWhere(refs.regions, p)
    case Some(g) => g.name
    case None => ""
  }

  /** `s.Category?.Name ?? ""` */
  function CategoryName(refs: References, id: int): (r: string)
    ensures r != "" ==> exists k :: 0 <= k < |refs.categories| && refs.categories[k].id == id && refs.categories[k].name == r
    ensures (forall k :: 0 <= k < |refs.categories| ==> refs.categories[k].id != id) ==> r == ""
    ensures forall k :: 0 <= k < |refs.categories| && refs.categories[k].id == id && (forall j :: 0 <= j < k ==> refs.categories[j].id != id)
              ==> r == refs.categories[k].name
  {
    var p := (c: Category) => c.id == id;
    FirstWhereIsFirst(refs.categories, p);
    match FirstWhere(refs.categories, p)
    case Some(c) => c.name
    case None => ""
  }

  /** `stg.TargetGroup?.Name ?? ""` */
  function GroupName(refs: References, id: int): (r: string)
    ensures r != "" ==> exists k :: 0 <= k < |refs.groups| && refs.groups[k].id == id && refs.groups[k].name == r
    ensures (forall k :: 0 <= k < |refs.groups| ==> refs.groups[k].id != id) ==> r == ""
    ensures forall k :: 0 <= k < |refs.groups| && refs.groups[k].id == id && (forall j :: 0 <= j < k ==> refs.groups[j].id != id)
              ==> r == refs.groups[k].name
  {
    var p := (g: TargetGroup) => g.id == id;
    FirstWhereIsFirst(refs.groups, p);
    match FirstWhere(refs.groups, p)
    case Some(g) => g.name
    case None => ""
  }

  /** The name of each linked group, in link order, before the empty ones are dropped. */
  function LinkedNames(refs: References, ids: seq<int>): seq<string> {
    seq(|ids|, j requires 0 <= j < |ids| => GroupName(refs, ids[j]))
  }

  /**
   * The target-group names of a record, in association order, with the empty ones dropped:
   * every name listed is non-empty and names one of the record's groups.
   */
  function TargetGroupNames(refs: References, ids: seq<int>): (r: seq<string>)
    ensures |r| <= |ids|
    ensures forall i :: 0 <= i < |r| ==> r[i] != ""
    ensures forall i :: 0 <= i < |r| ==> exists j :: 0 <= j < |ids| && GroupName(refs, ids[j]) == r[i]
  {
    var names := LinkedNames(refs, ids);
    var r := Where(names, (n: string) => !IsNullOrEmpty(Some(n)));
    forall i | 0 <= i < |r| ensures r[i] != "" && exists j :: 0 <= j < |ids| && GroupName(refs, ids[j]) == r[i] {
      WhereMembers(names, (n: string) => !IsNullOrEmpty(Some(n)), r[i]);
      var j :| 0 <= j < |names| && names[j] == r[i];
    }
    r
  }

  /**
   * The names are built link by link: one more link adds its group's name at the end, unless the
   * name is empty, and no links give no names.
   */
  lemma {:induction false} TargetGroupNamesSnoc(refs: References, ids: seq<int>, x: int)
    ensures TargetGroupNames(refs, []) == []
    ensures TargetGroupNames(refs, ids + [x]) ==
      TargetGroupNames(refs, ids) + (if GroupName(refs, x) != "" then [GroupName(refs, x)] else [])
  {
    var p := (n: string) => !IsNullOrEmpty(Some(n));
    var g := GroupName(refs, x);
    assert LinkedNames(refs, ids + [x]) == LinkedNames(refs, ids) + [g];
    WhereConcat(LinkedNames(refs, ids), [g], p);
    assert Where([g], p) == (if p(g) then [g] else []) + Where([g][1..], p);
    assert [g][1..] == [];
  }

  /** When every group of the record is loaded under a non-empty name, none is dropped. */
  lemma TargetGroupNamesComplete(refs: References, ids: seq<int>)
    requires forall j :: 0 <= j < |ids| ==> GroupName(refs, ids[j]) != ""
    ensures TargetGroupNames(refs, ids) == seq(|ids|, j requires 0 <= j < |ids| => GroupName(refs, ids[j]))
  {
    var names := LinkedNames(refs, ids);
    WhereAll(names, (n: string) => !IsNullOrEmpty(Some(n)));
  }

  /** `MapToListDto`: the listing's view of a record; its status reads back as the record's. */
  function MapToListDto(refs: References, s: Subsidy): (d: ListDto)
    ensures d.id == s.id && d.title == s.title && d.applicationEndDate == s.applicationEndDate
    ensures d.organization == s.organization && d.amount == s.amount && d.createdAt == s.createdAt
    ensures d.regionName == RegionName(refs, s.regionId) && d.categoryName == CategoryName(refs, s.categoryId)
    ensures d.targetGroups == TargetGroupNames(refs, s.targetGroupIds)
    ensures ParseSubsidyStatus(d.status) == Some(s.status)
    ensures forall i :: 0 <= i < |d.targetGroups| ==> d.targetGroups[i] != ""
  {
    ListDto(s.id, s.title, s.organization, s.amount, RegionName(refs, s.regionId), CategoryName(refs, s.categoryId),
            TargetGroupNames(refs, s.targetGroupIds), SubsidyStatusName(s.status), s.applicationEndDate, s.createdAt)
  }

  /** `MapToDetailDto`: every text and date of the record, with the same names as the listing. */
  function MapToDetailDto(refs: References, s: Subsidy): (d: DetailDto)
    ensures d.id == s.id && d.description == s.description && d.eligibilityCriteria == s.eligibilityCriteria
    ensures d.applicationMethod == s.applicationMethod && d.applicationUrl == s.applicationUrl
    ensures d.contactInfo == s.contactInfo && d.sourceUrl == s.sourceUrl
    ensures d.applicationStartDate == s.applicationStartDate && d.applicationEndDate == s.applicationEndDate
    ensures d.createdAt == s.createdAt && d.updatedAt == s.updatedAt
    ensures ParseSubsidyStatus(d.status) == Some(s.status)
    ensures var l := MapToListDto(refs, s);
      && d.id == l.id && d.status == l.status && d.applicationEndDate == l.applicationEndDate && d.createdAt == l.createdAt
      && d.regionName == l.regionName && d.categoryName == l.categoryName && d.targetGroups == l.targetGroups
      && d.title == l.title && d.organization == l.organization && d.amount == l.amount
  {
    DetailDto(s.id, s.title, s.description, s.organization, s.amount, s.eligibilityCriteria, s.applicationMethod,
              s.applicationUrl, s.contactInfo, s.sourceUrl, s.applicationStartDate, s.applicationEndDate,
              SubsidyStatusName(s.status), RegionName(refs, s.regionId), CategoryName(refs, s.categoryId),
              TargetGroupNames(refs, s.targetGroupIds), s.createdAt, s.updatedAt)
  }

  function MapAll(refs: References, rows: seq<Subsidy>): (r: seq<ListDto>)
    ensures |r| == |rows|
    ensures forall i :: 0 <= i < |r| ==> r[i] == MapToListDto(refs, rows[i])
  {
    seq(|rows|, i requires 0 <= i < |rows| => MapToListDto(refs, rows[i]))
  }

  // ---------------------------------------------------------------------------------------------
  // Endpoints
  // ---------------------------------------------------------------------------------------------

  /** `Math.Min(pageSize, 100)`: capped above, not below. */
  function CapPageSize(pageSize: int): (r: int)
    ensures r <= MaxPageSize && r <= pageSize
    ensures r == pageSize || r == MaxPageSize
  {
    if pageSize < MaxPageSize then pageSize else MaxPageSize
  }

  /** The filter `GetAll` builds from its query parameters. */
  function ListFilter(page: int, pageSize: int, keyword: Option<string>, regionId: Option<int>,
                      categoryId: Option<int>, targetGroupId: Option<int>, status: Option<SubsidyStatus>,
                      sortBy: Option<string>, sortDescending: bool): (f: SubsidyFilter)
    ensures f.page == page && f.pageSize == CapPageSize(pageSize)
    ensures f.status == Some(status.GetOr(Active))
    ensures f.keyword == keyword && f.regionId == regionId && f.categoryId == categoryId
    ensures f.targetGroupId == targetGroupId && f.sortBy == sortBy && f.sortDescending == sortDescending
  {
    SubsidyFilter(page, CapPageSize(pageSize), keyword, regionId, categoryId, targetGroupId,
                  Some(status.GetOr(Active)), sortBy, sortDescending)
  }

  /**
   * `GET /api/subsidies`: one page of at most 100 records of the requested status (active when
   * none is given), with the total the same filter counts and the page and capped size echoed.
   * The cap bounds the size only from above: a negative size reaches the query unchanged, and
   * the first page then lists every matching record.
   */
  function GetAll(t: Catalog.Table, refs: References, page: int, pageSize: int, keyword: Option<string>,
                  regionId: Option<int>, categoryId: Option<int>, targetGroupId: Option<int>,
                  status: Option<SubsidyStatus>, sortBy: Option<string>, sortDescending: bool)
    : (r: PagedResult<ListDto>)
    ensures var f := ListFilter(page, pageSize, keyword, regionId, categoryId, targetGroupId, status, sortBy, sortDescending);
      && r.page == page && r.pageSize == CapPageSize(pageSize) && r.totalCount == GetCount(t, f)
      && (pageSize >= 0 ==> |r.items| <= MaxPageSize)
      && (pageSize < 0 && page == 1 ==> |r.items| == r.totalCount)
      && (forall i :: 0 <= i < |r.items| ==> ParseSubsidyStatus(r.items[i].status) == Some(status.GetOr(Active)))
      && r.items == MapAll(refs, SubsidyQuery.GetAll(t, f))
  {
    var f := ListFilter(page, pageSize, keyword, regionId, categoryId, targetGroupId, status, sortBy, sortDescending);
    var rows := SubsidyQuery.GetAll(t, f);
    var items := MapAll(refs, rows);
    assert f.pageSize >= 0 ==> |items| <= f.pageSize <= MaxPageSize;
    assert f.pageSize < 0 && f.page == 1 ==> |items| == GetCount(t, f) by {
      if f.pageSize < 0 && f.page == 1 {
        SubsidyQuery.FirstPageStartsAtZero(f);
      }
    }
    forall i | 0 <= i < |items| ensures ParseSubsidyStatus(items[i].status) == Some(status.GetOr(Active)) {
      SubsidyQuery.GetAllRowsMatch(t, f, i);
    }
    PagedResult(items, GetCount(t, f), f.page, f.pageSize)
  }

  /** The listing's next-page flag is accurate whenever the capped page size is positive. */
  lemma GetAllNextPageIsAccurate(t: Catalog.Table, refs: References, page: int, pageSize: int,
                                 keyword: Option<string>, regionId: Option<int>, categoryId: Option<int>,
                                 targetGroupId: Option<int>, status: Option<SubsidyStatus>,
                                 sortBy: Option<string>, sortDescending: bool)
    requires page >= 1 && pageSize > 0
    ensures var f := ListFilter(page, pageSize, keyword, regionId, categoryId, targetGroupId, status, sortBy, sortDescending);
      var r := GetAll(t, refs, page, pageSize, keyword, regionId, categoryId, targetGroupId, status, sortBy, sortDescending);
      HasNextPage(r) <==> SubsidyQuery.GetAll(t, f.(page := page + 1)) != []
  {
    var f := ListFilter(page, pageSize, keyword, regionId, categoryId, targetGroupId, status, sortBy, sortDescending);
    var r := GetAll(t, refs, page, pageSize, keyword, regionId, categoryId, targetGroupId, status, sortBy, sortDescending);
    assert r.totalCount == GetCount(t, f) && r.page == f.page && r.pageSize == f.pageSize;
    assert f.pageSize > 0 && f.page >= 1;
    NextPageIffMoreRows(r, t, f, f.(page := page + 1));
  }

  /** `GET /api/subsidies/{id}`: the record's detail, or not found when no row has that id. */
  function GetById(t: Catalog.Table, refs: References, id: int): (r: Option<DetailDto>)
    ensures r.None? <==> forall k :: 0 <= k < |t| ==> t[k].id != id
    ensures r.Some? ==> r.value.id == id && exists k :: 0 <= k < |t| && r.value == MapToDetailDto(refs, t[k])
  {
    match Catalog.GetById(t, id)
    case None => None
    case Some(s) =>
      var k :| 0 <= k < |t| && t[k] == s;
      Some(MapToDetailDto(refs, s))
  }

  // ---------------------------------------------------------------------------------------------
  // Search
  // ---------------------------------------------------------------------------------------------

  /**
   * What the search endpoint answers: the automatic 400 of model validation naming the field, the
   * action's own 400 with its message, or the page found.
   */
  datatype SearchResponse =
    | ValidationProblem(field: string)
    | BadRequest(message: string)
    | Found(result: PagedResult<ListDto>)

  /**
   * How the query binder reads a `string` parameter: missing, empty or blank text becomes null,
   * anything else is kept as sent.
   */
  function BindText(raw: Option<string>): (r: Option<string>)
    ensures r.None? <==> IsNullOrWhiteSpace(raw)
    ensures r.Some? ==> r == raw
  {
    if IsNullOrWhiteSpace(raw) then None else raw
  }

  /** The filter `Search` builds: the keyword and the page, nothing else, so any status is listed. */
  function SearchFilter(keyword: string, page: int, pageSize: int): (f: SubsidyFilter)
    ensures f.keyword == Some(keyword) && f.page == page && f.pageSize == CapPageSize(pageSize)
    ensures f.status.None? && f.regionId.None? && f.categoryId.None? && f.targetGroupId.None?
    ensures f.sortBy == DefaultFilter.sortBy && f.sortDescending == DefaultFilter.sortDescending
  {
    DefaultFilter.(keyword := Some(keyword), page := page, pageSize := CapPageSize(pageSize))
  }

  /**
   * The search action as written: a blank keyword is a bad request; otherwise the page is cut
   * with the capped size but the response echoes the size as requested.
   */
  function SearchAsWritten(t: Catalog.Table, refs: References, keyword: Option<string>, page: int, pageSize: int)
    : (r: SearchResponse)
    ensures r.BadRequest? <==> IsNullOrWhiteSpace(keyword)
    ensures r.BadRequest? ==> r.message == EmptyKeywordMessage
    ensures r.Found? ==> var f := SearchFilter(keyword.value, page, pageSize);
      && r.result.totalCount == GetCount(t, f) && |r.result.items| == |SubsidyQuery.GetAll(t, f)|
      && r.result.page == page && r.result.pageSize == pageSize
      && r.result.items == MapAll(refs, SubsidyQuery.GetAll(t, f))
  {
    if IsNullOrWhiteSpace(keyword) then BadRequest(EmptyKeywordMessage)
    else
      var f := SearchFilter(keyword.value, page, pageSize);
      Found(PagedResult(MapAll(refs, SubsidyQuery.GetAll(t, f)), GetCount(t, f), page, pageSize))
  }

  /**
   * Asking for one page larger than the cap, when more than 100 but no more than the requested
   * size match: the first page shows 100 rows, the envelope counts more, and yet it reports no
   * next page, so the remaining rows cannot be reached by following it.
   */
  lemma SearchAsWrittenHidesRows(t: Catalog.Table, refs: References, keyword: string, pageSize: int)
    requires !IsBlank(keyword) && pageSize > MaxPageSize
    requires MaxPageSize < GetCount(t, SearchFilter(keyword, 1, pageSize)) <= pageSize
    ensures var r := SearchAsWritten(t, refs, Some(keyword), 1, pageSize);
      && r.Found? && |r.result.items| == MaxPageSize < r.result.totalCount
      && !HasNextPage(r.result)
      && SubsidyQuery.GetAll(t, SearchFilter(keyword, 2, pageSize)) != []
  {
    var r := SearchAsWritten(t, refs, Some(keyword), 1, pageSize);
    var f := SearchFilter(keyword, 1, pageSize);
    var next := SearchFilter(keyword, 2, pageSize);
    assert r.Found? && r.result.page == 1 && r.result.pageSize == pageSize && r.result.totalCount == GetCount(t, f)
      && |r.result.items| == |SubsidyQuery.GetAll(t, f)|;
    SinglePage(r.result);
    PageHasRows(t, f);
    assert next == f.(page := 2) && PageStart(next) == MaxPageSize;
    CountIgnoresPage(t, f, 2);
    PageHasRows(t, next);
  }

  /**
   * The search action as evidently intended: the envelope echoes the size the page was cut with,
   * as the listing endpoint does.
   */
  function Search(t: Catalog.Table, refs: References, keyword: Option<string>, page: int, pageSize: int)
    : (r: SearchResponse)
    ensures r.BadRequest? <==> IsNullOrWhiteSpace(keyword)
    ensures r.BadRequest? ==> r.message == EmptyKeywordMessage
    ensures r.Found? ==> var f := SearchFilter(keyword.value, page, pageSize);
      && r.result.totalCount == GetCount(t, f) && |r.result.items| == |SubsidyQuery.GetAll(t, f)|
      && r.result.page == page && r.result.pageSize == CapPageSize(pageSize)
      && r.result.items == MapAll(refs, SubsidyQuery.GetAll(t, f))
  {
    if IsNullOrWhiteSpace(keyword) then BadRequest(EmptyKeywordMessage)
    else
      var f := SearchFilter(keyword.value, page, pageSize);
      Found(PagedResult(MapAll(refs, SubsidyQuery.GetAll(t, f)), GetCount(t, f), f.page, f.pageSize))
  }

  /**
   * The whole `GET /api/subsidies/search` request. The `keyword` parameter is a non-nullable
   * `string` on an `[ApiController]`, so model validation requires it: when it binds to null,
   * which a missing, empty or blank value does, the framework answers 400 before the action runs.
   * The action's own blank-keyword answer, with its message, is therefore never sent; any other
   * keyword reaches the action unchanged.
   */
  function SearchEndpoint(t: Catalog.Table, refs: References, raw: Option<string>, page: int, pageSize: int)
    : (r: SearchResponse)
    ensures r.ValidationProblem? <==> IsNullOrWhiteSpace(raw)
    ensures r.ValidationProblem? ==> r.field == "keyword"
    ensures !r.BadRequest?
    ensures !IsNullOrWhiteSpace(raw) ==> r == SearchAsWritten(t, refs, raw, page, pageSize)
    ensures r.Found? ==> r.result.page == page && r.result.pageSize == pageSize
  {
    match BindText(raw)
    case None => ValidationProblem("keyword")
    case Some(keyword) => SearchAsWritten(t, refs, Some(keyword), page, pageSize)
  }

  /**
   * The same request with the action corrected: validation is unchanged, and a bound keyword gets
   * the corrected action's envelope, whose size is the one the page was cut with.
   */
  function CorrectedSearchEndpoint(t: Catalog.Table, refs: References, raw: Option<string>, page: int, pageSize: int)
    : (r: SearchResponse)
    ensures r.ValidationProblem? <==> IsNullOrWhiteSpace(raw)
    ensures r.ValidationProblem? ==> r.field == "keyword"
    ensures !r.BadRequest?
    ensures !IsNullOrWhiteSpace(raw) ==> r == Search(t, refs, raw, page, pageSize)
    ensures r.Found? ==> r.result.page == page && r.result.pageSize == CapPageSize(pageSize)
  {
    match BindText(raw)
    case None => ValidationProblem("keyword")
    case Some(keyword) => Search(t, refs, Some(keyword), page, pageSize)
  }

  /**
   * The endpoint as written and the corrected one differ only in the echoed size, and only when
   * the request asks for more than the cap.
   */
  lemma EndpointsDifferOnlyInEchoedSize(t: Catalog.Table, refs: References, raw: Option<string>, page: int, pageSize: int)
    ensures var w := SearchEndpoint(t, refs, raw, page, pageSize);
      var c := CorrectedSearchEndpoint(t, refs, raw, page, pageSize);
      && (w.Found? <==> c.Found?)
      && (w.Found? ==> c.result == w.result.(pageSize := CapPageSize(pageSize)))
      && (w == c <==> (w.ValidationProblem? || pageSize <= MaxPageSize))
  {
  }

  /** With the size echoed as used, the search's next-page flag is accurate for every request. */
  lemma SearchNextPageIsAccurate(t: Catalog.Table, refs: References, keyword: string, page: int, pageSize: int)
    requires !IsBlank(keyword) && page >= 1 && pageSize > 0
    ensures var r := Search(t, refs, Some(keyword), page, pageSize);
      && r.Found?
      && (HasNextPage(r.result) <==> SubsidyQuery.GetAll(t, SearchFilter(keyword, page + 1, pageSize)) != [])
  {
    var f := SearchFilter(keyword, page, pageSize);
    var r := Search(t, refs, Some(keyword), page, pageSize);
    NextPageIffMoreRows(r.result, t, f, SearchFilter(keyword, page + 1, pageSize));
  }
}
