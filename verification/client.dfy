/**
 * The web client's listing request (`getSubsidies`): which filter fields become query
 * parameters, the sort direction it chooses, the page defaults, and how the API's query binding
 * reads those parameters back.
 */
module SubsidiesClient {
  import opened Wrappers
  import opened Text
  import opened JsNumber
  import opened SearchParams
  import SubsidyQuery
  import Json

  /** The client-side `SubsidyFilter`; every field may be left out. */
  datatype ClientFilter = ClientFilter(
    keyword: Option<string>,
    regionId: Option<Num>,
    categoryId: Option<Num>,
    sortBy: Option<string>,
    page: Option<Num>,
    pageSize: Option<Num>)

  const NoFilter := ClientFilter(None, None, None, None, None, None)

  const SubsidiesPath := "/api/subsidies"

  /** The sort the deadline order needs: nearest deadline first. */
  const DeadlineSort := "ApplicationEndDate"

  /** A number field that is present and truthy. */
  predicate GivenNum(n: Option<Num>) {
    n.Some? && Truthy(n.value)
  }

  /** `filter.page || 1` */
  function PageArg(f: ClientFilter): int {
    if GivenNum(f.page) then f.page.value.value else 1
  }

  /** `filter.pageSize || 20` */
  function PageSizeArg(f: ClientFilter): int {
    if GivenNum(f.pageSize) then f.pageSize.value.value else 20
  }

  /** The direction the client asks for once it names a sort: ascending only for the deadline. */
  function DescendingText(sortBy: string): string {
    if sortBy == DeadlineSort then "false" else "true"
  }

  /** Adds `name=value` when the text is truthy. */
  function SetIfGiven(ps: Params, name: string, value: Option<string>): (r: Params)
    ensures forall n :: Get(r, n) == if n == name && Given(value) then value else Get(ps, n)
  {
    if Given(value) then Set(ps, name, value.value) else ps
  }

  /** The value `getSubsidies(filter)` sends under `name`, if any. */
  function Sent(f: ClientFilter, name: string): Option<string> {
    if name == "keyword" then (if Given(f.keyword) then f.keyword else None)
    else if name == "regionId" then (if GivenNum(f.regionId) then Some(ToString(f.regionId.value)) else None)
    else if name == "categoryId" then (if GivenNum(f.categoryId) then Some(ToString(f.categoryId.value)) else None)
    else if name == "sortBy" then (if Given(f.sortBy) then f.sortBy else None)
    else if name == "sortDescending" then (if Given(f.sortBy) then Some(DescendingText(f.sortBy.value)) else None)
    else if name == "page" then Some(IntToString(PageArg(f)))
    else if name == "pageSize" then Some(IntToString(PageSizeArg(f)))
    else None
  }

  /** The text of a number field when it is truthy. */
  function NumText(n: Option<Num>): Option<string> {
    if GivenNum(n) then Some(ToString(n.value)) else None
  }

  /** The `set` calls of `getSubsidies(filter)` for the criteria, applied to `ps`. */
  function SetCriteria(ps: Params, f: ClientFilter): Params {
    var p0 := SetIfGiven(ps, "keyword", f.keyword);
    var p1 := SetIfGiven(p0, "regionId", NumText(f.regionId));
    SetIfGiven(p1, "categoryId", NumText(f.categoryId))
  }

  /** The `set` calls of `getSubsidies(filter)` for the sort, applied to `ps`. */
  function SetSort(ps: Params, f: ClientFilter): Params {
    var p0 := SetIfGiven(ps, "sortBy", if Given(f.sortBy) then f.sortBy else None);
    SetIfGiven(p0, "sortDescending", if Given(f.sortBy) then Some(DescendingText(f.sortBy.value)) else None)
  }

  /** The `set` calls of `getSubsidies(filter)` for the page, applied to `ps`. */
  function SetPage(ps: Params, f: ClientFilter): Params {
    var p0 := Set(ps, "page", IntToString(PageArg(f)));
    Set(p0, "pageSize", IntToString(PageSizeArg(f)))
  }

  function SetFilter(ps: Params, f: ClientFilter): Params {
    SetPage(SetSort(SetCriteria(ps, f), f), f)
  }

  lemma SetCriteriaSends(ps: Params, f: ClientFilter)
    ensures forall n :: Get(SetCriteria(ps, f), n) == (if (n == "keyword" || n == "regionId" || n == "categoryId") && Sent(f, n).Some? then Sent(f, n) else Get(ps, n))
  {
    var p0 := SetIfGiven(ps, "keyword", f.keyword);
    var p1 := SetIfGiven(p0, "regionId", NumText(f.regionId));
    var p2 := SetIfGiven(p1, "categoryId", NumText(f.categoryId));
    forall n ensures Get(p2, n) == (if (n == "keyword" || n == "regionId" || n == "categoryId") && Sent(f, n).Some? then Sent(f, n) else Get(ps, n)) {
      if n != "categoryId" {
        assert Get(p2, n) == Get(p1, n);
        if n != "regionId" {
          assert Get(p1, n) == Get(p0, n);
        }
      }
    }
  }

  lemma SetSortSends(ps: Params, f: ClientFilter)
    ensures forall n :: Get(SetSort(ps, f), n) == (if (n == "sortBy" || n == "sortDescending") && Sent(f, n).Some? then Sent(f, n) else Get(ps, n))
  {
    var p0 := SetIfGiven(ps, "sortBy", if Given(f.sortBy) then f.sortBy else None);
    var p1 := SetIfGiven(p0, "sortDescending", if Given(f.sortBy) then Some(DescendingText(f.sortBy.value)) else None);
    forall n ensures Get(p1, n) == (if (n == "sortBy" || n == "sortDescending") && Sent(f, n).Some? then Sent(f, n) else Get(ps, n)) {
      if n != "sortDescending" {
        assert Get(p1, n) == Get(p0, n);
      }
    }
  }

  lemma SetPageSends(ps: Params, f: ClientFilter)
    ensures forall n :: Get(SetPage(ps, f), n) == (if (n == "page" || n == "pageSize") && Sent(f, n).Some? then Sent(f, n) else Get(ps, n))
  {
    forall n ensures Get(SetPage(ps, f), n) == (if (n == "page" || n == "pageSize") && Sent(f, n).Some? then Sent(f, n) else Get(ps, n)) {
      SetPageSendsAt(ps, f, n);
    }
  }

  lemma SetPageSendsAt(ps: Params, f: ClientFilter, n: string)
    ensures Get(SetPage(ps, f), n) == (if (n == "page" || n == "pageSize") && Sent(f, n).Some? then Sent(f, n) else Get(ps, n))
  {
    var p0 := Set(ps, "page", IntToString(PageArg(f)));
    var p1 := Set(p0, "pageSize", IntToString(PageSizeArg(f)));
    if n == "pageSize" {
      SentValues(f);
    } else if n == "page" {
      SentValues(f);
      assert Get(p1, n) == Get(p0, n);
    } else {
      assert Get(p1, n) == Get(p0, n) == Get(ps, n);
    }
  }

  /** Applied to a list without pairs, the `set` calls leave exactly what the filter sends. */
  lemma SetFilterSends(ps: Params, f: ClientFilter)
    requires forall n :: Get(ps, n) == None
    ensures forall n :: Get(SetFilter(ps, f), n) == Sent(f, n)
  {
    var p0 := SetCriteria(ps, f);
    var p1 := SetSort(p0, f);
    SetCriteriaSends(ps, f);
    SetSortSends(p0, f);
    SetPageSends(p1, f);
  }

  /** The query parameters of `getSubsidies(filter)`, set one after another on an empty list. */
  function SubsidiesParams(f: ClientFilter): (r: Params)
    ensures forall n :: Get(r, n) == Sent(f, n)
  {
    SetFilterSends([], f);
    SetFilter([], f)
  }

  datatype Request = Request(path: string, query: Params)

  /** `getSubsidies(filter)`: the listing endpoint with the filter's parameters. */
  function GetSubsidies(f: ClientFilter): (r: Request)
    ensures r.path == SubsidiesPath && r.query == SubsidiesParams(f)
  {
    Request(SubsidiesPath, SubsidiesParams(f))
  }

  // ---------------------------------------------------------------------------------------------
  // The listing endpoint's query binding
  // ---------------------------------------------------------------------------------------------

  /** The arguments `GET /api/subsidies` binds from the query string. */
  datatype ListArgs = ListArgs(
    page: int,
    pageSize: int,
    keyword: Option<string>,
    regionId: Option<int>,
    categoryId: Option<int>,
    sortBy: Option<string>,
    sortDescending: bool)

  /**
   * An `int` parameter with a default: absent takes the default, present must parse as a 32-bit
   * integer; anything else is a model-state error.
   */
  function BindInt(q: Params, name: string, default: int): (r: Option<int>)
    ensures r.Some? && Get(q, name).Some? ==> Json.IsInt32(r.value)
  {
    match Get(q, name)
    case None => Some(default)
    case Some(s) => Json.TryParseInt32(s)
  }

  /** An `int?` parameter: absent or empty is null, anything else must parse as a 32-bit integer. */
  function BindOptionalInt(q: Params, name: string): (r: Option<Option<int>>)
    ensures r.Some? && r.value.Some? ==> Json.IsInt32(r.value.value)
  {
    if !Given(Get(q, name)) then Some(None)
    else match Json.TryParseInt32(Get(q, name).value)
      case None => None
      case Some(v) => Some(Some(v))
  }

  /** A `bool` parameter with a default: `true` or `false` in any case. */
  function BindBool(q: Params, name: string, default: bool): Option<bool> {
    match Get(q, name)
    case None => Some(default)
    case Some(s) =>
      if EqualsIgnoreCase(s, "true") then Some(true)
      else if EqualsIgnoreCase(s, "false") then Some(false)
      else None
  }

  /** A `string?` parameter: absent takes the default, empty or blank is null. */
  function BindString(q: Params, name: string, default: Option<string>): Option<string> {
    match Get(q, name)
    case None => default
    case Some(s) => if IsBlank(s) then None else Some(s)
  }

  /**
   * What a text field of the client's filter binds to on the server: the default when the client
   * leaves it out (absent or empty), null when it is blank, the text itself otherwise.
   */
  function BoundText(s: Option<string>, default: Option<string>): Option<string> {
    if !Given(s) then default else if IsBlank(s.value) then None else s
  }

  /**
   * Model binding for the listing endpoint: `None` when a value does not convert (the API then
   * answers 400), otherwise the arguments with their declared defaults.
   */
  function BindListArgs(q: Params): (r: Option<ListArgs>)
    ensures r.Some? ==> r.value.sortDescending == (Get(q, "sortDescending").None? || EqualsIgnoreCase(Get(q, "sortDescending").value, "true"))
    ensures r.Some? && Get(q, "page").None? ==> r.value.page == 1
    ensures r.Some? && Get(q, "pageSize").None? ==> r.value.pageSize == 20
    ensures r.Some? ==> Json.IsInt32(r.value.page) && Json.IsInt32(r.value.pageSize)
    ensures r.Some? && r.value.regionId.Some? ==> Json.IsInt32(r.value.regionId.value)
    ensures r.Some? && r.value.categoryId.Some? ==> Json.IsInt32(r.value.categoryId.value)
  {
    match (BindInt(q, "page", 1), BindInt(q, "pageSize", 20), BindOptionalInt(q, "regionId"),
           BindOptionalInt(q, "categoryId"), BindBool(q, "sortDescending", true))
    case (Some(page), Some(size), Some(region), Some(category), Some(descending)) =>
      Some(ListArgs(page, size, BindString(q, "keyword", None), region, category,
                    BindString(q, "sortBy", Some("CreatedAt")), descending))
    case _ => None
  }

  /**
   * The arguments a caller of `getSubsidies(filter)` means: the truthy criteria, the page and page
   * size with their defaults, and the sort with the direction the client chooses for it (the
   * endpoint's newest-first default when no sort is named).
   */
  function Intended(f: ClientFilter): ListArgs {
    ListArgs(
      PageArg(f),
      PageSizeArg(f),
      BoundText(f.keyword, None),
      if GivenNum(f.regionId) then Some(f.regionId.value.value) else None,
      if GivenNum(f.categoryId) then Some(f.categoryId.value.value) else None,
      BoundText(f.sortBy, Some("CreatedAt")),
      !(Given(f.sortBy) && f.sortBy.value == DeadlineSort))
  }

  /** A written number binds back to itself when it fits an `int`, and fails binding otherwise. */
  lemma BindIntOf(q: Params, name: string, default: int, v: int)
    requires Get(q, name) == Some(IntToString(v))
    ensures BindInt(q, name, default) == if Json.IsInt32(v) then Some(v) else None
  {
    Json.TryParseInt32OfRendered(v);
  }

  /** A sent id binds back to itself when it fits an `int`, an absent one to null. */
  lemma BindOptionalIntOf(q: Params, name: string, n: Option<Num>)
    requires Get(q, name) == NumText(n)
    ensures BindOptionalInt(q, name) ==
      if !GivenNum(n) then Some(None)
      else if Json.IsInt32(n.value.value) then Some(Some(n.value.value))
      else None
  {
    if GivenNum(n) {
      Json.TryParseInt32OfRendered(n.value.value);
    }
  }

  /** Every number the client sends fits the endpoint's `int` and `int?` parameters. */
  predicate FitsInt32(f: ClientFilter) {
    && Json.IsInt32(PageArg(f)) && Json.IsInt32(PageSizeArg(f))
    && (GivenNum(f.regionId) ==> Json.IsInt32(f.regionId.value.value))
    && (GivenNum(f.categoryId) ==> Json.IsInt32(f.categoryId.value.value))
  }

  lemma BindBoolOf(q: Params, name: string, default: bool, sortBy: Option<string>)
    requires Get(q, name) == if Given(sortBy) then Some(DescendingText(sortBy.value)) else None
    requires default
    ensures BindBool(q, name, default) == Some(!(Given(sortBy) && sortBy.value == DeadlineSort))
  {
    assert EqualsIgnoreCase("true", "true") && EqualsIgnoreCase("false", "false");
  }

  /** Binding succeeds with the intended arguments once each parameter binds to its part. */
  lemma BindsParts(q: Params, f: ClientFilter)
    requires BindInt(q, "page", 1) == Some(PageArg(f))
    requires BindInt(q, "pageSize", 20) == Some(PageSizeArg(f))
    requires BindOptionalInt(q, "regionId") == Some(if GivenNum(f.regionId) then Some(f.regionId.value.value) else None)
    requires BindOptionalInt(q, "categoryId") == Some(if GivenNum(f.categoryId) then Some(f.categoryId.value.value) else None)
    requires BindBool(q, "sortDescending", true) == Some(!(Given(f.sortBy) && f.sortBy.value == DeadlineSort))
    requires BindString(q, "keyword", None) == BoundText(f.keyword, None)
    requires BindString(q, "sortBy", Some("CreatedAt")) == BoundText(f.sortBy, Some("CreatedAt"))
    ensures BindListArgs(q) == Some(Intended(f))
  {
  }

  /** What `Sent` gives for each name the client uses. */
  lemma SentValues(f: ClientFilter)
    ensures Sent(f, "keyword") == (if Given(f.keyword) then f.keyword else None)
    ensures Sent(f, "regionId") == NumText(f.regionId)
    ensures Sent(f, "categoryId") == NumText(f.categoryId)
    ensures Sent(f, "sortBy") == (if Given(f.sortBy) then f.sortBy else None)
    ensures Sent(f, "sortDescending") == (if Given(f.sortBy) then Some(DescendingText(f.sortBy.value)) else None)
    ensures Sent(f, "page") == Some(IntToString(PageArg(f)))
    ensures Sent(f, "pageSize") == Some(IntToString(PageSizeArg(f)))
  {
  }

  /**
   * Any query string carrying exactly what the filter sends binds to the filter's arguments when
   * every number fits an `int`; otherwise binding fails and the endpoint answers 400.
   */
  lemma BindsSent(q: Params, f: ClientFilter)
    requires forall n :: Get(q, n) == Sent(f, n)
    ensures BindListArgs(q) == if FitsInt32(f) then Some(Intended(f)) else None
  {
    BindsSentNumbers(q, f);
    BindsSentTexts(q, f);
    BindsSentDirection(q, f);
    if FitsInt32(f) {
      BindsParts(q, f);
    }
  }

  /**
   * The page, the page size and the two ids bind to what the filter sent for them, each failing
   * exactly when its number does not fit an `int`.
   */
  lemma BindsSentNumbers(q: Params, f: ClientFilter)
    requires forall n :: Get(q, n) == Sent(f, n)
    ensures BindInt(q, "page", 1) == if Json.IsInt32(PageArg(f)) then Some(PageArg(f)) else None
    ensures BindInt(q, "pageSize", 20) == if Json.IsInt32(PageSizeArg(f)) then Some(PageSizeArg(f)) else None
    ensures BindOptionalInt(q, "regionId") ==
      if !GivenNum(f.regionId) then Some(None)
      else if Json.IsInt32(f.regionId.value.value) then Some(Some(f.regionId.value.value))
      else None
    ensures BindOptionalInt(q, "categoryId") ==
      if !GivenNum(f.categoryId) then Some(None)
      else if Json.IsInt32(f.categoryId.value.value) then Some(Some(f.categoryId.value.value))
      else None
  {
    SentValues(f);
    assert Get(q, "page") == Sent(f, "page") && Get(q, "pageSize") == Sent(f, "pageSize");
    assert Get(q, "regionId") == Sent(f, "regionId") && Get(q, "categoryId") == Sent(f, "categoryId");
    BindIntOf(q, "page", 1, PageArg(f));
    BindIntOf(q, "pageSize", 20, PageSizeArg(f));
    BindOptionalIntOf(q, "regionId", f.regionId);
    BindOptionalIntOf(q, "categoryId", f.categoryId);
  }

  /** The keyword and the sort name bind to what the filter sent for them. */
  lemma BindsSentTexts(q: Params, f: ClientFilter)
    requires forall n :: Get(q, n) == Sent(f, n)
    ensures BindString(q, "keyword", None) == BoundText(f.keyword, None)
    ensures BindString(q, "sortBy", Some("CreatedAt")) == BoundText(f.sortBy, Some("CreatedAt"))
  {
    SentValues(f);
    assert Get(q, "keyword") == Sent(f, "keyword") && Get(q, "sortBy") == Sent(f, "sortBy");
  }

  /** The sort direction binds to the direction the filter sent. */
  lemma BindsSentDirection(q: Params, f: ClientFilter)
    requires forall n :: Get(q, n) == Sent(f, n)
    ensures BindBool(q, "sortDescending", true) == Some(!(Given(f.sortBy) && f.sortBy.value == DeadlineSort))
  {
    SentDirection(f);
    assert Get(q, "sortDescending") == Sent(f, "sortDescending");
    BindBoolOf(q, "sortDescending", true, f.sortBy);
  }

  lemma SentDirection(f: ClientFilter)
    ensures Sent(f, "sortDescending") == (if Given(f.sortBy) then Some(DescendingText(f.sortBy.value)) else None)
  {
  }

  /**
   * Every request the client builds whose numbers fit an `int` binds, and the endpoint sees what
   * the caller meant: the truthy criteria, the page and page size with their defaults, and the
   * sort with the direction the client chose for it (or the endpoint's newest-first default when
   * no sort is named). A page, size or id outside 32 bits fails binding, and the endpoint answers
   * 400 instead.
   */
  lemma ClientRequestBinds(f: ClientFilter)
    ensures BindListArgs(SubsidiesParams(f)) == if FitsInt32(f) then Some(Intended(f)) else None
  {
    BindsSent(SubsidiesParams(f), f);
  }

  /** The client's name for the deadline order is one the repository recognises. */
  lemma DeadlineSortIsKnown()
    ensures SubsidyQuery.SortKeyOf(Some(DeadlineSort)) == SubsidyQuery.ByApplicationEndDate
  {
    assert EqualsIgnoreCase(DeadlineSort, "applicationenddate") by {
      var a, b := DeadlineSort, "applicationenddate";
      assert forall i :: 0 <= i < |a| ==> UpperChar(a[i]) == UpperChar(b[i]);
    }
  }

  /**
   * Asking for the deadline order lists the nearest deadline first; naming no sort lists the
   * newest rows first.
   */
  lemma ClientSortOrder(f: ClientFilter)
    ensures var a := Intended(f);
      && (f.sortBy == Some(DeadlineSort) ==>
            SubsidyQuery.SortKeyOf(a.sortBy) == SubsidyQuery.ByApplicationEndDate && !a.sortDescending)
      && (!Given(f.sortBy) ==> SubsidyQuery.SortKeyOf(a.sortBy) == SubsidyQuery.ByCreatedAt && a.sortDescending)
  {
    DeadlineSortIsKnown();
    assert !IsWhiteSpace(DeadlineSort[0]);
    if !Given(f.sortBy) {
      assert Intended(f).sortBy == Some("CreatedAt");
      assert !EqualsIgnoreCase("CreatedAt", "title") && !EqualsIgnoreCase("CreatedAt", "applicationenddate");
    }
  }
}
