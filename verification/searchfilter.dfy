/**
 * The search and filter bar above the listing. Every change rewrites the current query string:
 * the page is dropped (back to the first page), each changed filter is set when it has a value
 * and removed when it has none, and everything else is kept. A reset button, shown while any of
 * the three filters is present, goes back to the bare listing.
 */
module SearchFilterBar {
  import opened Wrappers
  import opened SearchParams

  /** A change of one filter: its name and the new value, `undefined` as `None`. */
  type Override = (string, Option<string>)

  /** One override: a truthy value is set, anything else removes the name. */
  function ApplyOne(q: Params, o: Override): (r: Params)
    ensures forall n :: Get(r, n) == if n == o.0 then (if Given(o.1) then o.1 else None) else Get(q, n)
  {
    if Given(o.1) then Set(q, o.0, o.1.value) else Delete(q, o.0)
  }

  /** The last override of `n`, the one that decides its value. */
  function LastOverride(os: seq<Override>, n: string): Option<Option<string>>
    decreases |os|
  {
    if |os| == 0 then None
    else if os[|os| - 1].0 == n then Some(os[|os| - 1].1)
    else LastOverride(os[..|os| - 1], n)
  }

  /** The overrides in order; for each name the last one wins and names without one are kept. */
  function ApplyAll(q: Params, os: seq<Override>): (r: Params)
    ensures forall n :: Get(r, n) == match LastOverride(os, n)
      case Some(v) => (if Given(v) then v else None)
      case None => Get(q, n)
    decreases |os|
  {
    if |os| == 0 then q
    else ApplyOne(ApplyAll(q, os[..|os| - 1]), os[|os| - 1])
  }

  /** `applyFilters(overrides)`: the query without `page`, with the overrides applied. */
  function ApplyFilters(q: Params, os: seq<Override>): (r: Params)
    ensures forall n :: Get(r, n) == match LastOverride(os, n)
      case Some(v) => (if Given(v) then v else None)
      case None => if n == "page" then None else Get(q, n)
  {
    ApplyAll(Delete(q, "page"), os)
  }

  /** `value || undefined` */
  function OrUndefined(value: string): Option<string> {
    if value == "" then None else Some(value)
  }

  /** Submitting the search box. */
  function Search(q: Params, keyword: string): Params {
    ApplyFilters(q, [("keyword", OrUndefined(keyword))])
  }

  /** Choosing a region; the empty choice is "all regions". */
  function SelectRegion(q: Params, value: string): Params {
    ApplyFilters(q, [("regionId", OrUndefined(value))])
  }

  /** Choosing a category; the empty choice is "all categories". */
  function SelectCategory(q: Params, value: string): Params {
    ApplyFilters(q, [("categoryId", OrUndefined(value))])
  }

  /** The search box starts with the keyword in the query, or empty. */
  function InitialKeyword(q: Params): string {
    match Get(q, "keyword")
    case Some(k) => k
    case None => ""
  }

  /** The reset button shows while a keyword, region or category is in the query. */
  predicate ShowReset(q: Params) {
    Given(Get(q, "keyword")) || Given(Get(q, "regionId")) || Given(Get(q, "categoryId"))
  }

  /** The reset button goes to the bare listing. */
  const ResetQuery: Params := []

  /**
   * Changing one filter sets or removes that filter, drops the page and keeps every other
   * parameter as it was.
   */
  lemma ChangeOneFilter(q: Params, name: string, value: string, n: string)
    requires name != "page"
    ensures Get(ApplyFilters(q, [(name, OrUndefined(value))]), n) ==
      if n == name then OrUndefined(value) else if n == "page" then None else Get(q, n)
  {
    var os := [(name, OrUndefined(value))];
    assert os[..0] == [];
  }

  /** A search for a non-empty keyword shows the reset button and keeps the region and category. */
  lemma SearchShowsReset(q: Params, keyword: string)
    requires keyword != ""
    ensures ShowReset(Search(q, keyword))
    ensures Get(Search(q, keyword), "regionId") == Get(q, "regionId")
    ensures Get(Search(q, keyword), "categoryId") == Get(q, "categoryId")
    ensures Get(Search(q, keyword), "page") == None
  {
    ChangeOneFilter(q, "keyword", keyword, "keyword");
    ChangeOneFilter(q, "keyword", keyword, "regionId");
    ChangeOneFilter(q, "keyword", keyword, "categoryId");
    ChangeOneFilter(q, "keyword", keyword, "page");
  }

  /** Clearing the keyword with no region or category chosen hides the reset button. */
  lemma ClearingLastFilterHidesReset(q: Params)
    requires !Given(Get(q, "regionId")) && !Given(Get(q, "categoryId"))
    ensures !ShowReset(Search(q, ""))
  {
    ChangeOneFilter(q, "keyword", "", "keyword");
    ChangeOneFilter(q, "keyword", "", "regionId");
    ChangeOneFilter(q, "keyword", "", "categoryId");
  }

  /** Whether the overrides leave a value for `n`: its last override is truthy. */
  predicate Chosen(os: seq<Override>, n: string) {
    LastOverride(os, n).Some? && Given(LastOverride(os, n).value)
  }

  /** One name's value after filters are applied to the bare query. */
  lemma AfterReset(os: seq<Override>, m: string)
    ensures Get(ApplyFilters(ResetQuery, os), m) == if Chosen(os, m) then LastOverride(os, m).value else None
  {
    var q := ApplyFilters(ResetQuery, os);
    assert Get(ResetQuery, m) == None;
    match LastOverride(os, m)
    case Some(v) => assert Get(q, m) == (if Given(v) then v else None);
    case None => assert Get(q, m) == (if m == "page" then None else Get(ResetQuery, m));
  }

  /**
   * After a reset there is nothing to reset and the search box is empty; whatever filters are
   * chosen next, the query holds exactly those chosen values and nothing from before the reset,
   * and the reset button shows again exactly when one of the three filters was chosen.
   */
  lemma ResetClearsEverything(os: seq<Override>, n: string)
    ensures !ShowReset(ResetQuery) && InitialKeyword(ResetQuery) == ""
    ensures Get(ApplyFilters(ResetQuery, os), n) == if Chosen(os, n) then LastOverride(os, n).value else None
    ensures ShowReset(ApplyFilters(ResetQuery, os)) <==>
      Chosen(os, "keyword") || Chosen(os, "regionId") || Chosen(os, "categoryId")
  {
    AfterReset(os, n);
    AfterReset(os, "keyword");
    AfterReset(os, "regionId");
    AfterReset(os, "categoryId");
  }
}
