/**
 * The listing page: the request it sends for the query string it is opened with, the heading
 * built from the keyword and the names of the chosen category and region, and the page metadata
 * built from the same parts.
 */
module HomePage {
  import opened Wrappers
  import opened Text
  import opened SeqOps
  import opened JsNumber
  import opened SearchParams
  import opened SubsidiesClient
  import PaginationView
  import SearchFilterBar

  /** A region as the regions endpoint returns it: the top level with the levels below nested. */
  datatype RegionNode = RegionNode(id: int, name: string, code: string, children: seq<RegionNode>)

  /** A category as the categories endpoint returns it. */
  datatype CategoryItem = CategoryItem(id: int, name: string, code: string, description: string)

  /** `x.id === Number(text)`: `NaN` equals no id. */
  predicate IdIs(id: int, n: Num) {
    n.Finite? && n.value == id
  }

  /** Every region of the tree, each before the regions below it: the order of a depth-first walk. */
  function Flatten(list: seq<RegionNode>): seq<RegionNode>
    decreases list
  {
    if |list| == 0 then [] else [list[0]] + Flatten(list[0].children) + Flatten(list[1..])
  }

  /**
   * `findRegion(list)`: depth first, the name of a region with the id. A match at some level
   * returns its name, but a name found below that is empty counts as no match and the walk goes on.
   */
  function FindRegion(list: seq<RegionNode>, n: Num): (r: Option<string>)
    ensures r.Some? ==> exists k :: 0 <= k < |Flatten(list)| && IdIs(Flatten(list)[k].id, n) && Flatten(list)[k].name == r.value
    ensures r.None? ==> forall k :: 0 <= k < |list| ==> !IdIs(list[k].id, n)
    decreases list
  {
    if |list| == 0 then None
    else
      var below, after := Flatten(list[0].children), Flatten(list[1..]);
      assert Flatten(list) == [list[0]] + below + after;
      if IdIs(list[0].id, n) then
        assert Flatten(list)[0] == list[0];
        Some(list[0].name)
      else
        var child := FindRegion(list[0].children, n);
        if child.Some? && child.value != "" then
          var k :| 0 <= k < |below| && IdIs(below[k].id, n) && below[k].name == child.value;
          assert Flatten(list)[1 + k] == below[k];
          child
        else
          var r := FindRegion(list[1..], n);
          if r.Some? then
            var k :| 0 <= k < |after| && IdIs(after[k].id, n) && after[k].name == r.value;
            assert Flatten(list)[1 + |below| + k] == after[k];
            r
          else
            assert forall k :: 1 <= k < |list| ==> list[k] == list[1..][k - 1];
            r
  }

  /** Reference search: the name of the first region of the walk that has the id. */
  function FirstName(s: seq<RegionNode>, n: Num): Option<string>
    decreases |s|
  {
    if |s| == 0 then None
    else if IdIs(s[0].id, n) then Some(s[0].name)
    else FirstName(s[1..], n)
  }

  lemma {:induction false} FirstNameConcat(a: seq<RegionNode>, b: seq<RegionNode>, n: Num)
    ensures FirstName(a + b, n) == if FirstName(a, n).Some? then FirstName(a, n) else FirstName(b, n)
    decreases |a|
  {
    if |a| == 0 {
      assert a + b == b;
    } else {
      FirstNameConcat(a[1..], b, n);
      assert (a + b)[1..] == a[1..] + b;
    }
  }

  lemma {:induction false} FirstNameIsAName(s: seq<RegionNode>, n: Num)
    ensures FirstName(s, n).Some? ==> exists k :: 0 <= k < |s| && s[k].name == FirstName(s, n).value
    decreases |s|
  {
    if |s| > 0 && !IdIs(s[0].id, n) {
      FirstNameIsAName(s[1..], n);
      if FirstName(s, n).Some? {
        var k :| 0 <= k < |s[1..]| && s[1..][k].name == FirstName(s, n).value;
        assert s[k + 1] == s[1..][k];
      }
    }
  }

  /** When every region has a name, `findRegion` finds the first region of the walk with the id. */
  lemma {:induction false} FindRegionIsFirstInWalk(list: seq<RegionNode>, n: Num)
    requires forall k :: 0 <= k < |Flatten(list)| ==> Flatten(list)[k].name != ""
    ensures FindRegion(list, n) == FirstName(Flatten(list), n)
    decreases list
  {
    if |list| > 0 {
      var below, after := Flatten(list[0].children), Flatten(list[1..]);
      var all := Flatten(list);
      assert all == [list[0]] + (below + after);
      assert all[1..] == below + after;
      assert forall k :: 0 <= k < |below| ==> all[1 + k] == below[k];
      assert forall k :: 0 <= k < |after| ==> all[1 + |below| + k] == after[k];
      if !IdIs(list[0].id, n) {
        FindRegionIsFirstInWalk(list[0].children, n);
        FindRegionIsFirstInWalk(list[1..], n);
        FirstNameConcat(below, after, n);
        FirstNameIsAName(below, n);
      }
    }
  }

  // ---------------------------------------------------------------------------------------------
  // Heading and metadata
  // ---------------------------------------------------------------------------------------------

  /** The keyword part: the keyword in double quotes. */
  function KeywordPart(q: Params): seq<string> {
    if Given(Get(q, "keyword")) then ["\"" + Get(q, "keyword").value + "\""] else []
  }

  /** The category part: the name of the first category with the id, when the list is at hand. */
  function CategoryPart(q: Params, categories: Option<seq<CategoryItem>>): seq<string> {
    if Given(Get(q, "categoryId")) && categories.Some? then
      var n := Number(Get(q, "categoryId").value);
      match FirstWhere(categories.value, (c: CategoryItem) => IdIs(c.id, n))
      case Some(c) => [c.name]
      case None => []
    else []
  }

  /** The region part: the region's name when one is found and it is not empty. */
  function RegionPart(q: Params, regions: Option<seq<RegionNode>>): seq<string> {
    if Given(Get(q, "regionId")) && regions.Some? then
      match FindRegion(regions.value, Number(Get(q, "regionId").value))
      case Some(name) => if name != "" then [name] else []
      case None => []
    else []
  }

  /** The parts, in order: keyword, category, region. `None` stands for a list that failed to load. */
  function Parts(q: Params, categories: Option<seq<CategoryItem>>, regions: Option<seq<RegionNode>>): seq<string> {
    KeywordPart(q) + CategoryPart(q, categories) + RegionPart(q, regions)
  }

  const DefaultHeading := "나에게 맞는 정부 보조금 찾기"
  const HeadingSuffix := " 보조금"
  const TitleSuffix := " - 보조금 찾기"
  const DescriptionSuffix := " 관련 정부 보조금·지원금을 한눈에 검색하세요. 지역별, 분야별 맞춤 보조금 정보를 제공합니다."

  /** The page heading: the parts joined by spaces and followed by " 보조금", or the default. */
  function Heading(q: Params, categories: seq<CategoryItem>, regions: seq<RegionNode>): string {
    var parts := Parts(q, Some(categories), Some(regions));
    if |parts| > 0 then Join(" ", parts) + HeadingSuffix else DefaultHeading
  }

  datatype Metadata = Metadata(title: string, description: string, url: string)

  /**
   * `generateMetadata`: nothing when there are no parts; otherwise a title and description
   * around the joined parts, repeated for link previews with the site's address.
   */
  function PageMetadata(q: Params, categories: Option<seq<CategoryItem>>, regions: Option<seq<RegionNode>>,
                        siteUrl: string): Option<Metadata>
  {
    var parts := Parts(q, categories, regions);
    if |parts| == 0 then None
    else
      var joined := Join(" ", parts);
      Some(Metadata(joined + HeadingSuffix + TitleSuffix, joined + DescriptionSuffix, siteUrl))
  }

  /** With both lists at hand, the title is the heading with the site name after it. */
  lemma MetadataFollowsHeading(q: Params, categories: seq<CategoryItem>, regions: seq<RegionNode>, siteUrl: string)
    ensures PageMetadata(q, Some(categories), Some(regions), siteUrl).None? <==> Parts(q, Some(categories), Some(regions)) == []
    ensures PageMetadata(q, Some(categories), Some(regions), siteUrl).Some? ==>
      PageMetadata(q, Some(categories), Some(regions), siteUrl).value.title == Heading(q, categories, regions) + TitleSuffix
  {
  }

  /** A keyword comes first: the heading starts with it in quotes. */
  lemma HeadingStartsWithKeyword(q: Params, categories: seq<CategoryItem>, regions: seq<RegionNode>)
    requires Given(Get(q, "keyword"))
    ensures StartsWith(Heading(q, categories, regions), "\"" + Get(q, "keyword").value + "\"")
  {
    var parts := Parts(q, Some(categories), Some(regions));
    var quoted := "\"" + Get(q, "keyword").value + "\"";
    assert parts[0] == quoted;
    JoinStartsWithFirst(" ", parts);
    var j := Join(" ", parts);
    assert (j + HeadingSuffix)[..|quoted|] == j[..|quoted|];
  }

  /** A region that is found under a non-empty name is named in the heading. */
  lemma HeadingNamesRegion(q: Params, categories: seq<CategoryItem>, regions: seq<RegionNode>, name: string)
    requires Given(Get(q, "regionId"))
    requires FindRegion(regions, Number(Get(q, "regionId").value)) == Some(name) && name != ""
    ensures Contains(Heading(q, categories, regions), name)
  {
    var parts := Parts(q, Some(categories), Some(regions));
    assert RegionPart(q, Some(regions)) == [name];
    var k := |parts| - 1;
    assert parts[k] == name;
    JoinContainsEach(" ", parts, k);
    ContainsInPrefix(Join(" ", parts), HeadingSuffix, name);
  }

  /** Ids that match nothing contribute nothing: only the keyword is left. */
  lemma UnknownIdsAddNothing(q: Params, categories: seq<CategoryItem>, regions: seq<RegionNode>)
    requires forall k :: 0 <= k < |categories| ==> !IdIs(categories[k].id, Number(Get(q, "categoryId").GetOr("")))
    requires forall k :: 0 <= k < |Flatten(regions)| ==> !IdIs(Flatten(regions)[k].id, Number(Get(q, "regionId").GetOr("")))
    ensures Parts(q, Some(categories), Some(regions)) == KeywordPart(q)
  {
  }

  /** Lists that fail to load leave the keyword alone in the metadata. */
  lemma MetadataWithoutLists(q: Params, siteUrl: string)
    ensures PageMetadata(q, None, None, siteUrl) ==
      if Given(Get(q, "keyword")) then
        var quoted := "\"" + Get(q, "keyword").value + "\"";
        Some(Metadata(quoted + HeadingSuffix + TitleSuffix, quoted + DescriptionSuffix, siteUrl))
      else None
  {
  }

  // ---------------------------------------------------------------------------------------------
  // The listing request
  // ---------------------------------------------------------------------------------------------

  /** The number a truthy query value holds, if any. */
  function NumberParam(q: Params, name: string): Option<Num> {
    if Given(Get(q, name)) then Some(Number(Get(q, name).value)) else None
  }

  /** The filter the page passes to `getSubsidies`: the query's filters, its page or 1, pages of 20. */
  function HomeFilter(q: Params): (f: ClientFilter)
    ensures Intended(f).pageSize == 20
    ensures Intended(f).page == if Given(Get(q, "page")) && Truthy(Number(Get(q, "page").value))
                                then Number(Get(q, "page").value).value else 1
  {
    ClientFilter(
      Get(q, "keyword"),
      NumberParam(q, "regionId"),
      NumberParam(q, "categoryId"),
      Get(q, "sortBy"),
      Some(if Given(Get(q, "page")) then Number(Get(q, "page").value) else Finite(1)),
      Some(Finite(20)))
  }

  /** The bare listing (where the reset button leads) asks for the first page of 20, newest first. */
  lemma BareListing()
    ensures Intended(HomeFilter(SearchFilterBar.ResetQuery)) == ListArgs(1, 20, None, None, None, Some("CreatedAt"), true)
  {
  }

  /** A page button leads to a request for that page with every filter unchanged. */
  lemma PageButtonRequestsPage(q: Params, p: int)
    requires p >= 1
    ensures Intended(HomeFilter(PaginationView.GoToPage(q, p))) == Intended(HomeFilter(q)).(page := p)
  {
    var q2 := PaginationView.GoToPage(q, p);
    assert Get(q2, "keyword") == Get(q, "keyword");
    assert Get(q2, "regionId") == Get(q, "regionId");
    assert Get(q2, "categoryId") == Get(q, "categoryId");
    assert Get(q2, "sortBy") == Get(q, "sortBy");
    SameFiltersSameRequest(q, q2);
    NumberOfToString(Finite(p));
    assert Get(q2, "page") == Some(IntToString(p)) && IntToString(p) != "";
  }

  /** Two queries with the same filters and sort lead to the same request but for its page. */
  lemma SameFiltersSameRequest(q: Params, q2: Params)
    requires Get(q2, "keyword") == Get(q, "keyword") && Get(q2, "sortBy") == Get(q, "sortBy")
    requires Get(q2, "regionId") == Get(q, "regionId") && Get(q2, "categoryId") == Get(q, "categoryId")
    ensures Intended(HomeFilter(q2)) == Intended(HomeFilter(q)).(page := Intended(HomeFilter(q2)).page)
  {
  }

  /** Changing the keyword, region or category leads back to the first page. */
  lemma FilterChangeRequestsFirstPage(q: Params, name: string, value: string)
    requires name == "keyword" || name == "regionId" || name == "categoryId"
    ensures Intended(HomeFilter(SearchFilterBar.ApplyFilters(q, [(name, SearchFilterBar.OrUndefined(value))]))).page == 1
  {
    SearchFilterBar.ChangeOneFilter(q, name, value, "page");
  }
}
