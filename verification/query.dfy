/**
 * The read side of the subsidy repository: the filter a listing is asked with, the optional
 * `Where`s it becomes, the sort column chosen by name, and the page cut out of the sorted rows.
 * The count uses the same filter and ignores the sort and the page.
 */
module SubsidyQuery {
  import opened Wrappers
  import opened Domain
  import opened Text
  import opened Sorting
  import opened SeqOps
  import Catalog

  /** The listing filter; an absent criterion constrains nothing. */
  datatype SubsidyFilter = SubsidyFilter(
    page: int,
    pageSize: int,
    keyword: Option<string>,
    regionId: Option<int>,
    categoryId: Option<int>,
    targetGroupId: Option<int>,
    status: Option<SubsidyStatus>,
    sortBy: Option<string>,
    sortDescending: bool)

  /** `new SubsidyFilter()`: first page of twenty, no criteria, newest first. */
  const DefaultFilter := SubsidyFilter(1, 20, None, None, None, None, None, Some("CreatedAt"), true)

  // ---------------------------------------------------------------------------------------------
  // Filtering
  // ---------------------------------------------------------------------------------------------

  /** The keyword takes part only when it has some non-white-space character. */
  predicate HasKeyword(f: SubsidyFilter) {
    !IsNullOrWhiteSpace(f.keyword)
  }

  /** The trimmed keyword occurs in the title, the description or the organization. */
  predicate MentionsKeyword(keyword: string, s: Subsidy) {
    Contains(s.title, keyword) || Contains(s.description, keyword) || Contains(s.organization, keyword)
  }

  /** Reference definition: a row is listed when it meets every criterion the filter sets. */
  predicate Matches(f: SubsidyFilter, s: Subsidy) {
    && (HasKeyword(f) ==> MentionsKeyword(Trim(f.keyword.value), s))
    && (f.regionId.Some? ==> s.regionId == f.regionId.value)
    && (f.categoryId.Some? ==> s.categoryId == f.categoryId.value)
    && (f.targetGroupId.Some? ==> f.targetGroupId.value in s.targetGroupIds)
    && (f.status.Some? ==> s.status == f.status.value)
  }

  /** A `Where` that the query gets only when its criterion is set. */
  function WhereWhen(s: seq<Subsidy>, applies: bool, p: Subsidy -> bool): (r: seq<Subsidy>)
    ensures forall x {:trigger multiset(r)[x]} :: multiset(r)[x] == if !applies || p(x) then multiset(s)[x] else 0
    ensures |r| <= |s|
  {
    if applies then Where(s, p) else s
  }

  /**
   * `BuildQuery`: the keyword, region, category, target-group and status `Where`s in turn. Each
   * row is kept as often as the table holds it exactly when it meets every criterion.
   */
  function BuildQuery(t: Catalog.Table, f: SubsidyFilter): (r: seq<Subsidy>)
    ensures forall x {:trigger multiset(r)[x]} :: multiset(r)[x] == if Matches(f, x) then multiset(t)[x] else 0
    ensures |r| <= |t|
  {
    var keyword := if HasKeyword(f) then Trim(f.keyword.value) else "";
    var region, category, group, status := f.regionId, f.categoryId, f.targetGroupId, f.status;
    var q1 := WhereWhen(t, HasKeyword(f), (s: Subsidy) => MentionsKeyword(keyword, s));
    var q2 := WhereWhen(q1, region.Some?, (s: Subsidy) => region == Some(s.regionId));
    var q3 := WhereWhen(q2, category.Some?, (s: Subsidy) => category == Some(s.categoryId));
    var q4 := WhereWhen(q3, group.Some?, (s: Subsidy) => group.Some? && group.value in s.targetGroupIds);
    var q5 := WhereWhen(q4, status.Some?, (s: Subsidy) => status == Some(s.status));
    forall x ensures multiset(q5)[x] == if Matches(f, x) then multiset(t)[x] else 0 {
      assert multiset(q1)[x] == if !HasKeyword(f) || MentionsKeyword(keyword, x) then multiset(t)[x] else 0;
      assert multiset(q2)[x] == if f.regionId.None? || f.regionId == Some(x.regionId) then multiset(q1)[x] else 0;
      assert multiset(q3)[x] == if f.categoryId.None? || f.categoryId == Some(x.categoryId) then multiset(q2)[x] else 0;
      assert multiset(q4)[x] == if f.targetGroupId.None? || f.targetGroupId.value in x.targetGroupIds
        then multiset(q3)[x] else 0;
      assert multiset(q5)[x] == if f.status.None? || f.status == Some(x.status) then multiset(q4)[x] else 0;
    }
    q5
  }

  /** A fresh filter constrains nothing: every row of the table is counted. */
  lemma DefaultFilterMatchesAll(t: Catalog.Table)
    ensures multiset(BuildQuery(t, DefaultFilter)) == multiset(t)
  {
    assert forall x :: Matches(DefaultFilter, x);
  }

  /** A keyword of white space alone is the same as no keyword. */
  lemma BlankKeywordIgnored(t: Catalog.Table, f: SubsidyFilter)
    requires f.keyword.Some? && IsBlank(f.keyword.value)
    ensures multiset(BuildQuery(t, f)) == multiset(BuildQuery(t, f.(keyword := None)))
  {
    assert forall x :: Matches(f, x) == Matches(f.(keyword := None), x);
  }

  // ---------------------------------------------------------------------------------------------
  // Counting
  // ---------------------------------------------------------------------------------------------

  /** `GetCountAsync`: how many rows the filter matches. */
  function GetCount(t: Catalog.Table, f: SubsidyFilter): (n: nat)
    ensures n <= |t|
    ensures n == 0 <==> forall k :: 0 <= k < |t| ==> !Matches(f, t[k])
  {
    var q := BuildQuery(t, f);
    if |q| == 0 then
      assert forall k :: 0 <= k < |t| ==> !Matches(f, t[k]) by {
        forall k | 0 <= k < |t| ensures !Matches(f, t[k]) {
          assert multiset(q)[t[k]] == 0;
          assert t[k] in multiset(t);
        }
      }
      0
    else
      assert q[0] in multiset(q);
      assert Matches(f, q[0]) && q[0] in multiset(t);
      assert q[0] in t;
      |q|
  }

  /**
   * The count depends on the criteria alone, and a filter that asks for more never counts more:
   * when every row `g` admits is one `f` admits, `g` counts at most as many.
   */
  lemma CountShrinksWithCriteria(t: Catalog.Table, f: SubsidyFilter, g: SubsidyFilter)
    requires forall x :: Matches(g, x) ==> Matches(f, x)
    ensures GetCount(t, g) <= GetCount(t, f)
  {
    var qf, qg := BuildQuery(t, f), BuildQuery(t, g);
    var mf, mg := multiset(qf), multiset(qg);
    forall x ensures mg[x] <= mf[x] {
      assert Matches(g, x) ==> Matches(f, x);
    }
    SubMultisetSize(mg, mf);
  }

  /** A multiset contained in another is no larger. */
  lemma SubMultisetSize<T>(a: multiset<T>, b: multiset<T>)
    requires forall x :: a[x] <= b[x]
    ensures |a| <= |b|
  {
    assert b == a + (b - a);
  }

  // ---------------------------------------------------------------------------------------------
  // Sorting
  // ---------------------------------------------------------------------------------------------

  datatype SortKey = ByTitle | ByApplicationEndDate | ByCreatedAt

  /** The `switch` on `SortBy?.ToLower()`: two names are known, anything else sorts by creation. */
  function SortKeyOf(sortBy: Option<string>): (k: SortKey)
    ensures k == ByTitle <==> sortBy.Some? && EqualsIgnoreCase(sortBy.value, "title")
    ensures k == ByApplicationEndDate <==> sortBy.Some? && EqualsIgnoreCase(sortBy.value, "applicationenddate")
  {
    if sortBy.None? then ByCreatedAt
    else
      var lower := ToLower(sortBy.value);
      EqualsIgnoreCaseIsLowerEquality(sortBy.value, "title");
      EqualsIgnoreCaseIsLowerEquality(sortBy.value, "applicationenddate");
      assert ToLower("title") == "title";
      assert ToLower("applicationenddate") == "applicationenddate";
      if lower == "title" then ByTitle
      else if lower == "applicationenddate" then ByApplicationEndDate
      else ByCreatedAt
  }

  /**
   * Whether `a` may come before `b` in ascending order of the key: ordinal order for titles,
   * absent end dates first, then by the timestamp.
   */
  predicate KeyLe(key: SortKey, a: Subsidy, b: Subsidy) {
    match key
    case ByTitle => StrLe(a.title, b.title)
    case ByApplicationEndDate => OptionLe(a.applicationEndDate, b.applicationEndDate)
    case ByCreatedAt => a.createdAt <= b.createdAt
  }

  /** `OrderBy(key)` or `OrderByDescending(key)`. */
  function Order(key: SortKey, descending: bool): (le: (Subsidy, Subsidy) -> bool)
    ensures IsTotalPreorder(le)
    ensures forall a, b :: le(a, b) == if descending then KeyLe(key, b, a) else KeyLe(key, a, b)
  {
    var asc := match key
      case ByTitle => ByText((s: Subsidy) => s.title)
      case ByApplicationEndDate => ByOption((s: Subsidy) => s.applicationEndDate)
      case ByCreatedAt => ByInt((s: Subsidy) => s.createdAt);
    if descending then
      FlipIsTotalPreorder(asc);
      Flip(asc)
    else asc
  }

  /** The filtered rows in the order the filter asks for, before paging. */
  function Ordered(t: Catalog.Table, f: SubsidyFilter): (r: seq<Subsidy>)
    ensures forall x {:trigger multiset(r)[x]} :: multiset(r)[x] == if Matches(f, x) then multiset(t)[x] else 0
    ensures |r| == GetCount(t, f)
  {
    SortBy(BuildQuery(t, f), Order(SortKeyOf(f.sortBy), f.sortDescending))
  }

  /** The listing is in the requested order. */
  lemma OrderedIsSorted(t: Catalog.Table, f: SubsidyFilter)
    ensures SortedBy(Ordered(t, f), Order(SortKeyOf(f.sortBy), f.sortDescending))
  {
  }

  // ---------------------------------------------------------------------------------------------
  // Paging
  // ---------------------------------------------------------------------------------------------

  /** The count `Skip` is given: `(Page - 1) * PageSize`. */
  function Offset(f: SubsidyFilter): int {
    (f.page - 1) * f.pageSize
  }

  /** How many sorted rows come before the page: the offset, or none if it is negative. */
  function PageStart(f: SubsidyFilter): nat {
    if Offset(f) <= 0 then 0 else Offset(f)
  }

  /** The first page starts at the first row, whatever its size. */
  lemma FirstPageStartsAtZero(f: SubsidyFilter)
    requires f.page == 1
    ensures PageStart(f) == 0
  {
    assert Offset(f) == 0 * f.pageSize == 0;
  }

  /**
   * How many of `count` rows the page holds: `PageSize` of them while that many remain after
   * its start, what remains otherwise; a negative `PageSize` does not limit the page.
   */
  function PageLength(count: nat, f: SubsidyFilter): nat {
    if PageStart(f) >= count then 0
    else if f.pageSize < 0 || count - PageStart(f) < f.pageSize then count - PageStart(f)
    else f.pageSize
  }

  /** `Skip(Offset).Take(PageSize)` on any sequence: the page's rows, read from its start. */
  function PageOf<T>(s: seq<T>, f: SubsidyFilter): (r: seq<T>)
    ensures |r| == PageLength(|s|, f)
    ensures forall i :: 0 <= i < |r| ==> PageStart(f) + i < |s| && r[i] == s[PageStart(f) + i]
  {
    var off := Offset(f);
    assert PageStart(f) == if off <= 0 then 0 else off;
    var r := Take(Skip(s, off), f.pageSize);
    assert forall i :: 0 <= i < |r| ==> r[i] == Skip(s, off)[i];
    r
  }

  /**
   * `GetAllAsync`: the requested page of the sorted, filtered rows. It holds at most `PageSize`
   * rows, or every row from its offset on when `PageSize` is negative, read from the sorted rows
   * at the page's offset.
   */
  function GetAll(t: Catalog.Table, f: SubsidyFilter): (r: seq<Subsidy>)
    ensures |r| == PageLength(GetCount(t, f), f)
    ensures f.pageSize >= 0 ==> |r| <= f.pageSize
    ensures f.pageSize < 0 ==> |r| == if PageStart(f) < GetCount(t, f) then GetCount(t, f) - PageStart(f) else 0
    ensures forall i :: 0 <= i < |r| ==> PageStart(f) + i < GetCount(t, f) && r[i] == Ordered(t, f)[PageStart(f) + i]
  {
    PageOf(Ordered(t, f), f)
  }

  /** Every row on a page is a row of the table that the filter admits. */
  lemma GetAllRowsMatch(t: Catalog.Table, f: SubsidyFilter, i: nat)
    requires i < |GetAll(t, f)|
    ensures GetAll(t, f)[i] in t && Matches(f, GetAll(t, f)[i])
  {
    OrderedRowMatches(t, f, PageStart(f) + i, GetAll(t, f)[i]);
  }

  /** Every sorted row is a row of the table that the filter admits. */
  lemma OrderedRowMatches(t: Catalog.Table, f: SubsidyFilter, j: nat, x: Subsidy)
    requires j < |Ordered(t, f)| && x == Ordered(t, f)[j]
    ensures x in t && Matches(f, x)
  {
    assert x in multiset(Ordered(t, f));
  }

  /** The page is in the requested order. */
  lemma GetAllIsSorted(t: Catalog.Table, f: SubsidyFilter)
    ensures SortedBy(GetAll(t, f), Order(SortKeyOf(f.sortBy), f.sortDescending))
  {
    OrderedIsSorted(t, f);
    PageOfSorted(Ordered(t, f), f, Order(SortKeyOf(f.sortBy), f.sortDescending));
  }

  /** A page cut from a sorted sequence is sorted. */
  lemma PageOfSorted<T(!new)>(s: seq<T>, f: SubsidyFilter, le: (T, T) -> bool)
    requires SortedBy(s, le)
    ensures SortedBy(PageOf(s, f), le)
  {
    SortedWindow(s, PageOf(s, f), PageStart(f), le);
  }

  /** Position `i` lies `i % PageSize` rows into page `i / PageSize + 1`. */
  lemma PageOfPosition(f: SubsidyFilter, i: nat)
    requires f.pageSize > 0
    ensures var g := f.(page := i / f.pageSize + 1);
      PageStart(g) + i % f.pageSize == i && i % f.pageSize < f.pageSize
  {
    var ps := f.pageSize;
    var g := f.(page := i / ps + 1);
    assert g.page - 1 == i / ps;
    assert (i / ps) * ps + i % ps == i;
  }

  /**
   * Every matching row is shown on exactly one page: the row at position `i` of the sorted
   * listing is item `i % PageSize` of page `i / PageSize + 1`.
   */
  lemma ItemOnItsPage(t: Catalog.Table, f: SubsidyFilter, i: nat)
    requires f.pageSize > 0 && i < GetCount(t, f)
    ensures var r := GetAll(t, f.(page := i / f.pageSize + 1));
      i % f.pageSize < |r| && r[i % f.pageSize] == Ordered(t, f)[i]
  {
    PageOfPosition(f, i);
    RowOnPage(t, f, f.(page := i / f.pageSize + 1), i, i % f.pageSize);
  }

  /** Row `i` of the sorted listing is item `k` of any page of the same query starting `k` rows before it. */
  lemma RowOnPage(t: Catalog.Table, f: SubsidyFilter, g: SubsidyFilter, i: nat, k: nat)
    requires g == f.(page := g.page) && g.pageSize > 0 && k < g.pageSize
    requires PageStart(g) + k == i && i < GetCount(t, f)
    ensures k < |GetAll(t, g)| && GetAll(t, g)[k] == Ordered(t, f)[i]
  {
    OrderedIgnoresPage(t, f, g.page);
    PageItem(t, g, k);
    var row := Ordered(t, g)[PageStart(g) + k];
    assert row == Ordered(t, f)[i];
  }

  /** Item `k` of a page, when the page reaches that far, is the row at the page's start plus `k`. */
  lemma PageItem(t: Catalog.Table, g: SubsidyFilter, k: nat)
    requires g.pageSize > 0 && k < g.pageSize && PageStart(g) + k < GetCount(t, g)
    ensures k < |GetAll(t, g)| && GetAll(t, g)[k] == Ordered(t, g)[PageStart(g) + k]
  {
    PageCovers(GetCount(t, g), g, k);
  }

  /** A position that the page's start plus an offset within the page size reaches, below the count, is on the page. */
  lemma PageCovers(count: nat, g: SubsidyFilter, k: nat)
    requires g.pageSize > 0 && k < g.pageSize && PageStart(g) + k < count
    ensures k < PageLength(count, g)
  {
  }

  /** The sorted rows do not depend on the page asked for. */
  lemma OrderedIgnoresPage(t: Catalog.Table, f: SubsidyFilter, page: int)
    ensures Ordered(t, f.(page := page)) == Ordered(t, f)
    ensures GetCount(t, f.(page := page)) == GetCount(t, f)
  {
    var g := f.(page := page);
    assert BuildQuery(t, g) == BuildQuery(t, f);
    assert g.sortBy == f.sortBy && g.sortDescending == f.sortDescending;
  }

  /** A page holds rows exactly when its size is not zero and it starts before the last match. */
  lemma PageHasRows(t: Catalog.Table, f: SubsidyFilter)
    ensures GetAll(t, f) != [] <==> f.pageSize != 0 && PageStart(f) < GetCount(t, f)
  {
    assert |GetAll(t, f)| == PageLength(GetCount(t, f), f);
  }

  /** The count does not depend on the page asked for. */
  lemma CountIgnoresPage(t: Catalog.Table, f: SubsidyFilter, page: int)
    ensures GetCount(t, f.(page := page)) == GetCount(t, f)
  {
    assert BuildQuery(t, f.(page := page)) == BuildQuery(t, f);
  }

  /** A page that starts past the last matching row is empty. */
  lemma PastTheEndIsEmpty(t: Catalog.Table, f: SubsidyFilter)
    requires PageStart(f) >= GetCount(t, f)
    ensures GetAll(t, f) == []
  {
  }
}
