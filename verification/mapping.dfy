/**
 * How the API collectors classify a listing: the ordered keyword tables that turn a source's
 * field text into a category (or target group) code, and the rule that infers a region from an
 * organisation name by stripping administrative suffixes from the seeded region names.
 */
module Mapping {
  import opened Wrappers
  import opened Text
  import opened Domain
  import opened ReferenceData
  import Seed

  /** A keyword table, in the order its entries are enumerated. */
  type KeywordTable = seq<(string, string)>

  /** The public-data collector's field-of-service table (the one the pipeline uses). */
  const ServiceFieldTable: KeywordTable := [
    ("생활안정", "LIVING"),
    ("주거·자립", "HOUSING"), ("주거자립", "HOUSING"), ("주거", "HOUSING"),
    ("보육·교육", "EDUCATION"), ("보육교육", "EDUCATION"), ("교육", "EDUCATION"),
    ("고용·창업", "EMPLOYMENT"), ("고용창업", "EMPLOYMENT"), ("고용", "EMPLOYMENT"), ("창업", "EMPLOYMENT"),
    ("보건·의료", "HEALTH"), ("보건의료", "HEALTH"), ("의료", "HEALTH"), ("보건", "HEALTH"),
    ("행정·안전", "ADMIN"), ("행정안전", "ADMIN"),
    ("문화·환경", "CULTURE"), ("문화환경", "CULTURE"), ("문화", "CULTURE"), ("환경", "CULTURE"),
    ("농림·축산", "AGRICULTURE"), ("농림축산", "AGRICULTURE"), ("농림", "AGRICULTURE")
  ]

  /** The youth collector's top-level-class table. Declared there but never consulted. */
  const YouthClassTable: KeywordTable := [
    ("일자리", "EMPLOYMENT"),
    ("주거", "HOUSING"),
    ("교육", "EDUCATION"),
    ("복지·문화", "CULTURE"), ("복지문화", "CULTURE"),
    ("참여·권리", "ADMIN"), ("참여권리", "ADMIN")
  ]

  /** The public-data collector's user-class to target-group table. Declared but never consulted. */
  const UserClassTable: KeywordTable := [
    ("청년", "YOUTH"),
    ("중장년", "MIDDLE"),
    ("노인", "SENIOR"), ("어르신", "SENIOR"),
    ("장애인", "DISABLED"),
    ("저소득", "LOWINCOME"), ("저소득층", "LOWINCOME"),
    ("다문화", "MULTICULTURAL"), ("다문화가정", "MULTICULTURAL"),
    ("한부모", "SINGLEPARENT"), ("한부모가정", "SINGLEPARENT"),
    ("임산부", "PREGNANT"), ("임신", "PREGNANT"),
    ("영유아", "INFANT"), ("영아", "INFANT")
  ]

  const FallbackCode := "ETC"

  /** The first table entry, at or after `from`, whose keyword occurs in `text`. */
  function FirstKeywordHit(table: KeywordTable, text: string, from: nat): (r: Option<nat>)
    requires from <= |table|
    ensures r.Some? ==> from <= r.value < |table| && Contains(text, table[r.value].0)
    ensures r.Some? ==> forall k :: from <= k < r.value ==> !Contains(text, table[k].0)
    ensures r.None? ==> forall k :: from <= k < |table| ==> !Contains(text, table[k].0)
    decreases |table| - from
  {
    if from == |table| then None
    else if Contains(text, table[from].0) then Some(from)
    else FirstKeywordHit(table, text, from + 1)
  }

  /**
   * `ResolveCategoryCode(text)`: `ETC` for a null or empty text; otherwise the code of the first
   * entry, in table order, whose keyword the text contains; `ETC` when none does.
   */
  function ResolveCode(table: KeywordTable, text: Option<string>): (r: string)
    ensures IsNullOrEmpty(text) ==> r == FallbackCode
    ensures !IsNullOrEmpty(text) ==>
      (exists k :: 0 <= k < |table| && Contains(text.value, table[k].0)
                   && (forall j :: 0 <= j < k ==> !Contains(text.value, table[j].0))
                   && r == table[k].1)
      || ((forall k :: 0 <= k < |table| ==> !Contains(text.value, table[k].0)) && r == FallbackCode)
  {
    if IsNullOrEmpty(text) then FallbackCode
    else
      match FirstKeywordHit(table, text.value, 0)
      case Some(k) => table[k].1
      case None => FallbackCode
  }

  /** An entry whose keyword the text contains, with no earlier entry matching, decides the code. */
  lemma ResolveCodeAt(table: KeywordTable, text: string, k: nat)
    requires text != ""
    requires k < |table| && Contains(text, table[k].0)
    requires forall j :: 0 <= j < k ==> !Contains(text, table[j].0)
    ensures ResolveCode(table, Some(text)) == table[k].1
  {
  }

  /**
   * Table order, not position in the text, decides: "고용·창업 교육" names employment first, but
   * the education keyword comes earlier in the table.
   */
  lemma TableOrderDecides()
    ensures ResolveCode(ServiceFieldTable, Some("고용·창업 교육")) == "EDUCATION"
  {
    var text := "고용·창업 교육";
    forall j | 0 <= j < 6 ensures !Contains(text, ServiceFieldTable[j].0) {
      NotContainedByFirstChar(text, ServiceFieldTable[j].0);
    }
    assert OccursAt(text, "교육", 6);
    ContainsAt(text, "교육", 6);
    ResolveCodeAt(ServiceFieldTable, text, 6);
  }

  /** The codes of the seeded categories. */
  const SeededCategoryCodes: set<string> :=
    {"LIVING", "HOUSING", "EDUCATION", "EMPLOYMENT", "HEALTH", "ADMIN", "CULTURE", "AGRICULTURE", "ETC", "YOUTH"}

  lemma SeededCodeFound(c: string)
    requires c in SeededCategoryCodes
    ensures CategoryByCode(Seed.SeedCategories, c).Some?
  {
    var cats := Seed.SeedCategories;
    var k :=
      if c == "LIVING" then 0 else if c == "HOUSING" then 1 else if c == "EDUCATION" then 2
      else if c == "EMPLOYMENT" then 3 else if c == "HEALTH" then 4 else if c == "ADMIN" then 5
      else if c == "CULTURE" then 6 else if c == "AGRICULTURE" then 7 else if c == "ETC" then 8 else 9;
    assert cats[k].code == c;
  }

  /** Every code the service-field table yields names a seeded category. */
  lemma ServiceFieldCodesAreSeeded(text: Option<string>)
    ensures CategoryByCode(Seed.SeedCategories, ResolveCode(ServiceFieldTable, text)).Some?
  {
    assert forall k :: 0 <= k < |ServiceFieldTable| ==> ServiceFieldTable[k].1 in SeededCategoryCodes;
    SeededCodeFound(ResolveCode(ServiceFieldTable, text));
  }

  // ---------------------------------------------------------------------------------------------
  // Regions
  // ---------------------------------------------------------------------------------------------

  /** The part of a region name an organisation name is searched for: "서울특별시" becomes "서울". */
  function ShortName(name: string): (r: string)
    ensures |r| <= |name|
  {
    Replace(Replace(Replace(Replace(Replace(name, "특별시", ""), "광역시", ""), "특별자치시", ""), "특별자치도", ""), "도", "")
  }

  /** The suffix-free short name no longer contains the character 도. */
  lemma ShortNameHasNoDo(name: string)
    ensures '도' !in ShortName(name)
  {
    var partial := Replace(Replace(Replace(Replace(name, "특별시", ""), "광역시", ""), "특별자치시", ""), "특별자치도", "");
    RemoveCharRemovesAll(partial, '도');
  }

  /** A region other than `ALL` whose short name occurs in `org`. */
  predicate RegionMatches(region: Region, org: string) {
    region.code != "ALL" && Contains(org, ShortName(region.name))
  }

  /** The first region, at or after `from`, that matches the organisation name. */
  function FirstRegionHit(rs: seq<Region>, org: string, from: nat): (r: Option<nat>)
    requires from <= |rs|
    ensures r.Some? ==> from <= r.value < |rs| && RegionMatches(rs[r.value], org)
    ensures r.Some? ==> forall k :: from <= k < r.value ==> !RegionMatches(rs[k], org)
    ensures r.None? ==> forall k :: from <= k < |rs| ==> !RegionMatches(rs[k], org)
    decreases |rs| - from
  {
    if from == |rs| then None
    else if RegionMatches(rs[from], org) then Some(from)
    else FirstRegionHit(rs, org, from + 1)
  }

  /**
   * `ResolveRegionFromOrgAsync(org)`: `ALL` for a null or empty name; otherwise the first
   * top-level region, by id, whose short name the organisation name contains; `ALL` when none
   * does. `None` stands for the null the source dereferences when no `ALL` region exists.
   */
  function ResolveRegion(regions: seq<Region>, org: Option<string>): (r: Option<Region>)
    ensures r.Some? ==> r.value in regions
    ensures IsNullOrEmpty(org) ==> r == RegionByCode(regions, "ALL")
    ensures r.Some? && r.value.code != "ALL" ==>
      !IsNullOrEmpty(org) && r.value.parentId.None? && Contains(org.value, ShortName(r.value.name))
    ensures r.None? ==> forall k :: 0 <= k < |regions| ==> regions[k].code != "ALL"
    ensures !IsNullOrEmpty(org) && (exists k :: 0 <= k < |TopLevel(regions)| && RegionMatches(TopLevel(regions)[k], org.value)) ==>
      exists k :: 0 <= k < |TopLevel(regions)| && r == Some(TopLevel(regions)[k]) && RegionMatches(TopLevel(regions)[k], org.value)
        && forall j :: 0 <= j < k ==> !RegionMatches(TopLevel(regions)[j], org.value)
    ensures !IsNullOrEmpty(org) && (forall k :: 0 <= k < |TopLevel(regions)| ==> !RegionMatches(TopLevel(regions)[k], org.value)) ==>
      r == RegionByCode(regions, "ALL")
  {
    if IsNullOrEmpty(org) then RegionByCode(regions, "ALL")
    else
      var top := TopLevel(regions);
      match FirstRegionHit(top, org.value, 0)
      case Some(k) =>
        assert top[k] in multiset(top);
        Some(top[k])
      case None => RegionByCode(regions, "ALL")
  }

  /** When no top-level region matches, the result is the `ALL` region. */
  lemma ResolveRegionFallsBack(regions: seq<Region>, org: string)
    requires org != ""
    requires forall x :: x in regions && x.parentId.None? ==> !RegionMatches(x, org)
    ensures ResolveRegion(regions, Some(org)) == RegionByCode(regions, "ALL")
  {
    var top := TopLevel(regions);
    forall k | 0 <= k < |top| ensures !RegionMatches(top[k], org) {
      assert top[k] in multiset(top);
      assert top[k] in multiset(regions);
    }
  }

  /** A metropolitan city's short name drops the 광역시 suffix. */
  lemma MetroShortName(name: string, short: string)
    requires name == short + "광역시"
    requires Replace(name, "광역시", "") == short
    requires '특' !in name && '도' !in name
    ensures ShortName(name) == short
  {
    DeleteAbsent(name, "특별시");
    DeleteAbsent(short, "특별자치시");
    DeleteAbsent(short, "특별자치도");
    DeleteAbsent(short, "도");
  }

  lemma SeoulShortName()
    ensures ShortName("서울특별시") == "서울"
  {
    assert Replace("서울특별시", "특별시", "") == "서울";
    DeleteAbsent("서울", "광역시");
    DeleteAbsent("서울", "특별자치시");
    DeleteAbsent("서울", "특별자치도");
    DeleteAbsent("서울", "도");
  }

  lemma GyeonggiShortName()
    ensures ShortName("경기도") == "경기"
  {
    DeleteAbsent("경기도", "특별시");
    DeleteAbsent("경기도", "광역시");
    DeleteAbsent("경기도", "특별자치시");
    DeleteAbsent("경기도", "특별자치도");
    assert Replace("경기도", "도", "") == "경기";
  }

  lemma BusanShortName()
    ensures ShortName("부산광역시") == "부산"
  {
    assert Replace("부산광역시", "광역시", "") == "부산";
    MetroShortName("부산광역시", "부산");
  }

  lemma DaeguShortName()
    ensures ShortName("대구광역시") == "대구"
  {
    assert Replace("대구광역시", "광역시", "") == "대구";
    MetroShortName("대구광역시", "대구");
  }

  lemma IncheonShortName()
    ensures ShortName("인천광역시") == "인천"
  {
    assert Replace("인천광역시", "광역시", "") == "인천";
    MetroShortName("인천광역시", "인천");
  }

  lemma GwangjuShortName()
    ensures ShortName("광주광역시") == "광주"
  {
    assert Replace("광주광역시", "광역시", "") == "광주";
    MetroShortName("광주광역시", "광주");
  }

  /** The first top-level region (by id) that matches decides the region. */
  lemma ResolveRegionAt(regions: seq<Region>, org: string, k: nat)
    requires org != ""
    requires k < |TopLevel(regions)| && RegionMatches(TopLevel(regions)[k], org)
    requires forall j :: 0 <= j < k ==> !RegionMatches(TopLevel(regions)[j], org)
    ensures ResolveRegion(regions, Some(org)) == Some(TopLevel(regions)[k])
  {
    FirstRegionHitAt(TopLevel(regions), org, k);
  }

  /** The search finds the first matching region. */
  lemma FirstRegionHitAt(rs: seq<Region>, org: string, k: nat)
    requires k < |rs| && RegionMatches(rs[k], org)
    requires forall j :: 0 <= j < k ==> !RegionMatches(rs[j], org)
    ensures FirstRegionHit(rs, org, 0) == Some(k)
  {
  }

  /** 서울, 부산, 대구 and 인천 do not occur in "경기도 광주시"; 광주 and 경기 do. */
  lemma SeoulMissesGwangjuCity()
    ensures !Contains("경기도 광주시", ShortName("서울특별시"))
  {
    SeoulShortName();
    NotContainedByFirstChar("경기도 광주시", "서울");
  }

  lemma BusanMissesGwangjuCity()
    ensures !Contains("경기도 광주시", ShortName("부산광역시"))
  {
    BusanShortName();
    NotContainedByFirstChar("경기도 광주시", "부산");
  }

  lemma DaeguMissesGwangjuCity()
    ensures !Contains("경기도 광주시", ShortName("대구광역시"))
  {
    DaeguShortName();
    NotContainedByFirstChar("경기도 광주시", "대구");
  }

  lemma IncheonMissesGwangjuCity()
    ensures !Contains("경기도 광주시", ShortName("인천광역시"))
  {
    IncheonShortName();
    NotContainedByFirstChar("경기도 광주시", "인천");
  }

  lemma GwangjuHitsGwangjuCity()
    ensures Contains("경기도 광주시", ShortName("광주광역시"))
  {
    GwangjuShortName();
    assert OccursAt("경기도 광주시", "광주", 4);
    ContainsAt("경기도 광주시", "광주", 4);
  }

  lemma GyeonggiHitsGwangjuCity()
    ensures Contains("경기도 광주시", ShortName("경기도"))
  {
    GyeonggiShortName();
    assert OccursAt("경기도 광주시", "경기", 0);
    ContainsAt("경기도 광주시", "경기", 0);
  }

  /** A region named 서울특별시, 부산광역시, 대구광역시 or 인천광역시 does not match "경기도 광주시". */
  lemma MetroMissesGwangjuCity(r: Region)
    requires r.name in {"서울특별시", "부산광역시", "대구광역시", "인천광역시"}
    ensures !RegionMatches(r, "경기도 광주시")
  {
    if r.name == "서울특별시" {
      SeoulMissesGwangjuCity();
    } else if r.name == "부산광역시" {
      BusanMissesGwangjuCity();
    } else if r.name == "대구광역시" {
      DaeguMissesGwangjuCity();
    } else {
      IncheonMissesGwangjuCity();
    }
  }

  /** None of the first five seeded regions (전국 and four metropolitan cities) matches "경기도 광주시". */
  lemma LeadingRegionsMissGwangjuCity(rs: seq<Region>)
    requires |rs| >= 5 && rs[0].code == "ALL"
    requires rs[1].name == "서울특별시" && rs[2].name == "부산광역시"
    requires rs[3].name == "대구광역시" && rs[4].name == "인천광역시"
    ensures forall j :: 0 <= j < 5 ==> !RegionMatches(rs[j], "경기도 광주시")
  {
    MetroMissesGwangjuCity(rs[1]);
    MetroMissesGwangjuCity(rs[2]);
    MetroMissesGwangjuCity(rs[3]);
    MetroMissesGwangjuCity(rs[4]);
  }

  /**
   * In an id-ordered list of top-level regions that starts 전국, 서울특별시, 부산광역시, 대구광역시,
   * 인천광역시, 광주광역시, the first match for "경기도 광주시" is 광주광역시.
   */
  lemma GwangjuCityResolvesIn(rs: seq<Region>)
    requires TopLevel(rs) == rs
    requires |rs| >= 6 && rs[0].code == "ALL"
    requires rs[1].name == "서울특별시" && rs[2].name == "부산광역시"
    requires rs[3].name == "대구광역시" && rs[4].name == "인천광역시"
    requires rs[5].name == "광주광역시" && rs[5].code != "ALL"
    ensures ResolveRegion(rs, Some("경기도 광주시")) == Some(rs[5])
  {
    LeadingRegionsMissGwangjuCity(rs);
    GwangjuHitsGwangjuCity();
    ResolveRegionAt(rs, "경기도 광주시", 5);
  }

  /**
   * The seeded regions meet the premises of `GwangjuCityResolvesIn` (with `SeedTopLevel`), and
   * 경기도, which also matches "경기도 광주시", has the higher id 10.
   */
  lemma SeedGwangjuNeighbours()
    ensures |Seed.SeedRegions| >= 10 && Seed.SeedRegions[0].code == "ALL"
    ensures Seed.SeedRegions[1].name == "서울특별시" && Seed.SeedRegions[2].name == "부산광역시"
    ensures Seed.SeedRegions[3].name == "대구광역시" && Seed.SeedRegions[4].name == "인천광역시"
    ensures Seed.SeedRegions[5] == Region(6, "광주광역시", "GWANGJU", None)
    ensures Seed.SeedRegions[9] == Region(10, "경기도", "GYEONGGI", None)
  {
  }
}
