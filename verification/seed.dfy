/**
 * The reference rows the schema seeds: the nationwide region `ALL` and the seventeen provinces,
 * the ten categories (with the fallbacks `LIVING`, `ETC` and `YOUTH`), and the target groups.
 */
module Seed {
  import opened Wrappers
  import opened Domain

  const SeedRegions: seq<Region> := [
    Region(1, "전국", "ALL", None),
    Region(2, "서울특별시", "SEOUL", None),
    Region(3, "부산광역시", "BUSAN", None),
    Region(4, "대구광역시", "DAEGU", None),
    Region(5, "인천광역시", "INCHEON", None),
    Region(6, "광주광역시", "GWANGJU", None),
    Region(7, "대전광역시", "DAEJEON", None),
    Region(8, "울산광역시", "ULSAN", None),
    Region(9, "세종특별자치시", "SEJONG", None),
    Region(10, "경기도", "GYEONGGI", None),
    Region(11, "강원특별자치도", "GANGWON", None),
    Region(12, "충청북도", "CHUNGBUK", None),
    Region(13, "충청남도", "CHUNGNAM", None),
    Region(14, "전북특별자치도", "JEONBUK", None),
    Region(15, "전라남도", "JEONNAM", None),
    Region(16, "경상북도", "GYEONGBUK", None),
    Region(17, "경상남도", "GYEONGNAM", None),
    Region(18, "제주특별자치도", "JEJU", None)
  ]

  const SeedCategories: seq<Category> := [
    Category(1, "생활안정", "LIVING", Some("생활안정 지원금")),
    Category(2, "주거·자립", "HOUSING", Some("주거 및 자립 지원")),
    Category(3, "보육·교육", "EDUCATION", Some("보육 및 교육 지원")),
    Category(4, "고용·창업", "EMPLOYMENT", Some("고용 및 창업 지원")),
    Category(5, "보건·의료", "HEALTH", Some("보건 및 의료 지원")),
    Category(6, "행정·안전", "ADMIN", Some("행정 및 안전 지원")),
    Category(7, "문화·환경", "CULTURE", Some("문화 및 환경 지원")),
    Category(8, "농림·축산", "AGRICULTURE", Some("농림 및 축산 지원")),
    Category(9, "기타", "ETC", Some("기타 지원")),
    Category(10, "청년", "YOUTH", Some("청년 정책 및 지원"))
  ]

  const SeedTargetGroups: seq<TargetGroup> := [
    TargetGroup(1, "청년", "YOUTH"),
    TargetGroup(2, "중장년", "MIDDLE"),
    TargetGroup(3, "노인", "SENIOR"),
    TargetGroup(4, "장애인", "DISABLED"),
    TargetGroup(5, "저소득층", "LOWINCOME"),
    TargetGroup(6, "다문화가정", "MULTICULTURAL"),
    TargetGroup(7, "한부모가정", "SINGLEPARENT"),
    TargetGroup(8, "임산부", "PREGNANT"),
    TargetGroup(9, "영유아", "INFANT"),
    TargetGroup(10, "전체", "ALL")
  ]

  /** The unique index on `Region.Code`. */
  predicate UniqueRegionCodes(rs: seq<Region>) {
    forall i, j :: 0 <= i < j < |rs| ==> rs[i].code != rs[j].code
  }

  /** The unique index on `Category.Code`. */
  predicate UniqueCategoryCodes(cs: seq<Category>) {
    forall i, j :: 0 <= i < j < |cs| ==> cs[i].code != cs[j].code
  }

  /** The unique index on `TargetGroup.Code`. */
  predicate UniqueTargetGroupCodes(gs: seq<TargetGroup>) {
    forall i, j :: 0 <= i < j < |gs| ==> gs[i].code != gs[j].code
  }

  /** Row `i` of a seeded table carries id `i + 1`. */
  predicate RegionIdsArePositions(rs: seq<Region>) {
    forall i :: 0 <= i < |rs| ==> rs[i].id == i + 1
  }

  /** The seed satisfies the unique code indexes and numbers its rows 1, 2, 3, ... */
  lemma SeedIsConsistent()
    ensures UniqueRegionCodes(SeedRegions) && RegionIdsArePositions(SeedRegions)
    ensures UniqueCategoryCodes(SeedCategories)
    ensures UniqueTargetGroupCodes(SeedTargetGroups)
    ensures forall i :: 0 <= i < |SeedCategories| ==> SeedCategories[i].id == i + 1
  {
    SeedRegionsConsistent();
    SeedCategoriesConsistent();
    SeedTargetGroupsConsistent();
  }

  lemma SeedRegionsConsistent()
    ensures UniqueRegionCodes(SeedRegions) && RegionIdsArePositions(SeedRegions)
  {
    SeedRegionCodesDistinct();
    SeedRegionCodesAre();
    UniqueRegionCodesOf(SeedRegions, SeedRegionCodes);
    SeedRegionIds();
  }

  lemma SeedRegionIds()
    ensures RegionIdsArePositions(SeedRegions)
  {
  }

  /** Regions whose codes are pairwise distinct strings have unique codes. */
  lemma UniqueRegionCodesOf(rs: seq<Region>, codes: seq<string>)
    requires |rs| == |codes| && Distinct(codes)
    requires forall i :: 0 <= i < |rs| ==> rs[i].code == codes[i]
    ensures UniqueRegionCodes(rs)
  {
    forall i, j | 0 <= i < j < |rs| ensures rs[i].code != rs[j].code {
      assert codes[i] != codes[j];
    }
  }

  lemma SeedCategoriesConsistent()
    ensures UniqueCategoryCodes(SeedCategories)
    ensures forall i :: 0 <= i < |SeedCategories| ==> SeedCategories[i].id == i + 1
  {
    SeedCategoryCodesDistinct();
    SeedCategoryCodesAre();
  }

  lemma SeedTargetGroupsConsistent()
    ensures UniqueTargetGroupCodes(SeedTargetGroups)
  {
    SeedTargetGroupCodesDistinct();
    SeedTargetGroupCodesAre();
  }

  /** The codes of the seeded rows, in seed order. */
  const SeedRegionCodes := ["ALL", "SEOUL", "BUSAN", "DAEGU", "INCHEON", "GWANGJU", "DAEJEON", "ULSAN", "SEJONG",
                            "GYEONGGI", "GANGWON", "CHUNGBUK", "CHUNGNAM", "JEONBUK", "JEONNAM", "GYEONGBUK",
                            "GYEONGNAM", "JEJU"]
  const SeedCategoryCodes := ["LIVING", "HOUSING", "EDUCATION", "EMPLOYMENT", "HEALTH", "ADMIN", "CULTURE",
                              "AGRICULTURE", "ETC", "YOUTH"]
  const SeedTargetGroupCodes := ["YOUTH", "MIDDLE", "SENIOR", "DISABLED", "LOWINCOME", "MULTICULTURAL",
                                 "SINGLEPARENT", "PREGNANT", "INFANT", "ALL"]

  lemma SeedRegionCodesDistinct()
    ensures Distinct(SeedRegionCodes)
  {
  }

  lemma SeedCategoryCodesDistinct()
    ensures Distinct(SeedCategoryCodes)
  {
  }

  lemma SeedTargetGroupCodesDistinct()
    ensures Distinct(SeedTargetGroupCodes)
  {
  }

  lemma SeedRegionCodesAre()
    ensures |SeedRegions| == |SeedRegionCodes|
    ensures forall i :: 0 <= i < |SeedRegions| ==> SeedRegions[i].code == SeedRegionCodes[i]
  {
  }

  lemma SeedCategoryCodesAre()
    ensures |SeedCategories| == |SeedCategoryCodes|
    ensures forall i :: 0 <= i < |SeedCategories| ==> SeedCategories[i].code == SeedCategoryCodes[i]
  {
  }

  lemma SeedTargetGroupCodesAre()
    ensures |SeedTargetGroups| == |SeedTargetGroupCodes|
    ensures forall i :: 0 <= i < |SeedTargetGroups| ==> SeedTargetGroups[i].code == SeedTargetGroupCodes[i]
  {
  }

  /** No two entries are equal. */
  predicate Distinct(s: seq<string>) {
    forall i, j :: 0 <= i < j < |s| ==> s[i] != s[j]
  }

  /** `ALL` is region 1, and all eighteen seeded regions are top level. */
  lemma SeedRegionShape()
    ensures |SeedRegions| == 18
    ensures SeedRegions[0].code == "ALL" && SeedRegions[0].id == 1
    ensures forall i :: 0 <= i < |SeedRegions| ==> SeedRegions[i].parentId.None?
  {
  }

  /** The fallback categories the collectors name are all seeded. */
  lemma SeedFallbackCategories()
    ensures SeedCategories[0].code == "LIVING"
    ensures SeedCategories[8].code == "ETC"
    ensures SeedCategories[9].code == "YOUTH"
  {
  }
}
