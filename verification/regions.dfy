/**
 * The region and category repositories: every region by id, the top-level regions by id, the
 * children of a region by name, and lookup of a region or a category by code.
 */
module ReferenceData {
  import opened Wrappers
  import opened Domain
  import opened Sorting
  import opened SeqOps
  import Seed

  const ById := ByInt((r: Region) => r.id)

  const ByName := ByText((r: Region) => r.name)

  /** `GetAllAsync`: every region, ascending by id. */
  function AllRegions(regions: seq<Region>): (r: seq<Region>)
    ensures multiset(r) == multiset(regions)
    ensures forall i, j :: 0 <= i < j < |r| ==> r[i].id <= r[j].id
  {
    SortBy(regions, ById)
  }

  /** `GetTopLevelAsync`: exactly the regions without a parent, ascending by id. */
  function TopLevel(regions: seq<Region>): (r: seq<Region>)
    ensures forall x {:trigger multiset(r)[x]} :: multiset(r)[x] == if x.parentId.None? then multiset(regions)[x] else 0
    ensures forall i, j :: 0 <= i < j < |r| ==> r[i].id <= r[j].id
  {
    SortBy(Where(regions, (x: Region) => x.parentId.None?), ById)
  }

  /** `GetChildrenAsync(parentId)`: exactly the regions with that parent, ordered by name. */
  function Children(regions: seq<Region>, parentId: int): (r: seq<Region>)
    ensures forall x {:trigger multiset(r)[x]} :: multiset(r)[x] == if x.parentId == Some(parentId) then multiset(regions)[x] else 0
    ensures forall i, j :: 0 <= i < j < |r| ==> StrLe(r[i].name, r[j].name)
  {
    SortBy(Where(regions, (x: Region) => x.parentId == Some(parentId)), ByName)
  }

  /** `GetByCodeAsync(code)`: the first region with exactly that code, or null. */
  function RegionByCode(regions: seq<Region>, code: string): (r: Option<Region>)
    ensures r.Some? ==> r.value in regions && r.value.code == code
    ensures r.None? <==> forall k :: 0 <= k < |regions| ==> regions[k].code != code
  {
    FirstWhere(regions, (x: Region) => x.code == code)
  }

  /** The category repository's `GetByCodeAsync(code)`. */
  function CategoryByCode(categories: seq<Category>, code: string): (r: Option<Category>)
    ensures r.Some? ==> r.value in categories && r.value.code == code
    ensures r.None? <==> forall k :: 0 <= k < |categories| ==> categories[k].code != code
  {
    FirstWhere(categories, (x: Category) => x.code == code)
  }

  /** With unique codes, looking a code up finds the one region that carries it. */
  lemma {:induction false} RegionByCodeFindsIt(regions: seq<Region>, k: nat)
    requires Seed.UniqueRegionCodes(regions)
    requires k < |regions|
    ensures RegionByCode(regions, regions[k].code) == Some(regions[k])
  {
    assert forall j :: 0 <= j < k ==> regions[j].code != regions[k].code;
  }

  /** Top-level regions already listed in id order come back from `GetTopLevelAsync` as they are. */
  lemma TopLevelOfOrderedRoots(rs: seq<Region>)
    requires forall i :: 0 <= i < |rs| ==> rs[i].parentId.None?
    requires forall i, j :: 0 <= i < j < |rs| ==> rs[i].id <= rs[j].id
    ensures TopLevel(rs) == rs
  {
    WhereAll(rs, (x: Region) => x.parentId.None?);
    assert SortedBy(rs, ById);
    SortBySorted(rs, ById);
  }

  /** The seeded regions come back from `GetTopLevelAsync` in seed order. */
  lemma SeedTopLevel()
    ensures TopLevel(Seed.SeedRegions) == Seed.SeedRegions
  {
    Seed.SeedRegionShape();
    Seed.SeedIsConsistent();
    TopLevelOfOrderedRoots(Seed.SeedRegions);
  }
}
