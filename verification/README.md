# SubsidyTracker in Dafny

A model of the government-subsidy tracker: three collectors fetch benefit listings from the
youth-policy API (`YouthCenter`), the public-service portal (`PublicDataPortal`) and the welfare
portal's listing page (`Bokjiro`). They reconcile the listings with the stored subsidies and
record one collection log per run. A collection service runs the collectors in turn. The REST
API serves the stored subsidies with filters, sorting and pages, and lets an operator trigger a
collector and read the logs. The web front end builds the listing request, draws the pagination
bar and the search/filter bar, and composes the page heading and metadata.

Everything is modelled as pure functions over immutable data:

- The subsidies table is a sequence of rows in identity order. Row `i` has id `i + 1`.
- The external-id index is not unique in the schema, so "no external id is stored twice" is a
  proved invariant of every collector.
- A collector run is a fold over the pages it fetched. Each page arrives already parsed, together
  with whether cancellation had been requested.
- The clock, `DateTime.TryParse`, `WebUtility.HtmlDecode` and `string.GetHashCode` are parameters.

| module | file | models |
|---|---|---|
| `Wrappers`, `Text`, `SeqOps`, `Sorting` | wrappers.dfy, text.dfy, seqops.dfy, sorting.dfy | option/result types; .NET string operations (ordinal `Contains`, `Trim`, `Replace`, ASCII case folding, number formatting); LINQ `Where`/`Skip`/`Take`/`FirstOrDefault`; ordering |
| `Domain` | domain.dfy | `Subsidy`, `Region`, `Category`, `TargetGroup`, `CollectionLog` and the enums with their stored names |
| `Seed`, `ReferenceData` | seed.dfy, regions.dfy | the seeded regions, categories and target groups; the region and category repositories |
| `Catalog`, `Logs` | catalog.dfy, logs.dfy | the subsidy repository's writes and lookups, the closure port, the collection-log repository |
| `Json` | json.dfy | the JSON values a collector reads and the `GetStr`/`GetInt` helpers |
| `Mapping` | mapping.dfy | the ordered category keyword tables and the region resolution from an organisation name |
| `Collecting` | collecting.dfy | what the collectors share: item decisions, the page loop, the log each run opens and closes |
| `Youth`, `PublicData`, `BokjiroCrawler` | youth.dfy, publicdata.dfy, bokjiro.dfy | the three collectors |
| `Orchestration` | orchestration.dfy | `CollectionService`: run all collectors, or one by name |
| `SubsidyQuery`, `Paging` | query.dfy, paging.dfy | the repository's filter, sort and page; the `PagedResult` envelope |
| `SubsidiesApi`, `CollectionApi` | subsidiesapi.dfy, collectionapi.dfy | the two controllers |
| `SearchParams`, `JsNumber`, `SubsidiesClient` | searchparams.dfy, jsnumber.dfy, client.dfy | `URLSearchParams`, JavaScript `Number`, the web client's `getSubsidies`, and the API's query binding |
| `PaginationView`, `SearchFilterBar`, `HomePage` | pagination.dfy, searchfilter.dfy, home.dfy | the pagination bar, the search/filter bar, and the home page's request, heading and metadata |

## Model

| member | source | states |
|---|---|---|
| Domain.SourceTypeName | src/SubsidyTracker.Data/AppDbContext.cs:34 | a source type is stored as its name, and that name reads back as the same source type |
| Domain.SubsidyStatusName | src/SubsidyTracker.Data/AppDbContext.cs:33 | a status is stored as its name, and that name reads back as the same status |
| Domain.CollectionStatusName | src/SubsidyTracker.Core/DTOs/CollectionLogDto.cs:13 | a run status rendered as text reads back as the same status |
| Seed.SeedIsConsistent | src/SubsidyTracker.Data/AppDbContext.cs:97-144 | the seeded regions, categories and target groups satisfy the unique code indexes of lines 51, 61 and 70, and regions and categories are numbered 1, 2, 3, ... |
| Seed.SeedRegionShape | src/SubsidyTracker.Data/AppDbContext.cs:97-116 | eighteen regions are seeded, `ALL` is region 1, and every seeded region is top level |
| Seed.SeedFallbackCategories | src/SubsidyTracker.Data/AppDbContext.cs:119-130 | the fallback categories the collectors name (`LIVING`, `ETC`, `YOUTH`) are seeded |
| ReferenceData.AllRegions | src/SubsidyTracker.Data/Repositories/RegionRepository.cs:13-16 | every region comes back (same multiset), in ascending id order |
| ReferenceData.TopLevel | src/SubsidyTracker.Data/Repositories/RegionRepository.cs:18-24 | exactly the regions without a parent come back, each as often as stored, in ascending id order |
| ReferenceData.Children | src/SubsidyTracker.Data/Repositories/RegionRepository.cs:27-30 | exactly the regions with that parent come back, ordered by name |
| ReferenceData.RegionByCode | src/SubsidyTracker.Data/Repositories/RegionRepository.cs:32-35 | a stored region with exactly that code, or null if and only if no region has it |
| ReferenceData.CategoryByCode | src/SubsidyTracker.Data/Repositories/CategoryRepository.cs:18-21 | a stored category with exactly that code, or null if and only if no category has it |
| ReferenceData.RegionByCodeFindsIt | src/SubsidyTracker.Data/AppDbContext.cs:51 | with the unique code index, looking up a region's code finds that very region |
| ReferenceData.TopLevelOfOrderedRoots | src/SubsidyTracker.Data/Repositories/RegionRepository.cs:18-24 | top-level regions already in id order come back unchanged |
| ReferenceData.SeedTopLevel | src/SubsidyTracker.Data/Repositories/RegionRepository.cs:18-24 | on the seeded data the top-level listing is the seed, in seed order, which region resolution walks |
| Catalog.GetByExternalId | src/SubsidyTracker.Data/Repositories/SubsidyRepository.cs:23-27 | a stored record carrying that external id, or null if and only if no record carries it |
| Catalog.Exists | src/SubsidyTracker.Data/Repositories/SubsidyRepository.cs:65-68 | true if and only if some record carries the external id |
| Catalog.ExistsIffFound | src/SubsidyTracker.Data/Repositories/SubsidyRepository.cs:23-27 | the existence check and the lookup agree |
| Catalog.LookupFindsTheRow | src/SubsidyTracker.Data/AppDbContext.cs:35 | while external ids are unique (an invariant the collectors keep, the index being non-unique), the lookup returns the one record with that id |
| Catalog.GetById | src/SubsidyTracker.Data/Repositories/SubsidyRepository.cs:13-21 | a stored record with that id, or null if and only if none has it |
| Catalog.GetByIdIsPositional | src/SubsidyTracker.Data/Repositories/SubsidyRepository.cs:13-21 | with identity numbering, ids 1 through the row count are found and no other id is |
| Catalog.Add | src/SubsidyTracker.Data/Repositories/SubsidyRepository.cs:51-56 | the record is appended under the next identity value and returned; earlier rows are untouched |
| Catalog.AddKeepsUnique | src/SubsidyTracker.Data/AppDbContext.cs:35 | adding a record whose external id no row carries keeps external ids unique |
| Catalog.Update | src/SubsidyTracker.Data/Repositories/SubsidyRepository.cs:58-63 | the row with the record's id is overwritten with `UpdatedAt` set to now, every other row is unchanged, and an unknown id fails |
| Catalog.Save | src/SubsidyTracker.Data/Repositories/SubsidyRepository.cs:61-62 | saving a tracked record writes it as it stands: the row with its id becomes the record, every other row is unchanged, and an unknown id fails |
| Catalog.SaveKeepsValid | src/SubsidyTracker.Data/AppDbContext.cs:35 | saving a row without changing its id or external id succeeds and keeps numbering and uniqueness |
| Catalog.UpdateKeepsValid | src/SubsidyTracker.Data/Repositories/SubsidyRepository.cs:58-63 | updating a row without changing its external id keeps numbering and uniqueness, and stamps the row |
| Catalog.CloseMissing | src/SubsidyTracker.Core/Interfaces/ISubsidyRepository.cs:14 | each row of the source type whose external id is not listed is closed, all other rows are kept; a row changes exactly when it was missing, and the count returned is the number of missing rows, so it is 0 if and only if no row was closed |
| Catalog.CloseMissingKeepsValid | src/SubsidyTracker.Core/Interfaces/ISubsidyRepository.cs:14 | closure keeps ids and external ids, so the store stays valid |
| Catalog.CloseMissingLeavesOthers | src/SubsidyTracker.Core/Interfaces/ISubsidyRepository.cs:14 | rows of other sources, rows without an external id and listed rows are left exactly as they were |
| Catalog.CloseMissingIdempotent | src/SubsidyTracker.Core/Interfaces/ISubsidyRepository.cs:14 | a second closure with the same list closes nothing and changes nothing |
| Logs.Add | src/SubsidyTracker.Data/Repositories/CollectionLogRepository.cs:13-18 | the log is appended under the next identity value and returned |
| Logs.Update | src/SubsidyTracker.Data/Repositories/CollectionLogRepository.cs:20-24 | the row with the log's id is overwritten and every other row is kept; an unknown id fails |
| Logs.UpdateOfAdded | src/SubsidyTracker.Data/Repositories/CollectionLogRepository.cs:13-24 | updating the log just added succeeds and changes only that row |
| Logs.GetRecent | src/SubsidyTracker.Data/Repositories/CollectionLogRepository.cs:26-32 | `count` logs when that many are stored, every log when fewer are stored or the count is negative (SQLite reads a negative `LIMIT` as none), none for 0; newest start first; the listed and the unlisted logs together are exactly the stored ones, and no unlisted log started later than a listed one |
| Logs.GetRecentAll | src/SubsidyTracker.Data/Repositories/CollectionLogRepository.cs:26-32 | asking for a negative count, or for at least as many logs as are stored, lists every stored log |
| Json.GetStr | src/SubsidyTracker.Collector/Collectors/YouthCenterCollector.cs:361-373 | null if and only if the property is missing or neither a string nor a number; a string property gives its text and a number property its raw text |
| Json.GetInt | src/SubsidyTracker.Collector/Collectors/YouthCenterCollector.cs:349-359 | any value read is a 32-bit integer, and the read throws if and only if the property is a number that is not a 32-bit integer |
| Json.GetIntOfRenderedNumber | src/SubsidyTracker.Collector/Collectors/YouthCenterCollector.cs:353-354 | a number property holding the decimal text of a 32-bit integer reads back as that integer |
| Json.GetIntOfRenderedString | src/SubsidyTracker.Collector/Collectors/YouthCenterCollector.cs:355-356 | a string property holding the decimal text of a 32-bit integer reads back as that integer |
| Json.GetInt32 | src/SubsidyTracker.Collector/Collectors/YouthCenterCollector.cs:139 | a value is read only from a number that is a 32-bit integer; anything else throws |
| Json.GetString | src/SubsidyTracker.Collector/Collectors/YouthCenterCollector.cs:142 | a string gives its text and a JSON null gives null; any other kind throws |
| Json.ArrayLength | src/SubsidyTracker.Collector/Collectors/YouthCenterCollector.cs:150 | an array gives its element count; any other kind throws |
| Collecting.Apply | src/SubsidyTracker.Collector/Collectors/YouthCenterCollector.cs:178-244 | an insert appends the record and counts it collected; a refresh of a stored row writes it and counts it updated; a skip counts it skipped; a skip after the item had already changed a tracked row writes that row as changed, without a new `UpdatedAt`, and counts it skipped. Every decision but an ignore adds exactly one to the counts, and the table grows by the collected count |
| Collecting.ApplyKeepsValid | src/SubsidyTracker.Collector/Collectors/YouthCenterCollector.cs:178-194 | a decision that inserts only unstored ids and refreshes only stored rows keeps the store valid |
| Collecting.ApplyExtends | src/SubsidyTracker.Collector/Collectors/YouthCenterCollector.cs:178-238 | no decision removes or renumbers a row |
| Collecting.ProcessItems | src/SubsidyTracker.Collector/Collectors/YouthCenterCollector.cs:163-245 | over a page's items the counts grow by at most one per item (exactly one when every item is counted), the table grows by the collected count only, listed ids only grow, and a safe decider keeps the store valid |
| Collecting.RunPages | src/SubsidyTracker.Collector/Collectors/YouthCenterCollector.cs:119-254 | the page loop never removes rows, keeps the store valid with a safe decider, grows the table by the collected count, and ends at once when cancellation is requested at the loop check |
| Collecting.RunPagesStopsAt | src/SubsidyTracker.Collector/Collectors/YouthCenterCollector.cs:129-154 | the loop ends at the first page that breaks out or throws, whatever follows |
| Collecting.RunPagesIgnoresAfterLast | src/SubsidyTracker.Collector/Collectors/YouthCenterCollector.cs:247-248 | after the last page later pages are never fetched |
| Collecting.OpenedLog | src/SubsidyTracker.Collector/Collectors/YouthCenterCollector.cs:89-96 | the log a run adds first is `Running`, with no counts, no completion time and no message |
| Collecting.FailRun | src/SubsidyTracker.Collector/Collectors/YouthCenterCollector.cs:277-285 | the failure path leaves the store as it stands and returns 0 |
| Collecting.CompleteRun | src/SubsidyTracker.Collector/Collectors/YouthCenterCollector.cs:265-275 | the normal path returns the collected count |
| Collecting.FailRunClosesLog | src/SubsidyTracker.Collector/Collectors/YouthCenterCollector.cs:277-285 | the added log row ends `Failed` with the message, the completion time and all counts 0, and earlier rows are untouched |
| Collecting.CompleteRunClosesLog | src/SubsidyTracker.Collector/Collectors/YouthCenterCollector.cs:265-270 | the added log row ends with the given status, the completion time and the run's counts, and earlier rows are untouched |
| Collecting.Section | src/SubsidyTracker.Collector/Collectors/YouthCenterCollector.cs:311-314 | a labelled section is present if and only if its field is non-empty |
| Collecting.Stamped | src/SubsidyTracker.Core/Models/Subsidy.cs:30-31 | a new record is created and last written now |
| Youth.Sections | src/SubsidyTracker.Collector/Collectors/YouthCenterCollector.cs:300-316 | there is no section if and only if neither both ages (both non-empty, neither "0") nor the qualification nor the exclusions are given |
| Youth.Eligibility | src/SubsidyTracker.Collector/Collectors/YouthCenterCollector.cs:300-317 | null exactly when there is no section; with both ages given the text starts with the age section |
| Youth.EligibilityShowsEachField | src/SubsidyTracker.Collector/Collectors/YouthCenterCollector.cs:311-314 | every non-empty qualification or exclusion text appears in the eligibility text under its label |
| Youth.EligibilityOrder | src/SubsidyTracker.Collector/Collectors/YouthCenterCollector.cs:307-316 | with all sections present the text is ages, qualification, exclusions, one per line |
| Youth.Merge | src/SubsidyTracker.Collector/Collectors/YouthCenterCollector.cs:288-298 | each of the seven text fields takes the item's value unless it is null, and status, ids, dates and URLs are untouched; the view count is overwritten when it reads, and when it does not the merge is interrupted with the seven fields already assigned and the old view count |
| Youth.MergeIdempotent | src/SubsidyTracker.Collector/Collectors/YouthCenterCollector.cs:288-298 | refreshing twice from the same item gives what refreshing once gives |
| Youth.MergeOfBareItem | src/SubsidyTracker.Collector/Collectors/YouthCenterCollector.cs:288-298 | an item with none of the fields only resets the view count to 0 |
| Youth.PeriodDate | src/SubsidyTracker.Collector/Collectors/YouthCenterCollector.cs:224-235 | a period date is set only from trimmed text of at least 8 characters that parses |
| Youth.YouthCategory | src/SubsidyTracker.Collector/Collectors/YouthCenterCollector.cs:196-198 | every new youth record is filed under `YOUTH` when it exists, otherwise `ETC` |
| Youth.NewRecord | src/SubsidyTracker.Collector/Collectors/YouthCenterCollector.cs:196-235 | the new record carries `youth_` plus the policy number, the youth source, `Active`, the youth category, the region resolved from the supervising or registering body, the defaults for missing title, organization and URL, the guarded dates, the description (empty when missing), support text, eligibility summary, application method and address, contact, the view count as read, and no target groups; it fails exactly when a fallback row is missing or the view count is unreadable |
| Youth.Decide | src/SubsidyTracker.Collector/Collectors/YouthCenterCollector.cs:163-245 | a non-object item or one without a policy number is skipped and lists nothing; otherwise `youth_` plus the number is listed before the lookup; a stored id is never inserted again; when the item has a modification stamp and the row was last written more than a day ago, the row is refreshed with the merged record, or, if the view count does not read, left with the partly merged record and counted skipped; an unstored id is inserted exactly when its new record can be built, and the record inserted is that new record; every item is counted |
| Youth.DeciderIsSafe | src/SubsidyTracker.Collector/Collectors/YouthCenterCollector.cs:178-194 | the youth decisions keep the store valid and count every item |
| Youth.View | src/SubsidyTracker.Collector/Collectors/YouthCenterCollector.cs:129-154 | a non-success status ends the loop, a thrown fetch aborts it, and a page is processed only with result code 200 and a non-empty list, being the last exactly when it holds fewer than 100 items |
| Youth.CloseUnlisted | src/SubsidyTracker.Collector/Collectors/YouthCenterCollector.cs:256-263 | closure of unlisted youth records runs if and only if some id was listed |
| Youth.Collect | src/SubsidyTracker.Collector/Collectors/YouthCenterCollector.cs:87-286 | with every write but the log's `Add` succeeding, an exception escapes only from adding the log, and then nothing is changed |
| Youth.CollectKeepsValid | src/SubsidyTracker.Collector/Collectors/YouthCenterCollector.cs:87-286 | a run never inserts a stored external id again: a valid store stays valid |
| Youth.CollectClosesLog | src/SubsidyTracker.Collector/Collectors/YouthCenterCollector.cs:89-285 | with the log updates succeeding, every run leaves its one added log closed: `Completed` with its counts and the collected count returned, or `Failed` with a message, counts 0 and 0 returned |
| Youth.MissingKeyFails | src/SubsidyTracker.Collector/Collectors/YouthCenterCollector.cs:100-109 | a missing or placeholder key stores nothing, returns 0 and logs `Failed` with the key message |
| Youth.CompletedRunAccounting | src/SubsidyTracker.Collector/Collectors/YouthCenterCollector.cs:247-275 | a completed run grows the store by the collected count, never closes a record it listed, and closes nothing when it listed nothing |
| PublicData.Eligibility | src/SubsidyTracker.Collector/Collectors/PublicDataCollector.cs:284-296 | null if and only if both the support target and the selection criteria are empty |
| PublicData.EligibilityShapes | src/SubsidyTracker.Collector/Collectors/PublicDataCollector.cs:292-295 | the text is `[지원대상]` then `[선정기준]`, one per line, each present exactly when its field is non-empty |
| PublicData.Merge | src/SubsidyTracker.Collector/Collectors/PublicDataCollector.cs:273-282 | each of the seven merged fields takes the item's value unless it is null; the view count, the status and every other field are untouched |
| PublicData.MergeIdempotent | src/SubsidyTracker.Collector/Collectors/PublicDataCollector.cs:273-282 | refreshing twice from the same item gives what refreshing once gives |
| PublicData.MergeOfBareItem | src/SubsidyTracker.Collector/Collectors/PublicDataCollector.cs:273-282 | an item with none of the seven fields leaves the record unchanged |
| PublicData.Deadline | src/SubsidyTracker.Collector/Collectors/PublicDataCollector.cs:222-228 | an empty deadline, "상시" and "별도공지" set no end date; any other text sets what parsing it gives |
| PublicData.NoDeadlineWords | src/SubsidyTracker.Collector/Collectors/PublicDataCollector.cs:224 | whatever the date parser accepts, the two no-deadline words never become an end date |
| PublicData.ServiceCategory | src/SubsidyTracker.Collector/Collectors/PublicDataCollector.cs:196-198 | the new record's category is the mapped code's when that row exists, else `ETC`'s; it fails only when neither row exists |
| PublicData.NewRecord | src/SubsidyTracker.Collector/Collectors/PublicDataCollector.cs:195-228 | the new record carries the raw service id, the portal source, `Active`, the mapped category, the region resolved from the responsible body, the defaults for a missing title, organization and URL, no start date and the guarded end date, the summary as description (empty when missing), the support text as amount, the application method, the telephone contact, the eligibility summary, no view count and no target groups; it fails exactly when a fallback row is missing |
| PublicData.Decide | src/SubsidyTracker.Collector/Collectors/PublicDataCollector.cs:165-237 | a non-object item or one without a service id is skipped; a stored id is never inserted again and is refreshed, with the merge, exactly when the item has a modification stamp and the row was last written more than a day ago; an unstored id is inserted exactly when its new record can be built, and the record inserted is that new record; no id is listed; every item is counted |
| PublicData.DeciderIsSafe | src/SubsidyTracker.Collector/Collectors/PublicDataCollector.cs:176-193 | the portal decisions keep the store valid and count every item |
| PublicData.AfterItems | src/SubsidyTracker.Collector/Collectors/PublicDataCollector.cs:240-244 | paging goes on only while `currentCount`, or the item count when it is absent, is at least 100; an unreadable `currentCount` throws |
| PublicData.View | src/SubsidyTracker.Collector/Collectors/PublicDataCollector.cs:143-161 | a non-success status and a missing or empty `data` array end the loop, a thrown fetch aborts it, and otherwise the `data` items are processed |
| PublicData.Collect | src/SubsidyTracker.Collector/Collectors/PublicDataCollector.cs:101-271 | with every write but the log's `Add` succeeding, an exception escapes only from adding the log; a completed loop leaves the store as the loop left it, with no closure step |
| PublicData.CollectKeepsValid | src/SubsidyTracker.Collector/Collectors/PublicDataCollector.cs:101-271 | a run never inserts a stored external id again: a valid store stays valid |
| PublicData.CollectOnlyAppends | src/SubsidyTracker.Collector/Collectors/PublicDataCollector.cs:165-260 | a run never removes or renumbers a row, and a completed run grows the store by exactly the count it returns |
| PublicData.CollectClosesLog | src/SubsidyTracker.Collector/Collectors/PublicDataCollector.cs:103-270 | with the log updates succeeding, every run leaves its one added log closed: `Completed` (even with no items) with its counts and the collected count returned, or `Failed` with a message, counts 0 and 0 returned |
| PublicData.MissingKeyFails | src/SubsidyTracker.Collector/Collectors/PublicDataCollector.cs:114-123 | a missing or placeholder key stores nothing, returns 0 and logs `Failed` with the key message |
| Mapping.ResolveCode | src/SubsidyTracker.Collector/Collectors/PublicDataCollector.cs:298-308 | `ETC` for a null or empty text; otherwise the code of the first entry in table order whose keyword the text contains, and `ETC` exactly when no keyword occurs |
| Mapping.ResolveCodeAt | src/SubsidyTracker.Collector/Collectors/PublicDataCollector.cs:302-306 | the first matching entry in table order decides the code |
| Mapping.TableOrderDecides | src/SubsidyTracker.Collector/Collectors/PublicDataCollector.cs:57-67 | table order, not position in the text, decides: "고용·창업 교육" maps to `EDUCATION` because the 교육 entry comes first |
| Mapping.SeededCodeFound | src/SubsidyTracker.Data/AppDbContext.cs:119-130 | every seeded category code is found by the code lookup |
| Mapping.ServiceFieldCodesAreSeeded | src/SubsidyTracker.Collector/Collectors/PublicDataCollector.cs:196-198 | every code the service-field table can yield names a seeded category, so on the seed the `ETC` fallback row is never needed |
| Mapping.ShortName | src/SubsidyTracker.Collector/Collectors/PublicDataCollector.cs:321-322 | the short name is no longer than the region name |
| Mapping.ShortNameHasNoDo | src/SubsidyTracker.Collector/Collectors/PublicDataCollector.cs:321-322 | after the five removals the short name holds no 도 at all, wherever it stood |
| Mapping.FirstRegionHit | src/SubsidyTracker.Collector/Collectors/PublicDataCollector.cs:317-325 | the first region in list order, other than `ALL`, whose short name the organisation name contains |
| Mapping.ResolveRegion | src/SubsidyTracker.Collector/Collectors/PublicDataCollector.cs:310-328 | `ALL` for a null or empty name; when some top-level region matches, the first such region in id order; `ALL` when none matches; a region other than `ALL` only when it is top level and matches; fails only when no `ALL` region exists |
| Mapping.ResolveRegionFallsBack | src/SubsidyTracker.Collector/Collectors/PublicDataCollector.cs:327 | when no top-level region matches, the result is the `ALL` region |
| Mapping.ResolveRegionAt | src/SubsidyTracker.Collector/Collectors/PublicDataCollector.cs:316-325 | the first matching top-level region, by id, decides the region |
| Mapping.MetroShortName | src/SubsidyTracker.Collector/Collectors/PublicDataCollector.cs:321-322 | a metropolitan city's short name is its name without 광역시 |
| Mapping.SeoulShortName | src/SubsidyTracker.Collector/Collectors/PublicDataCollector.cs:320-322 | "서울특별시" shortens to "서울" |
| Mapping.GyeonggiShortName | src/SubsidyTracker.Collector/Collectors/PublicDataCollector.cs:320-322 | "경기도" shortens to "경기" |
| Mapping.BusanShortName | src/SubsidyTracker.Collector/Collectors/PublicDataCollector.cs:321-322 | "부산광역시" shortens to "부산" |
| Mapping.DaeguShortName | src/SubsidyTracker.Collector/Collectors/PublicDataCollector.cs:321-322 | "대구광역시" shortens to "대구" |
| Mapping.IncheonShortName | src/SubsidyTracker.Collector/Collectors/PublicDataCollector.cs:321-322 | "인천광역시" shortens to "인천" |
| Mapping.GwangjuShortName | src/SubsidyTracker.Collector/Collectors/PublicDataCollector.cs:321-322 | "광주광역시" shortens to "광주" |
| Mapping.SeoulMissesGwangjuCity | src/SubsidyTracker.Collector/Collectors/PublicDataCollector.cs:323 | "경기도 광주시" does not contain 서울 |
| Mapping.BusanMissesGwangjuCity | src/SubsidyTracker.Collector/Collectors/PublicDataCollector.cs:323 | "경기도 광주시" does not contain 부산 |
| Mapping.DaeguMissesGwangjuCity | src/SubsidyTracker.Collector/Collectors/PublicDataCollector.cs:323 | "경기도 광주시" does not contain 대구 |
| Mapping.IncheonMissesGwangjuCity | src/SubsidyTracker.Collector/Collectors/PublicDataCollector.cs:323 | "경기도 광주시" does not contain 인천 |
| Mapping.GwangjuHitsGwangjuCity | src/SubsidyTracker.Collector/Collectors/PublicDataCollector.cs:323 | "경기도 광주시" contains 광주 |
| Mapping.GyeonggiHitsGwangjuCity | src/SubsidyTracker.Collector/Collectors/PublicDataCollector.cs:323 | "경기도 광주시" also contains 경기 |
| Mapping.MetroMissesGwangjuCity | src/SubsidyTracker.Collector/Collectors/PublicDataCollector.cs:321-324 | regions named 서울특별시, 부산광역시, 대구광역시 or 인천광역시 do not match "경기도 광주시" |
| Mapping.LeadingRegionsMissGwangjuCity | src/SubsidyTracker.Collector/Collectors/PublicDataCollector.cs:317-325 | `ALL` and the four metropolitan cities before 광주 do not match "경기도 광주시" |
| Mapping.GwangjuCityResolvesIn | src/SubsidyTracker.Collector/Collectors/PublicDataCollector.cs:310-328 | in an id-ordered top-level list that starts like the seed, "경기도 광주시" resolves to 광주광역시 |
| Mapping.SeedGwangjuNeighbours | src/SubsidyTracker.Data/AppDbContext.cs:98-107 | the seed starts 전국, 서울, 부산, 대구, 인천, 광주 (id 6), and 경기도, which also matches, is id 10; so "경기도 광주시" resolves to 광주, not 경기 |
| BokjiroCrawler.ExternalId | src/SubsidyTracker.Collector/Collectors/BokjiroCrawler.cs:90 | the id is `bokjiro_` followed by exactly eight hexadecimal digits |
| BokjiroCrawler.ExternalIdEncodesHash | src/SubsidyTracker.Collector/Collectors/BokjiroCrawler.cs:90 | the eight digits give back the title's hash modulo 2^32, so equal ids mean equal hashes |
| BokjiroCrawler.SourceUrl | src/SubsidyTracker.Collector/Collectors/BokjiroCrawler.cs:109 | the listing address for an empty link, the link itself when it starts with "http", the portal origin followed by the link otherwise |
| BokjiroCrawler.SourceUrlIsAbsolute | src/SubsidyTracker.Collector/Collectors/BokjiroCrawler.cs:109 | whatever the link, the source address starts with "http" |
| BokjiroCrawler.Decide | src/SubsidyTracker.Collector/Collectors/BokjiroCrawler.cs:82-124 | a blank title is passed over uncounted; a stored id is skipped and never refreshed; a new id is inserted exactly when the `ALL` region and `LIVING` category exist, with the decoded title and description, the hash of the raw title as id, 보건복지부, the derived source address, the crawler source and `Active`, and is counted as a faulted skip exactly when either is missing |
| BokjiroCrawler.DeciderIsSafe | src/SubsidyTracker.Collector/Collectors/BokjiroCrawler.cs:92-117 | the crawler only inserts ids no row carries, so the store stays valid |
| BokjiroCrawler.Reached | src/SubsidyTracker.Collector/Collectors/BokjiroCrawler.cs:78-80 | the loop reaches a prefix of the nodes, all of them when cancellation never comes |
| BokjiroCrawler.FinalStatus | src/SubsidyTracker.Collector/Collectors/BokjiroCrawler.cs:144 | `Completed` if and only if something was collected, otherwise `PartiallyCompleted` |
| BokjiroCrawler.Collect | src/SubsidyTracker.Collector/Collectors/BokjiroCrawler.cs:36-160 | with every write but the log's `Add` succeeding, an exception escapes only from adding the log; a run whose fetch fails stores nothing |
| BokjiroCrawler.CrawlOnlyAppends | src/SubsidyTracker.Collector/Collectors/BokjiroCrawler.cs:92-118 | a crawl keeps every existing row in place and never counts an update |
| BokjiroCrawler.CollectKeepsValid | src/SubsidyTracker.Collector/Collectors/BokjiroCrawler.cs:92-117 | a run never inserts a stored external id again: a valid store stays valid |
| BokjiroCrawler.CollectClosesLog | src/SubsidyTracker.Collector/Collectors/BokjiroCrawler.cs:142-158 | with the log updates succeeding, every run leaves its one added log closed: `Failed` with the message exactly when an exception other than a network failure escaped, otherwise `Completed` if and only if something was collected, with no updates and the collected count returned |
| BokjiroCrawler.NoListingNoChange | src/SubsidyTracker.Collector/Collectors/BokjiroCrawler.cs:63-76 | a network failure, a non-success status or no matching selector stores nothing, returns 0 and ends `PartiallyCompleted` |
| BokjiroCrawler.SettledPersists | src/SubsidyTracker.Collector/Collectors/BokjiroCrawler.cs:92-96 | a node whose id is stored stays skipped however the store grows |
| BokjiroCrawler.CrawlSettles | src/SubsidyTracker.Collector/Collectors/BokjiroCrawler.cs:78-118 | after a crawl every node it reached would be skipped or passed over by another crawl with the same hash |
| BokjiroCrawler.SettledCrawlIsQuiet | src/SubsidyTracker.Collector/Collectors/BokjiroCrawler.cs:87-96 | a crawl over settled nodes inserts nothing and leaves the store as it is |
| BokjiroCrawler.RecrawlAddsNothing | src/SubsidyTracker.Collector/Collectors/BokjiroCrawler.cs:36-160 | within one process (one hash function) a second crawl of the same listing adds no record and returns 0 |
| Orchestration.RunOneKeepsValid | src/SubsidyTracker.Collector/Services/CollectionService.cs:32 | whichever collector runs and whatever it reads, the store never gets an external id twice |
| Orchestration.RunAll | src/SubsidyTracker.Collector/Services/CollectionService.cs:19-46 | a loop over no collectors, or one cancelled before its first collector, ends normally with the store and the total unchanged |
| Orchestration.Runs | src/SubsidyTracker.Collector/Services/CollectionService.cs:25-40 | the reference run records one outcome per collector |
| Orchestration.RunAllRunsEach | src/SubsidyTracker.Collector/Services/CollectionService.cs:25-45 | without cancellation every collector runs once, in order, on the store the previous one left, a throwing collector does not stop the loop, and the total is the sum of the counts of those that returned |
| Orchestration.RunAllStopsAtCancel | src/SubsidyTracker.Collector/Services/CollectionService.cs:27 | cancellation seen before collector `k` ends the run normally after exactly the collectors before it |
| Orchestration.RunAllDelayCanceled | src/SubsidyTracker.Collector/Services/CollectionService.cs:42 | a delay cancelled after collector `k` ends the whole run with an exception, once collectors 0 through `k` have run |
| Orchestration.RunAllKeepsValid | src/SubsidyTracker.Collector/Services/CollectionService.cs:19-46 | however the loop over the three collectors ends, the table it leaves is valid when it started valid |
| Orchestration.RunAllKeepsValidWith | src/SubsidyTracker.Collector/Services/CollectionService.cs:19-46 | for any collectors that each keep the table valid, the loop keeps it valid however it ends |
| Orchestration.FindCollector | src/SubsidyTracker.Collector/Services/CollectionService.cs:50-51 | a found collector is registered and its name matches ignoring case; none is found exactly when no registered name matches |
| Orchestration.FindCollectorIsFirst | src/SubsidyTracker.Collector/Services/CollectionService.cs:50-51 | the first matching collector is the one found, whatever follows it |
| Orchestration.RunCollector | src/SubsidyTracker.Collector/Services/CollectionService.cs:48-60 | an unknown name changes nothing; a known one runs that collector exactly once |
| SubsidyQuery.WhereWhen | src/SubsidyTracker.Data/Repositories/SubsidyRepository.cs:79-98 | a filter that applies keeps exactly the rows meeting its condition, each as often as before; one that does not apply keeps everything |
| SubsidyQuery.BuildQuery | src/SubsidyTracker.Data/Repositories/SubsidyRepository.cs:70-101 | the query holds exactly the rows that meet every given criterion (trimmed keyword in title, description or organization; region; category; target group; status), each once per occurrence in the table |
| SubsidyQuery.DefaultFilterMatchesAll | src/SubsidyTracker.Core/Interfaces/ISubsidyRepository.cs:17-28 | the default filter restricts nothing: the query is the whole table |
| SubsidyQuery.BlankKeywordIgnored | src/SubsidyTracker.Data/Repositories/SubsidyRepository.cs:79 | a keyword of only white space matches as if no keyword were given |
| SubsidyQuery.GetCount | src/SubsidyTracker.Data/Repositories/SubsidyRepository.cs:46-49 | the count is at most the table size and is zero exactly when no row matches |
| SubsidyQuery.CountShrinksWithCriteria | src/SubsidyTracker.Data/Repositories/SubsidyRepository.cs:79-98 | a filter that admits fewer rows never counts more |
| SubsidyQuery.SortKeyOf | src/SubsidyTracker.Data/Repositories/SubsidyRepository.cs:33-38 | "title" and "applicationenddate" in any case choose those columns; anything else, or none, sorts by creation time |
| SubsidyQuery.Order | src/SubsidyTracker.Data/Repositories/SubsidyRepository.cs:35-37 | the ordering is a total preorder on the chosen column, reversed when descending |
| SubsidyQuery.Ordered | src/SubsidyTracker.Data/Repositories/SubsidyRepository.cs:31-38 | sorting keeps exactly the matching rows, as many as the count says |
| SubsidyQuery.OrderedIsSorted | src/SubsidyTracker.Data/Repositories/SubsidyRepository.cs:33-38 | the sorted query is in the filter's order |
| SubsidyQuery.PageOf | src/SubsidyTracker.Data/Repositories/SubsidyRepository.cs:40-43 | skip then take: a contiguous run starting at `(Page-1)*PageSize` (0 when that is negative), of `PageSize` rows or all the remaining ones when fewer remain or `PageSize` is negative, as SQLite reads a negative `LIMIT` |
| SubsidyQuery.GetAll | src/SubsidyTracker.Data/Repositories/SubsidyRepository.cs:29-44 | the page holds at most `PageSize` rows when that is not negative, and every row from its start otherwise; each row is at its position in the sorted listing |
| SubsidyQuery.GetAllRowsMatch | src/SubsidyTracker.Data/Repositories/SubsidyRepository.cs:31-44 | every row on a page is a row of the table that meets every criterion of the filter |
| SubsidyQuery.GetAllIsSorted | src/SubsidyTracker.Data/Repositories/SubsidyRepository.cs:33-43 | every page is in the filter's order |
| SubsidyQuery.PageOfPosition | src/SubsidyTracker.Data/Repositories/SubsidyRepository.cs:41 | position `i` lies `i % PageSize` rows into page `i / PageSize + 1` |
| SubsidyQuery.ItemOnItsPage | src/SubsidyTracker.Data/Repositories/SubsidyRepository.cs:29-44 | every matching row appears on its page of the one sorted listing, so paging that listing loses no row (tied rows keep one fixed order across pages) |
| SubsidyQuery.PageHasRows | src/SubsidyTracker.Data/Repositories/SubsidyRepository.cs:40-43 | a page is non-empty if and only if the page size is not zero and the page starts before the count; a negative size does not empty it |
| SubsidyQuery.CountIgnoresPage | src/SubsidyTracker.Data/Repositories/SubsidyRepository.cs:46-49 | the count does not depend on the page asked for |
| SubsidyQuery.PastTheEndIsEmpty | src/SubsidyTracker.Data/Repositories/SubsidyRepository.cs:40-43 | a page starting at or past the count is empty |
| Paging.CeilDiv | src/SubsidyTracker.Core/DTOs/SubsidyDto.cs:45 | the least whole number at or above the quotient |
| Paging.TotalPages | src/SubsidyTracker.Core/DTOs/SubsidyDto.cs:45 | just enough pages of `PageSize` to hold `TotalCount` rows |
| Paging.NoRowsNoPages | src/SubsidyTracker.Core/DTOs/SubsidyDto.cs:45-47 | no rows means no pages and no next page |
| Paging.BeforeLastPage | src/SubsidyTracker.Core/DTOs/SubsidyDto.cs:47 | a page precedes the last one exactly when rows remain after it |
| Paging.SinglePage | src/SubsidyTracker.Core/DTOs/SubsidyDto.cs:45-47 | a first page as large as the count has no next page |
| Paging.NextPageIffMoreRows | src/SubsidyTracker.Core/DTOs/SubsidyDto.cs:47 | the envelope reports a next page exactly when the repository's next page holds a row |
| SubsidiesApi.RegionName | src/SubsidyTracker.API/Controllers/SubsidiesController.cs:102 | the name of the first region with that id; "" when no region has it, and a non-empty name always belongs to a region with that id |
| SubsidiesApi.CategoryName | src/SubsidyTracker.API/Controllers/SubsidiesController.cs:103 | the name of the first category with that id; "" when no category has it, and a non-empty name always belongs to a category with that id |
| SubsidiesApi.GroupName | src/SubsidyTracker.API/Controllers/SubsidiesController.cs:104 | the name of the first target group with that id; "" when no group has it, and a non-empty name always belongs to a group with that id |
| SubsidiesApi.TargetGroupNames | src/SubsidyTracker.API/Controllers/SubsidiesController.cs:104 | the names are non-empty, no more than the links, and each is the name of a linked group |
| SubsidiesApi.TargetGroupNamesSnoc | src/SubsidyTracker.API/Controllers/SubsidiesController.cs:104 | no links give no names, and one more link appends its group's name exactly when that name is non-empty, so the list is the linked names in link order with the empty ones dropped |
| SubsidiesApi.TargetGroupNamesComplete | src/SubsidyTracker.API/Controllers/SubsidiesController.cs:104 | when every linked group has a name, the list is exactly those names in link order |
| SubsidiesApi.MapToListDto | src/SubsidyTracker.API/Controllers/SubsidiesController.cs:96-108 | the list entry carries the record's id, title, organization, amount, end date and creation time, the names of its region and category, the non-empty names of its linked groups in link order, and a status name that reads back as the record's status |
| SubsidiesApi.MapToDetailDto | src/SubsidyTracker.API/Controllers/SubsidiesController.cs:110-130 | the detail carries every own field of the record (id, description, eligibility, application method and address, contact, source address, both dates, creation and update times) and a status that reads back, and agrees with the list entry on every field they share |
| SubsidiesApi.MapAll | src/SubsidyTracker.API/Controllers/SubsidiesController.cs:49 | one list entry per row, in the rows' order |
| SubsidiesApi.CapPageSize | src/SubsidyTracker.API/Controllers/SubsidiesController.cs:34 | the size used is the requested one or 100, whichever is smaller |
| SubsidiesApi.ListFilter | src/SubsidyTracker.API/Controllers/SubsidiesController.cs:31-42 | the query parameters pass through unchanged except the capped page size and a missing status, which becomes `Active` |
| SubsidiesApi.GetAll | src/SubsidyTracker.API/Controllers/SubsidiesController.cs:19-56 | the entries are the list projections of exactly the rows the repository returns for the bound filter; at most 100 for a non-negative size, and every matching entry on page 1 for a negative one (the cap bounds only from above); all of the requested status (active by default), the total the same filter counts, and the page and capped size echoed |
| SubsidiesApi.GetAllNextPageIsAccurate | src/SubsidyTracker.API/Controllers/SubsidiesController.cs:47-53 | the listing reports a next page exactly when the next page of the same filter holds a row |
| SubsidiesApi.GetById | src/SubsidyTracker.API/Controllers/SubsidiesController.cs:58-66 | not found exactly when no row has the id; otherwise the detail of a row with that id |
| SubsidiesApi.SearchFilter | src/SubsidyTracker.API/Controllers/SubsidiesController.cs:77-82 | the search filters by keyword and page only: any status, region, category or group, newest first |
| SubsidiesApi.SearchAsWritten | src/SubsidyTracker.API/Controllers/SubsidiesController.cs:73-94 | the action: a missing or blank keyword is a bad request with its message; otherwise the list projections of exactly the rows the repository returns for the keyword filter with the capped size, its count, and the page and size as requested |
| SubsidiesApi.SearchAsWrittenHidesRows | src/SubsidyTracker.API/Controllers/SubsidiesController.cs:91-92 | with a size above the cap and more than 100 but at most that size matching, page 1 shows 100 rows, reports no next page, and yet page 2 holds rows |
| SubsidiesApi.Search | src/SubsidyTracker.API/Controllers/SubsidiesController.cs:73-94 | the action as written (the same rows from the repository, the same count), except that the envelope echoes the capped size the page was cut with |
| SubsidiesApi.BindText | src/SubsidyTracker.API/Controllers/SubsidiesController.cs:70 | a query value binds to null exactly when it is missing, empty or blank, and otherwise to itself |
| SubsidiesApi.SearchEndpoint | src/SubsidyTracker.API/Controllers/SubsidiesController.cs:68-94 | the required `keyword` fails model validation, with a 400 naming it, exactly when it is missing, empty or blank, so the action's own bad request is never sent; any other keyword gets the action's answer as written, which echoes the requested page and size |
| SubsidiesApi.CorrectedSearchEndpoint | src/SubsidyTracker.API/Controllers/SubsidiesController.cs:68-94 | the same validation, with a bound keyword answered by the corrected action, whose envelope echoes the capped size |
| SubsidiesApi.EndpointsDifferOnlyInEchoedSize | src/SubsidyTracker.API/Controllers/SubsidiesController.cs:91-92 | the endpoint as written and the corrected one give the same answer kind and the same page, count and rows; they differ exactly when a keyword is bound and the requested size is above 100 |
| SubsidiesApi.SearchNextPageIsAccurate | src/SubsidyTracker.API/Controllers/SubsidiesController.cs:87-93 | with the capped size echoed, the search reports a next page exactly when the next page holds a row |
| CollectionApi.ToDto | src/SubsidyTracker.API/Controllers/CollectionController.cs:26-38 | the log's DTO loses nothing: the log reads back from it, source type and status included |
| CollectionApi.GetLogs | src/SubsidyTracker.API/Controllers/CollectionController.cs:22-39 | the DTOs of exactly the repository's most recent logs, one per log in the same order: `count` entries when that many logs are stored, all of them when fewer are or the count is negative, none for 0; newest start first |
| CollectionApi.RecentAreLogs | src/SubsidyTracker.Data/Repositories/CollectionLogRepository.cs:26-32 | the recent logs are stored logs |
| CollectionApi.GetLogsListsAll | src/SubsidyTracker.API/Controllers/CollectionController.cs:22-39 | a negative count, or one at least the number of logs, lists every stored log |
| CollectionApi.GetSources | src/SubsidyTracker.API/Controllers/CollectionController.cs:54-58 | one name per registered collector, each of which finds a collector when triggered |
| CollectionApi.RegistriesHaveDistinctNames | src/SubsidyTracker.API/Program.cs:41-42 | no two collectors of either host share a name, ignoring case |
| CollectionApi.SourcesTriggerTheirCollector | src/SubsidyTracker.API/Controllers/CollectionController.cs:44-57 | with distinct names, triggering the i-th listed source runs the i-th collector |
| CollectionApi.CountMessage | src/SubsidyTracker.API/Controllers/CollectionController.cs:51 | the count reads back from the success message |
| CollectionApi.Trigger | src/SubsidyTracker.API/Controllers/CollectionController.cs:41-52 | an unknown name is a 404 with its message and changes nothing; a known one runs that collector once, answering 200 with the count it returned and the name as given, or letting its exception escape |
| CollectionApi.CrawlerOnlyInWorker | src/SubsidyTracker.API/Program.cs:41-42 | the API host cannot trigger the crawler and touches nothing, while the background host finds it |
| SearchParams.Get | web/src/components/SearchFilter.tsx:17 | a value found belongs to a pair with that name; nothing is found exactly when no pair has the name |
| SearchParams.Delete | web/src/components/SearchFilter.tsx:21 | afterwards no pair has the name, and every other name reads and counts as before |
| SearchParams.Set | web/src/components/Pagination.tsx:18 | afterwards exactly one pair has the name, holding the value, other names read as before, and deleting the name again gives what deleting it before would have |
| SearchParams.DeleteAbsent | web/src/components/SearchFilter.tsx:21 | deleting a name no pair carries changes nothing |
| JsNumber.Number | web/src/app/page.tsx:72-75 | a query value converts to a number exactly when it is empty or an optionally signed run of digits |
| JsNumber.NumberOfToString | web/src/lib/api.ts:14-15 | a number written out converts back to itself |
| SubsidiesClient.SetIfGiven | web/src/lib/api.ts:13-15 | a truthy value is set under its name and nothing else changes; anything else leaves the parameters alone |
| SubsidiesClient.SetCriteriaSends | web/src/lib/api.ts:13-15 | the criteria calls set exactly the truthy keyword, region and category, leaving every other name alone |
| SubsidiesClient.SetSortSends | web/src/lib/api.ts:16-20 | a named sort sets `sortBy` and a direction, `false` only for the deadline sort; no sort sets neither |
| SubsidiesClient.SetPageSends | web/src/lib/api.ts:21-22 | the page and page size are always sent, defaulting to 1 and 20 |
| SubsidiesClient.SetFilterSends | web/src/lib/api.ts:12-22 | starting from no parameters, each name ends up with exactly what the filter sends |
| SubsidiesClient.SubsidiesParams | web/src/lib/api.ts:11-23 | the query string carries exactly what the filter sends under each name |
| SubsidiesClient.GetSubsidies | web/src/lib/api.ts:23 | the request goes to the listing endpoint with those parameters |
| SubsidiesClient.BindListArgs | src/SubsidyTracker.API/Controllers/SubsidiesController.cs:20-29 | a bound request has the declared defaults: page 1 and size 20 when absent, descending unless `sortDescending` says otherwise; every bound page, size and id fits in 32 bits, since a number outside `int` fails binding |
| SubsidiesClient.BindIntOf | src/SubsidyTracker.API/Controllers/SubsidiesController.cs:21-22 | a number the client writes binds back to itself when it fits in 32 bits, and fails binding (a 400) otherwise |
| SubsidiesClient.BindOptionalIntOf | src/SubsidyTracker.API/Controllers/SubsidiesController.cs:24-25 | a region or category id the client sends binds to itself when it fits in 32 bits and fails binding otherwise; one it leaves out binds to null |
| SubsidiesClient.BindBoolOf | src/SubsidyTracker.API/Controllers/SubsidiesController.cs:29 | the direction the client sends binds to ascending exactly for the deadline sort |
| SubsidiesClient.BindsParts | src/SubsidyTracker.API/Controllers/SubsidiesController.cs:20-29 | once each parameter binds to its intended part, the whole request binds to the intended arguments |
| SubsidiesClient.SentValues | web/src/lib/api.ts:13-22 | what the client sends under each name it uses |
| SubsidiesClient.BindsSent | src/SubsidyTracker.API/Controllers/SubsidiesController.cs:20-29 | any query carrying exactly what the filter sends binds to the filter's intended arguments, where a blank keyword or sort name binds to null, exactly when every number sent fits in 32 bits; otherwise binding fails and the endpoint answers 400 |
| SubsidiesClient.ClientRequestBinds | web/src/lib/api.ts:11-23 | every request the client builds whose page, size and ids fit in 32 bits binds, and the endpoint sees the truthy criteria (a blank keyword or sort name as null), the page and size with their defaults, and the chosen sort and direction; any other request fails binding, so `/?page=3000000000` gets a 400 |
| SubsidiesClient.DeadlineSortIsKnown | web/src/lib/api.ts:19 | the client's deadline sort name selects the deadline column in the repository |
| SubsidiesClient.ClientSortOrder | web/src/lib/api.ts:16-20 | the deadline sort lists the nearest deadline first; no sort lists the newest rows first |
| PaginationView.Numbers | web/src/components/Pagination.tsx:26 | the consecutive page numbers from start through end, none when end is before start |
| PaginationView.NumberedLinks | web/src/components/Pagination.tsx:60-73 | one button per number of the window, marked exactly when it is the current page |
| PaginationView.Render | web/src/components/Pagination.tsx:22-113 | nothing is drawn exactly when there is at most one page; otherwise "previous" is enabled exactly past the first page and "next" before the last, and only while no navigation is pending; a pending navigation disables the small screen's buttons and the wide screen's numbered window, while the first-page and last-page shortcuts outside the window stay clickable; at most three buttons show on small screens; for a page within range the wide bar reaches every page and the small bar lists the current one |
| PaginationView.DesktopEnabled | web/src/components/Pagination.tsx:48-87 | one flag per wide-screen item: every button is enabled while nothing is pending, and during a navigation a button stays enabled exactly when its page lies outside the numbered window (the first-page and last-page shortcuts) |
| PaginationView.Mobile | web/src/components/Pagination.tsx:29-34 | at most three buttons on small screens, all to existing pages |
| PaginationView.GoToPage | web/src/components/Pagination.tsx:16-20 | a button keeps every query parameter and replaces only the page |
| PaginationView.WindowsHoldPage | web/src/components/Pagination.tsx:24-30 | both windows contain the current page, stay within the pages there are, and hold at most five and three pages |
| PaginationView.CurrentPageMarked | web/src/components/Pagination.tsx:60-105 | on the wide screen a button is marked exactly when it is the current page, and the small screen shows the current page marked |
| PaginationView.DesktopCoversEveryPage | web/src/components/Pagination.tsx:48-87 | every page has a button or lies behind an ellipsis between two buttons around it |
| PaginationView.DesktopGapsHidePages | web/src/components/Pagination.tsx:48-87 | an ellipsis always stands between two buttons with at least one page between them |
| PaginationView.ButtonsMatchEnvelope | web/src/components/Pagination.tsx:38-110 | "previous" and "next" are enabled exactly when the listing envelope reports those pages |
| SearchFilterBar.ApplyOne | web/src/components/SearchFilter.tsx:24-25 | a truthy override sets its name, any other removes it, and other names are untouched |
| SearchFilterBar.ApplyAll | web/src/components/SearchFilter.tsx:23-26 | for each name the last override wins, and names without one keep their value |
| SearchFilterBar.ApplyFilters | web/src/components/SearchFilter.tsx:19-31 | as `ApplyAll`, with the page removed unless an override sets it |
| SearchFilterBar.ChangeOneFilter | web/src/components/SearchFilter.tsx:19-36 | changing one filter sets or removes it, drops the page and keeps every other parameter |
| SearchFilterBar.SearchShowsReset | web/src/components/SearchFilter.tsx:33-86 | searching a non-empty keyword shows the reset button, keeps the region and category and drops the page |
| SearchFilterBar.ClearingLastFilterHidesReset | web/src/components/SearchFilter.tsx:84-86 | clearing the keyword with no region or category chosen hides the reset button |
| SearchFilterBar.ResetClearsEverything | web/src/components/SearchFilter.tsx:84-91 | after a reset there is nothing to reset and the search box is empty; filters chosen afterwards make up the whole query, nothing from before the reset survives, and the reset button returns exactly when a keyword, region or category is chosen |
| HomePage.FindRegion | web/src/app/page.tsx:90-97 | a name found is the name of some region, at any depth, with the requested id; nothing is found only when no top-level region has the id |
| HomePage.FirstNameConcat | web/src/app/page.tsx:90-97 | the first match in two walks laid end to end is the first walk's, else the second's |
| HomePage.FirstNameIsAName | web/src/app/page.tsx:90-97 | a first match is the name of some node of the walk |
| HomePage.FindRegionIsFirstInWalk | web/src/app/page.tsx:90-97 | when no region name is empty, the search finds the first match of a depth-first, parent-before-children walk |
| HomePage.MetadataFollowsHeading | web/src/app/page.tsx:50-54 | the page has metadata exactly when the heading has parts, and then the title is the heading followed by the site name |
| HomePage.HeadingStartsWithKeyword | web/src/app/page.tsx:83-103 | a keyword comes first in the heading, in double quotes |
| HomePage.HeadingNamesRegion | web/src/app/page.tsx:89-103 | a region found under a non-empty name is named in the heading |
| HomePage.UnknownIdsAddNothing | web/src/app/page.tsx:85-99 | ids that match no category or region contribute nothing, leaving only the keyword |
| HomePage.MetadataWithoutLists | web/src/app/page.tsx:24-50 | when both lists fail to load, the metadata names only the keyword, and there is none without one |
| HomePage.HomeFilter | web/src/app/page.tsx:70-77 | the listing asks for pages of 20, and for the query's page when it is a truthy number, else the first |
| HomePage.BareListing | web/src/app/page.tsx:70-77 | the bare listing asks for the first page of 20, newest first, with no criteria |
| HomePage.PageButtonRequestsPage | web/src/app/page.tsx:70-77 | a page button leads to a request for that page with every other argument unchanged |
| HomePage.FilterChangeRequestsFirstPage | web/src/components/SearchFilter.tsx:21 | changing the keyword, region or category leads to a request for the first page |

## Left out

- HTTP requests, headers, `JsonDocument` parsing and the crawler's XPath selection are not modelled. A collector receives each page as an already-parsed value, and the crawler receives the node list of each selector.
- `DateTime.TryParse`, `WebUtility.HtmlDecode` and `string.GetHashCode` are uninterpreted parameters. The first is culture-dependent; the last is randomised per process. For that reason the crawler's deduplication is only claimed within one process (`BokjiroCrawler.RecrawlAddsNothing` fixes one hash function).
- `Task.Delay`, rate limiting, the worker's interval loop and the Hangfire job are not modelled. Cancellation is an input: one flag per page or collector, saying whether it was requested at that check.
- Overlapping runs (a manual trigger racing the schedule) are concurrency and are not modelled.
- Dependency injection and host wiring are not modelled. The two hosts' registration orders are used as constants.
- Logging calls are not modelled.
- `CloseMissingAsync` has no implementation in the repository. `Catalog.CloseMissing` gives it an assumed contract: rows of that source type whose external id is present and not listed, and that are not already closed, become `Closed`; the count of such rows is returned.
- `TargetGroupMapping` and the youth collector's `ResolveCategoryCode` are never called. Their tables appear only as data (`Mapping.YouthClassTable`, `Mapping.UserClassTable`), not as pipeline behaviour.
- The generated migration duplicates the schema and seed, and is not modelled separately.
- `sitemap.ts`, the layout, loading, error and not-found pages, `MobileNav`, `ThemeToggle`, `SubsidyCard` and the TypeScript types are not modelled. They are network loops or markup only.
- The `isPending` flag of the search form is not modelled. It only disables the form's submit button while a navigation is in flight (SearchFilter.tsx:50). In the pagination bar it is modelled as `PaginationView.Render`'s `pending` input.
- Database collation and PostgreSQL null ordering are not modelled. Sorting nullable dates follows SQLite, where nulls come first in ascending order. Text compares by code point.
- Case-insensitive comparisons fold ASCII letters only.
- `Domain` states the schema's length bounds as a predicate, but inserts do not enforce them (SQLite does not).
- Arithmetic is on unbounded integers. The repository's `(Page - 1) * PageSize` is not wrapped to 32 bits. The client's numbers are whole numbers of any size, not doubles, so the loss of precision beyond 2^53 is not modelled; the endpoint's binding does reject numbers outside 32 bits.
- `JsNumber.Number`: `Number(text)` is modelled only for an empty string and an optionally signed run of decimal digits. Fractions (`1.5`), exponents (`1e3`), hexadecimal (`0x10`), `Infinity` and text with surrounding white space read as `NaN` here, while JavaScript gives them a number. For such a `page` the model sends page 1, where the page would send the converted number (and a fraction would then fail the endpoint's `int` binding).
- `URLSearchParams` percent-encoding and the `toString` round trip are not modelled. A query string is its list of name–value pairs. Repeated query parameters, which Next.js hands to the page as arrays, are not modelled.
- `SubsidiesClient.BindListArgs`: the web client never sends `targetGroupId` or `status`, so binding those two parameters is not modelled.
- Writes other than adding a log are assumed to succeed. The collectors catch a failing subsidy `AddAsync` or `UpdateAsync` and count the item skipped, but a failed `Add` stays tracked by the shared context, so every later save of the run fails as well. A failing log `UpdateAsync` in the completion step enters the `Failed` path, whose own `UpdateAsync` then throws out of the collector with the log still `Running`.
- `Youth.Collect`, `PublicData.Collect`, `BokjiroCrawler.Collect`: "an exception escapes only from adding the log" holds only under that assumption. A failing log update at YouthCenterCollector.cs:283, PublicDataCollector.cs:268 or BokjiroCrawler.cs:157 also escapes.
- `Youth.CollectClosesLog`, `PublicData.CollectClosesLog`, `BokjiroCrawler.CollectClosesLog`: "every run leaves its log closed" holds only when the log updates succeed. When the update in the `Failed` path throws, the log stays `Running` and the exception escapes.
- `Collecting.Apply`: a partly merged youth row is written at once. In the source it sits changed in the shared context until the next save (the next item's write, the closure or the log update), which writes it then. The end state is the same whenever a later save succeeds.
- `SubsidyQuery.PageOf`, `SubsidyQuery.GetAll`, `SubsidyQuery.PageHasRows`, `SubsidiesApi.GetAll`, `Logs.GetRecent`, `CollectionApi.GetLogs`: a negative page size or count follows SQLite, the development database, which reads a negative `LIMIT` as no limit. PostgreSQL, used in production, rejects a negative `LIMIT` with an error, and that error is not modelled.
- `SubsidiesApi.SearchEndpoint`: model validation is modelled only for `keyword`. The automatic 400's problem-details body is reduced to the field name. A `page` or `pageSize` that does not convert to an integer is not modelled.
- `BokjiroCrawler.SourceUrl`: `link.StartsWith("http")` is modelled as an ordinal prefix test. The source's overload compares with the current culture, which ignores zero-weight code points such as a soft hyphen, so a link like "\u00ADhttp://x" counts as absolute there and is kept without the origin. `BokjiroCrawler.SourceUrlIsAbsolute` holds for the ordinal test only.
- `SubsidyQuery.ItemOnItsPage`: every page is cut from one sorted listing, in which rows with equal sort keys keep one fixed order. The repository sends a separate query for each page, and it orders by a key that need not be unique (`CreatedAt` is shared by rows of one run, deadlines are mostly null and titles repeat), with no tie-breaker. The database may order tied rows differently on each query, so across real page requests a tied row can be skipped or shown twice. The model does not promise anything about that case.
- `Youth.CollectClosesLog`, `PublicData.CollectClosesLog`, `BokjiroCrawler.CollectClosesLog`, `Youth.Decide`, `PublicData.Decide`, `Youth.NewRecord`, `PublicData.NewRecord`, `BokjiroCrawler.Decide`: the clock is read once per run (`Env.now`). That one reading is the log's start and completion time, every staleness test, the new records' `CreatedAt` and `UpdatedAt`, and the stamp `Catalog.Update` writes. The source reads `DateTime.UtcNow` afresh at each of these places (YouthCenterCollector.cs:93, 183, 269 and 282; PublicDataCollector.cs:107, 182, 254 and 267; BokjiroCrawler.cs:41, 145 and 156; Subsidy.cs:30-31; SubsidyRepository.cs:60). So a real run has a positive length, and a row can turn stale partway through a run. The model's zero-length runs and its single staleness instant are a simplification, and the contracts promise nothing about clocks that advance within a run.
- `Paging.TotalPages`: stated only for a positive page size. With a page size of 0 or less, the source divides a `double` by a non-positive number, and that case is not modelled.
- `HomePage.FindRegion`: "nothing found" is stated only for the top-level regions. Below the top level, a match whose name is empty counts as "not found" in JavaScript: its subtree's search stops there, and a later match in that subtree is never seen.

## Findings

| source | as written | input that shows it | evidently intended | confidence | as-written member | corrected member |
|---|---|---|---|---|---|---|
| src/SubsidyTracker.API/Controllers/SubsidiesController.cs:91-92 | `Search` cuts the page with `Math.Min(pageSize, 100)` but echoes the requested `pageSize` in the envelope | keyword matching 250 rows, `pageSize=1000`, `page=1`: 100 rows are shown, `TotalPages` is 1 and `HasNextPage` is false, so the other 150 rows cannot be reached by paging | echo the capped size, as `GetAll` does at line 52 | not executed | SubsidiesApi.SearchAsWritten, SubsidiesApi.SearchEndpoint, SubsidiesApi.SearchAsWrittenHidesRows | SubsidiesApi.Search, SubsidiesApi.CorrectedSearchEndpoint, SubsidiesApi.SearchNextPageIsAccurate |
