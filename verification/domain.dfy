/**
 * The entities of the subsidy catalog: subsidy records, the region and category vocabularies,
 * target groups, and the collection log that records each collector run.
 * Timestamps are whole seconds on one UTC clock.
 */
module Domain {
  import opened Wrappers

  type Time = int

  /** `DateTime.UtcNow.AddDays(-1)` is `now - OneDay`. */
  const OneDay: int := 86400

  datatype SourceType = PublicDataPortal | Bokjiro | YouthCenter | LocalGovernment | Manual

  datatype SubsidyStatus = Active | Upcoming | Expired | Closed

  datatype CollectionStatus = Running | Completed | PartiallyCompleted | Failed

  /** A region; top-level regions have no parent. */
  datatype Region = Region(id: int, name: string, code: string, parentId: Option<int>)

  datatype Category = Category(id: int, name: string, code: string, description: Option<string>)

  datatype TargetGroup = TargetGroup(id: int, name: string, code: string)

  /**
   * A normalised benefit listing. `targetGroupIds` are the join rows keyed on
   * (subsidy id, target group id); `updatedAt` is the clock the staleness rule reads.
   */
  datatype Subsidy = Subsidy(
    id: int,
    title: string,
    description: string,
    organization: string,
    amount: Option<string>,
    eligibilityCriteria: Option<string>,
    applicationMethod: Option<string>,
    applicationUrl: Option<string>,
    contactInfo: Option<string>,
    sourceUrl: Option<string>,
    externalId: Option<string>,
    applicationStartDate: Option<Time>,
    applicationEndDate: Option<Time>,
    status: SubsidyStatus,
    sourceType: SourceType,
    regionId: int,
    categoryId: int,
    targetGroupIds: seq<int>,
    viewCount: int,
    createdAt: Time,
    updatedAt: Time)

  /** One row per collector invocation. */
  datatype CollectionLog = CollectionLog(
    id: int,
    source: string,
    sourceType: SourceType,
    startedAt: Time,
    completedAt: Option<Time>,
    itemsCollected: int,
    itemsUpdated: int,
    itemsSkipped: int,
    status: CollectionStatus,
    errorMessage: Option<string>)

  predicate IsTerminal(s: CollectionStatus) {
    s != Running
  }

  /** The length bounds the schema puts on a subsidy's text columns. */
  predicate FitsColumns(s: Subsidy) {
    && |s.title| <= 500
    && |s.organization| <= 200
    && (s.amount.Some? ==> |s.amount.value| <= 200)
    && (s.externalId.Some? ==> |s.externalId.value| <= 100)
    && (s.applicationUrl.Some? ==> |s.applicationUrl.value| <= 500)
    && (s.sourceUrl.Some? ==> |s.sourceUrl.value| <= 500)
    && (s.contactInfo.Some? ==> |s.contactInfo.value| <= 300)
  }

  // ---------------------------------------------------------------------------------------------
  // Enum names (`ToString()`), each with its `Enum.Parse` partner
  // ---------------------------------------------------------------------------------------------

  function ParseSourceType(s: string): Option<SourceType> {
    if s == "PublicDataPortal" then Some(PublicDataPortal)
    else if s == "Bokjiro" then Some(Bokjiro)
    else if s == "YouthCenter" then Some(YouthCenter)
    else if s == "LocalGovernment" then Some(LocalGovernment)
    else if s == "Manual" then Some(Manual)
    else None
  }

  function SourceTypeName(t: SourceType): (r: string)
    ensures ParseSourceType(r) == Some(t)
  {
    match t
    case PublicDataPortal => "PublicDataPortal"
    case Bokjiro => "Bokjiro"
    case YouthCenter => "YouthCenter"
    case LocalGovernment => "LocalGovernment"
    case Manual => "Manual"
  }

  function ParseSubsidyStatus(s: string): Option<SubsidyStatus> {
    if s == "Active" then Some(Active)
    else if s == "Upcoming" then Some(Upcoming)
    else if s == "Expired" then Some(Expired)
    else if s == "Closed" then Some(Closed)
    else None
  }

  function SubsidyStatusName(s: SubsidyStatus): (r: string)
    ensures ParseSubsidyStatus(r) == Some(s)
  {
    match s
    case Active => "Active"
    case Upcoming => "Upcoming"
    case Expired => "Expired"
    case Closed => "Closed"
  }

  function ParseCollectionStatus(s: string): Option<CollectionStatus> {
    if s == "Running" then Some(Running)
    else if s == "Completed" then Some(Completed)
    else if s == "PartiallyCompleted" then Some(PartiallyCompleted)
    else if s == "Failed" then Some(Failed)
    else None
  }

  function CollectionStatusName(s: CollectionStatus): (r: string)
    ensures ParseCollectionStatus(r) == Some(s)
  {
    match s
    case Running => "Running"
    case Completed => "Completed"
    case PartiallyCompleted => "PartiallyCompleted"
    case Failed => "Failed"
  }
}
