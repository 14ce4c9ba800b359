/**
 * The subsidies table and the repository operations the collectors use: lookup by id and by
 * external id, insertion, update (which stamps `UpdatedAt`), and the closure port
 * `CloseMissing`. Rows are kept in insertion order and the identity column numbers them
 * 1, 2, 3, ...; a lookup that could match several rows answers with the first.
 */
module Catalog {
  import opened Wrappers
  import opened Domain
  import SeqOps

  type Table = seq<Subsidy>

  /** Row `i` carries the identity value `i + 1`. */
  predicate WellFormed(t: Table) {
    forall i :: 0 <= i < |t| ==> t[i].id == i + 1
  }

  predicate HasExternalId(s: Subsidy, ext: string) {
    s.externalId == Some(ext)
  }

  /**
   * No external id is stored twice. The schema does not enforce this (the index on the column is
   * not unique); the collectors keep it by looking an id up before inserting it.
   */
  predicate UniqueExternalIds(t: Table) {
    forall i, j :: 0 <= i < j < |t| && t[i].externalId.Some? ==> t[i].externalId != t[j].externalId
  }

  predicate Valid(t: Table) {
    WellFormed(t) && UniqueExternalIds(t)
  }

  // ---------------------------------------------------------------------------------------------
  // Lookups
  // ---------------------------------------------------------------------------------------------

  /** The position of the first row at or after `from` with external id `ext`. */
  function FindExternalFrom(t: Table, ext: string, from: nat): (r: Option<nat>)
    requires from <= |t|
    ensures r.Some? ==> from <= r.value < |t| && HasExternalId(t[r.value], ext)
    ensures r.Some? ==> forall k :: from <= k < r.value ==> !HasExternalId(t[k], ext)
    ensures r.None? ==> forall k :: from <= k < |t| ==> !HasExternalId(t[k], ext)
    decreases |t| - from
  {
    if from == |t| then None
    else if HasExternalId(t[from], ext) then Some(from)
    else FindExternalFrom(t, ext, from + 1)
  }

  /** `GetByExternalIdAsync`: the first row with that external id, or null. */
  function GetByExternalId(t: Table, ext: string): (r: Option<Subsidy>)
    ensures r.Some? ==> r.value in t && HasExternalId(r.value, ext)
    ensures r.None? <==> forall k :: 0 <= k < |t| ==> !HasExternalId(t[k], ext)
  {
    match FindExternalFrom(t, ext, 0)
    case Some(k) => Some(t[k])
    case None => None
  }

  /** `ExistsAsync`: does some row carry this external id? */
  function Exists(t: Table, ext: string): (r: bool)
    ensures r <==> exists k :: 0 <= k < |t| && HasExternalId(t[k], ext)
  {
    FindExternalFrom(t, ext, 0).Some?
  }

  /** The two lookups agree. */
  lemma ExistsIffFound(t: Table, ext: string)
    ensures Exists(t, ext) <==> GetByExternalId(t, ext).Some?
  {
  }

  /** When external ids are unique, the lookup finds exactly the row that holds the id. */
  lemma {:induction false} LookupFindsTheRow(t: Table, k: nat, ext: string)
    requires UniqueExternalIds(t)
    requires k < |t| && HasExternalId(t[k], ext)
    ensures GetByExternalId(t, ext) == Some(t[k])
  {
    assert forall j :: 0 <= j < k ==> t[j].externalId != t[k].externalId;
  }

  /** The first row at or after `from` with identity value `id`. */
  function FindIdFrom(t: Table, id: int, from: nat): (r: Option<nat>)
    requires from <= |t|
    ensures r.Some? ==> from <= r.value < |t| && t[r.value].id == id
    ensures r.None? ==> forall k :: from <= k < |t| ==> t[k].id != id
    decreases |t| - from
  {
    if from == |t| then None
    else if t[from].id == id then Some(from)
    else FindIdFrom(t, id, from + 1)
  }

  /** `GetByIdAsync`: the row with that id, or null. */
  function GetById(t: Table, id: int): (r: Option<Subsidy>)
    ensures r.Some? ==> r.value in t && r.value.id == id
    ensures r.None? <==> forall k :: 0 <= k < |t| ==> t[k].id != id
  {
    match FindIdFrom(t, id, 0)
    case Some(k) => Some(t[k])
    case None => None
  }

  /** In a well-formed table the id is the position: ids 1 through |t| are found, others are not. */
  lemma GetByIdIsPositional(t: Table, id: int)
    requires WellFormed(t)
    ensures GetById(t, id) == if 1 <= id <= |t| then Some(t[id - 1]) else None
  {
    if 1 <= id <= |t| {
      assert t[id - 1].id == id;
    }
  }

  // ---------------------------------------------------------------------------------------------
  // Writes
  // ---------------------------------------------------------------------------------------------

  /** `AddAsync`: appends the record; the identity column gives it the next id, and it is returned. */
  function Add(t: Table, s: Subsidy): (r: (Table, Subsidy))
    ensures r.1 == s.(id := |t| + 1)
    ensures |r.0| == |t| + 1 && r.0[..|t|] == t && r.0[|t|] == r.1
    ensures WellFormed(t) ==> WellFormed(r.0)
  {
    var row := s.(id := |t| + 1);
    (t + [row], row)
  }

  /** Adding a record whose external id is not stored yet keeps external ids unique. */
  lemma AddKeepsUnique(t: Table, s: Subsidy)
    requires UniqueExternalIds(t)
    requires s.externalId.Some? ==> !Exists(t, s.externalId.value)
    ensures UniqueExternalIds(Add(t, s).0)
  {
    var t' := Add(t, s).0;
    forall i, j | 0 <= i < j < |t'| && t'[i].externalId.Some?
      ensures t'[i].externalId != t'[j].externalId
    {
      if j == |t| {
        assert t'[i] == t[i];
      } else {
        assert t'[i] == t[i] && t'[j] == t[j];
      }
    }
  }

  /**
   * `SaveChangesAsync` for a tracked row: writes the record, as it stands, over the row with the
   * same id. Saving an id no row has fails (the database reports no row affected).
   */
  function Save(t: Table, s: Subsidy): (r: Option<Table>)
    ensures r.Some? <==> exists k :: 0 <= k < |t| && t[k].id == s.id
    ensures r.Some? ==> |r.value| == |t|
    ensures r.Some? ==> forall k :: 0 <= k < |t| && t[k].id != s.id ==> r.value[k] == t[k]
    ensures r.Some? ==> forall k :: 0 <= k < |t| && t[k].id == s.id ==> r.value[k] == s
  {
    match FindIdFrom(t, s.id, 0)
    case None => None
    case Some(_) =>
      Some(seq(|t|, k requires 0 <= k < |t| => if t[k].id == s.id then s else t[k]))
  }

  /** Saving a record over the row it was read from, with its external id kept, keeps the table valid. */
  lemma SaveKeepsValid(t: Table, k: nat, s: Subsidy)
    requires Valid(t) && k < |t|
    requires s.id == t[k].id && s.externalId == t[k].externalId
    ensures Save(t, s).Some?
    ensures Valid(Save(t, s).value)
    ensures Save(t, s).value[k] == s
  {
    var t' := Save(t, s).value;
    forall i | 0 <= i < |t'| ensures t'[i].externalId == t[i].externalId && t'[i].id == t[i].id {
    }
  }

  /**
   * `UpdateAsync`: stamps `UpdatedAt` with the current time and saves the record over the row
   * with the same id. Updating an id no row has fails (the database reports no row affected).
   */
  function Update(t: Table, s: Subsidy, now: Time): (r: Option<Table>)
    ensures r.Some? <==> exists k :: 0 <= k < |t| && t[k].id == s.id
    ensures r.Some? ==> |r.value| == |t|
    ensures r.Some? ==> forall k :: 0 <= k < |t| && t[k].id != s.id ==> r.value[k] == t[k]
    ensures r.Some? ==> forall k :: 0 <= k < |t| && t[k].id == s.id ==> r.value[k] == s.(updatedAt := now)
  {
    Save(t, s.(updatedAt := now))
  }

  /** Updating a row with a record that keeps its external id keeps the table valid. */
  lemma UpdateKeepsValid(t: Table, k: nat, s: Subsidy, now: Time)
    requires Valid(t) && k < |t|
    requires s.id == t[k].id && s.externalId == t[k].externalId
    ensures Update(t, s, now).Some?
    ensures Valid(Update(t, s, now).value)
    ensures Update(t, s, now).value[k].updatedAt == now
  {
    SaveKeepsValid(t, k, s.(updatedAt := now));
  }

  // ---------------------------------------------------------------------------------------------
  // Closure
  // ---------------------------------------------------------------------------------------------

  /**
   * The rows `CloseMissing(source, active)` closes: rows of that source whose external id was not
   * among the ids the source listed in this run and that are not closed already.
   */
  predicate IsMissing(s: Subsidy, source: SourceType, active: set<string>) {
    s.sourceType == source && s.externalId.Some? && s.externalId.value !in active && s.status != Closed
  }

  function CloseIfMissing(s: Subsidy, source: SourceType, active: set<string>): Subsidy {
    if IsMissing(s, source, active) then s.(status := Closed) else s
  }

  /**
   * `CloseMissingAsync(source, active)`: marks the missing rows `Closed` and reports how many
   * changed. Only the port is declared; this is the contract its caller relies on.
   */
  function CloseMissing(t: Table, source: SourceType, active: set<string>): (r: (Table, nat))
    ensures |r.0| == |t|
    ensures forall k :: 0 <= k < |t| ==> r.0[k] == CloseIfMissing(t[k], source, active)
    ensures r.1 <= |t|
    ensures r.1 == 0 <==> forall k :: 0 <= k < |t| ==> !IsMissing(t[k], source, active)
    ensures r.1 == SeqOps.Count(t, (s: Subsidy) => IsMissing(s, source, active))
    ensures forall k :: 0 <= k < |t| ==> (r.0[k] != t[k] <==> IsMissing(t[k], source, active))
    decreases |t|
  {
    if |t| == 0 then ([], 0)
    else
      var rest := CloseMissing(t[1..], source, active);
      var head := CloseIfMissing(t[0], source, active);
      assert forall k :: 1 <= k < |t| ==> t[k] == t[1..][k - 1];
      assert t == [t[0]] + t[1..];
      ([head] + rest.0, rest.1 + if IsMissing(t[0], source, active) then 1 else 0)
  }

  /** Closure changes only the status of the missing rows, so ids and uniqueness survive. */
  lemma CloseMissingKeepsValid(t: Table, source: SourceType, active: set<string>)
    requires Valid(t)
    ensures Valid(CloseMissing(t, source, active).0)
  {
    var t' := CloseMissing(t, source, active).0;
    assert forall k :: 0 <= k < |t| ==> t'[k].id == t[k].id && t'[k].externalId == t[k].externalId;
  }

  /** Rows of other sources, and rows the source still lists, are left exactly as they were. */
  lemma CloseMissingLeavesOthers(t: Table, source: SourceType, active: set<string>, k: nat)
    requires k < |t|
    requires t[k].sourceType != source || t[k].externalId.None? || t[k].externalId.value in active
    ensures CloseMissing(t, source, active).0[k] == t[k]
  {
  }

  /** Closing twice closes nothing the second time and changes nothing more. */
  lemma CloseMissingIdempotent(t: Table, source: SourceType, active: set<string>)
    ensures var once := CloseMissing(t, source, active).0;
      CloseMissing(once, source, active) == (once, 0)
  {
    var once := CloseMissing(t, source, active).0;
    var twice := CloseMissing(once, source, active).0;
    assert forall k :: 0 <= k < |once| ==> !IsMissing(once[k], source, active);
    assert forall k :: 0 <= k < |once| ==> twice[k] == once[k];
  }
}
