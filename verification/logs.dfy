/**
 * The collection-log repository: a log row is added when a run starts, overwritten when it ends,
 * and the most recent rows are listed newest first. Rows are kept in insertion order and the
 * identity column numbers them 1, 2, 3, ...
 */
module Logs {
  import opened Wrappers
  import opened Domain
  import opened Sorting
  import opened SeqOps

  type LogTable = seq<CollectionLog>

  /** Row `i` carries the identity value `i + 1`. */
  predicate WellFormed(t: LogTable) {
    forall i :: 0 <= i < |t| ==> t[i].id == i + 1
  }

  /** `AddAsync(log)`: appends the log, which the identity column numbers, and returns it. */
  function Add(t: LogTable, log: CollectionLog): (r: (LogTable, CollectionLog))
    ensures r.1 == log.(id := |t| + 1)
    ensures |r.0| == |t| + 1 && r.0[..|t|] == t && r.0[|t|] == r.1
    ensures WellFormed(t) ==> WellFormed(r.0)
  {
    var row := log.(id := |t| + 1);
    (t + [row], row)
  }

  /** `UpdateAsync(log)`: writes the log over the row with its id; no such row is a failure. */
  function Update(t: LogTable, log: CollectionLog): (r: Option<LogTable>)
    ensures r.Some? <==> exists k :: 0 <= k < |t| && t[k].id == log.id
    ensures r.Some? ==> |r.value| == |t|
    ensures r.Some? ==> forall k :: 0 <= k < |t| ==> r.value[k] == if t[k].id == log.id then log else t[k]
  {
    if exists k :: 0 <= k < |t| && t[k].id == log.id then
      Some(seq(|t|, k requires 0 <= k < |t| => if t[k].id == log.id then log else t[k]))
    else None
  }

  /** Overwriting a row keeps the numbering, and a lookup by that id sees the new log. */
  lemma UpdateOfAdded(t: LogTable, log: CollectionLog, final: CollectionLog)
    requires WellFormed(t)
    requires final.id == Add(t, log).1.id
    ensures Update(Add(t, log).0, final).Some?
    ensures var u := Update(Add(t, log).0, final).value;
      WellFormed(u) && u[..|t|] == t && u[|t|] == final
  {
    var t1 := Add(t, log).0;
    assert t1[|t|].id == final.id;
    assert forall k :: 0 <= k < |t| ==> t1[k].id != final.id;
  }

  /** The default number of logs `GetRecentAsync` lists. */
  const DefaultRecentCount := 10

  /** Newest first: the order of `OrderByDescending(l => l.StartedAt)`. */
  const NewestFirst := Flip(ByInt((l: CollectionLog) => l.startedAt))

  /**
   * `GetRecentAsync(count)`: at most `count` logs, newest first, or all of them for a negative
   * count (SQLite's unbounded `LIMIT`); every log left out started no later than every log listed.
   */
  function GetRecent(t: LogTable, count: int): (r: seq<CollectionLog>)
    ensures |r| == if count < 0 || count >= |t| then |t| else count
    ensures forall i, j :: 0 <= i < j < |r| ==> r[i].startedAt >= r[j].startedAt
    ensures exists rest: seq<CollectionLog> ::
      && multiset(r) + multiset(rest) == multiset(t)
      && (forall x, y :: x in rest && y in r ==> x.startedAt <= y.startedAt)
  {
    var sorted := NewestFirstSort(t);
    var r := Take(sorted, count);
    var rest := sorted[|r|..];
    assert r == sorted[..|r|];
    NewestFirstSplit(sorted, |r|);
    assert multiset(r) + multiset(rest) == multiset(t);
    assert forall x, y :: x in rest && y in r ==> x.startedAt <= y.startedAt;
    r
  }

  /** The logs sorted newest first. */
  function NewestFirstSort(t: LogTable): (r: seq<CollectionLog>)
    ensures multiset(r) == multiset(t) && |r| == |t|
    ensures forall i, j :: 0 <= i < j < |r| ==> r[i].startedAt >= r[j].startedAt
  {
    FlipIsTotalPreorder(ByInt((l: CollectionLog) => l.startedAt));
    var r := SortBy(t, NewestFirst);
    assert SortedBy(r, NewestFirst);
    r
  }

  /** Cutting a newest-first sequence leaves no later start behind the cut than before it. */
  lemma NewestFirstSplit(sorted: seq<CollectionLog>, n: nat)
    requires n <= |sorted|
    requires forall i, j :: 0 <= i < j < |sorted| ==> sorted[i].startedAt >= sorted[j].startedAt
    ensures multiset(sorted[..n]) + multiset(sorted[n..]) == multiset(sorted)
    ensures forall x, y :: x in sorted[n..] && y in sorted[..n] ==> x.startedAt <= y.startedAt
  {
    var r, rest := sorted[..n], sorted[n..];
    assert sorted == r + rest;
    forall x, y | x in rest && y in r ensures x.startedAt <= y.startedAt {
      var i :| 0 <= i < |rest| && rest[i] == x;
      var j :| 0 <= j < |r| && r[j] == y;
      assert sorted[j] == y && sorted[n + i] == x;
    }
  }

  /** Listing more logs than there are lists every one of them. */
  lemma GetRecentAll(t: LogTable, count: int)
    requires count < 0 || count >= |t|
    ensures multiset(GetRecent(t, count)) == multiset(t)
  {
    var r := GetRecent(t, count);
    var rest: seq<CollectionLog> :| multiset(r) + multiset(rest) == multiset(t)
      && (forall x, y :: x in rest && y in r ==> x.startedAt <= y.startedAt);
    assert |multiset(rest)| == 0;
  }
}
