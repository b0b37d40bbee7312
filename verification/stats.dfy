/** Per-activity minute totals of one day, counted over the recorded minutes
    only and only for activities still in the catalog. */
module Stats {
  import opened Basics
  import opened DayTimeline
  import opened ActivityCatalog

  /** Minutes in [0, n) of day d recorded for `id`. */
  function CountBelow(t: Timeline, d: Day, id: Id, n: nat): (c: nat)
    ensures c <= n
  {
    if n == 0 then 0
    else CountBelow(t, d, id, n - 1) + (if Get(t, d, n - 1) == Some(id) then 1 else 0)
  }

  /** Minutes in [0, n) of day d recorded for any activity. */
  function AssignedBelow(t: Timeline, d: Day, n: nat): (c: nat)
    ensures c <= n
  {
    if n == 0 then 0
    else AssignedBelow(t, d, n - 1) + (if Get(t, d, n - 1).Some? then 1 else 0)
  }

  /** Minutes in [0, n) of day d recorded for some id of `ids`. */
  function CountAmongBelow(t: Timeline, d: Day, ids: set<Id>, n: nat): (c: nat)
    ensures c <= AssignedBelow(t, d, n)
  {
    if n == 0 then 0
    else
      var here := Get(t, d, n - 1);
      CountAmongBelow(t, d, ids, n - 1) + (if here.Some? && here.value in ids then 1 else 0)
  }

  /** The sum of the day totals of the listed ids. */
  function SumCounts(t: Timeline, d: Day, ids: seq<Id>): (total: nat)
  {
    if ids == [] then 0 else CountBelow(t, d, ids[0], MinutesPerDay) + SumCounts(t, d, ids[1..])
  }

  function IdsOf(c: Catalog): (ids: seq<Id>)
    ensures |ids| == |c| && forall i :: 0 <= i < |c| ==> ids[i] == c[i].id
  {
    if c == [] then [] else [c[0].id] + IdsOf(c[1..])
  }

  function IdSet(c: Catalog): (ids: set<Id>)
  {
    set i | 0 <= i < |c| :: c[i].id
  }

  function SetOf(ids: seq<Id>): (r: set<Id>)
  {
    set x | x in ids
  }

  predicate Distinct(ids: seq<Id>)
  {
    forall i, j :: 0 <= i < j < |ids| ==> ids[i] != ids[j]
  }

  /** The id list of a catalog is its id set in order, and it is free of
      repeats exactly when the catalog's ids are distinct. */
  lemma IdsOfAgrees(c: Catalog)
    ensures SetOf(IdsOf(c)) == IdSet(c)
    ensures Distinct(IdsOf(c)) <==> UniqueIds(c)
  {
    var ids := IdsOf(c);
    forall x | x in IdSet(c) ensures x in SetOf(ids) {
      var i :| 0 <= i < |c| && c[i].id == x;
      assert ids[i] == x;
    }
  }

  /** The statistics loop: every catalog id starts at zero, then each minute of
      the day adds one to the id recorded for it, if that id has a counter. */
  method ActivityTimes(c: Catalog, t: Timeline, today: Day) returns (times: map<Id, nat>)
    ensures times.Keys == IdSet(c)
    ensures forall id :: id in times ==> times[id] == CountBelow(t, today, id, MinutesPerDay)
  {
    times := map id | id in IdSet(c) :: 0;
    var minute := 0;
    while minute < MinutesPerDay
      invariant 0 <= minute <= MinutesPerDay
      invariant times.Keys == IdSet(c)
      invariant forall id :: id in times ==> times[id] == CountBelow(t, today, id, minute)
    {
      var recorded := Get(t, today, minute);
      if recorded.Some? && recorded.value in times {
        times := times[recorded.value := times[recorded.value] + 1];
      }
      minute := minute + 1;
    }
  }

  /** Counting among `ids + {id}` is counting `id` plus counting among `ids`. */
  lemma {:induction false} CountAmongSplit(t: Timeline, d: Day, id: Id, ids: set<Id>, n: nat)
    requires id !in ids
    ensures CountAmongBelow(t, d, ids + {id}, n) == CountBelow(t, d, id, n) + CountAmongBelow(t, d, ids, n)
  {
    if n > 0 {
      CountAmongSplit(t, d, id, ids, n - 1);
    }
  }

  /** For distinct ids, the sum of their totals counts every minute at most
      once: it is the number of minutes recorded for one of them. */
  lemma {:induction false} SumIsCountAmong(t: Timeline, d: Day, ids: seq<Id>)
    requires Distinct(ids)
    ensures SumCounts(t, d, ids) == CountAmongBelow(t, d, SetOf(ids), MinutesPerDay)
  {
    if ids == [] {
      assert SetOf(ids) == {};
      CountAmongNone(t, d, MinutesPerDay);
    } else {
      var rest := ids[1..];
      assert Distinct(rest);
      SumIsCountAmong(t, d, rest);
      assert SetOf(ids) == SetOf(rest) + {ids[0]};
      CountAmongSplit(t, d, ids[0], SetOf(rest), MinutesPerDay);
    }
  }

  lemma {:induction false} CountAmongNone(t: Timeline, d: Day, n: nat)
    ensures CountAmongBelow(t, d, {}, n) == 0
  {
    if n > 0 {
      CountAmongNone(t, d, n - 1);
    }
  }

  /** When every recorded minute of [0, n) has an id of `ids`, counting among
      `ids` counts every recorded minute. */
  lemma {:induction false} CountAmongCovers(t: Timeline, d: Day, ids: set<Id>, n: nat)
    requires forall m :: 0 <= m < n && Get(t, d, m).Some? ==> Get(t, d, m).value in ids
    ensures CountAmongBelow(t, d, ids, n) == AssignedBelow(t, d, n)
  {
    if n > 0 {
      CountAmongCovers(t, d, ids, n - 1);
    }
  }

  /** The day totals of distinct ids never add up to more than the recorded
      minutes of the day, hence never to more than a day. */
  lemma StatsBounded(t: Timeline, d: Day, ids: seq<Id>)
    requires Distinct(ids)
    ensures SumCounts(t, d, ids) <= AssignedBelow(t, d, MinutesPerDay) <= MinutesPerDay
  {
    SumIsCountAmong(t, d, ids);
  }

  /** Over a catalog with distinct ids whose every recorded minute of the day
      belongs to a catalog activity, the totals add up to exactly the recorded
      minutes: nothing is counted twice and nothing is missed. */
  lemma StatsExact(t: Timeline, d: Day, c: Catalog)
    requires UniqueIds(c)
    requires forall m :: 0 <= m < MinutesPerDay && Get(t, d, m).Some? ==> HasId(c, Get(t, d, m).value)
    ensures SumCounts(t, d, IdsOf(c)) == AssignedBelow(t, d, MinutesPerDay)
  {
    var ids := IdsOf(c);
    IdsOfAgrees(c);
    SumIsCountAmong(t, d, ids);
    CountAmongCovers(t, d, SetOf(ids), MinutesPerDay);
  }
}
