/**
 * `getEventsWithCounts` of the events page: the upcoming events, each with
 * its confirmed count taken from one grouped query.
 */
module EventsPage {
  import opened EventTables
  import opened EventQueries

  /**
   * `SELECT event_id, count(*) … WHERE event_id IN ids AND status =
   * 'confirmed' GROUP BY event_id`: one row per listed event that has a
   * confirmed registration. SQL fixes no row order; this one follows `ids`.
   */
  function GroupedConfirmedCounts(regs: seq<Registration>, ids: seq<int>): (rows: seq<(int, nat)>)
    ensures forall j :: 0 <= j < |rows| ==>
      rows[j].0 in ids && rows[j].1 == ConfirmedCount(regs, rows[j].0) && rows[j].1 > 0
    ensures forall i, j :: 0 <= i < j < |rows| ==> rows[i].0 != rows[j].0
  {
    if ids == [] then []
    else
      var rest := GroupedConfirmedCounts(regs, ids[1..]);
      var n := ConfirmedCount(regs, ids[0]);
      if ids[0] in ids[1..] || n == 0 then rest
      else [(ids[0], n)] + rest
  }

  /** Every listed event with a confirmed registration has its group row. */
  lemma {:induction false} GroupedConfirmedCountsComplete(regs: seq<Registration>, ids: seq<int>, k: nat)
    requires k < |ids| && ConfirmedCount(regs, ids[k]) > 0
    ensures exists j :: 0 <= j < |GroupedConfirmedCounts(regs, ids)| && GroupedConfirmedCounts(regs, ids)[j].0 == ids[k]
  {
    var rows := GroupedConfirmedCounts(regs, ids);
    var rest := GroupedConfirmedCounts(regs, ids[1..]);
    var skip := ids[0] in ids[1..] || ConfirmedCount(regs, ids[0]) == 0;
    if k == 0 && !skip {
      assert rows[0].0 == ids[0];
    } else {
      var m: nat;
      if k == 0 {
        m :| m < |ids[1..]| && ids[1..][m] == ids[0];
      } else {
        m := k - 1;
      }
      GroupedConfirmedCountsComplete(regs, ids[1..], m);
      var j :| 0 <= j < |rest| && rest[j].0 == ids[1..][m];
      if skip {
        assert rows[j].0 == ids[k];
      } else {
        assert rows[j + 1].0 == ids[k];
      }
    }
  }

  /**
   * The `for (const row of confirmedCounts) countMap.set(row.eventId,
   * row.count)` loop: every row's key is in the map and every entry comes
   * from a row with that key.
   */
  method BuildCountMap(rows: seq<(int, nat)>) returns (countMap: map<int, int>)
    ensures forall j :: 0 <= j < |rows| ==> rows[j].0 in countMap
    ensures forall id :: id in countMap ==> exists j :: 0 <= j < |rows| && rows[j] == (id, countMap[id])
  {
    countMap := map[];
    for i := 0 to |rows|
      invariant forall j :: 0 <= j < i ==> rows[j].0 in countMap
      invariant forall id :: id in countMap ==> exists j :: 0 <= j < i && rows[j] == (id, countMap[id])
    {
      countMap := countMap[rows[i].0 := rows[i].1];
    }
  }

  /** `countMap.get(id) || 0`: a missing key and a zero count both read as 0. */
  function CountOrZero(countMap: map<int, int>, id: int): int {
    if id in countMap && countMap[id] != 0 then countMap[id] else 0
  }

  /** Looking up a listed event in the map built from the grouped rows gives its confirmed count. */
  lemma CountOrZeroIsCount(regs: seq<Registration>, ids: seq<int>, rows: seq<(int, nat)>, countMap: map<int, int>, k: nat)
    requires k < |ids| && rows == GroupedConfirmedCounts(regs, ids)
    requires forall j :: 0 <= j < |rows| ==> rows[j].0 in countMap
    requires forall id :: id in countMap ==> exists j :: 0 <= j < |rows| && rows[j] == (id, countMap[id])
    ensures CountOrZero(countMap, ids[k]) == ConfirmedCount(regs, ids[k])
  {
    if ConfirmedCount(regs, ids[k]) > 0 {
      GroupedConfirmedCountsComplete(regs, ids, k);
    }
  }

  /** An entry of the events page. */
  datatype EventWithCount = EventWithCount(event: Event, confirmedCount: int)

  /**
   * `getEventsWithCounts()` at time `now`: an empty list when nothing is
   * upcoming (no count query is issued), otherwise one entry per upcoming
   * event, in order, with `countMap.get(id) || 0` as its count.
   */
  method EventsWithCounts(events: seq<Event>, regs: seq<Registration>, now: int) returns (r: seq<EventWithCount>)
    ensures var upcoming := UpcomingEvents(events, now);
      && |r| == |upcoming|
      && (forall k :: 0 <= k < |r| ==>
            r[k].event == upcoming[k] && r[k].confirmedCount == ConfirmedCount(regs, upcoming[k].id))
  {
    var upcoming := UpcomingEvents(events, now);
    if |upcoming| == 0 {
      return [];
    }
    var ids := seq(|upcoming|, k requires 0 <= k < |upcoming| => upcoming[k].id);
    var rows := GroupedConfirmedCounts(regs, ids);
    var countMap := BuildCountMap(rows);
    r := seq(|upcoming|, k requires 0 <= k < |upcoming| => EventWithCount(upcoming[k], CountOrZero(countMap, upcoming[k].id)));
    forall k | 0 <= k < |upcoming| ensures r[k].confirmedCount == ConfirmedCount(regs, upcoming[k].id) {
      assert ids[k] == upcoming[k].id;
      CountOrZeroIsCount(regs, ids, rows, countMap, k);
    }
  }
}
