/**
 * The public event queries: `getUpcomingEvents`, `getAllEvents` and `getEventBySlug`.
 */
module EventQueries {
  import opened Wrappers
  import opened Tables
  import opened Sorting
  import opened EventTables

  /** The `WHERE status = 'published' AND event_date > now` filter. */
  predicate IsUpcoming(e: Event, now: int) {
    e.status == Published && e.eventDate > now
  }

  /** `getUpcomingEvents()` at time `now`. */
  function UpcomingEvents(events: seq<Event>, now: int): (r: seq<Event>)
    ensures |r| <= |events|
    ensures forall k :: 0 <= k < |r| ==> r[k] in events && IsUpcoming(r[k], now)
  {
    var w := Where(events, (e: Event) => IsUpcoming(e, now));
    var r := SortBy(w, ByEventDate);
    assert forall k :: 0 <= k < |r| ==> r[k] in w by {
      forall k | 0 <= k < |r| ensures r[k] in w {
        SortByMembers(w, ByEventDate, r[k]);
      }
    }
    r
  }

  /** `getAllEvents()`: every event, whatever its status, by ascending date. */
  function GetAllEvents(events: seq<Event>): (r: seq<Event>)
    ensures multiset(r) == multiset(events)
    ensures SortedBy(r, ByEventDate)
  {
    SortBySorted(events, ByEventDate);
    SortBy(events, ByEventDate)
  }

  /**
   * The upcoming list holds exactly the published events dated after
   * `now`, earliest first.
   */
  lemma UpcomingEventsSpec(events: seq<Event>, now: int)
    ensures var r := UpcomingEvents(events, now);
      && SortedBy(r, ByEventDate)
      && (forall k :: 0 <= k < |r| ==> r[k] in events && IsUpcoming(r[k], now))
      && (forall k :: 0 <= k < |events| && IsUpcoming(events[k], now) ==> events[k] in r)
  {
    var w := Where(events, (e: Event) => IsUpcoming(e, now));
    var r := UpcomingEvents(events, now);
    SortBySorted(w, ByEventDate);
    forall k | 0 <= k < |r| ensures r[k] in events && IsUpcoming(r[k], now) {
      SortByMembers(w, ByEventDate, r[k]);
    }
    forall k | 0 <= k < |events| && IsUpcoming(events[k], now) ensures events[k] in r {
      SortByMembers(w, ByEventDate, events[k]);
    }
  }

  /** The event page's record: the event with its confirmed count and free spots. */
  datatype EventDetail = EventDetail(event: Event, confirmedCount: nat, spotsRemaining: int)

  /**
   * `getEventBySlug(slug)`: the first event with that slug, whatever its
   * status, or `null`.
   */
  function EventBySlug(events: seq<Event>, regs: seq<Registration>, slug: string): (r: Option<EventDetail>)
    ensures r.None? <==> forall k :: 0 <= k < |events| ==> events[k].slug != slug
    ensures r.Some? ==>
      && r.value.event in events && r.value.event.slug == slug
      && r.value.confirmedCount == ConfirmedCount(regs, r.value.event.id)
      && r.value.confirmedCount + r.value.spotsRemaining == r.value.event.maxAttendees
  {
    match FindEventBySlug(events, slug)
    case None => None
    case Some(i) =>
      var n := ConfirmedCount(regs, events[i].id);
      Some(EventDetail(events[i], n, events[i].maxAttendees - n))
  }

  /** With unique slugs, the detail shows the one event carrying the slug. */
  lemma EventBySlugUnique(events: seq<Event>, regs: seq<Registration>, k: nat)
    requires UniqueSlugs(events) && k < |events|
    ensures EventBySlug(events, regs, events[k].slug).Some?
    ensures EventBySlug(events, regs, events[k].slug).value.event == events[k]
  {
    var f := FindEventBySlug(events, events[k].slug);
    assert f.Some?;
  }
}
