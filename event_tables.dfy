/**
 * The `events` and `event_registrations` tables and the queries the event
 * actions run on them: confirmed/waitlisted counts per event, the largest
 * waitlist position, and the waitlisted row with the lowest position
 * (`ORDER BY waitlist_position ASC LIMIT 1`, where NULL sorts last).
 */
module EventTables {
  import opened Wrappers
  import opened Tables

  datatype EventStatus = Draft | Published | EventCancelled

  datatype RegStatus = Confirmed | Waitlisted | Cancelled

  /** A row of `events`; instants are milliseconds since the epoch. */
  datatype Event = Event(
    id: int,
    title: string,
    slug: string,
    description: string,
    shortDescription: Option<string>,
    eventDate: int,
    location: string,
    locationAddress: Option<string>,
    maxAttendees: int,
    status: EventStatus,
    updatedAt: int)

  /** A row of `event_registrations`. */
  datatype Registration = Registration(
    id: int,
    eventId: int,
    email: string,
    firstName: string,
    lastName: Option<string>,
    status: RegStatus,
    waitlistPosition: Option<int>,
    confirmationToken: string,
    registeredAt: int,
    cancelledAt: Option<int>)

  /** Rows of `eventId` in `status`. */
  function InStatus(eventId: int, status: RegStatus): Registration -> bool {
    (r: Registration) => r.eventId == eventId && r.status == status
  }

  /** `count()` of the rows of `eventId` in `status`. */
  function StatusCount(regs: seq<Registration>, eventId: int, status: RegStatus): nat {
    CountWhere(regs, InStatus(eventId, status))
  }

  function ConfirmedCount(regs: seq<Registration>, eventId: int): nat {
    StatusCount(regs, eventId, Confirmed)
  }

  predicate IsWaitlistedFor(r: Registration, eventId: int) {
    r.eventId == eventId && r.status == Waitlisted
  }

  /**
   * `max(waitlist_position)` over the waitlisted rows of `eventId`:
   * NULL (`None`) when none of them has a position.
   */
  function MaxWaitlistPosition(regs: seq<Registration>, eventId: int): (m: Option<int>)
    ensures m.None? <==> forall k :: 0 <= k < |regs| && IsWaitlistedFor(regs[k], eventId) ==> regs[k].waitlistPosition.None?
    ensures m.Some? ==> forall k :: 0 <= k < |regs| && IsWaitlistedFor(regs[k], eventId) && regs[k].waitlistPosition.Some? ==>
      regs[k].waitlistPosition.value <= m.value
    ensures m.Some? ==> exists k :: 0 <= k < |regs| && IsWaitlistedFor(regs[k], eventId) && regs[k].waitlistPosition == m
  {
    if regs == [] then None
    else
      var init := regs[..|regs| - 1];
      var last := regs[|regs| - 1];
      assert forall k :: 0 <= k < |init| ==> init[k] == regs[k];
      var m := MaxWaitlistPosition(init, eventId);
      if IsWaitlistedFor(last, eventId) && last.waitlistPosition.Some?
         && (m.None? || m.value < last.waitlistPosition.value)
      then last.waitlistPosition
      else m
  }

  /** Position order of `ORDER BY waitlist_position ASC`: NULL comes after every number. */
  predicate PositionBefore(a: Option<int>, b: Option<int>) {
    a.Some? && (b.None? || a.value < b.value)
  }

  /**
   * Index of the waitlisted row of `eventId` with the lowest position (the
   * first such row on a tie), or `None` when the event has no waitlisted row.
   */
  function LowestWaitlisted(regs: seq<Registration>, eventId: int): (r: Option<nat>)
    ensures r.Some? ==> r.value < |regs| && IsWaitlistedFor(regs[r.value], eventId)
    ensures r.Some? ==> forall k :: 0 <= k < |regs| && IsWaitlistedFor(regs[k], eventId) ==>
      !PositionBefore(regs[k].waitlistPosition, regs[r.value].waitlistPosition)
    ensures r.None? <==> forall k :: 0 <= k < |regs| ==> !IsWaitlistedFor(regs[k], eventId)
  {
    if regs == [] then None
    else
      var n := |regs| - 1;
      var init := regs[..n];
      assert forall k :: 0 <= k < |init| ==> init[k] == regs[k];
      var best := LowestWaitlisted(init, eventId);
      if IsWaitlistedFor(regs[n], eventId)
         && (best.None? || PositionBefore(regs[n].waitlistPosition, regs[best.value].waitlistPosition))
      then Some(n)
      else best
  }

  /** Primary keys are distinct. */
  ghost predicate UniqueIds(regs: seq<Registration>) {
    forall i, j :: 0 <= i < j < |regs| ==> regs[i].id != regs[j].id
  }

  /** Confirmation tokens are distinct, so a token names one registration. */
  ghost predicate UniqueTokens(regs: seq<Registration>) {
    forall i, j :: 0 <= i < j < |regs| ==> regs[i].confirmationToken != regs[j].confirmationToken
  }

  /** At most one row per (event, email). */
  ghost predicate OneRowPerAttendee(regs: seq<Registration>) {
    forall i, j :: 0 <= i < j < |regs| ==> regs[i].eventId != regs[j].eventId || regs[i].email != regs[j].email
  }

  /** A waitlisted row holds a position of at least 1, a confirmed row none. */
  ghost predicate PositionsWellFormed(regs: seq<Registration>) {
    forall k :: 0 <= k < |regs| ==>
      (regs[k].status == Waitlisted ==> regs[k].waitlistPosition.Some? && regs[k].waitlistPosition.value >= 1)
      && (regs[k].status == Confirmed ==> regs[k].waitlistPosition.None?)
  }

  /** No two waitlisted rows of one event share a position. */
  ghost predicate DistinctPositions(regs: seq<Registration>) {
    forall i, j :: 0 <= i < j < |regs| && regs[i].status == Waitlisted && regs[j].status == Waitlisted && regs[i].eventId == regs[j].eventId ==>
      regs[i].waitlistPosition != regs[j].waitlistPosition
  }

  /** The invariant the registration actions keep on the table. */
  ghost predicate RowsValid(regs: seq<Registration>) {
    UniqueIds(regs) && UniqueTokens(regs) && OneRowPerAttendee(regs)
    && PositionsWellFormed(regs) && DistinctPositions(regs)
  }

  /** Every id is below the next value of the id sequence. */
  ghost predicate IdsBelow(regs: seq<Registration>, nextId: int) {
    forall k :: 0 <= k < |regs| ==> regs[k].id < nextId
  }

  /** No row holds `token` yet. */
  ghost predicate FreshToken(regs: seq<Registration>, token: string) {
    forall k :: 0 <= k < |regs| ==> regs[k].confirmationToken != token
  }

  /** Index of the registration holding `token`. */
  function FindByToken(regs: seq<Registration>, token: string): Option<nat> {
    FirstIndex(regs, (r: Registration) => r.confirmationToken == token)
  }

  /** Index of the registration with primary key `id`. */
  function FindRegistrationById(regs: seq<Registration>, id: int): Option<nat> {
    FirstIndex(regs, (r: Registration) => r.id == id)
  }

  /** Index of the registration of `email` for `eventId`. */
  function FindAttendee(regs: seq<Registration>, eventId: int, email: string): Option<nat> {
    FirstIndex(regs, (r: Registration) => r.eventId == eventId && r.email == email)
  }

  /** Index of the event with primary key `id`. */
  function FindEventById(events: seq<Event>, id: int): Option<nat> {
    FirstIndex(events, (e: Event) => e.id == id)
  }

  /** Index of the first event with `slug`. */
  function FindEventBySlug(events: seq<Event>, slug: string): Option<nat> {
    FirstIndex(events, (e: Event) => e.slug == slug)
  }

  /** Event primary keys are distinct. */
  ghost predicate UniqueEventIds(events: seq<Event>) {
    forall i, j :: 0 <= i < j < |events| ==> events[i].id != events[j].id
  }

  /** No two events share a slug. */
  ghost predicate UniqueSlugs(events: seq<Event>) {
    forall i, j :: 0 <= i < j < |events| ==> events[i].slug != events[j].slug
  }

  ghost predicate EventIdsBelow(events: seq<Event>, nextId: int) {
    forall k :: 0 <= k < |events| ==> events[k].id < nextId
  }

  /** The `ORDER BY event_date` key. */
  const ByEventDate: Event -> int := (e: Event) => e.eventDate
}
