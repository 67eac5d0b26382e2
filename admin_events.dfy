/**
 * The admin event actions: the event form schema, `createEvent`,
 * `updateEvent` and `deleteEvent` on the events table, `getEventById`,
 * and the admin lists `getAdminEvents` (with per-event counts) and
 * `getEventRegistrations`.
 */
module AdminEvents {
  import opened Wrappers
  import opened Strings
  import opened Tables
  import opened Sorting
  import opened EventTables
  import opened EventSlug

  /**
   * The submitted event form. Text fields that are missing arrive as "",
   * which each rule rejects as it rejects a missing value;
   * `maxAttendees` is `Number(...)` of the field, `None` standing for NaN.
   */
  datatype EventForm = EventForm(
    title: string,
    slug: string,
    description: string,
    shortDescription: string,
    eventDate: string,
    location: string,
    locationAddress: string,
    maxAttendees: Option<int>,
    status: string)

  datatype EventField = TitleField | SlugField | DescriptionField | EventDateField | LocationField | MaxAttendeesField | StatusField

  /** The status enum: `'draft' | 'published' | 'cancelled'`. */
  function ParseEventStatus(s: string): (r: Option<EventStatus>)
    ensures r.Some? <==> s == "draft" || s == "published" || s == "cancelled"
  {
    if s == "draft" then Some(Draft)
    else if s == "published" then Some(Published)
    else if s == "cancelled" then Some(EventCancelled)
    else None
  }

  /** The slug rule: at least three characters, all of `[a-z0-9-]`. */
  predicate ValidSlug(s: string) {
    |s| >= 3 && SlugChars(s)
  }

  /** The fields `eventSchema` rejects. */
  function EventFormErrors(f: EventForm): (errors: set<EventField>)
    ensures errors == {} <==>
      |f.title| >= 3 && ValidSlug(f.slug) && |f.description| >= 10 && |f.eventDate| >= 1
      && |f.location| >= 3 && f.maxAttendees.Some? && f.maxAttendees.value >= 1
      && ParseEventStatus(f.status).Some?
    ensures SlugField in errors <==> !ValidSlug(f.slug)
  {
    (if |f.title| < 3 then {TitleField} else {})
    + (if !ValidSlug(f.slug) then {SlugField} else {})
    + (if |f.description| < 10 then {DescriptionField} else {})
    + (if |f.eventDate| < 1 then {EventDateField} else {})
    + (if |f.location| < 3 then {LocationField} else {})
    + (if f.maxAttendees.None? || f.maxAttendees.value < 1 then {MaxAttendeesField} else {})
    + (if ParseEventStatus(f.status).None? then {StatusField} else {})
  }

  /**
   * A slug the form generates from a title passes the slug rule as soon as
   * it has three characters; the character class never fails.
   */
  lemma GeneratedSlugAccepted(title: string)
    ensures SlugChars(GenerateSlug(title))
    ensures |GenerateSlug(title)| >= 3 ==> ValidSlug(GenerateSlug(title))
  {
    GenerateSlugShape(title);
  }

  /** How an admin event action ends. */
  datatype EventActionResult = Saved | Invalid(errors: set<EventField>) | SlugTaken | ServerError

  /** The message shown; a saved event redirects to `/admin/events` instead. */
  function ActionMessage(r: EventActionResult): string {
    match r
    case Saved => ""
    case Invalid(_) => "Please fix the errors below."
    case SlugTaken => "An event with this slug already exists."
    case ServerError => "Something went wrong. Please try again."
  }

  /**
   * The stored columns of a validated form: empty optional texts become
   * NULL and `eventDate` is the parsed instant.
   */
  function FormFields(e: Event, f: EventForm, date: int): (r: Event)
    requires f.maxAttendees.Some? && ParseEventStatus(f.status).Some?
    ensures r.id == e.id && r.updatedAt == e.updatedAt
    ensures r.slug == f.slug && r.eventDate == date && r.maxAttendees == f.maxAttendees.value
    ensures r.shortDescription.None? <==> f.shortDescription == ""
    ensures r.locationAddress.None? <==> f.locationAddress == ""
  {
    e.(title := f.title, slug := f.slug, description := f.description,
       shortDescription := OptionalText(f.shortDescription), eventDate := date,
       location := f.location, locationAddress := OptionalText(f.locationAddress),
       maxAttendees := f.maxAttendees.value, status := ParseEventStatus(f.status).value)
  }

  datatype CreateOutcome = CreateOutcome(result: EventActionResult, events: seq<Event>, nextId: int)

  /**
   * `createEvent(formData)` at time `now`. `parseDate` is `new Date(s)`
   * (`None` for an invalid date, which makes the insert throw). The slug
   * check looks at every event, whatever its status.
   */
  function CreateEvent(events: seq<Event>, nextId: int, f: EventForm, parseDate: string -> Option<int>, now: int): (o: CreateOutcome)
    ensures o.result == Saved || (o.events == events && o.nextId == nextId)
    ensures EventFormErrors(f) != {} ==> o.result == Invalid(EventFormErrors(f))
    ensures EventFormErrors(f) == {} && FindEventBySlug(events, f.slug).Some? ==> o.result == SlugTaken
    ensures o.result == Saved <==>
      EventFormErrors(f) == {} && FindEventBySlug(events, f.slug).None? && parseDate(f.eventDate).Some?
    ensures o.result == Saved ==>
      && o.nextId == nextId + 1 && |o.events| == |events| + 1 && o.events[..|events|] == events
      && o.events[|events|] == FormFields(Event(nextId, "", "", "", None, 0, "", None, 0, Draft, now), f, parseDate(f.eventDate).value)
  {
    var errors := EventFormErrors(f);
    if errors != {} then CreateOutcome(Invalid(errors), events, nextId)
    else if FindEventBySlug(events, f.slug).Some? then CreateOutcome(SlugTaken, events, nextId)
    else
      match parseDate(f.eventDate)
      case None => CreateOutcome(ServerError, events, nextId)
      case Some(date) =>
        var row := FormFields(Event(nextId, "", "", "", None, 0, "", None, 0, Draft, now), f, date);
        CreateOutcome(Saved, events + [row], nextId + 1)
  }

  /** Creating keeps slugs unique, ids unique and every id below the id sequence. */
  lemma CreateEventKeepsInvariant(events: seq<Event>, nextId: int, f: EventForm, parseDate: string -> Option<int>, now: int)
    requires UniqueSlugs(events) && UniqueEventIds(events) && EventIdsBelow(events, nextId)
    ensures var o := CreateEvent(events, nextId, f, parseDate, now);
      UniqueSlugs(o.events) && UniqueEventIds(o.events) && EventIdsBelow(o.events, o.nextId)
  {
    var o := CreateEvent(events, nextId, f, parseDate, now);
    if o.result == Saved {
      var n := |events|;
      assert forall k :: 0 <= k < n ==> o.events[k] == events[k];
      assert forall k :: 0 <= k < n ==> events[k].slug != f.slug;
    }
  }

  /**
   * `UPDATE events SET … , updated_at = now WHERE id = id`: every row with
   * that id takes the form's values; no other row changes.
   */
  function UpdateWhereId(events: seq<Event>, id: int, f: EventForm, date: int, now: int): (r: seq<Event>)
    requires f.maxAttendees.Some? && ParseEventStatus(f.status).Some?
    ensures |r| == |events|
    ensures forall k :: 0 <= k < |events| ==>
      r[k] == if events[k].id == id then FormFields(events[k], f, date).(updatedAt := now) else events[k]
  {
    seq(|events|, k requires 0 <= k < |events| =>
      if events[k].id == id then FormFields(events[k], f, date).(updatedAt := now) else events[k])
  }

  /**
   * `updateEvent(id, formData)` at time `now`: the slug may be the event's
   * own but not another event's. An id that names no event updates no row
   * and still counts as saved.
   */
  function UpdateEvent(events: seq<Event>, id: int, f: EventForm, parseDate: string -> Option<int>, now: int): (o: (EventActionResult, seq<Event>))
    ensures o.0 == Saved || o.1 == events
    ensures EventFormErrors(f) != {} ==> o.0 == Invalid(EventFormErrors(f))
    ensures o.0 == SlugTaken <==>
      EventFormErrors(f) == {} && FindEventBySlug(events, f.slug).Some? && events[FindEventBySlug(events, f.slug).value].id != id
    ensures o.0 == Saved <==>
      EventFormErrors(f) == {}
      && !(FindEventBySlug(events, f.slug).Some? && events[FindEventBySlug(events, f.slug).value].id != id)
      && parseDate(f.eventDate).Some?
    ensures o.0 == Saved ==> o.1 == UpdateWhereId(events, id, f, parseDate(f.eventDate).value, now)
  {
    var errors := EventFormErrors(f);
    if errors != {} then (Invalid(errors), events)
    else
      var existing := FindEventBySlug(events, f.slug);
      if existing.Some? && events[existing.value].id != id then (SlugTaken, events)
      else
        match parseDate(f.eventDate)
        case None => (ServerError, events)
        case Some(date) => (Saved, UpdateWhereId(events, id, f, date, now))
  }

  /**
   * Updating keeps slugs and ids unique, keeps every id, and touches only
   * the row of `id`; the registrations table is not an input, so lowering
   * or raising `maxAttendees` moves nobody on or off the waitlist.
   */
  lemma UpdateEventKeepsInvariant(events: seq<Event>, id: int, f: EventForm, parseDate: string -> Option<int>, now: int)
    requires UniqueSlugs(events) && UniqueEventIds(events)
    ensures var (res, s) := UpdateEvent(events, id, f, parseDate, now);
      && UniqueSlugs(s) && UniqueEventIds(s) && |s| == |events|
      && (forall k :: 0 <= k < |s| ==> s[k].id == events[k].id)
      && (forall k :: 0 <= k < |s| && events[k].id != id ==> s[k] == events[k])
  {
    var (res, s) := UpdateEvent(events, id, f, parseDate, now);
    if res == Saved {
      var found := FindEventBySlug(events, f.slug);
      assert forall k :: 0 <= k < |s| ==> s[k].id == events[k].id;
      forall a, b | 0 <= a < b < |s| ensures s[a].slug != s[b].slug {
        if events[a].id == id {
          assert events[b].id != id;
          assert s[b] == events[b];
        } else if events[b].id == id {
          assert s[a] == events[a];
        } else {
          assert s[a] == events[a] && s[b] == events[b];
        }
      }
    }
  }

  /** The rows `DELETE … WHERE id = id` keeps. */
  function OtherThan(id: int): Event -> bool {
    (e: Event) => e.id != id
  }

  /** `DELETE FROM events WHERE id = id`. */
  function DeleteEvent(events: seq<Event>, id: int): (r: seq<Event>)
    ensures forall k :: 0 <= k < |r| ==> r[k].id != id && r[k] in events
    ensures forall k :: 0 <= k < |events| && events[k].id != id ==> events[k] in r
  {
    Where(events, OtherThan(id))
  }

  /** Deleting keeps slugs and ids unique and every id below the id sequence. */
  lemma {:induction false} DeleteEventKeepsInvariant(events: seq<Event>, id: int, nextId: int)
    requires UniqueSlugs(events) && UniqueEventIds(events) && EventIdsBelow(events, nextId)
    ensures var r := DeleteEvent(events, id);
      UniqueSlugs(r) && UniqueEventIds(r) && EventIdsBelow(r, nextId)
  {
    if events != [] {
      var rest := events[1..];
      DeleteEventKeepsInvariant(rest, id, nextId);
      var t := DeleteEvent(rest, id);
      if events[0].id != id {
        assert DeleteEvent(events, id) == [events[0]] + t;
        forall k | 0 <= k < |t| ensures t[k].slug != events[0].slug && t[k].id != events[0].id {
          var m :| 0 <= m < |rest| && rest[m] == t[k];
          assert events[m + 1] == t[k];
        }
        ConsKeepsInvariant(events[0], t, nextId);
      } else {
        assert DeleteEvent(events, id) == t;
      }
    }
  }

  /** A row whose slug and id no other row has can head a valid table. */
  lemma ConsKeepsInvariant(x: Event, t: seq<Event>, nextId: int)
    requires UniqueSlugs(t) && UniqueEventIds(t) && EventIdsBelow(t, nextId) && x.id < nextId
    requires forall k :: 0 <= k < |t| ==> t[k].slug != x.slug && t[k].id != x.id
    ensures UniqueSlugs([x] + t) && UniqueEventIds([x] + t) && EventIdsBelow([x] + t, nextId)
  {
    var r := [x] + t;
    assert forall k :: 1 <= k < |r| ==> r[k] == t[k - 1];
  }

  /** `getEventById(id)`: the event, or `null`. */
  function GetEventById(events: seq<Event>, id: int): (r: Option<Event>)
    ensures r.None? <==> forall k :: 0 <= k < |events| ==> events[k].id != id
    ensures r.Some? ==> r.value in events && r.value.id == id
  {
    match FindEventById(events, id)
    case None => None
    case Some(i) => Some(events[i])
  }

  /** An admin list row: the event and its confirmed and waitlisted counts. */
  datatype AdminEventRow = AdminEventRow(event: Event, confirmedCount: nat, waitlistCount: nat)

  /** `getAdminEvents()`: every event by ascending date, each with its two counts. */
  function GetAdminEvents(events: seq<Event>, regs: seq<Registration>): (r: seq<AdminEventRow>)
    ensures |r| == |events|
    ensures forall k :: 0 <= k < |r| ==>
      r[k].confirmedCount == StatusCount(regs, r[k].event.id, Confirmed)
      && r[k].waitlistCount == StatusCount(regs, r[k].event.id, Waitlisted)
  {
    var sorted := SortBy(events, ByEventDate);
    seq(|sorted|, k requires 0 <= k < |sorted| =>
      AdminEventRow(sorted[k], StatusCount(regs, sorted[k].id, Confirmed), StatusCount(regs, sorted[k].id, Waitlisted)))
  }

  /** The admin list holds exactly the events, in ascending date order. */
  lemma GetAdminEventsOrdered(events: seq<Event>, regs: seq<Registration>)
    ensures var r := GetAdminEvents(events, regs);
      && (forall i, j :: 0 <= i < j < |r| ==> r[i].event.eventDate <= r[j].event.eventDate)
      && (forall k :: 0 <= k < |r| ==> r[k].event in events)
      && (forall e :: e in events ==> exists k :: 0 <= k < |r| && r[k].event == e)
  {
    var sorted := SortBy(events, ByEventDate);
    var r := GetAdminEvents(events, regs);
    SortBySorted(events, ByEventDate);
    assert forall k :: 0 <= k < |r| ==> r[k].event == sorted[k];
    forall k | 0 <= k < |r| ensures r[k].event in events {
      SortByMembers(events, ByEventDate, sorted[k]);
    }
    forall e | e in events ensures exists k :: 0 <= k < |r| && r[k].event == e {
      SortByMembers(events, ByEventDate, e);
      var k :| 0 <= k < |sorted| && sorted[k] == e;
      assert r[k].event == e;
    }
  }

  const ByRegisteredAt: Registration -> int := (r: Registration) => r.registeredAt

  /** `getEventRegistrations(eventId)`: the event's rows by ascending registration time. */
  function GetEventRegistrations(regs: seq<Registration>, eventId: int): (r: seq<Registration>)
    ensures |r| <= |regs|
    ensures forall k :: 0 <= k < |r| ==> r[k] in regs && r[k].eventId == eventId
  {
    var w := Where(regs, (x: Registration) => x.eventId == eventId);
    var r := SortBy(w, ByRegisteredAt);
    assert forall k :: 0 <= k < |r| ==> r[k] in w by {
      forall k | 0 <= k < |r| ensures r[k] in w {
        SortByMembers(w, ByRegisteredAt, r[k]);
      }
    }
    r
  }

  /** The list holds exactly the rows of the event, oldest registration first. */
  lemma GetEventRegistrationsSpec(regs: seq<Registration>, eventId: int)
    ensures var r := GetEventRegistrations(regs, eventId);
      && SortedBy(r, ByRegisteredAt)
      && (forall k :: 0 <= k < |r| ==> r[k] in regs && r[k].eventId == eventId)
      && (forall k :: 0 <= k < |regs| && regs[k].eventId == eventId ==> regs[k] in r)
  {
    var w := Where(regs, (x: Registration) => x.eventId == eventId);
    var r := GetEventRegistrations(regs, eventId);
    SortBySorted(w, ByRegisteredAt);
    forall k | 0 <= k < |r| ensures r[k] in regs && r[k].eventId == eventId {
      SortByMembers(w, ByRegisteredAt, r[k]);
    }
    forall k | 0 <= k < |regs| && regs[k].eventId == eventId ensures regs[k] in r {
      SortByMembers(w, ByRegisteredAt, regs[k]);
    }
  }
}
