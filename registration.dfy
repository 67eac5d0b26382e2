/**
 * `registerForEvent`: validate the form, check the captcha, find the event,
 * then either report an existing active registration, or confirm or
 * waitlist the registrant, reusing their cancelled row when there is one.
 * The confirmation or waitlist e-mail is an effect whose failure is caught
 * and ignored, so it appears here only as the `Mail` the action asks for.
 */
module EventRegistration {
  import opened Wrappers
  import opened Strings
  import opened Tables
  import opened EventTables
  import opened Turnstile

  /**
   * The submitted form. A missing `lastName` or `turnstileToken` arrives
   * as "" and a missing `email` or `firstName` as "", which the schema
   * rejects exactly as it rejects a missing field; `eventId` is
   * `Number(...)` of the field, `None` standing for NaN.
   */
  datatype RegistrationForm = RegistrationForm(
    eventId: Option<int>, email: string, firstName: string, lastName: string, turnstileToken: string)

  datatype RegField = EventIdField | EmailField | FirstNameField

  /** The fields `registrationSchema` rejects; `isEmail` is the schema's e-mail check. */
  function RegistrationErrors(form: RegistrationForm, isEmail: string -> bool): (errors: set<RegField>)
    ensures errors == {} <==> form.eventId.Some? && isEmail(form.email) && form.firstName != ""
  {
    (if form.eventId.None? then {EventIdField} else {})
    + (if !isEmail(form.email) then {EmailField} else {})
    + (if |form.firstName| < 1 then {FirstNameField} else {})
  }

  /** The e-mail the action sends once it has written a row; the cancel link carries the row's token. */
  datatype Mail =
    | NoMail
    | ConfirmationMail(to: string, eventId: int, cancelToken: string)
    | WaitlistMail(to: string, eventId: int, position: int, cancelToken: string)

  datatype RegisterResult = RegisterResult(success: bool, message: string, status: Option<RegStatus>, errors: set<RegField>)

  /** The reply, the registrations table and the id sequence afterwards, and the e-mail requested. */
  datatype RegisterOutcome = RegisterOutcome(result: RegisterResult, registrations: seq<Registration>, nextId: int, mail: Mail)

  /** A full event waitlists: the count is compared with `maxAttendees` before the row is written. */
  function NewStatus(confirmedCount: int, maxAttendees: int): (s: RegStatus)
    ensures s == Confirmed <==> confirmedCount < maxAttendees
    ensures s != Cancelled
  {
    if confirmedCount >= maxAttendees then Waitlisted else Confirmed
  }

  function AlreadyMessage(status: RegStatus): string {
    if status == Confirmed then "You're already registered for this event!"
    else "You're already on the waitlist for this event."
  }

  function RegisteredMessage(status: RegStatus, position: Option<int>): string {
    if status == Confirmed then "You're registered! Check your email for confirmation."
    else "You're #" + IntToString(position.GetOr(0)) + " on the waitlist. We'll email you if a spot opens up."
  }

  const FixErrorsMessage: string := "Please fix the errors below."
  const VerificationFailedMessage: string := "Verification failed. Please try again."
  const EventNotFoundMessage: string := "Event not found."

  /** The reply to a request that fails validation, the captcha or the event lookup, checked in that order. */
  function Rejection(errors: set<RegField>, captchaOk: bool): (r: RegisterResult)
    ensures !r.success && r.status.None?
    ensures r.errors == errors
    ensures errors != {} ==> r.message == FixErrorsMessage
    ensures errors == {} && !captchaOk ==> r.message == VerificationFailedMessage
    ensures errors == {} && captchaOk ==> r.message == EventNotFoundMessage
  {
    if errors != {} then RegisterResult(false, FixErrorsMessage, None, errors)
    else if !captchaOk then RegisterResult(false, VerificationFailedMessage, None, {})
    else RegisterResult(false, EventNotFoundMessage, None, {})
  }

  /** The action passes validation and the captcha, and the event exists. */
  predicate Admissible(events: seq<Event>, form: RegistrationForm, isEmail: string -> bool, captcha: Captcha) {
    RegistrationErrors(form, isEmail) == {}
    && (form.turnstileToken == "" || VerifyTurnstile(captcha, form.turnstileToken))
    && FindEventById(events, form.eventId.value).Some?
  }

  /** The event an admissible request names. */
  function EventOf(events: seq<Event>, form: RegistrationForm, isEmail: string -> bool, captcha: Captcha): (e: Event)
    requires Admissible(events, form, isEmail, captcha)
    ensures e in events && e.id == form.eventId.value
  {
    events[FindEventById(events, form.eventId.value).value]
  }

  /** Status and waitlist position stored for a new registrant of `eventId`. */
  function NewPlacement(regs: seq<Registration>, eventId: int, maxAttendees: int): (p: (RegStatus, Option<int>))
    ensures p.0 != Cancelled
    ensures p.0 == Waitlisted <==> p.1.Some?
  {
    var status := NewStatus(ConfirmedCount(regs, eventId), maxAttendees);
    var position := if status == Waitlisted then Some(MaxWaitlistPosition(regs, eventId).GetOr(0) + 1) else None;
    (status, position)
  }

  /** The registrant has no confirmed or waitlisted row for the event, so admitting them writes a row. */
  predicate Writes(regs: seq<Registration>, eventId: int, email: string) {
    var existing := FindAttendee(regs, eventId, email);
    existing.None? || regs[existing.value].status == Cancelled
  }

  /** Index of the row admitting a writing registrant stores: their cancelled row, or a new last row. */
  function WrittenIndex(regs: seq<Registration>, eventId: int, email: string): nat {
    match FindAttendee(regs, eventId, email)
    case Some(i) => i
    case None => |regs|
  }

  /**
   * The part of `registerForEvent` after the event is found: report an
   * active registration, or store the registrant (`email` already
   * normalised) as confirmed or waitlisted.
   */
  function Admit(regs: seq<Registration>, nextId: int, event: Event, email: string, firstName: string,
                 lastName: Option<string>, now: int, token: string): (o: RegisterOutcome)
    ensures o.result.success && o.result.status.Some? && o.result.status.value != Cancelled
  {
    var existing := FindAttendee(regs, event.id, email);
    if existing.Some? && regs[existing.value].status != Cancelled then
      var status := regs[existing.value].status;
      RegisterOutcome(RegisterResult(true, AlreadyMessage(status), Some(status), {}), regs, nextId, NoMail)
    else
      var (status, position) := NewPlacement(regs, event.id, event.maxAttendees);
      var (regs', nextId', row) :=
        if existing.Some? then
          var i := existing.value;
          var row := regs[i].(status := status, firstName := firstName, lastName := lastName,
                              registeredAt := now, cancelledAt := None, waitlistPosition := position);
          (regs[i := row], nextId, row)
        else
          var row := Registration(nextId, event.id, email, firstName, lastName, status, position, token, now, None);
          (regs + [row], nextId + 1, row);
      var mail :=
        if status == Confirmed then ConfirmationMail(email, event.id, row.confirmationToken)
        else WaitlistMail(email, event.id, position.GetOr(0), row.confirmationToken);
      RegisterOutcome(RegisterResult(true, RegisteredMessage(status, position), Some(status), {}), regs', nextId', mail)
  }

  /**
   * `registerForEvent(formData)` against the tables, at time `now`; `token`
   * is the confirmation token a new row receives (its generation is not part of this model).
   */
  function Register(events: seq<Event>, regs: seq<Registration>, nextId: int, form: RegistrationForm,
                    isEmail: string -> bool, captcha: Captcha, now: int, token: string): (o: RegisterOutcome)
    ensures !Admissible(events, form, isEmail, captcha) ==>
      !o.result.success && o.registrations == regs && o.nextId == nextId && o.mail == NoMail
    ensures !Admissible(events, form, isEmail, captcha) ==>
      o.result == Rejection(RegistrationErrors(form, isEmail),
                            form.turnstileToken == "" || VerifyTurnstile(captcha, form.turnstileToken))
    ensures Admissible(events, form, isEmail, captcha) ==>
      o == Admit(regs, nextId, EventOf(events, form, isEmail, captcha), NormalizeEmail(form.email),
                 form.firstName, OptionalText(form.lastName), now, token)
  {
    var errors := RegistrationErrors(form, isEmail);
    var captchaOk := form.turnstileToken == "" || VerifyTurnstile(captcha, form.turnstileToken);
    if errors != {} || !captchaOk || FindEventById(events, form.eventId.value).None? then
      RegisterOutcome(Rejection(errors, captchaOk), regs, nextId, NoMail)
    else
      Admit(regs, nextId, EventOf(events, form, isEmail, captcha), NormalizeEmail(form.email), form.firstName, OptionalText(form.lastName), now, token)
  }

  /**
   * Admitting a writing registrant stores exactly one row and touches no
   * other: it reuses their cancelled row (same id and token, refreshed
   * `registeredAt`, `cancelledAt` cleared) or appends a row with the next
   * id and the fresh token.
   */
  lemma AdmitWritesOneRow(regs: seq<Registration>, nextId: int, event: Event, email: string, firstName: string,
                          lastName: Option<string>, now: int, token: string)
    requires Writes(regs, event.id, email)
    ensures var o := Admit(regs, nextId, event, email, firstName, lastName, now, token);
      var i := WrittenIndex(regs, event.id, email);
      && i < |o.registrations|
      && (forall k :: 0 <= k < |regs| && k != i ==> o.registrations[k] == regs[k])
      && o.registrations[i].eventId == event.id && o.registrations[i].email == email
      && o.registrations[i].firstName == firstName && o.registrations[i].lastName == lastName
      && o.registrations[i].registeredAt == now && o.registrations[i].cancelledAt.None?
      && Some(o.registrations[i].status) == o.result.status
      && (o.registrations[i].status, o.registrations[i].waitlistPosition) == NewPlacement(regs, event.id, event.maxAttendees)
      && (if i < |regs| then
            |o.registrations| == |regs| && o.nextId == nextId && regs[i].status == Cancelled
            && o.registrations[i].id == regs[i].id
            && o.registrations[i].confirmationToken == regs[i].confirmationToken
          else
            o.registrations == regs + [o.registrations[i]] && o.nextId == nextId + 1
            && o.registrations[i].id == nextId && o.registrations[i].confirmationToken == token)
  {
    if FindAttendee(regs, event.id, email).None? {
      AdmitInserts(regs, nextId, event, email, firstName, lastName, now, token);
    } else {
      AdmitReuses(regs, nextId, event, email, firstName, lastName, now, token, FindAttendee(regs, event.id, email).value);
    }
  }

  /** A first-time registrant gets a new last row with the next id and the fresh token. */
  lemma AdmitInserts(regs: seq<Registration>, nextId: int, event: Event, email: string, firstName: string,
                     lastName: Option<string>, now: int, token: string)
    requires FindAttendee(regs, event.id, email).None?
    ensures var o := Admit(regs, nextId, event, email, firstName, lastName, now, token);
      var (status, position) := NewPlacement(regs, event.id, event.maxAttendees);
      && o.registrations == regs + [Registration(nextId, event.id, email, firstName, lastName, status, position, token, now, None)]
      && o.nextId == nextId + 1 && o.result.status == Some(status)
  {
  }

  /** A registrant with a cancelled row gets that row back, rewritten in place. */
  lemma AdmitReuses(regs: seq<Registration>, nextId: int, event: Event, email: string, firstName: string,
                    lastName: Option<string>, now: int, token: string, i: nat)
    requires FindAttendee(regs, event.id, email) == Some(i) && regs[i].status == Cancelled
    ensures var o := Admit(regs, nextId, event, email, firstName, lastName, now, token);
      var (status, position) := NewPlacement(regs, event.id, event.maxAttendees);
      && o.registrations == regs[i := regs[i].(status := status, firstName := firstName, lastName := lastName,
                                               registeredAt := now, cancelledAt := None, waitlistPosition := position)]
      && o.nextId == nextId && o.result.status == Some(status)
  {
  }

  /**
   * The e-mail after a write goes to the registrant, is a confirmation for
   * a confirmed row and a waitlist notice with the stored position
   * otherwise, and its cancel link carries the stored row's token.
   */
  lemma AdmitMailNamesRow(regs: seq<Registration>, nextId: int, event: Event, email: string, firstName: string,
                          lastName: Option<string>, now: int, token: string)
    requires Writes(regs, event.id, email)
    ensures var o := Admit(regs, nextId, event, email, firstName, lastName, now, token);
      var i := WrittenIndex(regs, event.id, email);
      && i < |o.registrations| && o.mail != NoMail
      && o.mail.to == email && o.mail.eventId == event.id
      && o.mail.cancelToken == o.registrations[i].confirmationToken
      && (o.mail.ConfirmationMail? <==> o.registrations[i].status == Confirmed)
      && (o.mail.WaitlistMail? ==> Some(o.mail.position) == o.registrations[i].waitlistPosition)
  {
  }

  /**
   * A new registrant is confirmed exactly when the event's confirmed count
   * is below `maxAttendees`; otherwise waitlisted with a position above
   * every current waitlisted position of the event (1 when there is none).
   */
  lemma PlacementRule(regs: seq<Registration>, eventId: int, maxAttendees: int)
    ensures var (status, position) := NewPlacement(regs, eventId, maxAttendees);
      && (status == Confirmed <==> ConfirmedCount(regs, eventId) < maxAttendees)
      && (status == Confirmed ==> position.None?)
      && (status == Waitlisted ==>
            position.Some?
            && (forall k :: 0 <= k < |regs| && IsWaitlistedFor(regs[k], eventId) && regs[k].waitlistPosition.Some? ==>
                  regs[k].waitlistPosition.value < position.value)
            && ((forall k :: 0 <= k < |regs| ==> !IsWaitlistedFor(regs[k], eventId)) ==> position == Some(1)))
  {
  }

  /** Under the table invariant a new waitlist position is at least 2 when others wait, and 1 otherwise. */
  lemma PlacementPositive(regs: seq<Registration>, eventId: int, maxAttendees: int)
    requires PositionsWellFormed(regs)
    ensures var (status, position) := NewPlacement(regs, eventId, maxAttendees);
      status == Waitlisted ==> position.value >= 1
  {
    var m := MaxWaitlistPosition(regs, eventId);
    if m.Some? {
      var k :| 0 <= k < |regs| && IsWaitlistedFor(regs[k], eventId) && regs[k].waitlistPosition == m;
    }
  }

  function Max(a: int, b: int): int { if a >= b then a else b }

  /**
   * Registration never pushes an event's confirmed count past its
   * `maxAttendees`: it adds a confirmation only below the limit, and leaves
   * every other event's count unchanged.
   */
  lemma AdmitCapacity(regs: seq<Registration>, nextId: int, event: Event, email: string, firstName: string,
                      lastName: Option<string>, now: int, token: string, e: int)
    ensures var o := Admit(regs, nextId, event, email, firstName, lastName, now, token);
      ConfirmedCount(o.registrations, e) == ConfirmedCount(regs, e)
      || (e == event.id && ConfirmedCount(regs, e) < event.maxAttendees
          && ConfirmedCount(o.registrations, e) == ConfirmedCount(regs, e) + 1)
  {
    var (status, position) := NewPlacement(regs, event.id, event.maxAttendees);
    var p := InStatus(e, Confirmed);
    PlacementRule(regs, event.id, event.maxAttendees);
    var existing := FindAttendee(regs, event.id, email);
    if !Writes(regs, event.id, email) {
      AdmitExisting(regs, nextId, event, email, firstName, lastName, now, token);
    } else if existing.None? {
      AdmitInserts(regs, nextId, event, email, firstName, lastName, now, token);
      CountAppend(regs, Registration(nextId, event.id, email, firstName, lastName, status, position, token, now, None), p);
    } else {
      var i := existing.value;
      AdmitReuses(regs, nextId, event, email, firstName, lastName, now, token, i);
      CountUpdate(regs, i, regs[i].(status := status, firstName := firstName, lastName := lastName,
                                    registeredAt := now, cancelledAt := None, waitlistPosition := position), p);
    }
  }

  /** The same, for the whole action: no request confirms anyone beyond `maxAttendees`. */
  lemma RegisterCapacity(events: seq<Event>, regs: seq<Registration>, nextId: int, form: RegistrationForm,
                         isEmail: string -> bool, captcha: Captcha, now: int, token: string, e: int)
    ensures var o := Register(events, regs, nextId, form, isEmail, captcha, now, token);
      ConfirmedCount(o.registrations, e) <= Max(ConfirmedCount(regs, e), if e == form.eventId.GetOr(e) && Admissible(events, form, isEmail, captcha) then EventOf(events, form, isEmail, captcha).maxAttendees else 0)
  {
    if Admissible(events, form, isEmail, captcha) {
      var ev := EventOf(events, form, isEmail, captcha);
      AdmitCapacity(regs, nextId, ev, NormalizeEmail(form.email), form.firstName, OptionalText(form.lastName), now, token, e);
    }
  }

  /** Admitting keeps the table invariant, given a token no row holds and an id sequence ahead of every id. */
  lemma AdmitPreservesValid(regs: seq<Registration>, nextId: int, event: Event, email: string, firstName: string,
                            lastName: Option<string>, now: int, token: string)
    requires RowsValid(regs) && IdsBelow(regs, nextId) && FreshToken(regs, token)
    ensures var o := Admit(regs, nextId, event, email, firstName, lastName, now, token);
      RowsValid(o.registrations) && IdsBelow(o.registrations, o.nextId)
  {
    var (status, position) := NewPlacement(regs, event.id, event.maxAttendees);
    var found := FindAttendee(regs, event.id, email);
    if !Writes(regs, event.id, email) {
      AdmitExisting(regs, nextId, event, email, firstName, lastName, now, token);
    } else if found.None? {
      AdmitInserts(regs, nextId, event, email, firstName, lastName, now, token);
      InsertKeepsRowsValid(regs, nextId, Registration(nextId, event.id, email, firstName, lastName, status, position, token, now, None), event.maxAttendees);
    } else {
      var i := found.value;
      AdmitReuses(regs, nextId, event, email, firstName, lastName, now, token, i);
      ReuseKeepsRowsValid(regs, nextId, i, regs[i].(status := status, firstName := firstName, lastName := lastName,
                                                    registeredAt := now, cancelledAt := None, waitlistPosition := position), event.maxAttendees);
    }
  }

  /** Appending a first-time registrant's row, placed by the rule, keeps the table invariant. */
  lemma InsertKeepsRowsValid(regs: seq<Registration>, nextId: int, row: Registration, maxAttendees: int)
    requires RowsValid(regs) && IdsBelow(regs, nextId) && FreshToken(regs, row.confirmationToken) && row.id == nextId
    requires FindAttendee(regs, row.eventId, row.email).None?
    requires (row.status, row.waitlistPosition) == NewPlacement(regs, row.eventId, maxAttendees)
    ensures RowsValid(regs + [row]) && IdsBelow(regs + [row], nextId + 1)
  {
    PlacementRule(regs, row.eventId, maxAttendees);
    PlacementPositive(regs, row.eventId, maxAttendees);
    var s := regs + [row];
    assert forall k :: 0 <= k < |regs| ==> s[k] == regs[k];
    AttendeeRowsValid(regs, s, |regs|, row.eventId, row.email);
  }

  /** Rewriting a registrant's own cancelled row, placed by the rule, keeps the table invariant. */
  lemma ReuseKeepsRowsValid(regs: seq<Registration>, nextId: int, i: nat, row: Registration, maxAttendees: int)
    requires RowsValid(regs) && IdsBelow(regs, nextId)
    requires FindAttendee(regs, row.eventId, row.email) == Some(i)
    requires row.id == regs[i].id && row.confirmationToken == regs[i].confirmationToken
    requires (row.status, row.waitlistPosition) == NewPlacement(regs, row.eventId, maxAttendees)
    ensures RowsValid(regs[i := row]) && IdsBelow(regs[i := row], nextId)
  {
    PlacementRule(regs, row.eventId, maxAttendees);
    PlacementPositive(regs, row.eventId, maxAttendees);
    AttendeeRowsValid(regs, regs[i := row], i, row.eventId, row.email);
  }

  /** A registration request, accepted or not, keeps the table invariant. */
  lemma RegisterPreservesValid(events: seq<Event>, regs: seq<Registration>, nextId: int, form: RegistrationForm,
                               isEmail: string -> bool, captcha: Captcha, now: int, token: string)
    requires RowsValid(regs) && IdsBelow(regs, nextId) && FreshToken(regs, token)
    ensures var o := Register(events, regs, nextId, form, isEmail, captcha, now, token);
      RowsValid(o.registrations) && IdsBelow(o.registrations, o.nextId)
  {
    if Admissible(events, form, isEmail, captcha) {
      AdmitPreservesValid(regs, nextId, EventOf(events, form, isEmail, captcha),
        NormalizeEmail(form.email), form.firstName, OptionalText(form.lastName), now, token);
    }
  }

  /** Replacing or appending row `i`, keyed by a (event, email) pair found only there, keeps the invariant. */
  lemma AttendeeRowsValid(regs: seq<Registration>, s: seq<Registration>, i: nat, eventId: int, email: string)
    requires RowsValid(regs)
    requires i <= |regs| && |s| == if i < |regs| then |regs| else |regs| + 1
    requires forall k :: 0 <= k < |regs| && k != i ==> s[k] == regs[k]
    requires s[i].eventId == eventId && s[i].email == email
    requires forall k :: 0 <= k < |regs| && k != i ==> !(regs[k].eventId == eventId && regs[k].email == email)
    requires i < |regs| ==> s[i].id == regs[i].id && s[i].confirmationToken == regs[i].confirmationToken
    requires i == |regs| ==> forall k :: 0 <= k < |regs| ==> regs[k].id != s[i].id && regs[k].confirmationToken != s[i].confirmationToken
    requires s[i].status == Waitlisted ==> s[i].waitlistPosition.Some? && s[i].waitlistPosition.value >= 1
    requires s[i].status == Waitlisted ==>
      forall k :: 0 <= k < |regs| && IsWaitlistedFor(regs[k], eventId) && regs[k].waitlistPosition.Some? ==>
           regs[k].waitlistPosition.value < s[i].waitlistPosition.value
    requires s[i].status == Confirmed ==> s[i].waitlistPosition.None?
    ensures RowsValid(s)
  {
    forall a, b | 0 <= a < b < |s| ensures s[a].id != s[b].id {
      if a != i && b != i {
        assert s[a] == regs[a] && s[b] == regs[b];
      }
    }
    forall a, b | 0 <= a < b < |s| ensures s[a].confirmationToken != s[b].confirmationToken {
      if a != i && b != i {
        assert s[a] == regs[a] && s[b] == regs[b];
      }
    }
    forall a, b | 0 <= a < b < |s| ensures s[a].eventId != s[b].eventId || s[a].email != s[b].email {
      if a != i && b != i {
        assert s[a] == regs[a] && s[b] == regs[b];
      }
    }
    forall a, b | 0 <= a < b < |s| && s[a].status == Waitlisted && s[b].status == Waitlisted && s[a].eventId == s[b].eventId
      ensures s[a].waitlistPosition != s[b].waitlistPosition
    {
      if a != i && b != i {
        assert s[a] == regs[a] && s[b] == regs[b];
      } else if a == i {
        assert s[b] == regs[b] && IsWaitlistedFor(regs[b], eventId);
      } else {
        assert s[a] == regs[a] && IsWaitlistedFor(regs[a], eventId);
      }
    }
    forall k | 0 <= k < |s|
      ensures (s[k].status == Waitlisted ==> s[k].waitlistPosition.Some? && s[k].waitlistPosition.value >= 1)
           && (s[k].status == Confirmed ==> s[k].waitlistPosition.None?)
    {
      if k != i {
        assert s[k] == regs[k];
      }
    }
  }

  /**
   * Re-registering is harmless: once admitting a registrant has succeeded,
   * admitting them again (at any time, with any token) changes nothing and
   * reports the status they hold.
   */
  lemma AdmitIdempotent(regs: seq<Registration>, nextId: int, event: Event, email: string, firstName: string,
                        lastName: Option<string>, now: int, token: string, now2: int, token2: string)
    ensures var o := Admit(regs, nextId, event, email, firstName, lastName, now, token);
      var o2 := Admit(o.registrations, o.nextId, event, email, firstName, lastName, now2, token2);
      o2.registrations == o.registrations && o2.nextId == o.nextId
      && o2.result.status == o.result.status && o2.mail == NoMail
  {
    var o := Admit(regs, nextId, event, email, firstName, lastName, now, token);
    if Writes(regs, event.id, email) {
      AdmitFindsWritten(regs, nextId, event, email, firstName, lastName, now, token);
      AdmitExisting(o.registrations, o.nextId, event, email, firstName, lastName, now2, token2);
    } else {
      AdmitExisting(regs, nextId, event, email, firstName, lastName, now, token);
      AdmitExisting(regs, nextId, event, email, firstName, lastName, now2, token2);
    }
  }

  /** After a write, the registrant's row is the one written, and it is live. */
  lemma AdmitFindsWritten(regs: seq<Registration>, nextId: int, event: Event, email: string, firstName: string,
                          lastName: Option<string>, now: int, token: string)
    requires Writes(regs, event.id, email)
    ensures var o := Admit(regs, nextId, event, email, firstName, lastName, now, token);
      && FindAttendee(o.registrations, event.id, email) == Some(WrittenIndex(regs, event.id, email))
      && Some(o.registrations[WrittenIndex(regs, event.id, email)].status) == o.result.status
      && !Writes(o.registrations, event.id, email)
  {
    var o := Admit(regs, nextId, event, email, firstName, lastName, now, token);
    AdmitWritesOneRow(regs, nextId, event, email, firstName, lastName, now, token);
    var s := o.registrations;
    if FindAttendee(regs, event.id, email).None? {
      assert forall k :: 0 <= k < |regs| ==> s[k] == regs[k];
    }
  }

  /** A registrant whose row is live is told their status, and nothing is written or sent. */
  lemma AdmitExisting(regs: seq<Registration>, nextId: int, event: Event, email: string, firstName: string,
                      lastName: Option<string>, now: int, token: string)
    requires !Writes(regs, event.id, email)
    ensures var o := Admit(regs, nextId, event, email, firstName, lastName, now, token);
      && o.registrations == regs && o.nextId == nextId && o.mail == NoMail
      && o.result.status == Some(regs[FindAttendee(regs, event.id, email).value].status)
  {
  }

  /** The same for the whole action, once a request has been admitted. */
  lemma RegisterIdempotent(events: seq<Event>, regs: seq<Registration>, nextId: int, form: RegistrationForm,
                           isEmail: string -> bool, captcha: Captcha, now: int, token: string, now2: int, token2: string)
    requires Register(events, regs, nextId, form, isEmail, captcha, now, token).result.success
    ensures var o := Register(events, regs, nextId, form, isEmail, captcha, now, token);
      var o2 := Register(events, o.registrations, o.nextId, form, isEmail, captcha, now2, token2);
      o2.result.success && o2.registrations == o.registrations && o2.nextId == o.nextId
      && o2.result.status == o.result.status && o2.mail == NoMail
  {
    var ev := EventOf(events, form, isEmail, captcha);
    AdmitIdempotent(regs, nextId, ev, NormalizeEmail(form.email), form.firstName, OptionalText(form.lastName), now, token, now2, token2);
  }

  /** Two addresses the e-mail check judges alike give the same validation and admission verdicts. */
  lemma AdmissibleSameVerdict(events: seq<Event>, form: RegistrationForm, isEmail: string -> bool, captcha: Captcha, email2: string)
    requires isEmail(email2) == isEmail(form.email)
    ensures RegistrationErrors(form.(email := email2), isEmail) == RegistrationErrors(form, isEmail)
    ensures Admissible(events, form.(email := email2), isEmail, captcha) == Admissible(events, form, isEmail, captcha)
  {
  }

  /** The lookup key is the trimmed, lower-cased address, so registrations ignore letter case. */
  lemma RegisterIgnoresEmailCase(events: seq<Event>, regs: seq<Registration>, nextId: int, form: RegistrationForm,
                                 isEmail: string -> bool, captcha: Captcha, now: int, token: string, email2: string)
    requires NormalizeEmail(email2) == NormalizeEmail(form.email) && isEmail(email2) == isEmail(form.email)
    ensures Register(events, regs, nextId, form.(email := email2), isEmail, captcha, now, token)
         == Register(events, regs, nextId, form, isEmail, captcha, now, token)
  {
    var form2 := form.(email := email2);
    AdmissibleSameVerdict(events, form, isEmail, captcha, email2);
    var o1 := Register(events, regs, nextId, form, isEmail, captcha, now, token);
    var o2 := Register(events, regs, nextId, form2, isEmail, captcha, now, token);
    if Admissible(events, form, isEmail, captcha) {
      var ev := EventOf(events, form, isEmail, captcha);
      assert EventOf(events, form2, isEmail, captcha) == ev;
      assert o2 == Admit(regs, nextId, ev, NormalizeEmail(form.email), form.firstName, OptionalText(form.lastName), now, token);
    } else {
      var captchaOk := form.turnstileToken == "" || VerifyTurnstile(captcha, form.turnstileToken);
      assert o1 == RegisterOutcome(Rejection(RegistrationErrors(form, isEmail), captchaOk), regs, nextId, NoMail);
    }
  }
}
