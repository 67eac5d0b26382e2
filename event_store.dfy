/**
 * The events and registrations tables as one store whose server actions
 * update them in place. Each action computes its outcome with the step
 * function of its module and stores the new tables; the store keeps the
 * table invariants between actions.
 */
module EventStore {
  import opened Wrappers
  import opened Strings
  import opened EventTables
  import opened Turnstile
  import opened EventRegistration
  import opened Cancellation
  import opened AdminEvents

  ghost predicate EventsValid(events: seq<Event>, nextEventId: int) {
    UniqueSlugs(events) && UniqueEventIds(events) && EventIdsBelow(events, nextEventId)
  }

  ghost predicate RegistrationsValid(regs: seq<Registration>, nextId: int) {
    RowsValid(regs) && IdsBelow(regs, nextId)
  }

  /** The registration step with the invariant it keeps, stated on the folded predicate. */
  lemma RegisterStepValid(events: seq<Event>, regs: seq<Registration>, nextId: int, form: RegistrationForm,
                          isEmail: string -> bool, captcha: Captcha, now: int, token: string)
    requires RegistrationsValid(regs, nextId) && FreshToken(regs, token)
    ensures var o := Register(events, regs, nextId, form, isEmail, captcha, now, token);
      RegistrationsValid(o.registrations, o.nextId)
  {
    RegisterPreservesValid(events, regs, nextId, form, isEmail, captcha, now, token);
  }

  class EventStore {
    var events: seq<Event>
    var registrations: seq<Registration>
    /** The next values of the two serial id sequences. */
    var nextEventId: int
    var nextRegistrationId: int

    /** Slugs and ids are unique, the registration rows are valid, and every id is below its sequence. */
    ghost predicate Valid()
      reads this
    {
      EventsValid(events, nextEventId) && RegistrationsValid(registrations, nextRegistrationId)
    }

    constructor ()
      ensures Valid()
      ensures events == [] && registrations == [] && nextEventId == 1 && nextRegistrationId == 1
    {
      events := [];
      registrations := [];
      nextEventId := 1;
      nextRegistrationId := 1;
    }

    /**
     * `registerForEvent(formData)` at time `now`, with `token` the fresh
     * cancellation token. The e-mail is returned and its delivery does not
     * affect the stored rows or the result.
     */
    method RegisterForEvent(form: RegistrationForm, isEmail: string -> bool, captcha: Captcha, now: int, token: string)
      returns (result: RegisterResult, mail: Mail)
      requires Valid() && FreshToken(registrations, token)
      modifies this
      ensures Valid()
      ensures var o := Register(old(events), old(registrations), old(nextRegistrationId), form, isEmail, captcha, now, token);
        result == o.result && mail == o.mail && registrations == o.registrations && nextRegistrationId == o.nextId
      ensures events == old(events) && nextEventId == old(nextEventId)
    {
      RegisterStepValid(events, registrations, nextRegistrationId, form, isEmail, captcha, now, token);
      var o := Register(events, registrations, nextRegistrationId, form, isEmail, captcha, now, token);
      registrations, nextRegistrationId := o.registrations, o.nextId;
      result, mail := o.result, o.mail;
    }

    /** `GET /api/cancel-registration?token=…` at time `now`. */
    method CancelRegistrationByToken(token: Option<string>, now: int) returns (redirect: CancelRedirect, mail: PromotionMail)
      requires Valid()
      modifies this
      ensures Valid()
      ensures var o := CancelByToken(old(events), old(registrations), token, now);
        redirect == o.redirect && mail == o.mail && registrations == o.registrations
      ensures events == old(events) && nextEventId == old(nextEventId) && nextRegistrationId == old(nextRegistrationId)
    {
      var o := CancelByToken(events, registrations, token, now);
      if o.redirect == CancelDone {
        CancelAtKeepsValid(events, registrations, FindByToken(registrations, token.value).value, now);
      }
      registrations := o.registrations;
      redirect := o.redirect;
      mail := o.mail;
    }

    /** Admin `cancelRegistration(id)` at time `now`. */
    method CancelRegistration(id: int, now: int) returns (mail: PromotionMail)
      requires Valid()
      modifies this
      ensures Valid()
      ensures (registrations, mail) == AdminCancel(old(events), old(registrations), id, now)
      ensures events == old(events) && nextEventId == old(nextEventId) && nextRegistrationId == old(nextRegistrationId)
    {
      var o := AdminCancel(events, registrations, id, now);
      if FindRegistrationById(registrations, id).Some? {
        CancelAtKeepsValid(events, registrations, FindRegistrationById(registrations, id).value, now);
      }
      registrations := o.0;
      mail := o.1;
    }

    /** `createEvent(formData)` at time `now`. */
    method CreateEvent(f: EventForm, parseDate: string -> Option<int>, now: int) returns (result: EventActionResult)
      requires Valid()
      modifies this
      ensures Valid()
      ensures var o := AdminEvents.CreateEvent(old(events), old(nextEventId), f, parseDate, now);
        result == o.result && events == o.events && nextEventId == o.nextId
      ensures registrations == old(registrations) && nextRegistrationId == old(nextRegistrationId)
    {
      var o := AdminEvents.CreateEvent(events, nextEventId, f, parseDate, now);
      CreateEventKeepsInvariant(events, nextEventId, f, parseDate, now);
      events := o.events;
      nextEventId := o.nextId;
      result := o.result;
    }

    /**
     * `updateEvent(id, formData)` at time `now`. The registrations are not
     * touched, whatever the new capacity.
     */
    method UpdateEvent(id: int, f: EventForm, parseDate: string -> Option<int>, now: int) returns (result: EventActionResult)
      requires Valid()
      modifies this
      ensures Valid()
      ensures (result, events) == AdminEvents.UpdateEvent(old(events), id, f, parseDate, now)
      ensures registrations == old(registrations) && nextEventId == old(nextEventId) && nextRegistrationId == old(nextRegistrationId)
    {
      var o := AdminEvents.UpdateEvent(events, id, f, parseDate, now);
      UpdateEventKeepsInvariant(events, id, f, parseDate, now);
      events := o.1;
      result := o.0;
    }

    /** `deleteEvent(id)`: the event rows go; its registrations stay. */
    method DeleteEvent(id: int)
      requires Valid()
      modifies this
      ensures Valid()
      ensures events == AdminEvents.DeleteEvent(old(events), id)
      ensures registrations == old(registrations) && nextEventId == old(nextEventId) && nextRegistrationId == old(nextRegistrationId)
    {
      DeleteEventKeepsInvariant(events, id, nextEventId);
      events := AdminEvents.DeleteEvent(events, id);
    }
  }
}
