/**
 * Cancelling a registration, from the one-click link
 * (`GET /api/cancel-registration?token=…`) or from the admin screen
 * (`cancelRegistration(id)`): the row is marked cancelled and, when it was
 * confirmed, the waitlisted row of the event with the lowest position is
 * confirmed in its place. Both updates are `UPDATE … WHERE id = …`, so they
 * hit every row with that id; under the table invariant that is one row.
 */
module Cancellation {
  import opened Wrappers
  import opened Tables
  import opened EventTables
  import opened EventRegistration

  /** The row after `SET status = 'cancelled', cancelled_at = now`. */
  function CancelledRow(r: Registration, now: int): Registration {
    r.(status := Cancelled, cancelledAt := Some(now))
  }

  /** The row after `SET status = 'confirmed', waitlist_position = NULL`. */
  function PromotedRow(r: Registration): Registration {
    r.(status := Confirmed, waitlistPosition := None)
  }

  /** `UPDATE event_registrations SET status = 'cancelled', cancelled_at = now WHERE id = id`. */
  function MarkCancelled(regs: seq<Registration>, id: int, now: int): (s: seq<Registration>)
    ensures |s| == |regs|
    ensures forall k :: 0 <= k < |s| ==> s[k] == if regs[k].id == id then CancelledRow(regs[k], now) else regs[k]
  {
    seq(|regs|, k requires 0 <= k < |regs| => if regs[k].id == id then CancelledRow(regs[k], now) else regs[k])
  }

  /** `UPDATE event_registrations SET status = 'confirmed', waitlist_position = NULL WHERE id = id`. */
  function MarkPromoted(regs: seq<Registration>, id: int): (s: seq<Registration>)
    ensures |s| == |regs|
    ensures forall k :: 0 <= k < |s| ==> s[k] == if regs[k].id == id then PromotedRow(regs[k]) else regs[k]
  {
    seq(|regs|, k requires 0 <= k < |regs| => if regs[k].id == id then PromotedRow(regs[k]) else regs[k])
  }

  /** With distinct ids, an update by the id of row `i` changes row `i` alone. */
  lemma MarkCancelledAt(regs: seq<Registration>, i: nat, now: int)
    requires UniqueIds(regs) && i < |regs|
    ensures MarkCancelled(regs, regs[i].id, now) == regs[i := CancelledRow(regs[i], now)]
  {
    var s := MarkCancelled(regs, regs[i].id, now);
    forall k | 0 <= k < |regs| ensures s[k] == regs[i := CancelledRow(regs[i], now)][k] {
      if k < i {
        assert regs[k].id != regs[i].id;
      } else if k > i {
        assert regs[i].id != regs[k].id;
      }
    }
  }

  lemma MarkPromotedAt(regs: seq<Registration>, j: nat)
    requires UniqueIds(regs) && j < |regs|
    ensures MarkPromoted(regs, regs[j].id) == regs[j := PromotedRow(regs[j])]
  {
    var s := MarkPromoted(regs, regs[j].id);
    forall k | 0 <= k < |regs| ensures s[k] == regs[j := PromotedRow(regs[j])][k] {
      if k < j {
        assert regs[k].id != regs[j].id;
      } else if k > j {
        assert regs[j].id != regs[k].id;
      }
    }
  }

  /** The "a spot opened up" e-mail to the promoted registrant, with their own cancel link. */
  datatype PromotionMail = NoPromotionMail | PromotionMail(to: string, eventId: int, cancelToken: string)

  /**
   * Cancel row `i` and, when it was confirmed, promote the head of its
   * event's waitlist; the e-mail goes out only when the event row exists.
   */
  function CancelAt(events: seq<Event>, regs: seq<Registration>, i: nat, now: int): (o: (seq<Registration>, PromotionMail))
    requires i < |regs|
    ensures |o.0| == |regs|
    ensures o.0[i] == CancelledRow(regs[i], now)
    ensures o.1.PromotionMail? ==>
      regs[i].status == Confirmed && o.1.eventId == regs[i].eventId && FindEventById(events, regs[i].eventId).Some?
  {
    var r := regs[i];
    var cancelled := MarkCancelled(regs, r.id, now);
    if r.status != Confirmed then (cancelled, NoPromotionMail)
    else
      match LowestWaitlisted(cancelled, r.eventId)
      case None => (cancelled, NoPromotionMail)
      case Some(j) =>
        var next := cancelled[j];
        var mail := if FindEventById(events, r.eventId).Some? then PromotionMail(next.email, r.eventId, next.confirmationToken)
                    else NoPromotionMail;
        (MarkPromoted(cancelled, next.id), mail)
  }

  /**
   * Cancelling row `i` when ids are distinct: row `i` becomes cancelled
   * at `now`; if it was confirmed and its event has a waitlist, exactly the
   * waitlisted row with the lowest position (`j`, first come first served)
   * becomes confirmed with no position; no other row changes. Cancelling a
   * waitlisted or already cancelled row promotes nobody.
   */
  lemma CancelAtEffect(events: seq<Event>, regs: seq<Registration>, i: nat, now: int)
    requires UniqueIds(regs) && i < |regs|
    ensures var s := CancelAt(events, regs, i, now).0;
      var e := regs[i].eventId;
      && s[i] == CancelledRow(regs[i], now)
      && (regs[i].status == Confirmed && LowestWaitlisted(regs, e).Some? ==>
            var j := LowestWaitlisted(regs, e).value;
            && IsWaitlistedFor(regs[j], e)
            && (forall k :: 0 <= k < |regs| && IsWaitlistedFor(regs[k], e) ==>
                  !PositionBefore(regs[k].waitlistPosition, regs[j].waitlistPosition))
            && s == regs[i := CancelledRow(regs[i], now)][j := PromotedRow(regs[j])])
      && (regs[i].status != Confirmed || LowestWaitlisted(regs, e).None? ==>
            s == regs[i := CancelledRow(regs[i], now)])
  {
    var r := regs[i];
    var e := r.eventId;
    MarkCancelledAt(regs, i, now);
    var c := regs[i := CancelledRow(r, now)];
    if r.status == Confirmed {
      assert forall k :: 0 <= k < |regs| ==> (IsWaitlistedFor(c[k], e) <==> IsWaitlistedFor(regs[k], e));
      LowestWaitlistedAgree(regs, c, e);
      match LowestWaitlisted(c, e)
      case None =>
      case Some(j) =>
        assert c[j] == regs[j];
        assert UniqueIds(c) by {
          assert forall k :: 0 <= k < |c| ==> c[k].id == regs[k].id;
        }
        MarkPromotedAt(c, j);
    }
  }

  /**
   * `LowestWaitlisted` looks at the waitlisted rows of the event only: two
   * tables with the same waitlisted rows in the same places agree on it.
   */
  lemma {:induction false} LowestWaitlistedAgree(a: seq<Registration>, b: seq<Registration>, e: int)
    requires |a| == |b|
    requires forall k :: 0 <= k < |a| ==> (IsWaitlistedFor(a[k], e) <==> IsWaitlistedFor(b[k], e))
    requires forall k :: 0 <= k < |a| && IsWaitlistedFor(a[k], e) ==> a[k] == b[k]
    ensures LowestWaitlisted(a, e) == LowestWaitlisted(b, e)
  {
    if a != [] {
      var n := |a| - 1;
      LowestWaitlistedAgree(a[..n], b[..n], e);
    }
  }

  /**
   * Cancelling keeps the table invariant: ids, tokens and (event, email)
   * pairs do not change, a promoted row holds no position, and the
   * remaining waitlisted rows keep theirs.
   */
  lemma CancelAtKeepsValid(events: seq<Event>, regs: seq<Registration>, i: nat, now: int)
    requires RowsValid(regs) && i < |regs|
    ensures RowsValid(CancelAt(events, regs, i, now).0)
    ensures var s := CancelAt(events, regs, i, now).0;
      |s| == |regs| && forall k :: 0 <= k < |s| ==> s[k].id == regs[k].id
  {
    CancelAtEffect(events, regs, i, now);
    var s := CancelAt(events, regs, i, now).0;
    var c := regs[i := CancelledRow(regs[i], now)];
    var w := LowestWaitlisted(regs, regs[i].eventId);
    if regs[i].status == Confirmed && w.Some? {
      var j := w.value;
      assert s == c[j := PromotedRow(regs[j])];
      forall k | 0 <= k < |s| ensures s[k] == regs[k] || s[k] == CancelledRow(regs[k], now) || s[k] == PromotedRow(regs[k]) {
        if k != i && k != j {
          assert s[k] == regs[k];
        }
      }
    } else {
      assert s == c;
      forall k | 0 <= k < |s| ensures s[k] == regs[k] || s[k] == CancelledRow(regs[k], now) || s[k] == PromotedRow(regs[k]) {
        if k != i {
          assert s[k] == regs[k];
        }
      }
    }
    EditsKeepValid(regs, s, now);
  }

  /** Rows that are each unchanged, cancelled or promoted keep the invariant. */
  lemma EditsKeepValid(regs: seq<Registration>, s: seq<Registration>, now: int)
    requires RowsValid(regs) && |s| == |regs|
    requires forall k :: 0 <= k < |s| ==>
      s[k] == regs[k] || s[k] == CancelledRow(regs[k], now) || s[k] == PromotedRow(regs[k])
    ensures RowsValid(s)
  {
    assert forall k :: 0 <= k < |s| ==>
      s[k].id == regs[k].id && s[k].confirmationToken == regs[k].confirmationToken
      && s[k].eventId == regs[k].eventId && s[k].email == regs[k].email;
    assert forall k :: 0 <= k < |s| && s[k].status == Waitlisted ==> s[k] == regs[k];
  }

  /**
   * An event's confirmed count never grows by a cancellation, so an event
   * within its capacity stays within it: promoting replaces the cancelled
   * confirmation one for one, and otherwise the count drops by one or stays.
   */
  lemma CancelAtConfirmedCount(events: seq<Event>, regs: seq<Registration>, i: nat, now: int, e: int)
    requires UniqueIds(regs) && i < |regs|
    ensures var s := CancelAt(events, regs, i, now).0;
      && ConfirmedCount(s, e) <= ConfirmedCount(regs, e)
      && (e != regs[i].eventId ==> ConfirmedCount(s, e) == ConfirmedCount(regs, e))
      && (regs[i].status == Confirmed && e == regs[i].eventId ==>
            ConfirmedCount(s, e) == ConfirmedCount(regs, e) - (if LowestWaitlisted(regs, e).Some? then 0 else 1))
  {
    CancelAtEffect(events, regs, i, now);
    var c := regs[i := CancelledRow(regs[i], now)];
    CancelledRowCount(regs, i, now, e);
    var w := LowestWaitlisted(regs, regs[i].eventId);
    if regs[i].status == Confirmed && w.Some? {
      assert c[w.value] == regs[w.value];
      PromotedRowCount(c, w.value, e);
    }
  }

  /** Cancelling one row takes it out of the confirmed count of its event, if it was in it. */
  lemma CancelledRowCount(regs: seq<Registration>, i: nat, now: int, e: int)
    requires i < |regs|
    ensures ConfirmedCount(regs[i := CancelledRow(regs[i], now)], e)
      == ConfirmedCount(regs, e) - (if regs[i].eventId == e && regs[i].status == Confirmed then 1 else 0)
  {
    CountUpdate(regs, i, CancelledRow(regs[i], now), InStatus(e, Confirmed));
  }

  /** Promoting a waitlisted row adds it to the confirmed count of its event. */
  lemma PromotedRowCount(regs: seq<Registration>, j: nat, e: int)
    requires j < |regs| && regs[j].status == Waitlisted
    ensures ConfirmedCount(regs[j := PromotedRow(regs[j])], e) == ConfirmedCount(regs, e) + (if regs[j].eventId == e then 1 else 0)
  {
    CountUpdate(regs, j, PromotedRow(regs[j]), InStatus(e, Confirmed));
  }

  /** Cancelling a row of one event leaves every row of every other event as it was. */
  lemma CancelAtOtherEvents(events: seq<Event>, regs: seq<Registration>, i: nat, now: int)
    requires UniqueIds(regs) && i < |regs|
    ensures var s := CancelAt(events, regs, i, now).0;
      forall k :: 0 <= k < |regs| && regs[k].eventId != regs[i].eventId ==> s[k] == regs[k]
  {
    CancelAtEffect(events, regs, i, now);
    var w := LowestWaitlisted(regs, regs[i].eventId);
    if regs[i].status == Confirmed && w.Some? {
      assert regs[w.value].eventId == regs[i].eventId;
    }
  }

  /** Where the one-click link sends the browser. */
  datatype CancelRedirect = MissingToken | InvalidToken | AlreadyCancelled | CancelDone

  function RedirectPath(r: CancelRedirect): (path: string)
    ensures |path| > 8 && path[..8] == "/events?"
  {
    match r
    case MissingToken => "/events?error=missing-token"
    case InvalidToken => "/events?error=invalid-token"
    case AlreadyCancelled => "/events?message=already-cancelled"
    case CancelDone => "/events?message=cancelled"
  }

  datatype CancelOutcome = CancelOutcome(redirect: CancelRedirect, registrations: seq<Registration>, mail: PromotionMail)

  /**
   * `GET /api/cancel-registration` with query parameter `token` (`None` when
   * absent), at time `now`. The e-mail is sent after both updates and its
   * failure is ignored, so it changes neither the table nor the redirect.
   */
  function CancelByToken(events: seq<Event>, regs: seq<Registration>, token: Option<string>, now: int): (o: CancelOutcome)
    ensures o.redirect == MissingToken <==> token.None? || token.value == ""
    ensures o.redirect == InvalidToken <==> token.Some? && token.value != "" && FindByToken(regs, token.value).None?
    ensures o.redirect == AlreadyCancelled <==>
      token.Some? && token.value != "" && FindByToken(regs, token.value).Some?
      && regs[FindByToken(regs, token.value).value].status == Cancelled
    ensures o.redirect != CancelDone ==> o.registrations == regs && o.mail == NoPromotionMail
    ensures o.redirect == CancelDone ==>
      var i := FindByToken(regs, token.value).value;
      (o.registrations, o.mail) == CancelAt(events, regs, i, now)
  {
    if token.None? || token.value == "" then CancelOutcome(MissingToken, regs, NoPromotionMail)
    else
      match FindByToken(regs, token.value)
      case None => CancelOutcome(InvalidToken, regs, NoPromotionMail)
      case Some(i) =>
        if regs[i].status == Cancelled then CancelOutcome(AlreadyCancelled, regs, NoPromotionMail)
        else
          var (s, mail) := CancelAt(events, regs, i, now);
          CancelOutcome(CancelDone, s, mail)
  }

  /**
   * A second click on the same link is harmless: after a cancellation the
   * token still finds the row, now cancelled, and nothing changes.
   */
  lemma CancelTwice(events: seq<Event>, regs: seq<Registration>, token: string, now: int, now2: int)
    requires RowsValid(regs)
    requires CancelByToken(events, regs, Some(token), now).redirect == CancelDone
    ensures var o := CancelByToken(events, regs, Some(token), now);
      var o2 := CancelByToken(events, o.registrations, Some(token), now2);
      o2.redirect == AlreadyCancelled && o2.registrations == o.registrations
  {
    var i := FindByToken(regs, token).value;
    var s := CancelAt(events, regs, i, now).0;
    CancelAtKeepsTokens(events, regs, i, now);
    FindByTokenAgree(regs, s, token);
  }

  /** Cancelling row `i` leaves every token in place and row `i` cancelled. */
  lemma CancelAtKeepsTokens(events: seq<Event>, regs: seq<Registration>, i: nat, now: int)
    requires UniqueIds(regs) && i < |regs|
    ensures var s := CancelAt(events, regs, i, now).0;
      && (forall k :: 0 <= k < |s| ==> s[k].confirmationToken == regs[k].confirmationToken)
      && s[i].status == Cancelled
  {
    CancelAtEffect(events, regs, i, now);
  }

  /** The token lookup depends on the tokens alone. */
  lemma FindByTokenAgree(a: seq<Registration>, b: seq<Registration>, token: string)
    requires |a| == |b|
    requires forall k :: 0 <= k < |a| ==> a[k].confirmationToken == b[k].confirmationToken
    ensures FindByToken(a, token) == FindByToken(b, token)
  {
  }

  /**
   * Admin `cancelRegistration(id)`: nothing happens for an unknown id;
   * otherwise the row is cancelled whatever its status (an already
   * cancelled row gets a fresh `cancelledAt`), with the same promotion rule.
   */
  function AdminCancel(events: seq<Event>, regs: seq<Registration>, id: int, now: int): (o: (seq<Registration>, PromotionMail))
    ensures FindRegistrationById(regs, id).None? ==> o == (regs, NoPromotionMail)
    ensures FindRegistrationById(regs, id).Some? ==> o == CancelAt(events, regs, FindRegistrationById(regs, id).value, now)
  {
    match FindRegistrationById(regs, id)
    case None => (regs, NoPromotionMail)
    case Some(i) => CancelAt(events, regs, i, now)
  }

  /** The admin action promotes only when the row it cancels was confirmed. */
  lemma AdminCancelPromotesOnlyForConfirmed(events: seq<Event>, regs: seq<Registration>, id: int, now: int)
    requires RowsValid(regs)
    ensures var (s, mail) := AdminCancel(events, regs, id, now);
      match FindRegistrationById(regs, id)
      case None => s == regs
      case Some(i) =>
        && s[i].status == Cancelled && s[i].cancelledAt == Some(now)
        && (regs[i].status != Confirmed ==> s == regs[i := CancelledRow(regs[i], now)] && mail == NoPromotionMail)
  {
    match FindRegistrationById(regs, id)
    case None =>
    case Some(i) => CancelAtEffect(events, regs, i, now);
  }

  /**
   * The cancel link in the registration e-mail works: right after a
   * registration that wrote a row, the mail's token finds exactly that row,
   * and following the link cancels it.
   */
  lemma RegisterThenCancel(events: seq<Event>, regs: seq<Registration>, nextId: int, event: Event, email: string,
                           firstName: string, lastName: Option<string>, now: int, token: string, now2: int)
    requires RowsValid(regs) && IdsBelow(regs, nextId) && FreshToken(regs, token)
    requires Writes(regs, event.id, email)
    ensures var o := Admit(regs, nextId, event, email, firstName, lastName, now, token);
      var i := WrittenIndex(regs, event.id, email);
      && o.mail != NoMail
      && FindByToken(o.registrations, o.mail.cancelToken) == Some(i)
      && (o.mail.cancelToken != "" ==>
            var c := CancelByToken(events, o.registrations, Some(o.mail.cancelToken), now2);
            c.redirect == CancelDone && c.registrations[i].status == Cancelled)
  {
    var o := Admit(regs, nextId, event, email, firstName, lastName, now, token);
    var i := WrittenIndex(regs, event.id, email);
    AdmitMailNamesRow(regs, nextId, event, email, firstName, lastName, now, token);
    AdmitPreservesValid(regs, nextId, event, email, firstName, lastName, now, token);
    var s := o.registrations;
    FindOwnToken(s, i);
    if o.mail.cancelToken != "" {
      assert s[i].status != Cancelled;
      CancelOwnToken(events, s, i, now2);
    }
  }

  /** With distinct tokens, a row's own token finds that row. */
  lemma FindOwnToken(regs: seq<Registration>, i: nat)
    requires UniqueTokens(regs) && i < |regs|
    ensures FindByToken(regs, regs[i].confirmationToken) == Some(i)
  {
  }

  /** The link of a live registration cancels that registration. */
  lemma CancelOwnToken(events: seq<Event>, regs: seq<Registration>, i: nat, now: int)
    requires RowsValid(regs) && i < |regs|
    requires regs[i].confirmationToken != "" && regs[i].status != Cancelled
    ensures var c := CancelByToken(events, regs, Some(regs[i].confirmationToken), now);
      c.redirect == CancelDone && c.registrations[i].status == Cancelled
  {
    FindOwnToken(regs, i);
    CancelAtEffect(events, regs, i, now);
  }
}
