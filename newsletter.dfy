/**
 * The newsletter subscribers table: `subscribeToNewsletter` (insert,
 * reactivate or no-op after validation and the captcha) and the one-click
 * `GET /api/unsubscribe?token=…`.
 */
module Newsletter {
  import opened Wrappers
  import opened Strings
  import opened Tables
  import opened Turnstile

  /**
   * A row of `newsletter_subscribers`. The profile columns (residence,
   * interests, …) are written elsewhere; `interests` and `helpPreferences`
   * are `None` when the stored value is not an array.
   */
  datatype Subscriber = Subscriber(
    id: int,
    email: string,
    firstName: Option<string>,
    lastName: Option<string>,
    zipCode: Option<string>,
    residence: Option<string>,
    interests: Option<seq<string>>,
    otherInterest: Option<string>,
    helpPreferences: Option<seq<string>>,
    otherHelp: Option<string>,
    source: Option<string>,
    isActive: bool,
    subscribedAt: int,
    unsubscribedAt: Option<int>,
    unsubscribeToken: Option<string>)

  /** The submitted form; absent fields arrive as "". */
  datatype NewsletterForm = NewsletterForm(email: string, firstName: string, lastName: string, zipCode: string, turnstileToken: string)

  /** The fields the schema can reject: first and last name accept any text, "" included. */
  datatype NewsletterField = EmailField | ZipCodeField

  /** `/^\d{5}(-\d{4})?$/`. */
  predicate IsZipCode(z: string): (ok: bool)
    ensures ok ==> (|z| == 5 || |z| == 10) && forall i :: 0 <= i < 5 ==> IsDigit(z[i])
  {
    (|z| == 5 && AllDigits(z)) || (|z| == 10 && AllDigits(z[..5]) && z[5] == '-' && AllDigits(z[6..]))
  }

  /** A ZIP code is five digits, or ten characters with the hyphen at index 5 and digits elsewhere. */
  lemma ZipCodeShape(z: string)
    ensures IsZipCode(z) <==>
      (|z| == 5 || |z| == 10) && forall i :: 0 <= i < |z| ==> if i == 5 then z[i] == '-' else IsDigit(z[i])
  {
    if |z| == 10 && forall i :: 0 <= i < |z| ==> if i == 5 then z[i] == '-' else IsDigit(z[i]) {
      assert forall i :: 0 <= i < 5 ==> z[..5][i] == z[i];
      assert forall i :: 0 <= i < 4 ==> z[6..][i] == z[i + 6];
    }
    if |z| == 10 && IsZipCode(z) {
      assert forall i :: 0 <= i < 5 ==> z[..5][i] == z[i];
      assert forall i :: 6 <= i < 10 ==> z[6..][i - 6] == z[i];
    }
  }

  /** The fields `newsletterSchema` rejects; the ZIP code may be left empty. */
  function NewsletterErrors(f: NewsletterForm, isEmail: string -> bool): (errors: set<NewsletterField>)
    ensures errors == {} <==> isEmail(f.email) && (f.zipCode == "" || IsZipCode(f.zipCode))
    ensures ZipCodeField in errors <==> f.zipCode != "" && !IsZipCode(f.zipCode)
  {
    (if !isEmail(f.email) then {EmailField} else {})
    + (if f.zipCode != "" && !IsZipCode(f.zipCode) then {ZipCodeField} else {})
  }

  /** How a subscription request ends. */
  datatype SubscribeKind = Invalid(errors: set<NewsletterField>) | CaptchaFailed | AlreadySubscribed | Resubscribed | Subscribed

  function SubscribeMessage(k: SubscribeKind): string {
    match k
    case Invalid(_) => "Please fix the errors below."
    case CaptchaFailed => "Verification failed. Please try again."
    case AlreadySubscribed => "You're already subscribed! Thanks for your interest."
    case Resubscribed => "Welcome back! You've been re-subscribed to our newsletter."
    case Subscribed => "Thanks for subscribing! You'll hear from us soon."
  }

  predicate Succeeded(k: SubscribeKind) {
    k == AlreadySubscribed || k == Resubscribed || k == Subscribed
  }

  /** The form passes the schema and the captcha (checked only when a token came). */
  predicate Accepted(f: NewsletterForm, isEmail: string -> bool, captcha: Captcha) {
    NewsletterErrors(f, isEmail) == {} && (f.turnstileToken == "" || VerifyTurnstile(captcha, f.turnstileToken))
  }

  /** Index of the row with e-mail `email` (`… WHERE email = … LIMIT 1`). */
  function FindSubscriber(rows: seq<Subscriber>, email: string): Option<nat> {
    FirstIndex(rows, (s: Subscriber) => s.email == email)
  }

  /** The row a first subscription inserts: active, with empty optional fields as NULL. */
  function NewSubscriber(id: int, email: string, f: NewsletterForm, now: int, token: string): (r: Subscriber)
    ensures r.id == id && r.email == email && r.isActive && r.unsubscribedAt.None? && r.subscribedAt == now
    ensures r.firstName.None? <==> f.firstName == ""
    ensures r.lastName.None? <==> f.lastName == ""
    ensures r.zipCode.None? <==> f.zipCode == ""
  {
    Subscriber(id, email, OptionalText(f.firstName), OptionalText(f.lastName), OptionalText(f.zipCode),
      None, None, None, None, None, None, true, now, None, Some(token))
  }

  /** The reactivated row: active again, and each name or ZIP replaced only by a non-empty new value. */
  function Reactivated(s: Subscriber, f: NewsletterForm): (r: Subscriber)
    ensures r.id == s.id && r.email == s.email && r.isActive && r.unsubscribedAt.None?
    ensures f.firstName == "" ==> r.firstName == s.firstName
    ensures f.lastName == "" ==> r.lastName == s.lastName
    ensures f.zipCode == "" ==> r.zipCode == s.zipCode
  {
    s.(isActive := true, unsubscribedAt := None,
       firstName := if f.firstName != "" then Some(f.firstName) else s.firstName,
       lastName := if f.lastName != "" then Some(f.lastName) else s.lastName,
       zipCode := if f.zipCode != "" then Some(f.zipCode) else s.zipCode)
  }

  /** `UPDATE … SET … WHERE email = email` for the reactivation. */
  function ReactivateWhere(rows: seq<Subscriber>, email: string, f: NewsletterForm): (r: seq<Subscriber>)
    ensures |r| == |rows|
    ensures forall k :: 0 <= k < |rows| ==> r[k] == if rows[k].email == email then Reactivated(rows[k], f) else rows[k]
  {
    seq(|rows|, k requires 0 <= k < |rows| => if rows[k].email == email then Reactivated(rows[k], f) else rows[k])
  }

  datatype SubscribeOutcome = SubscribeOutcome(kind: SubscribeKind, rows: seq<Subscriber>, nextId: int)

  /**
   * `subscribeToNewsletter(formData)` at time `now`; `token` is the
   * unsubscribe token a new row receives (its generation is not part of this model).
   */
  function Subscribe(rows: seq<Subscriber>, nextId: int, f: NewsletterForm, isEmail: string -> bool, captcha: Captcha,
                     now: int, token: string): (o: SubscribeOutcome)
    ensures !Accepted(f, isEmail, captcha) <==> !Succeeded(o.kind)
    ensures o.kind == Subscribed || (o.nextId == nextId && (o.kind == Resubscribed || o.rows == rows))
    ensures NewsletterErrors(f, isEmail) != {} ==> o.kind == Invalid(NewsletterErrors(f, isEmail))
    ensures o.kind == CaptchaFailed <==>
      NewsletterErrors(f, isEmail) == {} && f.turnstileToken != "" && !VerifyTurnstile(captcha, f.turnstileToken)
    ensures o.kind == Subscribed <==> Accepted(f, isEmail, captcha) && FindSubscriber(rows, NormalizeEmail(f.email)).None?
    ensures o.kind == Subscribed ==>
      o.rows == rows + [NewSubscriber(nextId, NormalizeEmail(f.email), f, now, token)] && o.nextId == nextId + 1
    ensures o.kind == Resubscribed ==>
      var i := FindSubscriber(rows, NormalizeEmail(f.email));
      i.Some? && !rows[i.value].isActive && o.rows == ReactivateWhere(rows, NormalizeEmail(f.email), f)
    ensures o.kind == AlreadySubscribed ==>
      var i := FindSubscriber(rows, NormalizeEmail(f.email));
      i.Some? && rows[i.value].isActive
  {
    var errors := NewsletterErrors(f, isEmail);
    if errors != {} then SubscribeOutcome(Invalid(errors), rows, nextId)
    else if f.turnstileToken != "" && !VerifyTurnstile(captcha, f.turnstileToken) then SubscribeOutcome(CaptchaFailed, rows, nextId)
    else
      var email := NormalizeEmail(f.email);
      match FindSubscriber(rows, email)
      case Some(i) =>
        if !rows[i].isActive then SubscribeOutcome(Resubscribed, ReactivateWhere(rows, email, f), nextId)
        else SubscribeOutcome(AlreadySubscribed, rows, nextId)
      case None => SubscribeOutcome(Subscribed, rows + [NewSubscriber(nextId, email, f, now, token)], nextId + 1)
  }

  /** At most one row per e-mail address (the `unique` constraint). */
  ghost predicate OneRowPerEmail(rows: seq<Subscriber>) {
    forall i, j :: 0 <= i < j < |rows| ==> rows[i].email != rows[j].email
  }

  ghost predicate SubscriberIdsBelow(rows: seq<Subscriber>, nextId: int) {
    forall k :: 0 <= k < |rows| ==> rows[k].id < nextId
  }

  /** Subscribing keeps one row per e-mail and the ids below the id sequence. */
  lemma SubscribeKeepsInvariant(rows: seq<Subscriber>, nextId: int, f: NewsletterForm, isEmail: string -> bool,
                                captcha: Captcha, now: int, token: string)
    requires OneRowPerEmail(rows) && SubscriberIdsBelow(rows, nextId)
    ensures var o := Subscribe(rows, nextId, f, isEmail, captcha, now, token);
      OneRowPerEmail(o.rows) && SubscriberIdsBelow(o.rows, o.nextId)
  {
    if !Accepted(f, isEmail, captcha) {
    } else if FindSubscriber(rows, NormalizeEmail(f.email)).None? {
      InsertKeepsInvariant(rows, nextId, f, isEmail, captcha, now, token);
    } else {
      ReactivateKeepsInvariant(rows, nextId, f, isEmail, captcha, now, token);
    }
  }

  lemma InsertKeepsInvariant(rows: seq<Subscriber>, nextId: int, f: NewsletterForm, isEmail: string -> bool,
                             captcha: Captcha, now: int, token: string)
    requires OneRowPerEmail(rows) && SubscriberIdsBelow(rows, nextId)
    requires Accepted(f, isEmail, captcha) && FindSubscriber(rows, NormalizeEmail(f.email)).None?
    ensures var o := Subscribe(rows, nextId, f, isEmail, captcha, now, token);
      OneRowPerEmail(o.rows) && SubscriberIdsBelow(o.rows, o.nextId)
  {
    var email := NormalizeEmail(f.email);
    assert forall k :: 0 <= k < |rows| ==> rows[k].email != email;
    AppendKeepsInvariant(rows, NewSubscriber(nextId, email, f, now, token), nextId);
  }

  lemma ReactivateKeepsInvariant(rows: seq<Subscriber>, nextId: int, f: NewsletterForm, isEmail: string -> bool,
                                 captcha: Captcha, now: int, token: string)
    requires OneRowPerEmail(rows) && SubscriberIdsBelow(rows, nextId)
    requires Accepted(f, isEmail, captcha) && FindSubscriber(rows, NormalizeEmail(f.email)).Some?
    ensures var o := Subscribe(rows, nextId, f, isEmail, captcha, now, token);
      OneRowPerEmail(o.rows) && SubscriberIdsBelow(o.rows, o.nextId)
  {
    var o := Subscribe(rows, nextId, f, isEmail, captcha, now, token);
    if o.kind == Resubscribed {
      ReactivateWhereKeepsInvariant(rows, nextId, NormalizeEmail(f.email), f);
    }
  }

  /** The reactivation update keeps every e-mail and id, hence the invariant. */
  lemma ReactivateWhereKeepsInvariant(rows: seq<Subscriber>, nextId: int, email: string, f: NewsletterForm)
    requires OneRowPerEmail(rows) && SubscriberIdsBelow(rows, nextId)
    ensures OneRowPerEmail(ReactivateWhere(rows, email, f)) && SubscriberIdsBelow(ReactivateWhere(rows, email, f), nextId)
  {
    var r := ReactivateWhere(rows, email, f);
    assert forall k :: 0 <= k < |rows| ==> r[k].email == rows[k].email && r[k].id == rows[k].id;
  }

  /** Appending a row with a new e-mail and the next id keeps the invariant. */
  lemma AppendKeepsInvariant(rows: seq<Subscriber>, s: Subscriber, nextId: int)
    requires OneRowPerEmail(rows) && SubscriberIdsBelow(rows, nextId) && s.id == nextId
    requires forall k :: 0 <= k < |rows| ==> rows[k].email != s.email
    ensures OneRowPerEmail(rows + [s]) && SubscriberIdsBelow(rows + [s], nextId + 1)
  {
    var r := rows + [s];
    assert forall k :: 0 <= k < |rows| ==> r[k] == rows[k];
  }

  /**
   * Reactivation touches only the subscriber's row: with one row per
   * e-mail, the inactive row found becomes active with its `unsubscribedAt`
   * cleared, and every other row is unchanged.
   */
  lemma ResubscribeTouchesOneRow(rows: seq<Subscriber>, nextId: int, f: NewsletterForm, isEmail: string -> bool,
                                 captcha: Captcha, now: int, token: string, i: nat)
    requires OneRowPerEmail(rows) && Accepted(f, isEmail, captcha)
    requires FindSubscriber(rows, NormalizeEmail(f.email)) == Some(i) && !rows[i].isActive
    ensures var o := Subscribe(rows, nextId, f, isEmail, captcha, now, token);
      && o.kind == Resubscribed && o.nextId == nextId
      && o.rows == rows[i := Reactivated(rows[i], f)]
      && o.rows[i].isActive && o.rows[i].unsubscribedAt.None? && o.rows[i].id == rows[i].id
  {
    ReactivateWhereOne(rows, NormalizeEmail(f.email), f, i);
  }

  /** With one row per e-mail, the reactivation update rewrites exactly the row of that e-mail. */
  lemma ReactivateWhereOne(rows: seq<Subscriber>, email: string, f: NewsletterForm, i: nat)
    requires OneRowPerEmail(rows) && i < |rows| && rows[i].email == email
    ensures ReactivateWhere(rows, email, f) == rows[i := Reactivated(rows[i], f)]
  {
    assert forall k :: 0 <= k < |rows| && k != i ==> rows[k].email != email;
  }

  /** Where to the unsubscribe request redirects. */
  datatype UnsubscribeRedirect = UnsubscribeMissingToken | UnsubscribeInvalidToken | UnsubscribeDone

  function UnsubscribePath(r: UnsubscribeRedirect): string {
    match r
    case UnsubscribeMissingToken => "/unsubscribe?error=missing-token"
    case UnsubscribeInvalidToken => "/unsubscribe?error=invalid-token"
    case UnsubscribeDone => "/unsubscribe?success=true"
  }

  predicate HoldsToken(s: Subscriber, token: string) {
    s.unsubscribeToken == Some(token)
  }

  /** `UPDATE … SET is_active = false, unsubscribed_at = now WHERE unsubscribe_token = token`. */
  function UnsubscribeRows(rows: seq<Subscriber>, token: string, now: int): (r: seq<Subscriber>)
    ensures |r| == |rows|
    ensures forall k :: 0 <= k < |rows| ==>
      r[k] == if HoldsToken(rows[k], token) then rows[k].(isActive := false, unsubscribedAt := Some(now)) else rows[k]
  {
    seq(|rows|, k requires 0 <= k < |rows| =>
      if HoldsToken(rows[k], token) then rows[k].(isActive := false, unsubscribedAt := Some(now)) else rows[k])
  }

  /** The redirect for a request whose token is `token` (`None` when absent). */
  function UnsubscribeResult(rows: seq<Subscriber>, token: Option<string>): (r: UnsubscribeRedirect)
    ensures r == UnsubscribeMissingToken <==> token.None? || token.value == ""
    ensures r == UnsubscribeDone <==> token.Some? && token.value != "" && exists k :: 0 <= k < |rows| && HoldsToken(rows[k], token.value)
  {
    if token.None? || token.value == "" then UnsubscribeMissingToken
    else if exists k :: 0 <= k < |rows| && HoldsToken(rows[k], token.value) then UnsubscribeDone
    else UnsubscribeInvalidToken
  }

  /**
   * The token is not cleared: repeating the request succeeds again, and the
   * table ends as if only the last request had been made.
   */
  lemma UnsubscribeIdempotent(rows: seq<Subscriber>, token: string, now: int, now2: int)
    ensures UnsubscribeRows(UnsubscribeRows(rows, token, now), token, now2) == UnsubscribeRows(rows, token, now2)
    ensures UnsubscribeResult(UnsubscribeRows(rows, token, now), Some(token)) == UnsubscribeResult(rows, Some(token))
  {
    var r1 := UnsubscribeRows(rows, token, now);
    var r2 := UnsubscribeRows(r1, token, now2);
    var r3 := UnsubscribeRows(rows, token, now2);
    forall k | 0 <= k < |rows| ensures HoldsToken(r1[k], token) == HoldsToken(rows[k], token) && r2[k] == r3[k] {
    }
    assert r2 == r3;
    if token != "" && exists k :: 0 <= k < |rows| && HoldsToken(rows[k], token) {
      var k :| 0 <= k < |rows| && HoldsToken(rows[k], token);
      assert HoldsToken(r1[k], token);
    }
  }

  /**
   * Round trip: a subscriber who unsubscribed with their token and submits
   * the form again with the same address is reactivated in place.
   */
  lemma UnsubscribeThenResubscribe(rows: seq<Subscriber>, nextId: int, i: nat, token: string, now: int,
                                   f: NewsletterForm, isEmail: string -> bool, captcha: Captcha, now2: int, token2: string)
    requires OneRowPerEmail(rows) && i < |rows| && HoldsToken(rows[i], token)
    requires Accepted(f, isEmail, captcha) && NormalizeEmail(f.email) == rows[i].email
    ensures var r := UnsubscribeRows(rows, token, now);
      var o := Subscribe(r, nextId, f, isEmail, captcha, now2, token2);
      && o.kind == Resubscribed && o.nextId == nextId
      && o.rows == r[i := Reactivated(r[i], f)] && o.rows[i].isActive && o.rows[i].id == rows[i].id
  {
    var r := UnsubscribeRows(rows, token, now);
    UnsubscribeKeepsEmails(rows, token, now);
    FindSubscriberUnique(r, i);
    ResubscribeTouchesOneRow(r, nextId, f, isEmail, captcha, now2, token2, i);
  }

  /** Unsubscribing changes no e-mail or id, so it keeps one row per e-mail. */
  lemma UnsubscribeKeepsEmails(rows: seq<Subscriber>, token: string, now: int)
    requires OneRowPerEmail(rows)
    ensures var r := UnsubscribeRows(rows, token, now);
      && OneRowPerEmail(r)
      && forall k :: 0 <= k < |r| ==> r[k].email == rows[k].email && r[k].id == rows[k].id
  {
  }

  /** With one row per e-mail, the lookup of a row's e-mail finds that row. */
  lemma FindSubscriberUnique(rows: seq<Subscriber>, i: nat)
    requires OneRowPerEmail(rows) && i < |rows|
    ensures FindSubscriber(rows, rows[i].email) == Some(i)
  {
    var found := FindSubscriber(rows, rows[i].email);
    assert found.Some?;
  }

  /** The subscribers table and its serial id sequence. */
  class SubscriberTable {
    var rows: seq<Subscriber>
    var nextId: int

    ghost predicate Valid()
      reads this
    {
      OneRowPerEmail(rows) && SubscriberIdsBelow(rows, nextId)
    }

    constructor ()
      ensures Valid() && rows == [] && nextId == 1
    {
      rows := [];
      nextId := 1;
    }

    /** `subscribeToNewsletter(formData)` at time `now`. */
    method SubscribeToNewsletter(f: NewsletterForm, isEmail: string -> bool, captcha: Captcha, now: int, token: string)
      returns (success: bool, message: string)
      requires Valid()
      modifies this
      ensures Valid()
      ensures var o := Subscribe(old(rows), old(nextId), f, isEmail, captcha, now, token);
        rows == o.rows && nextId == o.nextId && success == Succeeded(o.kind) && message == SubscribeMessage(o.kind)
    {
      var o := Subscribe(rows, nextId, f, isEmail, captcha, now, token);
      SubscribeKeepsInvariant(rows, nextId, f, isEmail, captcha, now, token);
      rows := o.rows;
      nextId := o.nextId;
      success := Succeeded(o.kind);
      message := SubscribeMessage(o.kind);
    }

    /** `GET /api/unsubscribe?token=…` at time `now`: every row holding the token is updated in place. */
    method Unsubscribe(token: Option<string>, now: int) returns (redirect: UnsubscribeRedirect)
      requires Valid()
      modifies this
      ensures Valid()
      ensures redirect == UnsubscribeResult(old(rows), token)
      ensures rows == if token.None? || token.value == "" then old(rows) else UnsubscribeRows(old(rows), token.value, now)
      ensures nextId == old(nextId)
    {
      if token.None? || token.value == "" {
        return UnsubscribeMissingToken;
      }
      var t := token.value;
      var matched := false;
      for i := 0 to |rows|
        invariant |rows| == |old(rows)| && nextId == old(nextId)
        invariant forall k :: 0 <= k < i ==> rows[k] == UnsubscribeRows(old(rows), t, now)[k]
        invariant forall k :: i <= k < |rows| ==> rows[k] == old(rows)[k]
        invariant matched <==> exists k :: 0 <= k < i && HoldsToken(old(rows)[k], t)
      {
        if HoldsToken(rows[i], t) {
          rows := rows[i := rows[i].(isActive := false, unsubscribedAt := Some(now))];
          matched := true;
        }
      }
      assert forall k :: 0 <= k < |rows| ==> rows[k].email == old(rows)[k].email && rows[k].id == old(rows)[k].id;
      redirect := if matched then UnsubscribeDone else UnsubscribeInvalidToken;
    }
  }
}
