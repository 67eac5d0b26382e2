# dc-abundance, modelled in Dafny

A model of the server-side logic of the DC Abundance website, with proofs about it. The database becomes in-memory tables, and each server action becomes an operation on them. The model covers:

- recurring event dates: weekly steps, "Nth or last weekday of the month", occurrence caps, pattern labels and slug suffixes;
- event registration, with capacity, the waitlist and the reuse of cancelled rows;
- cancellation, by e-mailed token and by an admin, with first-in-first-out promotion from the waitlist;
- the event admin: validation, unique slugs, create, update and delete, and the generated slug;
- the public event listing and its capacity display;
- newsletter subscription, reactivation and unsubscribe-by-token;
- the contact form and the admin inbox flags;
- admin session tokens and the cookie login;
- the subscriber spreadsheet export and the export button's choice of file name;
- the sidebar's active link, the newsletter form's checkbox toggles, and the image-placeholder key script.

Tables that the code updates in place are classes (`EventStore.EventStore`, `Newsletter.SubscriberTable`, `AdminMessages.MessageTable`, `AdminAuth.CookieJar`, `NewsletterForm.ProfileForm`, `ExportButton.ExportButtonState`). Their methods are tied by their postconditions to pure step functions, and the properties are proved about those functions.

Things outside the program become parameters:

- the clock (`now`, in milliseconds);
- the e-mail syntax check;
- the Turnstile siteverify call;
- date parsing and ISO formatting;
- base64, HMAC-SHA256 and the random bytes;
- the image previewer.

Where a proof needs one of them to behave, the law it relies on is stated as a predicate, for example `AuthUtils.Lawful`: base64 decoding undoes encoding, and an HMAC is 64 lower-case hex digits.

Dates are proleptic Gregorian civil dates with an explicit day number, days-in-month and weekday. JavaScript's `Date` overflow (`new Date(y, m + 1, 0)`, `setDate(d + 7k)`) is written out as arithmetic.

## Model

| member | source | states |
|---|---|---|
| Strings.OptionalText | lib/actions/events.ts:203 | `lastName \|\| null`: NULL exactly for the empty string, the text otherwise |
| Strings.Lower | lib/actions/events.ts:106 | `toLowerCase()` on ASCII: same length, each character lower-cased |
| Strings.Trim | lib/actions/events.ts:106 | `trim()`: the result is a contiguous slice of the input; only white space lies outside it; the result neither starts nor ends with white space |
| Strings.TrimIdempotent | lib/actions/events.ts:106 | trimming twice is trimming once |
| Strings.NormalizeEmail | lib/actions/events.ts:106 | `email.toLowerCase().trim()` holds no upper-case letter and has no whitespace at either end |
| Strings.NormalizeEmailIdempotent | lib/actions/newsletter.ts:71-77 | normalising a normalised address changes nothing |
| Strings.NormalizeEmailIgnoresCase | lib/actions/events.ts:106 | addresses that differ only in letter case normalise alike |
| Strings.NatToString | lib/recurrence.ts:192-194 | `String(n)`: at least one digit, only digits, no leading zero |
| Strings.ParseNatToString | lib/recurrence.ts:192-194 | reading the digits of `String(n)` gives n back |
| Strings.LeadingDigits | lib/auth-utils.ts:35 | the longest digit prefix `parseInt` reads |
| Strings.ParseInt | lib/auth-utils.ts:35 | `parseInt(s, 10)`: leading white space and one sign are skipped, then the digits are read; NaN (None) exactly when no digit follows |
| Strings.ParseIntNatToString | lib/auth-utils.ts:16-35 | `parseInt(String(n), 10)` is n |
| Strings.PadStart2 | lib/recurrence.ts:192-193 | `padStart(2, '0')`: a shorter string is left-padded with zeros to length 2, a longer one is kept |
| Strings.PadStart2Nat | lib/recurrence.ts:192-193 | a padded number below 100 is two digits that read back as the number |
| Strings.Split | lib/auth-utils.ts:27 | `split(':')`: at least one part, no part holds the separator, and joining the parts gives the string back |
| Strings.SplitJoin | lib/auth-utils.ts:16-27 | splitting the join of separator-free parts gives the parts back |
| Tables.FirstIndex | lib/actions/events.ts:121-125 | a `WHERE ... LIMIT 1` lookup: the first row the condition accepts, None exactly when no row is accepted |
| Tables.CountWhere | lib/actions/events.ts:165-175 | a `count()`: at most the row count, 0 exactly when no row is accepted |
| Tables.CountAppend | lib/actions/events.ts:213-223 | an inserted row adds one to a count exactly when the condition accepts it |
| Tables.CountUpdate | lib/actions/events.ts:198-209 | an updated row changes a count by what the old and the new row contribute |
| Sorting.SortBy | lib/actions/events.ts:23 | `ORDER BY`: a permutation of the rows |
| Sorting.SortBySorted | lib/actions/events.ts:23 | `ORDER BY`: the rows come in ascending key order |
| Sorting.SortByMembers | lib/actions/events.ts:23 | `ORDER BY`: the same rows come out as went in |
| Calendar.DaysInMonth | lib/recurrence.ts:66-67 | the day `new Date(y, m + 1, 0)` lands on: 28 to 31 days, 29 exactly for February of a leap year |
| Calendar.WeekdayAnchors | lib/recurrence.ts:5 | weekdays are numbered as `getDay()` numbers them: 1970-01-01 is a Thursday (4), 2024-01-01 a Monday (1) |
| Calendar.WeekdayShift | lib/recurrence.ts:77-84 | within a month, moving k days on moves the weekday k places on, modulo 7 |
| Calendar.ShiftDays | lib/recurrence.ts:43 | `setDate(getDate() + n)` overflows into later or earlier months: the result is a valid date exactly n days away |
| Calendar.LaterDayLaterInstant | lib/recurrence.ts:123 | `Date` comparison: a valid date-time on a later day is a later instant, whatever the clock times |
| Recurrence.GenerateWeeklyDates | lib/recurrence.ts:33-47 | exactly `count` dates (none for a negative count); the first is the start date; each is `intervalWeeks * 7` days after the previous at the same wall-clock time; they strictly increase when the interval is at least 1 |
| Recurrence.SteppedDatesIncrease | lib/recurrence.ts:41-44 | dates a positive number of days apart in turn come at strictly increasing instants |
| Recurrence.LastWeekdayOfMonth | lib/recurrence.ts:63-73 | the "last" case: a valid day of the requested month with the requested weekday, and 7 days later is past the month's end |
| Recurrence.NthWeekdayDay | lib/recurrence.ts:76-84 | the Nth case: the day has the requested weekday and lies in 7(N-1)+1 .. 7N |
| Recurrence.GetNthWeekdayOfMonth | lib/recurrence.ts:57-93 | a day of the requested month with the requested weekday; for N in 1..4 it always exists (so the `null` branch is unreachable) and lies in week N; for 5 it is the last such weekday |
| Recurrence.MonthlyPrefixAppend | lib/recurrence.ts:115-134 | pushing the next month's occurrence keeps the list equal, entry by entry, to the occurrences of consecutive months from the start |
| Recurrence.MonthlyStep | lib/recurrence.ts:115-134 | the loop step: the next month always has an occurrence, which extends the list, and after the first month it is not before the start |
| Recurrence.MonthlyIncreasing | lib/recurrence.ts:115-134 | occurrences taken from consecutive months strictly increase, and all but the first are at or after the start |
| Recurrence.GenerateMonthlyDates | lib/recurrence.ts:103-140 | min(count, months left up to December of start year + 3) dates, so any count up to 37 is met; each has the weekday, the start's hour and minute and zero seconds; the k-th is in the k-th month from the start; strictly increasing; all but the first at or after the start |
| Recurrence.FloorDiv | lib/recurrence.ts:158 | `Math.floor(a / b)`: the largest q with q * b <= a for positive b (rounding down for negative b too) |
| Recurrence.GetMaxOccurrences | lib/recurrence.ts:148-159 | 24 for monthly; 104 for weekly with the default interval; `Math.floor(104 / n)` for a weekly interval n other than 0; `Infinity` (None) exactly for a weekly interval of 0 |
| Recurrence.WeeklyCapSpansTwoYears | lib/recurrence.ts:152-158 | a weekly count within the cap times the interval is at most 104 weeks |
| Recurrence.WeeklyCapIsLargest | lib/recurrence.ts:152-158 | for a positive interval the cap is the largest count whose weeks fit in 104: one more would not fit |
| Recurrence.FormatRecurrencePattern | lib/recurrence.ts:164-185 | weekly labels start "Every "; monthly labels with a week start with that week's label; monthly without a week gives "" |
| Recurrence.DayNamesDistinct | lib/recurrence.ts:8-16 | the seven day labels are pairwise different |
| Recurrence.WeeklyAndMonthlyLabelsDiffer | lib/recurrence.ts:172-181 | no weekly label equals a monthly one |
| Recurrence.MonthlyLabelInjective | lib/recurrence.ts:179-181 | two monthly labels are equal only for the same weekday and week |
| Recurrence.WeeklyLabelInjective | lib/recurrence.ts:172-176 | two interval-1 labels "Every <Day>" are equal only for the same weekday |
| Recurrence.GenerateDateSlugSuffix | lib/recurrence.ts:190-195 | the year's digits, '-', two digits reading back the 1-based month, '-', two digits reading back the day |
| Recurrence.ParseDateSlugSuffix | lib/recurrence.ts:190-195 | the inverse reading of a suffix: only valid dates come out |
| Recurrence.SlugSuffixRoundTrip | lib/recurrence.ts:190-195 | for four-digit years the suffix is 10 characters `YYYY-MM-DD` with a 1-based month, and reading it back gives the date |
| Turnstile.VerifyTurnstile | lib/turnstile.ts:1-34 | without a secret key every token passes; with one, the verdict is the siteverify answer |
| EventTables.MaxWaitlistPosition | lib/actions/events.ts:182-190 | `max(waitlist_position)` over the event's waitlisted rows: NULL exactly when none has a position, otherwise a position some such row holds and no such row exceeds |
| EventTables.LowestWaitlisted | app/api/cancel-registration/route.ts:45-54 | the waitlisted row of the event with the lowest position (NULL last), and None exactly when the event has no waitlisted row |
| EventRegistration.RegistrationErrors | lib/actions/events.ts:64-70 | the schema accepts exactly a numeric eventId, an e-mail the e-mail check accepts and a non-empty first name |
| EventRegistration.NewStatus | lib/actions/events.ts:175-177 | confirmed exactly when the confirmed count is below `maxAttendees`, otherwise waitlisted |
| EventRegistration.Rejection | lib/actions/events.ts:95-132 | a rejection replies `success: false` with no status and the field errors; field errors come with "Please fix the errors below.", otherwise a failed captcha with "Verification failed. Please try again.", otherwise "Event not found." |
| EventRegistration.EventOf | lib/actions/events.ts:121-134 | an admissible request names an event of the table with its id |
| EventRegistration.NewPlacement | lib/actions/events.ts:175-192 | never cancelled; a position exactly for a waitlisted registrant |
| EventRegistration.Admit | lib/actions/events.ts:136-279 | once the event is found the action always succeeds, with the confirmed or waitlisted status it reports |
| EventRegistration.Register | lib/actions/events.ts:83-287 | an invalid form, a failed captcha (checked only when a token was sent) or an unknown event changes nothing and mails nothing, and the reply is the Rejection for those field errors and that captcha verdict; otherwise the outcome is admitting the normalised e-mail to that event |
| EventRegistration.AdmitWritesOneRow | lib/actions/events.ts:194-225 | a registrant without an active row gets exactly one row written and no other touched: their cancelled row reused (same id and token, new status, names and position, refreshed `registeredAt`, `cancelledAt` cleared) or one row appended with the next id and the new token |
| EventRegistration.AdmitMailNamesRow | lib/actions/events.ts:237-267 | the e-mail goes to the registrant, is a confirmation exactly for a confirmed row, carries the stored waitlist position otherwise, and its cancel link holds the stored row's token |
| EventRegistration.PlacementRule | lib/actions/events.ts:175-192 | confirmed iff the confirmed count is below `maxAttendees`, then with no position; otherwise a position above every current waitlisted position of the event, 1 when none waits |
| EventRegistration.PlacementPositive | lib/actions/events.ts:191 | under the table invariant a new waitlist position is at least 1 |
| EventRegistration.AdmitCapacity | lib/actions/events.ts:175-225 | admitting leaves every event's confirmed count unchanged, or adds one to the requested event's count when it was below `maxAttendees` |
| EventRegistration.RegisterCapacity | lib/actions/events.ts:83-287 | no request lifts an event's confirmed count above the larger of its previous count and its `maxAttendees` |
| EventRegistration.AdmitExisting | lib/actions/events.ts:148-161 | a registrant whose row is confirmed or waitlisted is told that status, and nothing is written or sent |
| EventRegistration.AdmitInserts | lib/actions/events.ts:211-225 | a first-time registrant gets one new last row with the next id, the fresh token and the placement the rule gives |
| EventRegistration.AdmitReuses | lib/actions/events.ts:196-210 | a registrant with a cancelled row gets that row back in place, with the new placement, names and time and `cancelledAt` cleared |
| EventRegistration.AdmitFindsWritten | lib/actions/events.ts:143-225 | after a write, the lookup by event and e-mail finds the written row, and that row is live |
| EventRegistration.InsertKeepsRowsValid | lib/actions/events.ts:175-225 | appending a first-time registrant's row keeps ids, tokens and (event, e-mail) pairs distinct and waitlist positions distinct and positive |
| EventRegistration.ReuseKeepsRowsValid | lib/actions/events.ts:175-210 | rewriting a registrant's own cancelled row keeps the same invariant |
| EventRegistration.AdmitPreservesValid | lib/actions/events.ts:136-225 | admitting keeps unique ids and tokens, one row per (event, e-mail), well-formed and distinct waitlist positions, and the id sequence ahead |
| EventRegistration.RegisterPreservesValid | lib/actions/events.ts:83-287 | every request, accepted or not, keeps that table invariant |
| EventRegistration.AttendeeRowsValid | lib/actions/events.ts:196-225 | replacing or appending the one row of an (event, e-mail) pair with well-placed status and position keeps the table invariant |
| EventRegistration.AdmitIdempotent | lib/actions/events.ts:148-161 | admitting the same registrant again, at any time and with any token, changes nothing, reports the same status and sends nothing |
| EventRegistration.RegisterIdempotent | lib/actions/events.ts:148-161 | repeating a successful request changes nothing and reports the same status |
| EventRegistration.AdmissibleSameVerdict | lib/actions/events.ts:95-132 | two addresses the e-mail check judges alike get the same validation and admission verdicts |
| EventRegistration.RegisterIgnoresEmailCase | lib/actions/events.ts:106 | addresses equal after trimming and lower-casing give the same outcome |
| Cancellation.MarkCancelled | app/api/cancel-registration/route.ts:35-41 | the `UPDATE ... WHERE id`: rows with the id become cancelled at the given time, every other row is unchanged |
| Cancellation.MarkPromoted | app/api/cancel-registration/route.ts:58-64 | the promotion `UPDATE ... WHERE id`: rows with the id become confirmed with no position, every other row is unchanged |
| Cancellation.MarkCancelledAt | app/api/cancel-registration/route.ts:35-41 | with distinct ids the update by a row's id changes that row alone |
| Cancellation.MarkPromotedAt | app/api/cancel-registration/route.ts:58-64 | with distinct ids the promotion by a row's id changes that row alone |
| Cancellation.CancelAt | app/api/cancel-registration/route.ts:32-64 | the row ends cancelled at now, and a promotion e-mail goes out only after cancelling a confirmed row, for that row's event, when the event exists |
| Cancellation.CancelAtEffect | app/api/cancel-registration/route.ts:32-64 | the row becomes cancelled at now; when it was confirmed and the event has a waitlist, exactly the waitlisted row with the lowest position becomes confirmed with no position; nothing else changes; a waitlisted row's cancellation promotes nobody |
| Cancellation.CancelAtKeepsValid | app/api/cancel-registration/route.ts:35-64 | cancelling keeps the table invariant (ids, tokens, one row per attendee, distinct positions) and every id in place |
| Cancellation.EditsKeepValid | app/api/cancel-registration/route.ts:35-64 | rows that are each kept, cancelled or promoted keep the table invariant |
| Cancellation.CancelAtConfirmedCount | app/api/cancel-registration/route.ts:35-64 | no event's confirmed count grows; other events' counts are unchanged; a confirmed cancellation drops its event's count by one unless someone is promoted, which keeps it |
| Cancellation.CancelAtOtherEvents | app/api/cancel-registration/route.ts:35-64 | every row of every other event is untouched |
| Cancellation.RedirectPath | app/api/cancel-registration/route.ts:13-106 | every redirect goes to the events page with an error or message query |
| Cancellation.CancelByToken | app/api/cancel-registration/route.ts:9-111 | missing-token exactly for an absent or empty token, invalid-token exactly for a token no row holds, already-cancelled exactly for a cancelled row; all three change nothing and mail nothing; otherwise the row is cancelled with the promotion rule |
| Cancellation.CancelTwice | app/api/cancel-registration/route.ts:28-30 | a second click on the same link redirects with already-cancelled and changes nothing |
| Cancellation.FindByTokenAgree | app/api/cancel-registration/route.ts:18-22 | the token lookup depends on the tokens alone |
| Cancellation.AdminCancel | lib/actions/admin-events.ts:244-283 | nothing changes for an unknown id; otherwise the row is cancelled whatever its status, with the promotion rule |
| Cancellation.AdminCancelPromotesOnlyForConfirmed | lib/actions/admin-events.ts:251-263 | the admin action always leaves the row cancelled at now (overwriting an earlier `cancelledAt`) and, unless it was confirmed, changes nothing else and mails nobody |
| Cancellation.CancelAtKeepsTokens | app/api/cancel-registration/route.ts:35-64 | cancelling and promoting change no token, and the cancelled row is cancelled |
| Cancellation.CancelOwnToken | app/api/cancel-registration/route.ts:18-41 | the link of a registration that is not cancelled finds that row and cancels it |
| Cancellation.RegisterThenCancel | lib/actions/events.ts:237 | the cancel link in the registration e-mail finds exactly the written row, and following it (with a non-empty token) cancels that row |
| AdminEvents.ParseEventStatus | lib/actions/admin-events.ts:84 | the status enum accepts exactly "draft", "published" and "cancelled" |
| AdminEvents.EventFormErrors | lib/actions/admin-events.ts:74-85 | the schema accepts exactly: title of 3 or more characters, a slug of 3 or more characters of `[a-z0-9-]`, a description of 10 or more, a non-empty date, a location of 3 or more, a number of attendees of at least 1 and a known status; the slug error comes exactly from the slug rule |
| AdminEvents.GeneratedSlugAccepted | lib/actions/admin-events.ts:77 | a generated slug always meets the slug character class, and the whole slug rule once it has 3 characters |
| AdminEvents.FormFields | lib/actions/admin-events.ts:137-147 | the stored row keeps its id, takes the form's slug, date and capacity, and stores an empty short description or address as NULL |
| AdminEvents.CreateEvent | lib/actions/admin-events.ts:93-160 | only a saved event changes the table; a validation failure returns the field errors; a slug used by any event is refused; it saves exactly when the form is valid, the slug is free and the date parses, appending one row with the next id |
| AdminEvents.CreateEventKeepsInvariant | lib/actions/admin-events.ts:122-147 | creating keeps slugs unique, ids unique and every id below the id sequence |
| AdminEvents.UpdateWhereId | lib/actions/admin-events.ts:207-221 | the `UPDATE ... WHERE id`: rows with the id take the form's values and `updatedAt`; every other row is unchanged |
| AdminEvents.UpdateEvent | lib/actions/admin-events.ts:162-235 | only a saved update changes the table; a validation failure returns the field errors; the slug is refused exactly when another event owns it (the event's own slug is allowed); saved exactly when the form is valid, the slug is free or the event's own and the date parses, and then the rows with the id take the form's values |
| AdminEvents.UpdateEventKeepsInvariant | lib/actions/admin-events.ts:192-221 | updating keeps slugs and ids unique, keeps every id, and touches only the edited event's row; registrations are not an input, so a new capacity moves nobody |
| AdminEvents.DeleteEvent | lib/actions/admin-events.ts:237-241 | exactly the events with other ids remain |
| AdminEvents.DeleteEventKeepsInvariant | lib/actions/admin-events.ts:237-241 | deleting keeps slugs and ids unique and every id below the id sequence |
| AdminEvents.ConsKeepsInvariant | lib/actions/admin-events.ts:237-241 | a row whose slug and id no other row has can head a valid table |
| AdminEvents.GetEventById | lib/actions/admin-events.ts:13-21 | the event with the id, or null exactly when there is none |
| AdminEvents.GetAdminEvents | lib/actions/admin-events.ts:24-62 | one row per event, each with its confirmed and waitlisted counts |
| AdminEvents.GetAdminEventsOrdered | lib/actions/admin-events.ts:25-28 | the rows hold exactly the events, in ascending date order |
| AdminEvents.GetEventRegistrations | lib/actions/admin-events.ts:65-71 | every listed row is a row of the table and belongs to the event |
| AdminEvents.GetEventRegistrationsSpec | lib/actions/admin-events.ts:65-71 | exactly the event's registrations, oldest registration first |
| EventQueries.GetAllEvents | lib/actions/events.ts:26-32 | every event once, whatever its status, in ascending date order |
| EventQueries.UpcomingEvents | lib/actions/events.ts:13-24 | every listed event is a table event that is published and dated after now |
| EventQueries.UpcomingEventsSpec | lib/actions/events.ts:13-24 | exactly the published events dated after now, earliest first |
| EventQueries.EventBySlug | lib/actions/events.ts:35-61 | null exactly when no event has the slug; otherwise an event with the slug, whatever its status, with its confirmed count, and count plus free spots equal to `maxAttendees` |
| EventQueries.EventBySlugUnique | lib/actions/events.ts:35-44 | with unique slugs the detail shows the one event carrying the slug |
| EventCard.Card | components/events/EventCard.tsx:12-64 | the card links to "/events/" + slug, is full exactly when the count (default 0) reaches `maxAttendees`, and then reads "Waitlist" |
| EventCard.CardAgreesWithRegistration | components/events/EventCard.tsx:13-14 | a card is full exactly when registration would waitlist the next registrant (`lib/actions/events.ts:176`), and otherwise announces n >= 1 "spots left" |
| EventCard.CardDefaultCount | components/events/EventCard.tsx:12 | a card without a count shows the event as empty |
| EventsPage.GroupedConfirmedCounts | app/events/page.tsx:31-43 | the grouped query: one row per listed event that has confirmed registrations, holding that event's confirmed count; no event twice |
| EventsPage.GroupedConfirmedCountsComplete | app/events/page.tsx:31-43 | every listed event with a confirmed registration has its group row |
| EventsPage.BuildCountMap | app/events/page.tsx:46-49 | the map loop: every row's event is a key, and every entry comes from a row for that key |
| EventsPage.CountOrZeroIsCount | app/events/page.tsx:46-53 | looking an event up in the map built from the grouped rows is exactly the event's confirmed count, whether or not the event has a row |
| EventsPage.EventsWithCounts | app/events/page.tsx:22-55 | one entry per upcoming event, in the same order, with that event's confirmed count (0 when it has none); nothing upcoming gives [] |
| EventSlug.Collapse | components/admin/EventForm.tsx:42 | the replacement never lengthens the text and leaves only `[a-z0-9-]` |
| EventSlug.StripEdges | components/admin/EventForm.tsx:43 | the result is the input after one optional leading '-', losing one more character only when that is a trailing '-' |
| EventSlug.GenerateSlug | components/admin/EventForm.tsx:39-44 | a slug is no longer than the title and holds only `[a-z0-9-]` |
| EventSlug.DropRun | components/admin/EventForm.tsx:42 | skipping a run of non-alphanumerics keeps the letters and digits |
| EventSlug.CollapseShape | components/admin/EventForm.tsx:42 | the replacement leaves only `[a-z0-9-]`, never two dashes in a row, keeps a leading letter or digit, and is empty only for empty input |
| EventSlug.CollapseAlnums | components/admin/EventForm.tsx:42 | the replacement keeps the letters and digits in order |
| EventSlug.StripEdgesShape | components/admin/EventForm.tsx:43 | removing the edge dashes keeps the slug class and the letters, and leaves no dash at either end |
| EventSlug.GenerateSlugShape | components/admin/EventForm.tsx:39-44 | a generated slug holds only `[a-z0-9-]`, never starts or ends with '-', never holds "--", and keeps the title's letters (lower-cased) and digits in order |
| EventSlug.GenerateSlugEmpty | components/admin/EventForm.tsx:42-43 | the slug is empty exactly when the title has no ASCII letter or digit |
| EventSlug.CollapseFixed | components/admin/EventForm.tsx:42 | a string already in slug shape passes the replacement unchanged |
| EventSlug.GenerateSlugIdempotent | components/admin/EventForm.tsx:39-44 | generating a slug from a slug gives it back |
| EventSlug.CollapseJoin | components/admin/EventForm.tsx:42 | space-separated words of letters and digits come out joined by '-' |
| EventSlug.GenerateSlugOfWords | components/admin/EventForm.tsx:53-63 | a title of single-space-separated ASCII words gives the words lower-cased and joined by '-', as the placeholders "January DC Abundance Meetup" and "january-dc-abundance-meetup" show |
| Newsletter.IsZipCode | lib/actions/newsletter.ts:14-18 | an accepted ZIP code has 5 or 10 characters and starts with five digits |
| Newsletter.ZipCodeShape | lib/actions/newsletter.ts:14-18 | the ZIP pattern accepts exactly five digits, or ten characters with '-' at index 5 and digits elsewhere |
| Newsletter.NewsletterErrors | lib/actions/newsletter.ts:10-20 | the schema accepts exactly an e-mail the e-mail check accepts and a ZIP code that is empty or matches the pattern |
| Newsletter.NewSubscriber | lib/actions/newsletter.ts:107-112 | a new row is active, unsubscribed never, with the normalised e-mail and each empty optional field stored as NULL |
| Newsletter.Reactivated | lib/actions/newsletter.ts:83-92 | a reactivated row is active again with `unsubscribedAt` cleared, keeps its id and e-mail, and keeps each name or ZIP the form leaves empty |
| Newsletter.ReactivateWhere | lib/actions/newsletter.ts:83-92 | the `UPDATE ... WHERE email`: rows with the e-mail are reactivated, all others unchanged |
| Newsletter.Subscribe | lib/actions/newsletter.ts:33-125 | fails exactly for an invalid form or a failed captcha (checked only when a token came), then writing nothing; field errors are returned as such, and the captcha failure exactly when the fields are valid and a sent token fails; inserts one row exactly when the normalised e-mail is new; reactivates an inactive row; leaves an active subscriber as is |
| Newsletter.SubscribeKeepsInvariant | lib/actions/newsletter.ts:74-112 | subscribing keeps one row per e-mail and every id below the id sequence |
| Newsletter.InsertKeepsInvariant | lib/actions/newsletter.ts:107-112 | the insert branch keeps one row per e-mail and the ids below the sequence |
| Newsletter.ReactivateKeepsInvariant | lib/actions/newsletter.ts:80-98 | the reactivation branch keeps one row per e-mail and the ids below the sequence |
| Newsletter.ReactivateWhereKeepsInvariant | lib/actions/newsletter.ts:81-92 | the reactivation update keeps every e-mail and id, so one row per e-mail and the id bound survive it |
| Newsletter.AppendKeepsInvariant | lib/actions/newsletter.ts:107-112 | appending a row with a new e-mail and the next id keeps the invariant |
| Newsletter.ResubscribeTouchesOneRow | lib/actions/newsletter.ts:80-98 | an inactive subscriber's row alone is rewritten: active, `unsubscribedAt` cleared, same id |
| Newsletter.ReactivateWhereOne | lib/actions/newsletter.ts:83-92 | with one row per e-mail the reactivation rewrites exactly that row |
| Newsletter.UnsubscribeRows | app/api/unsubscribe/route.ts:15-22 | rows holding the token become inactive with `unsubscribedAt` set; all other rows are unchanged |
| Newsletter.UnsubscribeResult | app/api/unsubscribe/route.ts:10-28 | missing-token exactly for an absent or empty token; success exactly when some row holds the token; invalid-token otherwise |
| Newsletter.UnsubscribeIdempotent | app/api/unsubscribe/route.ts:15-28 | the token is not cleared: repeating the request succeeds again and leaves the table as the last request alone would |
| Newsletter.UnsubscribeThenResubscribe | lib/actions/newsletter.ts:80-98 | after unsubscribing with their token, a subscriber who submits the form with the same address is reactivated in the same row |
| Newsletter.UnsubscribeKeepsEmails | app/api/unsubscribe/route.ts:15-22 | unsubscribing changes no e-mail or id, so one row per e-mail survives |
| Newsletter.FindSubscriberUnique | lib/actions/newsletter.ts:74-78 | with one row per e-mail, looking up a row's e-mail finds that row |
| Newsletter.SubscriberTable.SubscribeToNewsletter | lib/actions/newsletter.ts:33-125 | the table and id sequence become the outcome of `Subscribe`, keeping the invariant |
| Newsletter.SubscriberTable.Unsubscribe | app/api/unsubscribe/route.ts:7-33 | a loop over the rows updates every row holding the token in place, as `UnsubscribeRows` states, and redirects as `UnsubscribeResult` states; the table is untouched without a token |
| EventStore.RegisterStepValid | lib/actions/events.ts:83-287 | a registration request keeps the registration table invariant and the id sequence ahead |
| EventStore.EventStore.RegisterForEvent | lib/actions/events.ts:83-287 | the registrations and their id sequence become the outcome of `Register`; the events are untouched; the invariant is kept |
| EventStore.EventStore.CancelRegistrationByToken | app/api/cancel-registration/route.ts:9-111 | the registrations become the outcome of `CancelByToken`, the redirect and e-mail are its; nothing else changes; the invariant is kept |
| EventStore.EventStore.CancelRegistration | lib/actions/admin-events.ts:244-326 | the registrations become the outcome of `AdminCancel`; nothing else changes; the invariant is kept |
| EventStore.EventStore.CreateEvent | lib/actions/admin-events.ts:93-160 | the events and their sequence become the outcome of `CreateEvent`; the registrations are untouched; the invariant is kept |
| EventStore.EventStore.UpdateEvent | lib/actions/admin-events.ts:162-235 | the events become the outcome of `UpdateEvent`; the registrations are untouched whatever the new capacity; the invariant is kept |
| EventStore.EventStore.DeleteEvent | lib/actions/admin-events.ts:237-241 | the event rows with the id go and the registrations stay; the invariant is kept |
| AuthUtils.HexBytes | lib/auth-utils.ts:44-45 | `Buffer.from(s, 'hex')`: at most half as many bytes as characters, each below 256 |
| AuthUtils.HexBytesLength | lib/auth-utils.ts:44-45 | an even-length all-hex string decodes to exactly half as many bytes |
| AuthUtils.SafeEqual | lib/auth-utils.ts:43-49 | `timingSafeEqual`, with the length-mismatch exception caught as false: true exactly for equal byte strings |
| AuthUtils.CreateSessionToken | lib/auth-utils.ts:4-20 | a token exists exactly when the secret is set (otherwise `getSecret` throws) |
| AuthUtils.VerifySessionToken | lib/auth-utils.ts:23-51 | accepting needs the secret, exactly four `:`-separated parts, the prefix "admin", a timestamp no more than 24 hours old (or NaN, which skips the age check), and a fourth part whose hex bytes equal those of the HMAC of the first three |
| AuthUtils.ForgedSignatureRejected | lib/auth-utils.ts:39-46 | a four-part token whose signature bytes differ from the HMAC of its signed data is rejected |
| AuthUtils.SignedTokenAccepted | lib/auth-utils.ts:23-51 | the converse: secret, four parts, "admin", a fresh or unreadable timestamp and a matching signature make the token verify |
| AuthUtils.FailClosed | lib/auth-utils.ts:4-10 | without `ADMIN_PASSWORD` no token verifies and none is created |
| AuthUtils.RejectsMalformed | lib/auth-utils.ts:27-33 | a decoded token that is not four parts, or whose prefix is not "admin", is rejected |
| AuthUtils.AgeCheck | lib/auth-utils.ts:35-37 | an accepted token's timestamp is at least now minus 24 hours; a future timestamp is not rejected |
| AuthUtils.CreatedTokenParts | lib/auth-utils.ts:13-27 | a created token decodes and splits into "admin", the timestamp, the random hex and the HMAC of the first three parts |
| AuthUtils.CreateThenVerify | lib/auth-utils.ts:13-46 | a token created at t verifies at every check time from t to t + 24 hours |
| AdminAuth.PasswordErrors | lib/actions/admin-auth.ts:7-9 | the password schema fails exactly for a missing or empty password |
| AdminAuth.Login | lib/actions/admin-auth.ts:19-60 | no password: "Please enter a password." with field errors, cookies unchanged; the right password: the `admin_auth` cookie with base64("admin:<ms>") and maxAge 86400, then a redirect to /admin; otherwise "Invalid password.", cookies unchanged |
| AdminAuth.Logout | lib/actions/admin-auth.ts:62-66 | the `admin_auth` cookie is gone, every other cookie stays, and the browser goes to /admin/login |
| AdminAuth.IsAdminAuthenticated | lib/actions/admin-auth.ts:68-72 | authenticated only when an `admin_auth` cookie with a non-empty value is present |
| AdminAuth.AuthenticatedIgnoresOtherCookies | lib/actions/admin-auth.ts:68-72 | only the `admin_auth` cookie decides whether the admin is authenticated |
| AdminAuth.NoSecretNoLogin | lib/actions/admin-auth.ts:39 | without `ADMIN_PASSWORD` no password logs in and the cookies stay as they were |
| AdminAuth.LoginAuthenticates | lib/actions/admin-auth.ts:39-72 | after a successful login `isAdminAuthenticated` holds |
| AdminAuth.LogoutDeauthenticates | lib/actions/admin-auth.ts:62-72 | after a logout `isAdminAuthenticated` is false whatever the cookies held |
| AdminAuth.LoginCookieRejected | lib/actions/admin-auth.ts:43 | the login cookie decodes to "admin:<ms>", two parts, so `verifySessionToken` (`lib/auth-utils.ts:29`) rejects it at every clock value |
| AdminAuth.SessionLogin | lib/actions/admin-auth.ts:39-53 | the corrected login: the same replies, but a successful login stores a session token from `createSessionToken` |
| AdminAuth.SessionLoginCookieAccepted | lib/actions/admin-auth.ts:39-53 | the corrected login's cookie verifies for the next 24 hours |
| AdminAuth.CookieJar.AdminLogin | lib/actions/admin-auth.ts:19-60 | the cookie store becomes what `Login` gives, and stays as it was unless the login succeeds |
| AdminAuth.CookieJar.AdminLogout | lib/actions/admin-auth.ts:62-66 | the store loses the `admin_auth` cookie alone, and the admin is no longer authenticated |
| ExportSubscribers.Cells | app/api/admin/export-subscribers/route.ts:26-61 | a row gives one cell per column, as many as there are column names and column widths, email first, status eleventh and the unsubscription date last |
| ExportSubscribers.TextOrEmpty | app/api/admin/export-subscribers/route.ts:28-35 | `x \|\| ''`: the empty string for a missing field, the field otherwise |
| ExportSubscribers.JoinWithLength | app/api/admin/export-subscribers/route.ts:32-34 | `join(', ')` holds every part and one separator between each pair |
| ExportSubscribers.ListCell | app/api/admin/export-subscribers/route.ts:32-34 | a missing list gives an empty cell; a present one starts with its first entry |
| ExportSubscribers.SourceCell | app/api/admin/export-subscribers/route.ts:36 | the source, or "website" when it is missing or empty; never empty |
| ExportSubscribers.StatusCell | app/api/admin/export-subscribers/route.ts:37 | "Active" exactly for an active subscriber, "Unsubscribed" exactly for an inactive one |
| ExportSubscribers.DatePart | app/api/admin/export-subscribers/route.ts:38-39 | `toISOString().split('T')[0]`: a prefix of the ISO string, free of 'T', cut at the first 'T' |
| ExportSubscribers.DatePartIsDate | app/api/admin/export-subscribers/route.ts:38-39 | for an ISO-shaped timestamp the cell is its ten-character date |
| ExportSubscribers.ToRow | app/api/admin/export-subscribers/route.ts:26-40 | each cell of a subscriber's row, field by field, with the fallbacks of the source |
| ExportSubscribers.UnsubscribedCellEmpty | app/api/admin/export-subscribers/route.ts:38-39 | the unsubscription cell is empty exactly when the subscriber never unsubscribed; the subscription cell is ten characters |
| ExportSubscribers.ExportFilename | app/api/admin/export-subscribers/route.ts:69-70 | "dc-abundance-subscribers-", then the date, then ".xlsx" |
| ExportSubscribers.ExportSubscribers | app/api/admin/export-subscribers/route.ts:9-83 | 401 exactly when the `admin_auth` cookie is missing, empty or fails `verifySessionToken`; otherwise a sheet holding the rows of the subscriber table (see SheetRowsSpec) under the dated file name, with a Content-Disposition naming that file |
| ExportSubscribers.UnauthorizedReadsNothing | app/api/admin/export-subscribers/route.ts:11-16 | an unauthorised request gets the same 401 whatever the table holds |
| ExportSubscribers.SheetRowsSpec | app/api/admin/export-subscribers/route.ts:20-40 | the sheet's rows are the rows of every subscriber, each once, in ascending subscription time |
| ExportSubscribers.LoginThenExportRefused | app/api/admin/export-subscribers/route.ts:11-16 | with the login as written, the cookie a successful login sets never opens the export |
| ExportSubscribers.SessionLoginThenExport | app/api/admin/export-subscribers/route.ts:11-16 | with the corrected login, the export opens for the 24 hours after logging in |
| ExportButton.MatchAt | components/admin/ExportButton.tsx:28 | a match of `/filename="(.+)"/` at a position: the marker there, then a non-empty capture followed by '"' |
| ExportButton.FindMatch | components/admin/ExportButton.tsx:28 | `match` finds nothing exactly when no position from the start on matches, and a found capture is non-empty |
| ExportButton.DownloadName | components/admin/ExportButton.tsx:25-32 | the captured name when the header is present, non-empty and matches; otherwise the `filename` prop, or "export.xlsx" when that is missing or empty |
| ExportButton.FindMatchShape | components/admin/ExportButton.tsx:28 | a captured name is never empty and holds no line terminator, since `.` does not match one |
| ExportButton.SkipToMatch | components/admin/ExportButton.tsx:28 | the leftmost match cannot start at a position without an 'f' |
| ExportButton.CaptureQuoted | components/admin/ExportButton.tsx:28 | the greedy `(.+)` captures everything up to the last '"' on the line |
| ExportButton.HeaderLayout | app/api/admin/export-subscribers/route.ts:76 | the route's header is "attachment; ", the marker `filename="`, the name and a closing quote |
| ExportButton.RouteHeaderRoundTrip | components/admin/ExportButton.tsx:25-32 | the name the route puts in Content-Disposition is the name the button downloads under, whatever the prop says |
| ExportButton.ExportDownloadName | components/admin/ExportButton.tsx:25-32 | the subscriber export downloads as "dc-abundance-subscribers-<date>.xlsx" |
| ExportButton.ExportButtonState.HandleExport | components/admin/ExportButton.tsx:15-50 | a download exactly when the response is ok, under `DownloadName`; otherwise the alert "Failed to export. Please try again."; loading is off afterwards |
| AdminSidebar.IsActive | components/admin/AdminSidebar.tsx:23-24 | a highlighted link's path is a prefix of the current path, and the Dashboard link is highlighted exactly on its own path |
| AdminSidebar.DashboardActiveOnlyOnItself | components/admin/AdminSidebar.tsx:23-24 | the Dashboard link is highlighted on `/admin` and nowhere else |
| AdminSidebar.ActiveOnOwnPage | components/admin/AdminSidebar.tsx:9-24 | every navigation link is highlighted on its own page |
| AdminSidebar.SectionPrefixActive | components/admin/AdminSidebar.tsx:23-24 | a section link stays highlighted on any path that starts with its href, including a sibling such as `/admin/eventsX` |
| AdminSidebar.AtMostOneActive | components/admin/AdminSidebar.tsx:9-24 | no path highlights two navigation links at once |
| NewsletterForm.Without | components/forms/EnhancedNewsletterForm.tsx:52 | `filter((i) => i !== x)`: `x` is gone and every other entry is kept |
| NewsletterForm.WithoutNoDuplicates | components/forms/EnhancedNewsletterForm.tsx:52 | filtering keeps a list free of duplicates |
| NewsletterForm.Toggled | components/forms/EnhancedNewsletterForm.tsx:55-57 | `includes ? filter : append`: the option's membership flips and every other option's stays |
| NewsletterForm.Toggle | components/forms/EnhancedNewsletterForm.tsx:46-59 | "Other" flips the show-other flag; every other option leaves it alone |
| NewsletterForm.ToggleKeepsValid | components/forms/EnhancedNewsletterForm.tsx:46-59 | a click keeps the list free of duplicates and keeps "Other" in it exactly when its text field shows; the clicked option's membership flips and no other changes |
| NewsletterForm.ToggleTwiceRestores | components/forms/EnhancedNewsletterForm.tsx:46-59 | clicking the same checkbox twice restores the selection and the flag |
| NewsletterForm.HiddenInputs | components/forms/EnhancedNewsletterForm.tsx:95-100 | one hidden input per selected entry |
| NewsletterForm.GetAllAppend | components/forms/EnhancedNewsletterForm.tsx:95-100 | `formData.getAll` over a concatenation of inputs is the concatenation of the two answers |
| NewsletterForm.GetAllOwnInputs | components/forms/EnhancedNewsletterForm.tsx:95-100 | `getAll(name)` over one list's hidden inputs gives that list back, and nothing for another name |
| NewsletterForm.ProfileForm.constructor | components/forms/EnhancedNewsletterForm.tsx:26-29 | both lists start empty and both "Other" fields hidden |
| NewsletterForm.ProfileForm.HandleInterestChange | components/forms/EnhancedNewsletterForm.tsx:46-59 | the interests and their flag become `Toggle` of the old ones; the help preferences are untouched |
| NewsletterForm.ProfileForm.HandleHelpChange | components/forms/EnhancedNewsletterForm.tsx:61-74 | the help preferences and their flag become `Toggle` of the old ones; the interests are untouched |
| NewsletterForm.ProfileForm.Inputs | components/forms/EnhancedNewsletterForm.tsx:95-100 | the form renders one hidden input per interest and per help preference |
| NewsletterForm.ProfileForm.SubmittedLists | components/forms/EnhancedNewsletterForm.tsx:95-100 | the server reads back exactly the selected interests and help preferences, in order |
| BlurPlaceholders.LastIndexOf | scripts/generate-blur-placeholders.mjs:11 | `lastIndexOf('.')`: the position of the last '.', or none exactly when there is no '.' |
| BlurPlaceholders.ExtensionOf | scripts/generate-blur-placeholders.mjs:11 | with a '.', the extension starts at the last '.' and holds no other; without one it is at most one character |
| BlurPlaceholders.IsImageFile | scripts/generate-blur-placeholders.mjs:10-12 | a kept name has a '.' and a 4- or 5-character extension |
| BlurPlaceholders.NoDotNotImage | scripts/generate-blur-placeholders.mjs:10-12 | a name without a '.' is never an image, since `slice(-1)` leaves one character |
| BlurPlaceholders.ImageFileByExtension | scripts/generate-blur-placeholders.mjs:10-12 | a name is kept exactly when its last extension, lower-cased, is .jpg, .jpeg, .png or .webp |
| BlurPlaceholders.StripExtension | scripts/generate-blur-placeholders.mjs:26 | `replace(/\.[^.]+$/, '')` leaves a prefix of the name |
| BlurPlaceholders.StripExtensionOf | scripts/generate-blur-placeholders.mjs:26 | a non-empty last extension is removed together with its dot, and nothing else is |
| BlurPlaceholders.CamelCase | scripts/generate-blur-placeholders.mjs:27 | `replace(/-([a-z])/g, …)` never lengthens the name |
| BlurPlaceholders.CamelCaseHead | scripts/generate-blur-placeholders.mjs:27 | how the first character of the result comes from the first one or two of the input |
| BlurPlaceholders.CamelCaseNoKebab | scripts/generate-blur-placeholders.mjs:27 | no hyphen followed by a lower-case letter survives |
| BlurPlaceholders.CamelCaseNoKebabFixed | scripts/generate-blur-placeholders.mjs:27 | a name without such a pair is left as it is |
| BlurPlaceholders.CamelCaseIdempotent | scripts/generate-blur-placeholders.mjs:27 | applying the replacement twice gives what applying it once gives |
| BlurPlaceholders.CamelCasePrefix | scripts/generate-blur-placeholders.mjs:27 | a hyphen-free prefix passes through unchanged |
| BlurPlaceholders.CamelCaseStep | scripts/generate-blur-placeholders.mjs:27 | "-x" becomes the capital of x |
| BlurPlaceholders.CamelCaseTwoWords | scripts/generate-blur-placeholders.mjs:27 | two hyphen-free words joined by '-' become the first word and the capitalised second |
| BlurPlaceholders.KeyOf | scripts/generate-blur-placeholders.mjs:25-27 | a file's key carries no kebab-case pair |
| BlurPlaceholders.KeyOfBaseExt | scripts/generate-blur-placeholders.mjs:25-27 | the key of `base.ext` is the camelCase form of `base` |
| BlurPlaceholders.UnionStationKey | scripts/generate-blur-placeholders.mjs:24-27 | "union-station.jpg" is stored under "unionStation" |
| BlurPlaceholders.Lookup | scripts/generate-blur-placeholders.mjs:29 | reading `placeholders[key]`: absent exactly when no entry has that key |
| BlurPlaceholders.Put | scripts/generate-blur-placeholders.mjs:29 | `placeholders[key] = base64` keeps the keys distinct, keeps the existing keys in place, and adds at most one |
| BlurPlaceholders.LookupPut | scripts/generate-blur-placeholders.mjs:29 | after the assignment the key reads the new value and every other key reads what it did before |
| BlurPlaceholders.LookupDistinct | scripts/generate-blur-placeholders.mjs:29 | with distinct keys, a key reads the value of its entry |
| BlurPlaceholders.Collect | scripts/generate-blur-placeholders.mjs:16-34 | the object built over the files holds each key once |
| BlurPlaceholders.CollectLookup | scripts/generate-blur-placeholders.mjs:16-34 | each key holds the preview of the last image file with that key whose processing succeeded; a failing file adds nothing |
| BlurPlaceholders.GeneratePlaceholders | scripts/generate-blur-placeholders.mjs:8-34 | the loop over the files builds that object |
| BlurPlaceholders.EntryLines | scripts/generate-blur-placeholders.mjs:41-43 | one line per entry |
| BlurPlaceholders.EntryLinesOnePerKey | scripts/generate-blur-placeholders.mjs:40-44 | each line starts with two spaces and its own key before the ':', and no two lines are equal |
| Contact.ParseInquiryType | lib/actions/contact.ts:12-21 | an accepted inquiry type is the name of the enum value it parses to |
| Contact.InquiryRoundTrip | lib/db/schema.ts:4-13 | every enum value's name parses back to it, and a string parses to a value exactly when it is that value's name |
| Contact.ContactErrors | lib/actions/contact.ts:9-25 | each field has an error exactly when its rule fails: name under 2 characters, not an email, not one of the eight types, subject under 5, message under 20 |
| Contact.NewSubmission | lib/db/schema.ts:28-38 | the inserted row carries the next id, the form's fields and the parsed type, is neither read nor archived, and is stamped with the current time |
| Contact.SubmitContact | lib/actions/contact.ts:39-97 | invalid fields come back as errors; with a secret key, a missing token asks for verification, and a sent token that fails is "verification failed" (each an iff); a stored row exactly when the fields are valid and the check passes or is not configured; nothing stored otherwise |
| Contact.NoSecretIgnoresToken | lib/actions/contact.ts:66-81 | without `TURNSTILE_SECRET_KEY` the outcome does not depend on the token |
| Contact.SubmitKeepsIds | lib/db/schema.ts:28-29 | a submission at most appends one row and keeps the ids distinct and below the next serial value |
| Contact.TransportationRejected | components/forms/ContactForm.tsx:24 | the form's "transportation" option is outside the schema's enum, so a form that picks it is always refused and nothing is stored |
| Contact.CorrectedOptionsAccepted | lib/db/schema.ts:4-13 | with "transit" in its place every option is accepted, and the options name every enum value |
| AdminMessages.GetMessages | lib/actions/admin-messages.ts:8-13 | the inbox holds the same submissions as the table |
| AdminMessages.GetMessagesNewestFirst | lib/actions/admin-messages.ts:8-13 | the inbox is ordered by submission time, newest first, and holds exactly the table's rows |
| AdminMessages.GetMessageById | lib/actions/admin-messages.ts:15-23 | a row with the id when one exists; `null` exactly when no row has the id |
| AdminMessages.SetRead | lib/actions/admin-messages.ts:25-29 | ids and the archive flag are kept; `isRead` takes the new value on the rows with the id and keeps its value elsewhere |
| AdminMessages.SetArchived | lib/actions/admin-messages.ts:35-39 | ids and the read flag are kept; `isArchived` becomes true on the rows with the id and keeps its value elsewhere |
| AdminMessages.SetReadTouchesOnlyFlag | lib/actions/admin-messages.ts:25-29 | the update sets `isRead` on the rows with the id and changes nothing else |
| AdminMessages.SetArchivedSpec | lib/actions/admin-messages.ts:35-39 | archiving sets `isArchived` on the rows with the id and changes nothing else; doing it twice is doing it once |
| AdminMessages.UnknownIdChangesNothing | lib/actions/admin-messages.ts:25-39 | for an id no row holds, both updates leave the table as it was |
| AdminMessages.UpdatesKeepIds | lib/actions/admin-messages.ts:25-39 | both updates keep the table's ids distinct and below the next serial value |
| AdminMessages.MessageTable.SubmitContactForm | lib/actions/contact.ts:39-97 | the table becomes what `SubmitContact` gives, and the reply is its success flag and message |
| AdminMessages.MessageTable.MarkMessageAsRead | lib/actions/admin-messages.ts:25-33 | the table becomes `SetRead` of the old one, in place, and keeps its id invariant |
| AdminMessages.MessageTable.ArchiveMessage | lib/actions/admin-messages.ts:35-43 | the table becomes `SetArchived` of the old one, in place, and keeps its id invariant |

## Left out

- Database I/O, `revalidatePath` and `redirect` are left out. Each query is a filter, sort or count over a sequence, and each redirect is a returned path.
- The `catch` branches for database or network exceptions are left out. They return "Something went wrong" and change nothing, and the model has no failing database to reach them.
- Sending e-mail (confirmation, waitlist, promotion) is left out. The model returns the mail that would be sent; a failed send changes no rows and no reply, so it is not modelled further.
- Requests are modelled as sequential. The source takes no locks between reading the confirmed count and writing, or between the two updates of a cancellation, so no claim is made about concurrent requests.
- EventStore.EventStore.RegisterForEvent: requires the new cancellation token to be unused by every stored row. How `confirmationToken` is generated is not in the code shown: the insert in lib/actions/events.ts:211-222 leaves the column out, and the registrations table's definition is not part of this model. So the token is an input, assumed fresh and unique.
- Newsletter unsubscribe tokens are taken from the stored rows, and a new row's token is an input. How `unsubscribeToken` is generated is not in the code shown: the subscribers table in lib/db/schema.ts:16-25 has no such column, and only app/api/unsubscribe/route.ts:21 reads it.
- `deleteEvent` deletes the event row only. The model keeps that behaviour and leaves the event's registrations in place, because nothing in the code shown removes them.
- `updateEvent` on an id that no event holds reports success and changes nothing, as the `UPDATE ... WHERE id` does.
- `toLowerCase` and the character classes of the source's regular expressions are modelled on ASCII. `trim` and `parseInt` skip JavaScript's full white-space and line-terminator set. Unicode case mapping is not modelled.
- Zod's `.email()` is an oracle, `isEmail`. The model does not distinguish a missing form field (`null`) from an empty string. Optional fields are read with `|| ""`, so `null` never reaches their schema. A required field rejects `null` as a non-string and rejects `""` through `.min(n)`, the enum or `.email()`. For the e-mail fields, that equivalence rests on Zod's `.email()` rejecting `""`. The model leaves `isEmail` unconstrained and does not impose `!isEmail("")`. Zod's wording of those messages is not modelled.
- Date formatting (`toISOString`, `toLocaleDateString`), time zones and daylight saving time are not modelled. Wall-clock times are civil, and the ISO date part is an oracle with a stated shape.
- The browser's expiry of the 24-hour cookie is not modelled. The jar keeps the `maxAge` value it was set with.
- The XLSX workbook encoding, the column-width metadata and the export's `catch` are left out. The sheet is the sequence of its rows.
- The export button's `fetch`, `Blob`, DOM anchor and `alert` calls are left out. The response is an input, and the download and alert are outputs.
- The console output of every module is left out.
- `Object.entries` lists integer-like keys before the others. The placeholder table keeps insertion order for all keys, since image names are not integers.
- The image previewer, `readdir` and the file writes of the placeholder script are left out. The previewer is an oracle that may fail per file.
- `subscribeWithProfile`, which components/forms/EnhancedNewsletterForm.tsx:4 imports, is not part of this model: its definition is not among the files modelled.
- The admin subscriber listing `getSubscribers` (lib/actions/admin-subscribers.ts:7-12) is left out. It is a single select ordered by `subscribedAt`, newest first, with no branch of its own.
- AdminEvents.EventFormErrors: lengths are counted in characters (Unicode scalar values), while Zod's `.min(n)` counts UTF-16 code units, so a text with characters outside the Basic Multilingual Plane (emoji, say) can meet a minimum in the source that the model finds too short.
- Contact.ContactErrors: the same character count stands for Zod's UTF-16 count.
- Recurrence.GenerateWeeklyDates: `count` and `intervalWeeks` are integers. The source takes JavaScript numbers. A fractional `count` gives ⌈count⌉ dates, because the loop runs while `i < count` (lib/recurrence.ts:41). A fractional `intervalWeeks` has each `setDate` step truncated (lib/recurrence.ts:43).
- Recurrence.GenerateMonthlyDates: `count` is an integer. A fractional count gives ⌈count⌉ dates in the source (lib/recurrence.ts:116).
- Recurrence.GetMaxOccurrences: `intervalWeeks` is an integer. A fractional interval such as 1.5 gives `Math.floor(104 / 1.5)` = 69 in the source (lib/recurrence.ts:158).
- Recurrence.FormatRecurrencePattern: `intervalWeeks` is an integer. A fractional interval prints as a decimal, as in "Every 1.5 weeks on …" (lib/recurrence.ts:176).
- Three further JavaScript number and date conversions are not modelled. `new Date(y, m, d)` maps the years 0 to 99 to 1900 + y, while the model's dates keep the year as given. `z.coerce.number()` turns a missing `eventId` into 0, which then finds no event, while the model treats it as a missing field; both refuse the registration. A fractional `maxAttendees` such as "2.5" passes `Number` and `.min(1)` in the source, but the model's capacity is an integer.
- All page and layout markup is left out, because it has no behaviour to state.

## Findings

| source | as written | input that shows it | evidently intended | confidence | as-written member | corrected member |
|---|---|---|---|---|---|---|
| lib/actions/admin-auth.ts:43 | the login cookie is base64("admin:<ms>"), and `verifySessionToken` (lib/auth-utils.ts:29) demands four `:`-separated parts | any successful login, then `GET /api/admin/export-subscribers` with that cookie: the cookie decodes to two parts, so the answer is 401 | the cookie holds `createSessionToken()`, which verifies for 24 hours | not executed | AdminAuth.LoginCookieRejected, ExportSubscribers.LoginThenExportRefused | AdminAuth.SessionLogin, AdminAuth.SessionLoginCookieAccepted, ExportSubscribers.SessionLoginThenExport |
| components/forms/ContactForm.tsx:24 | the contact form offers the value "transportation", but the schema's enum (lib/actions/contact.ts:15) and the database enum hold "transit" | a valid form with the "Transportation" option picked: validation fails on the inquiry type and nothing is stored | the option's value is "transit" | not executed | Contact.TransportationRejected | Contact.CorrectedOptionsAccepted |
