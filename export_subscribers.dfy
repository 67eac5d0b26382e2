/**
 * `GET /api/admin/export-subscribers`: behind the signed-session gate, every
 * subscriber becomes one spreadsheet row of thirteen text cells, ordered
 * by subscription time, and the sheet is sent as
 * `dc-abundance-subscribers-<YYYY-MM-DD>.xlsx`.
 */
module ExportSubscribers {
  import opened Wrappers
  import opened Strings
  import opened Sorting
  import opened AuthUtils
  import opened AdminAuth
  import opened Newsletter

  /** The `ORDER BY subscribed_at ASC` key. */
  const BySubscribedAt: Subscriber -> int := (s: Subscriber) => s.subscribedAt

  /** One spreadsheet row; every cell is text. */
  datatype ExportRow = ExportRow(
    email: string,
    firstName: string,
    lastName: string,
    zipCode: string,
    residence: string,
    interests: string,
    otherInterest: string,
    helpPreferences: string,
    otherHelp: string,
    source: string,
    status: string,
    subscribedAt: string,
    unsubscribedAt: string)

  /** The header row, in column order. */
  const ColumnNames: seq<string> := [
    "Email", "First Name", "Last Name", "ZIP Code", "Residence", "Interests",
    "Other Interest", "Help Preferences", "Other Help", "Source", "Status",
    "Subscribed At", "Unsubscribed At"]

  /** The `wch` width of each column, in the same order. */
  const ColumnWidths: seq<nat> := [30, 15, 15, 10, 25, 40, 25, 50, 25, 20, 12, 12, 12]

  /** The cells of a row, in column order. */
  function Cells(r: ExportRow): (cells: seq<string>)
    ensures |cells| == |ColumnNames| == |ColumnWidths|
    ensures cells[0] == r.email && cells[10] == r.status && cells[12] == r.unsubscribedAt
  {
    [r.email, r.firstName, r.lastName, r.zipCode, r.residence, r.interests,
     r.otherInterest, r.helpPreferences, r.otherHelp, r.source, r.status,
     r.subscribedAt, r.unsubscribedAt]
  }

  /** `x || ''` on a nullable text column. */
  function TextOrEmpty(o: Option<string>): (s: string)
    ensures o.None? ==> s == ""
    ensures o.Some? ==> s == o.value
  {
    o.GetOr("")
  }

  /** `parts.join(sep)` with a text separator; no parts give "". */
  function JoinWith(parts: seq<string>, sep: string): (s: string)
    ensures parts == [] ==> s == ""
    ensures parts != [] ==> parts[0] <= s
    ensures |parts| == 1 ==> s == parts[0]
  {
    if parts == [] then ""
    else if |parts| == 1 then parts[0]
    else parts[0] + sep + JoinWith(parts[1..], sep)
  }

  /** Joined text is as long as the parts plus one separator between each pair. */
  lemma {:induction false} JoinWithLength(parts: seq<string>, sep: string)
    requires parts != []
    ensures |JoinWith(parts, sep)| == TotalLength(parts) + (|parts| - 1) * |sep|
  {
    if |parts| > 1 {
      JoinWithLength(parts[1..], sep);
    }
  }

  function TotalLength(parts: seq<string>): nat {
    if parts == [] then 0 else |parts[0]| + TotalLength(parts[1..])
  }

  /** `Array.isArray(a) ? a.join(', ') : ''`. */
  function ListCell(o: Option<seq<string>>): (s: string)
    ensures o.None? ==> s == ""
    ensures o.Some? && o.value != [] ==> o.value[0] <= s
  {
    match o
    case None => ""
    case Some(a) => JoinWith(a, ", ")
  }

  /** `sub.source || 'website'`: a NULL or empty source reads as "website". */
  function SourceCell(o: Option<string>): (s: string)
    ensures s != ""
    ensures o.Some? && o.value != "" ==> s == o.value
    ensures o.None? || o.value == "" ==> s == "website"
  {
    if o.Some? && o.value != "" then o.value else "website"
  }

  function StatusCell(isActive: bool): (s: string)
    ensures s == "Active" <==> isActive
    ensures s == "Unsubscribed" <==> !isActive
  {
    if isActive then "Active" else "Unsubscribed"
  }

  /** `d.toISOString().split('T')[0]`, with `toISOString` an input. */
  function DatePart(isoString: int -> string, t: int): (s: string)
    ensures s <= isoString(t) && 'T' !in s
    ensures |s| < |isoString(t)| ==> isoString(t)[|s|] == 'T'
  {
    var parts := Split(isoString(t), 'T');
    SplitFirst(isoString(t), 'T');
    parts[0]
  }

  /** The first piece of a split is the text before the first separator. */
  lemma {:induction false} SplitFirst(s: string, sep: char)
    ensures Split(s, sep)[0] <= s
    ensures |Split(s, sep)[0]| < |s| ==> s[|Split(s, sep)[0]|] == sep
  {
    if s != [] && s[0] != sep {
      SplitFirst(s[1..], sep);
    }
  }

  /**
   * `toISOString` gives `YYYY-MM-DDTHH:mm:ss.sssZ`: ten characters of date
   * free of 'T', then the 'T'.
   */
  ghost predicate IsoShaped(isoString: int -> string) {
    forall t :: |isoString(t)| > 10 && isoString(t)[10] == 'T' && 'T' !in isoString(t)[..10]
  }

  /** For an ISO string the date part is its first ten characters. */
  lemma DatePartIsDate(isoString: int -> string, t: int)
    requires IsoShaped(isoString)
    ensures DatePart(isoString, t) == isoString(t)[..10]
  {
  }

  /** The row of one subscriber. */
  function ToRow(s: Subscriber, isoString: int -> string): (r: ExportRow)
    ensures r.email == s.email
    ensures r.firstName == TextOrEmpty(s.firstName) && r.lastName == TextOrEmpty(s.lastName)
    ensures r.zipCode == TextOrEmpty(s.zipCode) && r.residence == TextOrEmpty(s.residence)
    ensures r.otherInterest == TextOrEmpty(s.otherInterest) && r.otherHelp == TextOrEmpty(s.otherHelp)
    ensures r.interests == ListCell(s.interests) && r.helpPreferences == ListCell(s.helpPreferences)
    ensures r.source == SourceCell(s.source)
    ensures r.status == "Active" <==> s.isActive
    ensures r.subscribedAt == DatePart(isoString, s.subscribedAt)
    ensures s.unsubscribedAt.None? ==> r.unsubscribedAt == ""
    ensures s.unsubscribedAt.Some? ==> r.unsubscribedAt == DatePart(isoString, s.unsubscribedAt.value)
  {
    ExportRow(
      s.email,
      TextOrEmpty(s.firstName),
      TextOrEmpty(s.lastName),
      TextOrEmpty(s.zipCode),
      TextOrEmpty(s.residence),
      ListCell(s.interests),
      TextOrEmpty(s.otherInterest),
      ListCell(s.helpPreferences),
      TextOrEmpty(s.otherHelp),
      SourceCell(s.source),
      StatusCell(s.isActive),
      DatePart(isoString, s.subscribedAt),
      match s.unsubscribedAt
      case Some(t) => DatePart(isoString, t)
      case None => "")
  }

  /** With real ISO strings, "Unsubscribed At" is empty exactly when the subscriber never unsubscribed. */
  lemma UnsubscribedCellEmpty(s: Subscriber, isoString: int -> string)
    requires IsoShaped(isoString)
    ensures ToRow(s, isoString).unsubscribedAt == "" <==> s.unsubscribedAt.None?
    ensures |ToRow(s, isoString).subscribedAt| == 10
  {
    DatePartIsDate(isoString, s.subscribedAt);
    if s.unsubscribedAt.Some? {
      DatePartIsDate(isoString, s.unsubscribedAt.value);
    }
  }

  /** The download name for a given date. */
  function ExportFilename(date: string): (name: string)
    ensures |name| == |date| + 30
    ensures name[..25] == "dc-abundance-subscribers-" && name[|name| - 5..] == ".xlsx"
    ensures name[25..|name| - 5] == date
  {
    "dc-abundance-subscribers-" + date + ".xlsx"
  }

  /** The `Content-Disposition` header naming the attachment. */
  function ContentDisposition(filename: string): string {
    "attachment; filename=\"" + filename + "\""
  }

  datatype ExportResponse =
    | Unauthorized
    | Sheet(rows: seq<ExportRow>, filename: string, contentDisposition: string)

  /** The route's gate: an `admin_auth` cookie with a non-empty value that verifies now. */
  predicate ExportAllowed(jar: CookieStore, c: Crypto, now: int) {
    IsAdminAuthenticated(jar) && VerifySessionToken(c, jar[AuthCookieName].value, now)
  }

  /** The rows of the sheet: one per subscriber, by ascending subscription time. */
  function SheetRows(subscribers: seq<Subscriber>, isoString: int -> string): (rows: seq<ExportRow>)
    ensures |rows| == |subscribers|
  {
    var sorted := SortBy(subscribers, BySubscribedAt);
    seq(|sorted|, k requires 0 <= k < |sorted| => ToRow(sorted[k], isoString))
  }

  /** `GET()` on the subscriber table at clock value `now`. */
  function ExportSubscribers(jar: CookieStore, c: Crypto, now: int, subscribers: seq<Subscriber>, isoString: int -> string): (r: ExportResponse)
    ensures r.Unauthorized? <==> !ExportAllowed(jar, c, now)
    ensures r.Sheet? ==> r.contentDisposition == ContentDisposition(r.filename)
    ensures r.Sheet? ==> r.rows == SheetRows(subscribers, isoString) && r.filename == ExportFilename(DatePart(isoString, now))
  {
    if !ExportAllowed(jar, c, now) then Unauthorized
    else
      var filename := ExportFilename(DatePart(isoString, now));
      Sheet(SheetRows(subscribers, isoString), filename, ContentDisposition(filename))
  }

  /** An unauthorised request gets 401 whatever the table holds: no data is read. */
  lemma UnauthorizedReadsNothing(jar: CookieStore, c: Crypto, now: int, s1: seq<Subscriber>, s2: seq<Subscriber>, isoString: int -> string)
    requires !ExportAllowed(jar, c, now)
    ensures ExportSubscribers(jar, c, now, s1, isoString) == ExportSubscribers(jar, c, now, s2, isoString) == Unauthorized
  {
  }

  /**
   * The sheet holds one row per subscriber: row `k` is the row of the
   * `k`-th subscriber by subscription time, the subscribers taken in that
   * order are exactly the table's, and the subscription dates never decrease.
   */
  lemma SheetRowsSpec(subscribers: seq<Subscriber>, isoString: int -> string)
    ensures var sorted := SortBy(subscribers, BySubscribedAt);
      && multiset(sorted) == multiset(subscribers)
      && SortedBy(sorted, BySubscribedAt)
      && forall k :: 0 <= k < |sorted| ==> SheetRows(subscribers, isoString)[k] == ToRow(sorted[k], isoString)
  {
    SortBySorted(subscribers, BySubscribedAt);
  }

  /** As written, the cookie set by a successful login never opens the export. */
  lemma LoginThenExportRefused(jar: CookieStore, password: Option<string>, c: Crypto, now: nat,
                                checkedAt: int, subscribers: seq<Subscriber>, isoString: int -> string)
    requires Lawful(c)
    requires Login(jar, password, c, now).0.RedirectTo?
    ensures ExportSubscribers(Login(jar, password, c, now).1, c, checkedAt, subscribers, isoString) == Unauthorized
  {
    LoginCookieRejected(c, now, checkedAt);
  }

  /** With the corrected login the export opens for the next 24 hours. */
  lemma SessionLoginThenExport(jar: CookieStore, password: Option<string>, c: Crypto, now: nat, randomHex: string,
                               checkedAt: int, subscribers: seq<Subscriber>, isoString: int -> string)
    requires Lawful(c)
    requires forall i :: 0 <= i < |randomHex| ==> IsLowerHexDigit(randomHex[i])
    requires SessionLogin(jar, password, c, now, randomHex).0.RedirectTo?
    requires now <= checkedAt <= now + MaxAge
    ensures ExportSubscribers(SessionLogin(jar, password, c, now, randomHex).1, c, checkedAt, subscribers, isoString).Sheet?
  {
    SessionLoginCookieAccepted(jar, password, c, now, randomHex, checkedAt);
  }
}
