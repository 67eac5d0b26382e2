/**
 * The admin "Export to Excel" button: it fetches the export, takes the
 * download name from the response's `Content-Disposition` header with the
 * pattern `filename="(.+)"`, and clears its loading flag whatever happens.
 */
module ExportButton {
  import opened Wrappers
  import opened ExportSubscribers

  const FilenameMarker: string := "filename=\""

  /** The characters `.` in a JavaScript pattern does not match. */
  predicate IsLineTerminator(c: char) {
    c == '\n' || c == '\r' || c == '\U{2028}' || c == '\U{2029}'
  }

  /** Index of the first line terminator in `s`, or `|s|`. */
  function LineEnd(s: string): (n: nat)
    ensures n <= |s|
    ensures forall k :: 0 <= k < n ==> !IsLineTerminator(s[k])
    ensures n < |s| ==> IsLineTerminator(s[n])
  {
    if s == [] || IsLineTerminator(s[0]) then 0 else 1 + LineEnd(s[1..])
  }

  /** The greatest `j` with `1 <= j < n` and `s[j] == '"'`, if any. */
  function LastQuoteBefore(s: string, n: nat): (j: Option<nat>)
    requires n <= |s|
    ensures j.Some? ==> 1 <= j.value < n && s[j.value] == '"'
    ensures j.Some? ==> forall k :: j.value < k < n ==> s[k] != '"'
    ensures j.None? ==> forall k :: 1 <= k < n ==> s[k] != '"'
  {
    if n <= 1 then None
    else if s[n - 1] == '"' then Some(n - 1)
    else LastQuoteBefore(s, n - 1)
  }

  /**
   * The pattern tried at position `i`: the marker, then the longest run of
   * at least one non-terminator that is followed by '"'.
   */
  function MatchAt(h: string, i: nat): (r: Option<string>)
    requires i <= |h|
    ensures r.Some? ==> |h| - i >= |FilenameMarker| && h[i..i + |FilenameMarker|] == FilenameMarker
    ensures r.Some? ==> var rest := h[i + |FilenameMarker|..];
      1 <= |r.value| < |rest| && rest[..|r.value|] == r.value && rest[|r.value|] == '"'
  {
    if |h| - i < |FilenameMarker| || h[i..i + |FilenameMarker|] != FilenameMarker then None
    else
      var s := h[i + |FilenameMarker|..];
      match LastQuoteBefore(s, LineEnd(s))
      case Some(j) => Some(s[..j])
      case None => None
  }

  /** `header.match(/filename="(.+)"/)`: the capture of the leftmost match at or after `i`. */
  function FindMatch(h: string, i: nat): (r: Option<string>)
    requires i <= |h|
    ensures r.None? <==> forall j :: i <= j <= |h| ==> MatchAt(h, j).None?
    ensures r.Some? ==> |r.value| >= 1
    decreases |h| - i
  {
    if MatchAt(h, i).Some? then MatchAt(h, i)
    else if i == |h| then None
    else FindMatch(h, i + 1)
  }

  /** The name used for the download. */
  function DownloadName(filenameProp: Option<string>, contentDisposition: Option<string>): (name: string)
    ensures contentDisposition.None? || contentDisposition.value == "" || FindMatch(contentDisposition.value, 0).None? ==>
      name == (if filenameProp.Some? && filenameProp.value != "" then filenameProp.value else "export.xlsx")
    ensures contentDisposition.Some? && contentDisposition.value != "" && FindMatch(contentDisposition.value, 0).Some? ==>
      name == FindMatch(contentDisposition.value, 0).value
  {
    var fallback := if filenameProp.Some? && filenameProp.value != "" then filenameProp.value else "export.xlsx";
    if contentDisposition.None? || contentDisposition.value == "" then fallback
    else match FindMatch(contentDisposition.value, 0)
      case Some(n) => n
      case None => fallback
  }

  /** A match is never empty and never spans a line break. */
  lemma {:induction false} FindMatchShape(h: string, i: nat)
    requires i <= |h|
    requires FindMatch(h, i).Some?
    ensures var n := FindMatch(h, i).value;
      |n| >= 1 && forall k :: 0 <= k < |n| ==> !IsLineTerminator(n[k])
    decreases |h| - i
  {
    if MatchAt(h, i).None? {
      FindMatchShape(h, i + 1);
    }
  }

  /** No position before the marker starts a match. */
  lemma {:induction false} SkipToMatch(h: string, i: nat, m: nat)
    requires i <= m <= |h|
    requires forall k :: i <= k < m ==> h[k] != 'f'
    ensures FindMatch(h, i) == FindMatch(h, m)
    decreases m - i
  {
    if i < m {
      assert MatchAt(h, i).None? by {
        if |h| - i >= |FilenameMarker| {
          assert h[i..i + |FilenameMarker|][0] == h[i];
        }
      }
      SkipToMatch(h, i + 1, m);
    }
  }

  /** After the marker, a quoted name free of line breaks is captured whole. */
  lemma CaptureQuoted(filename: string)
    requires filename != []
    requires forall k :: 0 <= k < |filename| ==> !IsLineTerminator(filename[k])
    ensures var s := filename + "\"";
      LastQuoteBefore(s, LineEnd(s)) == Some(|filename|) && s[..|filename|] == filename
  {
    var s := filename + "\"";
    assert forall k :: 0 <= k < |s| ==> !IsLineTerminator(s[k]) by {
      assert forall k :: 0 <= k < |filename| ==> s[k] == filename[k];
    }
    assert LineEnd(s) == |s|;
  }

  /** The header's marker sits at position 12, after `attachment; `. */
  lemma HeaderLayout(filename: string)
    ensures var h := ContentDisposition(filename);
      && |h| >= 12 + |FilenameMarker|
      && (forall k :: 0 <= k < 12 ==> h[k] != 'f')
      && h[12..12 + |FilenameMarker|] == FilenameMarker
      && h[12 + |FilenameMarker|..] == filename + "\""
  {
    var h := ContentDisposition(filename);
    assert h == "attachment; " + FilenameMarker + (filename + "\"");
  }

  /**
   * Round trip with the export route: the header it sends gives back the
   * route's own filename, whatever the `filename` prop.
   */
  lemma RouteHeaderRoundTrip(filenameProp: Option<string>, filename: string)
    requires filename != []
    requires forall k :: 0 <= k < |filename| ==> !IsLineTerminator(filename[k])
    ensures DownloadName(filenameProp, Some(ContentDisposition(filename))) == filename
  {
    var h := ContentDisposition(filename);
    HeaderLayout(filename);
    SkipToMatch(h, 0, 12);
    CaptureQuoted(filename);
    assert MatchAt(h, 12) == Some(filename);
  }

  /** The export the button's route sends is named after the day of the request. */
  lemma ExportDownloadName(filenameProp: Option<string>, date: string)
    requires forall k :: 0 <= k < |date| ==> !IsLineTerminator(date[k])
    ensures DownloadName(filenameProp, Some(ContentDisposition(ExportFilename(date)))) == ExportFilename(date)
  {
    var name := ExportFilename(date);
    forall k | 0 <= k < |name| ensures !IsLineTerminator(name[k]) {
      if 25 <= k < |name| - 5 {
        assert name[k] == name[25..|name| - 5][k - 25];
      } else if k < 25 {
        assert name[k] == name[..25][k];
      } else {
        assert name[k] == name[|name| - 5..][k - (|name| - 5)];
      }
    }
    RouteHeaderRoundTrip(filenameProp, name);
  }

  /** What `fetch(endpoint)` produced, as far as the button looks at it. */
  datatype FetchResponse = Failed | Response(ok: bool, contentDisposition: Option<string>)

  /** The button's component state. */
  class ExportButtonState {
    const filenameProp: Option<string>
    var isLoading: bool

    constructor (filename: Option<string>)
      ensures filenameProp == filename && !isLoading
    {
      filenameProp := filename;
      isLoading := false;
    }

    /**
     * `handleExport()`: a download under the chosen name for an ok
     * response, an alert otherwise, and the loading flag cleared either way.
     */
    method HandleExport(response: FetchResponse) returns (download: Option<string>, alert: Option<string>)
      modifies this
      ensures !isLoading
      ensures download.Some? <==> response.Response? && response.ok
      ensures download.Some? ==> download.value == DownloadName(filenameProp, response.contentDisposition)
      ensures alert.Some? <==> download.None?
      ensures alert.Some? ==> alert.value == "Failed to export. Please try again."
    {
      isLoading := true;
      if response.Failed? || !response.ok {
        download := None;
        alert := Some("Failed to export. Please try again.");
      } else {
        download := Some(DownloadName(filenameProp, response.contentDisposition));
        alert := None;
      }
      isLoading := false;
    }
  }
}
