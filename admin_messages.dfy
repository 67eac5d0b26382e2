/**
 * The admin inbox over the contact submissions table: listing newest
 * first, lookup by id, and the two flag updates (read/unread, archived).
 * The table also takes the contact form's inserts.
 */
module AdminMessages {
  import opened Wrappers
  import opened Tables
  import opened Sorting
  import opened Turnstile
  import opened Contact

  /** `ORDER BY submitted_at DESC`, as an ascending sort on the negated time. */
  const NewestFirst: ContactSubmission -> int := (m: ContactSubmission) => -m.submittedAt

  /** `getMessages()`. */
  function GetMessages(rows: seq<ContactSubmission>): (r: seq<ContactSubmission>)
    ensures multiset(r) == multiset(rows)
  {
    SortBy(rows, NewestFirst)
  }

  /** The inbox holds every submission once, newest first. */
  lemma GetMessagesNewestFirst(rows: seq<ContactSubmission>)
    ensures forall i, j :: 0 <= i < j < |GetMessages(rows)| ==> GetMessages(rows)[i].submittedAt >= GetMessages(rows)[j].submittedAt
    ensures forall m :: m in GetMessages(rows) <==> m in rows
  {
    SortBySorted(rows, NewestFirst);
    forall m ensures m in GetMessages(rows) <==> m in rows {
      SortByMembers(rows, NewestFirst, m);
    }
  }

  /** `getMessageById(id)`: the row with that id, or `None` (`null`). */
  function GetMessageById(rows: seq<ContactSubmission>, id: int): (r: Option<ContactSubmission>)
    ensures r.Some? ==> r.value in rows && r.value.id == id
    ensures r.None? <==> forall k :: 0 <= k < |rows| ==> rows[k].id != id
  {
    match FirstIndex(rows, (m: ContactSubmission) => m.id == id)
    case Some(i) => Some(rows[i])
    case None => None
  }

  /** `UPDATE contact_submissions SET is_read = isRead WHERE id = id`, as a value. */
  function SetRead(rows: seq<ContactSubmission>, id: int, isRead: bool): (r: seq<ContactSubmission>)
    ensures |r| == |rows|
    ensures forall k :: 0 <= k < |rows| ==> r[k].id == rows[k].id && r[k].isArchived == rows[k].isArchived
    ensures forall k :: 0 <= k < |rows| ==> r[k].isRead == (if rows[k].id == id then isRead else rows[k].isRead)
  {
    seq(|rows|, k requires 0 <= k < |rows| => if rows[k].id == id then rows[k].(isRead := isRead) else rows[k])
  }

  /** `UPDATE contact_submissions SET is_archived = true WHERE id = id`, as a value. */
  function SetArchived(rows: seq<ContactSubmission>, id: int): (r: seq<ContactSubmission>)
    ensures |r| == |rows|
    ensures forall k :: 0 <= k < |rows| ==> r[k].id == rows[k].id && r[k].isRead == rows[k].isRead
    ensures forall k :: 0 <= k < |rows| ==> r[k].isArchived == (rows[k].id == id || rows[k].isArchived)
  {
    seq(|rows|, k requires 0 <= k < |rows| => if rows[k].id == id then rows[k].(isArchived := true) else rows[k])
  }

  /**
   * Marking touches only the `isRead` flag of the rows with that id: every
   * other row is unchanged, and in those rows every other field is too.
   */
  lemma SetReadTouchesOnlyFlag(rows: seq<ContactSubmission>, id: int, isRead: bool)
    ensures forall k :: 0 <= k < |rows| ==>
      SetRead(rows, id, isRead)[k].(isRead := rows[k].isRead) == rows[k]
      && SetRead(rows, id, isRead)[k].isRead == (if rows[k].id == id then isRead else rows[k].isRead)
  {
  }

  /** Archiving touches only `isArchived`, leaves `isRead` alone, and is idempotent. */
  lemma SetArchivedSpec(rows: seq<ContactSubmission>, id: int)
    ensures forall k :: 0 <= k < |rows| ==>
      SetArchived(rows, id)[k].(isArchived := rows[k].isArchived) == rows[k]
      && SetArchived(rows, id)[k].isArchived == (rows[k].id == id || rows[k].isArchived)
    ensures SetArchived(SetArchived(rows, id), id) == SetArchived(rows, id)
  {
  }

  /** For an id no row holds, both updates change nothing. */
  lemma UnknownIdChangesNothing(rows: seq<ContactSubmission>, id: int, isRead: bool)
    requires GetMessageById(rows, id).None?
    ensures SetRead(rows, id, isRead) == rows
    ensures SetArchived(rows, id) == rows
  {
  }

  /** The flag updates keep the ids, so the table's id invariant survives them. */
  lemma UpdatesKeepIds(rows: seq<ContactSubmission>, nextId: int, id: int, isRead: bool)
    requires SubmissionIdsValid(rows, nextId)
    ensures SubmissionIdsValid(SetRead(rows, id, isRead), nextId)
    ensures SubmissionIdsValid(SetArchived(rows, id), nextId)
  {
  }

  /** The contact submissions table. */
  class MessageTable {
    var rows: seq<ContactSubmission>
    var nextId: int

    ghost predicate Valid()
      reads this
    {
      SubmissionIdsValid(rows, nextId)
    }

    constructor ()
      ensures rows == [] && nextId == 1 && Valid()
    {
      rows := [];
      nextId := 1;
    }

    /** `submitContactForm(formData)` at time `now`. */
    method SubmitContactForm(f: ContactForm, isEmail: string -> bool, captcha: Captcha, now: int)
      returns (success: bool, message: string)
      requires Valid()
      modifies this
      ensures var o := SubmitContact(old(rows), old(nextId), f, isEmail, captcha, now);
        rows == o.rows && nextId == o.nextId && success == (o.result == Sent) && message == ContactMessage(o.result)
      ensures Valid()
    {
      SubmitKeepsIds(rows, nextId, f, isEmail, captcha, now);
      var o := SubmitContact(rows, nextId, f, isEmail, captcha, now);
      rows, nextId := o.rows, o.nextId;
      success := o.result == Sent;
      message := ContactMessage(o.result);
    }

    /** `markMessageAsRead(id, isRead)`: every row with the id, in place. */
    method MarkMessageAsRead(id: int, isRead: bool)
      requires Valid()
      modifies this
      ensures rows == SetRead(old(rows), id, isRead) && nextId == old(nextId)
      ensures Valid()
    {
      for i := 0 to |rows|
        invariant |rows| == |old(rows)| && nextId == old(nextId)
        invariant forall k :: 0 <= k < i ==> rows[k] == SetRead(old(rows), id, isRead)[k]
        invariant forall k :: i <= k < |rows| ==> rows[k] == old(rows)[k]
      {
        if rows[i].id == id {
          rows := rows[i := rows[i].(isRead := isRead)];
        }
      }
      UpdatesKeepIds(old(rows), nextId, id, isRead);
    }

    /** `archiveMessage(id)`: every row with the id, in place. */
    method ArchiveMessage(id: int)
      requires Valid()
      modifies this
      ensures rows == SetArchived(old(rows), id) && nextId == old(nextId)
      ensures Valid()
    {
      for i := 0 to |rows|
        invariant |rows| == |old(rows)| && nextId == old(nextId)
        invariant forall k :: 0 <= k < i ==> rows[k] == SetArchived(old(rows), id)[k]
        invariant forall k :: i <= k < |rows| ==> rows[k] == old(rows)[k]
      {
        if rows[i].id == id {
          rows := rows[i := rows[i].(isArchived := true)];
        }
      }
      UpdatesKeepIds(old(rows), nextId, id, false);
    }
  }
}
