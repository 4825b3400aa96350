/**
 * GuestbookEditForm: the administrator's edit form. buildForm reads the id
 * from the query string, remembers it in the form state and pre-fills the
 * name and message from the stored row; submitForm writes the two values
 * back, untrimmed, into the row with the remembered id.
 */
module GuestbookEditForm {
  import opened Wrappers
  import opened Storage
  import opened FormApi

  /** What buildForm returns: an empty form with an error message, or the two pre-filled fields. */
  datatype EditForm =
    | Empty(error: Notice)
    | Fields(nameDefault: string, messageDefault: string)

  /** The row `SELECT name, feedback ... WHERE id = :id` finds, if any. */
  function FindRow(rows: map<int, Entry>, id: int): Option<Entry> {
    if id in rows then Some(rows[id]) else None
  }

  /**
   * The form buildForm produces for the query id: "No review ID provided"
   * for a falsy id, "Review not found" when no row has the id, and otherwise
   * the stored name and feedback as defaults.
   */
  function FormFor(rows: map<int, Entry>, queryId: Option<int>): (f: EditForm)
    ensures f.Fields? <==> IsTruthyId(queryId) && queryId.value in rows
    ensures f == Empty(NoReviewId) <==> !IsTruthyId(queryId)
    ensures f == Empty(ReviewNotFound) <==> IsTruthyId(queryId) && queryId.value !in rows
    ensures f.Fields? ==>
      f.nameDefault == rows[queryId.value].name && f.messageDefault == rows[queryId.value].feedback
  {
    if !IsTruthyId(queryId) then Empty(NoReviewId)
    else
      match FindRow(rows, queryId.value)
      case None => Empty(ReviewNotFound)
      case Some(record) => Fields(record.name, record.feedback)
  }

  /**
   * The table after `UPDATE guestbook_entries SET name, feedback WHERE id = :id`
   * with the id the form state holds (NULL matches no row).
   */
  function Edited(rows: map<int, Entry>, id: Option<int>, name: string, message: string): (r: map<int, Entry>)
    ensures r.Keys == rows.Keys
    ensures forall k :: k in rows && id != Some(k) ==> r[k] == rows[k]
    ensures id.Some? && id.value in rows ==> r[id.value] == rows[id.value].(name := name, feedback := message)
    ensures id.None? || id.value !in rows ==> r == rows
  {
    if id.Some? && id.value in rows then rows[id.value := rows[id.value].(name := name, feedback := message)]
    else rows
  }

  /** buildForm: saves a truthy query id in the form state before looking the row up. */
  method BuildForm(fs: FormState, db: EntryTable, queryId: Option<int>) returns (form: EditForm)
    modifies fs`id
    ensures form == FormFor(db.rows, queryId)
    ensures fs.id == if IsTruthyId(queryId) then queryId else old(fs.id)
  {
    if !IsTruthyId(queryId) {
      return Empty(NoReviewId);
    }
    fs.SetId(queryId);
    var record := FindRow(db.rows, queryId.value);
    if record.None? {
      return Empty(ReviewNotFound);
    }
    form := Fields(record.value.name, record.value.feedback);
  }

  /** submitForm: the posted values go into name and feedback as they are, and "Review updated" follows. */
  method SubmitForm(fs: FormState, db: EntryTable, name: string, message: string) returns (notice: Notice)
    requires db.Valid()
    modifies db`rows
    ensures db.Valid()
    ensures db.rows == Edited(old(db.rows), fs.id, name, message)
    ensures notice == ReviewUpdated
  {
    var id := fs.id;
    if id.Some? && id.value in db.rows {
      db.Update(id.value, db.rows[id.value].(name := name, feedback := message));
    }
    notice := ReviewUpdated;
  }

  /**
   * One edit: the form is built for the query id and then submitted on a
   * fresh form state. The row changed is the one buildForm found.
   */
  method EditRequest(db: EntryTable, queryId: Option<int>, name: string, message: string)
    returns (form: EditForm, notice: Notice)
    requires db.Valid()
    modifies db`rows
    ensures db.Valid()
    ensures form == FormFor(old(db.rows), queryId)
    ensures db.rows == Edited(old(db.rows), if IsTruthyId(queryId) then queryId else None, name, message)
    ensures form.Fields? ==> db.rows[queryId.value].name == name && db.rows[queryId.value].feedback == message
  {
    var fs := new FormState();
    form := BuildForm(fs, db, queryId);
    notice := SubmitForm(fs, db, name, message);
  }

  /** An edit changes only name and feedback of its own row. */
  lemma EditKeepsOtherFields(rows: map<int, Entry>, id: int, name: string, message: string)
    requires id in rows
    ensures var e := Edited(rows, Some(id), name, message)[id];
      && e.email == rows[id].email && e.phone == rows[id].phone
      && e.avatar == rows[id].avatar && e.feedbackImage == rows[id].feedbackImage
      && e.created == rows[id].created
      && e.name == name && e.feedback == message
  {
  }

  /** Building the form again after an edit shows the values just written. */
  lemma EditThenBuildShowsEdit(rows: map<int, Entry>, queryId: Option<int>, name: string, message: string)
    requires FormFor(rows, queryId).Fields?
    ensures FormFor(Edited(rows, queryId, name, message), queryId) == Fields(name, message)
  {
  }

  /** Submitting the defaults unchanged leaves the table as it was. */
  lemma SubmitDefaultsIsNoOp(rows: map<int, Entry>, queryId: Option<int>)
    requires FormFor(rows, queryId).Fields?
    ensures var f := FormFor(rows, queryId);
      Edited(rows, queryId, f.nameDefault, f.messageDefault) == rows
  {
    var id := queryId.value;
    assert rows[id].(name := rows[id].name, feedback := rows[id].feedback) == rows[id];
  }

  /** The last edit wins: editing twice is editing once with the second values. */
  lemma EditTwice(rows: map<int, Entry>, id: Option<int>, n1: string, m1: string, n2: string, m2: string)
    ensures Edited(Edited(rows, id, n1, m1), id, n2, m2) == Edited(rows, id, n2, m2)
  {
  }
}
