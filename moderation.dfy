/**
 * How the forms work together on one table: a posted entry appears in the
 * edit form with its trimmed text, a deleted entry can no longer be edited.
 */
module Moderation {
  import opened Wrappers
  import opened PhpText
  import opened Storage
  import opened FormApi
  import GuestbookForm
  import GuestbookEditForm
  import GuestbookDeleteForm

  /** Once a row is deleted, the edit form for its id reports "Review not found". */
  lemma DeletedCannotBeEdited(rows: map<int, Entry>, id: int)
    requires id != 0
    ensures GuestbookEditForm.FormFor(GuestbookDeleteForm.Deleted(rows, Some(id)), Some(id))
         == GuestbookEditForm.Empty(ReviewNotFound)
  {
  }

  /** An entry posted through the public form is offered for editing with its trimmed name and feedback. */
  lemma PostedEntryIsEditable(rows: map<int, Entry>, id: int, v: GuestbookForm.Submission,
                              avatar: Option<string>, image: Option<string>, created: int)
    requires id != 0
    ensures var stored := rows[id := GuestbookForm.StoredEntry(v, avatar, image, created)];
      GuestbookEditForm.FormFor(stored, Some(id)) == GuestbookEditForm.Fields(Trim(v.name), Trim(v.feedback))
  {
  }

  /** Deleting through the confirmation form, then opening the edit form for the same id. */
  method DeleteThenEdit(db: EntryTable, id: int) returns (form: GuestbookEditForm.EditForm)
    requires db.Valid() && id != 0
    modifies db`rows
    ensures db.Valid()
    ensures id !in db.rows
    ensures form == GuestbookEditForm.Empty(ReviewNotFound)
  {
    var notice, redirect := GuestbookDeleteForm.DeleteRequest(db, id);
    var fs := new FormState();
    form := GuestbookEditForm.BuildForm(fs, db, Some(id));
  }
}
