/**
 * GuestbookDeleteForm: the confirmation form for deleting an entry. The id
 * given to buildForm is kept in the form object and deleted on submit.
 */
module GuestbookDeleteForm {
  import opened Wrappers
  import opened Storage
  import opened FormApi

  /** The route both the redirect after submit and the cancel link go to. */
  const GuestbookPage: string := "guestbook.page"

  /** The table after `DELETE FROM guestbook_entries WHERE id = :id` (NULL matches no row). */
  function Deleted(rows: map<int, Entry>, id: Option<int>): (r: map<int, Entry>)
    ensures id.Some? ==> r.Keys == rows.Keys - {id.value}
    ensures id.None? ==> r == rows
    ensures forall k :: k in r ==> k in rows && r[k] == rows[k]
  {
    if id.Some? then rows - {id.value} else rows
  }

  class DeleteForm {
    /** `$this->id`: the entry being deleted. */
    var id: Option<int>

    constructor ()
      ensures id == None
    {
      id := None;
    }

    /** buildForm: remembers the route's id. */
    method BuildForm(id: Option<int>)
      modifies this
      ensures this.id == id
    {
      this.id := id;
    }

    /** getCancelUrl. */
    function CancelUrl(): (route: string)
      ensures route == GuestbookPage
    {
      GuestbookPage
    }

    /** submitForm: deletes the remembered id, reports "entry deleted" and redirects to the guestbook page. */
    method SubmitForm(db: EntryTable, fs: FormState) returns (notice: Notice)
      requires db.Valid()
      modifies db`rows, fs`redirect
      ensures db.Valid()
      ensures db.rows == Deleted(old(db.rows), id)
      ensures fs.redirect == Some(GuestbookPage)
      ensures notice == EntryDeleted
    {
      if id.Some? {
        db.Delete(id.value);
      }
      notice := EntryDeleted;
      fs.SetRedirect(GuestbookPage);
    }
  }

  /**
   * One confirmed deletion: the form is built for the route id and submitted.
   * Exactly that row goes; every other row stays as it was.
   */
  method DeleteRequest(db: EntryTable, routeId: int) returns (notice: Notice, redirect: Option<string>)
    requires db.Valid()
    modifies db`rows
    ensures db.Valid()
    ensures routeId !in db.rows
    ensures db.rows.Keys == old(db.rows).Keys - {routeId}
    ensures forall k :: k in db.rows ==> db.rows[k] == old(db.rows)[k]
    ensures notice == EntryDeleted && redirect == Some(GuestbookPage)
  {
    var form := new DeleteForm();
    form.BuildForm(Some(routeId));
    var fs := new FormState();
    notice := form.SubmitForm(db, fs);
    redirect := fs.redirect;
  }

  /** Deleting an id no row has changes nothing. */
  lemma DeleteAbsentIsNoOp(rows: map<int, Entry>, id: int)
    requires id !in rows
    ensures Deleted(rows, Some(id)) == rows
  {
  }

  /** Deleting twice is deleting once. */
  lemma DeleteIsIdempotent(rows: map<int, Entry>, id: Option<int>)
    ensures Deleted(Deleted(rows, id), id) == Deleted(rows, id)
  {
  }

  /** A deletion removes exactly one row when the id is present. */
  lemma DeleteShrinksByOne(rows: map<int, Entry>, id: int)
    requires id in rows
    ensures |Deleted(rows, Some(id))| == |rows| - 1
  {
    assert Deleted(rows, Some(id)).Keys == rows.Keys - {id};
  }
}
