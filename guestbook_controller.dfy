/**
 * GuestbookController: content() decorates the listed reviews with edit and
 * delete links for administrators; delete($id) removes a row without a
 * confirmation step.
 */
module GuestbookController {
  import opened Wrappers
  import opened Storage
  import opened FormApi

  const EditRoute: string := "guestbook.edit"
  const DeleteRoute: string := "guestbook.delete"

  /** `Link::createFromRoute($title, $route, ['id' => $id])`. */
  datatype Link = Link(title: string, route: string, id: string)

  datatype AdminButtons = AdminButtons(edit: Link, delete: Link)

  /**
   * One element of the list guestbook_get_reviews() returns: its `id` key
   * (absent is None), its other keys, and the `admin_buttons` key.
   */
  datatype ListedReview = ListedReview(id: Option<string>, fields: map<string, string>, adminButtons: Option<AdminButtons>)

  /** PHP `empty()` of a string value: unset, '' and '0'. */
  predicate IsEmptyId(id: Option<string>) {
    id.None? || id.value == "" || id.value == "0"
  }

  /** The body of the foreach loop: buttons carrying the review's own id, for administrators only. */
  function Decorated(review: ListedReview, canAdminister: bool): (d: ListedReview)
    ensures d.id == review.id && d.fields == review.fields
    ensures canAdminister && !IsEmptyId(review.id) ==>
      d.adminButtons == Some(AdminButtons(Link("Edit", EditRoute, review.id.value),
                                          Link("Delete", DeleteRoute, review.id.value)))
    ensures !(canAdminister && !IsEmptyId(review.id)) ==> d == review
  {
    if canAdminister && !IsEmptyId(review.id) then
      var id := review.id.value;
      review.(adminButtons := Some(AdminButtons(Link("Edit", EditRoute, id), Link("Delete", DeleteRoute, id))))
    else review
  }

  /**
   * `foreach ($reviews as &$review)`: every review decorated in place; count,
   * order, ids and other keys preserved.
   */
  method Content(reviews: seq<ListedReview>, canAdminister: bool) returns (decorated: seq<ListedReview>)
    ensures |decorated| == |reviews|
    ensures forall i :: 0 <= i < |reviews| ==> decorated[i] == Decorated(reviews[i], canAdminister)
    ensures forall i :: 0 <= i < |reviews| ==>
      decorated[i].id == reviews[i].id && decorated[i].fields == reviews[i].fields
    ensures forall i :: 0 <= i < |reviews| ==>
      (decorated[i].adminButtons.Some? <==>
         (canAdminister && !IsEmptyId(reviews[i].id)) || reviews[i].adminButtons.Some?)
  {
    decorated := reviews;
    var i := 0;
    while i < |decorated|
      invariant 0 <= i <= |decorated| == |reviews|
      invariant forall j :: 0 <= j < i ==> decorated[j] == Decorated(reviews[j], canAdminister)
      invariant forall j :: i <= j < |decorated| ==> decorated[j] == reviews[j]
    {
      decorated := decorated[i := Decorated(decorated[i], canAdminister)];
      i := i + 1;
    }
  }

  /** Without the permission the list is returned as it came. */
  lemma NoPermissionNoButtons(reviews: seq<ListedReview>)
    ensures forall i :: 0 <= i < |reviews| ==> Decorated(reviews[i], false) == reviews[i]
  {
  }

  /** Both buttons of a decorated review point at that review. */
  lemma ButtonsCarryOwnId(review: ListedReview)
    requires !IsEmptyId(review.id)
    ensures var b := Decorated(review, true).adminButtons.value;
      b.edit.id == review.id.value && b.delete.id == review.id.value
      && b.edit.route == EditRoute && b.delete.route == DeleteRoute
  {
  }

  /** delete($id): removes only that row and redirects to /guestbook. */
  method Delete(db: EntryTable, id: int) returns (notice: Notice, redirect: string)
    requires db.Valid()
    modifies db`rows
    ensures db.Valid()
    ensures db.rows == old(db.rows) - {id}
    ensures notice == ReviewDeleted && redirect == "/guestbook"
  {
    db.Delete(id);
    notice := ReviewDeleted;
    redirect := "/guestbook";
  }
}
