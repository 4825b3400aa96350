/**
 * guestbook-modal.js: the delete confirmation dialog on the guestbook page,
 * as a state machine over what the handlers read and write. The page is the
 * sequence of data-id attributes of its `.review` nodes; a request is the id
 * it was sent for; the XMLHttpRequest's readyState and status arrive as
 * parameters of the response event.
 */
module GuestbookModal {
  import opened Wrappers

  /**
   * What the handlers share: the modal's and the backdrop's display, the
   * confirm button's data-id attribute, the closure variable `id`, the ids
   * delete requests were sent for, and the reviews on the page.
   */
  datatype Page = Page(
    modalShown: bool,
    backdropShown: bool,
    confirmId: Option<string>,
    id: Option<string>,
    requests: seq<string>,
    reviews: seq<string>)

  /** JavaScript truthiness of an attribute value: null and '' are falsy. */
  predicate IsTruthy(v: Option<string>) {
    v.Some? && v.value != ""
  }

  /** String conversion of a value taken from getAttribute: null becomes "null". */
  function AttrText(v: Option<string>): string {
    if v.Some? then v.value else "null"
  }

  /** The URL a confirmed deletion posts to. */
  function DeleteUrl(id: string): (url: string)
    ensures |url| == |id| + 18
    ensures url[..11] == "/guestbook/" && url[11..11 + |id|] == id && url[11 + |id|..] == "/delete"
  {
    "/guestbook/" + id + "/delete"
  }

  /** Distinct ids post to distinct URLs. */
  lemma DeleteUrlIsInjective(a: string, b: string)
    requires DeleteUrl(a) == DeleteUrl(b)
    ensures a == b
  {
    assert |a| == |b|;
    assert a == DeleteUrl(a)[11..11 + |a|];
  }

  /** The index of the first review with that data-id, as querySelector finds it. */
  function FirstIndex(reviews: seq<string>, id: string): (k: Option<nat>)
    ensures k.None? <==> id !in reviews
    ensures k.Some? ==> k.value < |reviews| && reviews[k.value] == id && id !in reviews[..k.value]
  {
    if reviews == [] then None
    else if reviews[0] == id then Some(0)
    else
      match FirstIndex(reviews[1..], id)
      case None => None
      case Some(k) =>
        assert reviews[..k + 1] == [reviews[0]] + reviews[1..][..k];
        Some(k + 1)
  }

  /** `review.parentNode.removeChild(review)` for the first match: the other reviews stay in order. */
  function RemoveFirst(reviews: seq<string>, id: string): (r: seq<string>)
    ensures id !in reviews ==> r == reviews
    ensures id in reviews ==> var k := FirstIndex(reviews, id).value;
      r == reviews[..k] + reviews[k + 1..]
    ensures id in reviews ==> |r| == |reviews| - 1
    ensures multiset(r) == multiset(reviews) - multiset{id}
  {
    match FirstIndex(reviews, id)
    case None => reviews
    case Some(k) =>
      assert reviews == reviews[..k] + [id] + reviews[k + 1..];
      reviews[..k] + reviews[k + 1..]
  }

  // The handlers, each on the shared state.

  /** handleDeleteClick on a link whose data-id is linkId. */
  function DeleteClick(p: Page, linkId: Option<string>): (q: Page)
    ensures q.modalShown && q.backdropShown
    ensures q.id == linkId && q.confirmId == Some(AttrText(linkId))
    ensures q.requests == p.requests && q.reviews == p.reviews
  {
    p.(id := linkId, confirmId := Some(AttrText(linkId)), modalShown := true, backdropShown := true)
  }

  /** The cancel button's and the backdrop's click handler. */
  function Dismiss(p: Page): (q: Page)
    ensures !q.modalShown && !q.backdropShown
    ensures q.confirmId == p.confirmId && q.id == p.id && q.requests == p.requests && q.reviews == p.reviews
  {
    p.(modalShown := false, backdropShown := false)
  }

  /** The confirm button's click handler: a POST to DeleteUrl(id) unless the data-id is falsy. */
  function ConfirmClick(p: Page): (q: Page)
    ensures q.id == p.confirmId
    ensures IsTruthy(p.confirmId) ==> q.requests == p.requests + [p.confirmId.value]
    ensures !IsTruthy(p.confirmId) ==> q.requests == p.requests
    ensures q.modalShown == p.modalShown && q.backdropShown == p.backdropShown
    ensures q.confirmId == p.confirmId && q.reviews == p.reviews
  {
    var p1 := p.(id := p.confirmId);
    if !IsTruthy(p1.id) then p1
    else p1.(requests := p1.requests + [p1.id.value])
  }

  /** A response is complete and successful: readyState 4, status 200. */
  predicate Succeeded(readyState: int, status: int) {
    readyState == 4 && status == 200
  }

  /**
   * onreadystatechange as written: on success it hides the dialog and removes
   * the review selected with the closure's `id` as it is when the response
   * arrives.
   */
  function ResponseAsWritten(p: Page, readyState: int, status: int): (q: Page)
    requires p.requests != []
    ensures Succeeded(readyState, status) ==>
      q == p.(modalShown := false, backdropShown := false, reviews := RemoveFirst(p.reviews, AttrText(p.id)))
    ensures !Succeeded(readyState, status) ==> q == p
  {
    if readyState == 4 && status == 200 then
      p.(modalShown := false, backdropShown := false, reviews := RemoveFirst(p.reviews, AttrText(p.id)))
    else p
  }

  /** onreadystatechange with the id captured when request j was sent. */
  function Response(p: Page, j: nat, readyState: int, status: int): (q: Page)
    requires j < |p.requests|
    ensures Succeeded(readyState, status) ==>
      && !q.modalShown && !q.backdropShown
      && q.reviews == RemoveFirst(p.reviews, p.requests[j])
      && q.id == p.id && q.confirmId == p.confirmId && q.requests == p.requests
    ensures !Succeeded(readyState, status) ==> q == p
  {
    if Succeeded(readyState, status) then
      p.(modalShown := false, backdropShown := false, reviews := RemoveFirst(p.reviews, p.requests[j]))
    else p
  }

  /** A later delete click overwrites the pending id. */
  lemma LaterClickOverwrites(p: Page, a: Option<string>, b: Option<string>)
    ensures DeleteClick(DeleteClick(p, a), b) == DeleteClick(p, b)
  {
  }

  /** Dismissing and clicking the same link again gives back the open dialog. */
  lemma DismissThenReopen(p: Page, a: Option<string>)
    ensures DeleteClick(Dismiss(DeleteClick(p, a)), a) == DeleteClick(p, a)
  {
  }

  /** Confirming a link's deletion sends exactly that link's id. */
  lemma ConfirmSendsClickedId(p: Page, linkId: string)
    requires linkId != ""
    ensures ConfirmClick(DeleteClick(p, Some(linkId))).requests == p.requests + [linkId]
  {
  }

  /**
   * With the captured id, a later click on another link while the request
   * is in flight does not change which review the response removes.
   */
  lemma ResponseIgnoresLaterClicks(p: Page, j: nat, other: Option<string>, readyState: int, status: int)
    requires j < |p.requests|
    ensures Response(DeleteClick(Dismiss(p), other), j, readyState, status).reviews
         == Response(p, j, readyState, status).reviews
  {
  }

  /** Confirm then success removes the confirmed review and nothing else. */
  lemma {:induction false} ConfirmedReviewIsRemoved(p: Page, linkId: string)
    requires linkId != "" && linkId in p.reviews
    ensures var q := ConfirmClick(DeleteClick(p, Some(linkId)));
      var r := Response(q, |q.requests| - 1, 4, 200);
      && multiset(r.reviews) == multiset(p.reviews) - multiset{linkId}
      && |r.reviews| == |p.reviews| - 1
      && !r.modalShown
  {
    var q := ConfirmClick(DeleteClick(p, Some(linkId)));
    assert q.requests[|q.requests| - 1] == linkId;
  }

  /**
   * The handler as written reads the shared `id` when the response arrives:
   * confirm review "1", cancel, open the dialog for review "2", and the
   * response for "1" removes "2" from the page (and closes the dialog).
   */
  lemma StaleIdRemovesWrongReview()
    ensures var p := Page(false, false, None, None, [], ["1", "2"]);
      var q := DeleteClick(Dismiss(ConfirmClick(DeleteClick(p, Some("1")))), Some("2"));
      && q.requests == ["1"]
      && ResponseAsWritten(q, 4, 200).reviews == ["1"]
      && Response(q, 0, 4, 200).reviews == ["2"]
  {
    var p := Page(false, false, None, None, [], ["1", "2"]);
    var q := DeleteClick(Dismiss(ConfirmClick(DeleteClick(p, Some("1")))), Some("2"));
    assert q.id == Some("2");
    assert FirstIndex(["1", "2"], "2") == Some(1);
    assert ["1", "2"][..1] == ["1"];
  }

  /** The dialog and the page in the browser; each handler updates the fields it touches. */
  class DeleteModal {
    var modalShown: bool
    var backdropShown: bool
    var confirmId: Option<string>
    var id: Option<string>
    var requests: seq<string>
    var reviews: seq<string>
    /** The data-id attributes of the `.delete-link` elements. */
    var links: seq<Option<string>>
    /** The indices of the links a click listener was attached to. */
    var listening: set<nat>

    function State(): Page
      reads this
    {
      Page(modalShown, backdropShown, confirmId, id, requests, reviews)
    }

    /** The DOMContentLoaded handler: the dialog hidden and a listener on every delete link. */
    constructor (links: seq<Option<string>>, reviews: seq<string>, confirmId: Option<string>)
      ensures State() == Page(false, false, confirmId, None, [], reviews)
      ensures this.links == links
      ensures forall k: nat :: k in listening <==> k < |links|
    {
      modalShown := false;
      backdropShown := false;
      this.confirmId := confirmId;
      id := None;
      requests := [];
      this.reviews := reviews;
      this.links := links;
      listening := {};
      new;
      var i := 0;
      while i < |links|
        invariant 0 <= i <= |links|
        invariant forall k: nat :: k in listening <==> k < i
        invariant State() == Page(false, false, confirmId, None, [], reviews) && this.links == links
      {
        listening := listening + {i};
        i := i + 1;
      }
    }

    method ClickDeleteLink(i: nat)
      requires i < |links|
      modifies this`id, this`confirmId, this`modalShown, this`backdropShown
      ensures State() == if i in listening then DeleteClick(old(State()), links[i]) else old(State())
    {
      if i in listening {
        id := links[i];
        confirmId := Some(AttrText(id));
        modalShown := true;
        backdropShown := true;
      }
    }

    method ClickCancel()
      modifies this`modalShown, this`backdropShown
      ensures State() == Dismiss(old(State()))
    {
      modalShown := false;
      backdropShown := false;
    }

    method ClickBackdrop()
      modifies this`modalShown, this`backdropShown
      ensures State() == Dismiss(old(State()))
    {
      modalShown := false;
      backdropShown := false;
    }

    method ClickConfirm()
      modifies this`id, this`requests
      ensures State() == ConfirmClick(old(State()))
    {
      id := confirmId;
      if !IsTruthy(id) {
        return;
      }
      requests := requests + [id.value];
    }

    /**
     * The response handler for request j, removing the review that request
     * was sent for (the as-written handler is ResponseAsWritten).
     */
    method OnReadyStateChange(j: nat, readyState: int, status: int)
      requires j < |requests|
      modifies this`modalShown, this`backdropShown, this`reviews
      ensures State() == Response(old(State()), j, readyState, status)
    {
      ghost var p := State();
      if readyState == 4 && status == 200 {
        modalShown := false;
        backdropShown := false;
        reviews := RemoveFirst(reviews, requests[j]);
        assert State() == p.(modalShown := false, backdropShown := false, reviews := RemoveFirst(p.reviews, p.requests[j]));
      }
    }
  }
}
