/**
 * The part of Drupal's form API the guestbook forms use: the messages they
 * record, and a form state whose error list keeps only the first error set
 * for each element name.
 */
module FormApi {
  import opened Wrappers

  /** The messages the forms record or display, one constructor per distinct text. */
  datatype Message =
    | NameTooShort
    | EmailInvalid
    | PhoneDigitsOnly
    | PhoneTenDigits
    | FileFormat(field: string)
    | FileTooLarge(field: string, limitMiB: int)
    | EmailRequired
    | EmailLatinOnly
    | EmailNeedsAtAndDot
    | FeedbackRequired
    | LiveFileFormat
    | LiveFileTooLarge(limitMiB: int)
    /** An error the framework itself recorded before the form's own validation ran. */
    | Framework(text: string)

  /** Status and error messages passed to the messenger. */
  datatype Notice = NoReviewId | ReviewNotFound | ReviewUpdated | EntryDeleted | ReviewDeleted

  /** One call of `$form_state->setErrorByName($name, $message)`. */
  datatype ErrorCall = ErrorCall(name: string, message: Message)

  /** PHP truthiness of an id value: NULL and 0 are falsy. */
  predicate IsTruthyId(id: Option<int>) {
    id.Some? && id.value != 0
  }

  /** The effect of one setErrorByName call: an element that already has an error keeps it. */
  function Record(errors: map<string, Message>, call: ErrorCall): map<string, Message> {
    if call.name in errors then errors else errors[call.name := call.message]
  }

  /** The effect of a sequence of setErrorByName calls, in order. */
  function Recorded(errors: map<string, Message>, calls: seq<ErrorCall>): map<string, Message>
    decreases |calls|
  {
    if calls == [] then errors else Recorded(Record(errors, calls[0]), calls[1..])
  }

  /** The message of the first call in `calls` that names `name`. */
  function FirstFor(calls: seq<ErrorCall>, name: string): (r: Option<Message>)
    ensures r.None? <==> forall i :: 0 <= i < |calls| ==> calls[i].name != name
    ensures r.Some? ==> exists i :: (0 <= i < |calls| && calls[i] == ErrorCall(name, r.value)
                                     && forall j :: 0 <= j < i ==> calls[j].name != name)
  {
    if calls == [] then None
    else if calls[0].name == name then Some(calls[0].message)
    else
      var r := FirstFor(calls[1..], name);
      assert r.Some? ==> exists i :: (0 <= i < |calls| && calls[i] == ErrorCall(name, r.value)
                                      && forall j :: 0 <= j < i ==> calls[j].name != name) by {
        if r.Some? {
          var i :| 0 <= i < |calls[1..]| && calls[1..][i] == ErrorCall(name, r.value)
            && forall j :: 0 <= j < i ==> calls[1..][j].name != name;
          assert calls[i + 1] == ErrorCall(name, r.value);
          assert forall j :: 1 <= j < i + 1 ==> calls[j] == calls[1..][j - 1];
        }
      }
      r
  }

  /** First wins: after the calls an element's error is the one it had, else the first one set for it. */
  lemma {:induction false} RecordedIsFirstWins(errors: map<string, Message>, calls: seq<ErrorCall>, name: string)
    ensures name in Recorded(errors, calls) <==> name in errors || FirstFor(calls, name).Some?
    ensures name in Recorded(errors, calls) ==>
      Recorded(errors, calls)[name] == if name in errors then errors[name] else FirstFor(calls, name).value
    decreases |calls|
  {
    if calls != [] {
      RecordedIsFirstWins(Record(errors, calls[0]), calls[1..], name);
    }
  }

  /** Recording two sequences of calls one after the other is recording their concatenation. */
  lemma {:induction false} RecordedAppend(errors: map<string, Message>, a: seq<ErrorCall>, b: seq<ErrorCall>)
    ensures Recorded(errors, a + b) == Recorded(Recorded(errors, a), b)
    decreases |a|
  {
    if a == [] {
      assert a + b == b;
    } else {
      assert (a + b)[0] == a[0] && (a + b)[1..] == a[1..] + b;
      RecordedAppend(Record(errors, a[0]), a[1..], b);
    }
  }

  /** The first call naming an element in a concatenation comes from the first part if it names it at all. */
  lemma {:induction false} FirstForAppend(a: seq<ErrorCall>, b: seq<ErrorCall>, name: string)
    ensures FirstFor(a + b, name) == if FirstFor(a, name).Some? then FirstFor(a, name) else FirstFor(b, name)
    decreases |a|
  {
    if a != [] {
      assert (a + b)[1..] == a[1..] + b;
      FirstForAppend(a[1..], b, name);
    } else {
      assert a + b == b;
    }
  }

  /** The form state: recorded errors, the 'id' storage slot and the redirect target. */
  class FormState {
    var errors: map<string, Message>
    var id: Option<int>
    var redirect: Option<string>

    constructor ()
      ensures errors == map[] && id == None && redirect == None
    {
      errors := map[];
      id := None;
      redirect := None;
    }

    method SetErrorByName(name: string, message: Message)
      modifies this`errors
      ensures errors == Record(old(errors), ErrorCall(name, message))
    {
      if name !in errors {
        errors := errors[name := message];
      }
    }

    /** `$form_state->set('id', $id)`. */
    method SetId(id: Option<int>)
      modifies this`id
      ensures this.id == id
    {
      this.id := id;
    }

    /** `$form_state->setRedirect($route)`. */
    method SetRedirect(route: string)
      modifies this`redirect
      ensures redirect == Some(route)
    {
      redirect := Some(route);
    }
  }
}
