# Guestbook module: a Dafny model

This project models the guestbook custom module of a Drupal site.

- Visitors post an entry through a public form: name, email, phone, feedback text, an optional avatar and an optional feedback image.
- The form checks each field live, while it is being filled in, and again on the server when it is submitted.
- It stores the entry in the `guestbook_entries` table and makes the uploaded files permanent.
- It lists the entries newest first.
- Administrators edit the name and message of an entry, and delete entries. Deletion goes through a confirmation form, a direct controller route, or a JavaScript confirmation dialog that posts the deletion in the background.

The model has these modules:

- `PhpText`: the PHP string built-ins the code relies on. These are `trim`, `strpos`, `strtolower`, the extension part of `pathinfo` and the small `preg_match` patterns. The patterns keep PCRE's rule that `$` also matches before a final newline.
- `Storage`: the `guestbook_entries` table (a map from id to row, plus the auto-increment counter) and the managed file table.
- `FormApi`: the Drupal form state. `setErrorByName` keeps the first error set for an element. A sequence of such calls is folded by `Recorded`.
- `GuestbookForm`: `validateForm`, `validateFileServerSide`, `validateFieldAjax`, `validateFileAjax`, `handleFile`, `submitForm` and `getGuestbookReviews`.
- `GuestbookEditForm` and `GuestbookDeleteForm`: the two administration forms.
- `GuestbookController`: the admin-button loop of `content()` and `delete($id)`.
- `GuestbookModal`: the handlers of `guestbook-modal.js`, as functions on a `Page` state and as methods of a `DeleteModal` class holding the same fields.
- `Moderation`: how the forms act together on one table.

Each operation that changes state is a method whose `ensures` ties the new state to a function of the old one. The properties are proved about those functions.

Several inputs of the forms are parameters of the model:

- the request time;
- the email validator `filter_var(..., FILTER_VALIDATE_EMAIL)`, as an uninterpreted `isEmail`;
- the file URL generator, as `toUrl`;
- the permission check, as a boolean;
- the list `guestbook_get_reviews()` returns;
- for the dialog, the readyState and status of the XMLHttpRequest.

The model follows the code, including these points where the server does less than the form's fields and messages suggest:

- The name has only a lower bound: a trimmed name of 2 or more characters passes, however long it is.
- The server checks the phone and the email untrimmed.
- The phone has no length limit: the 10-digit check runs only for a value that already failed the digits check, so it never decides the outcome.
- The server has one email message for every rejected value; only the live check tells an empty value from a malformed one.
- validateForm has no rule of its own for the feedback text: neither non-empty nor a length bound is checked there.
- An update of an id that has no row is a silent no-op, in submitForm and in the edit form, not a "not found" outcome.
- The edit form stores the name and the message untrimmed.
- `GuestbookController.delete($id)` deletes without a confirmation step.

Four operations call accessors that their base class `FormBase` does not define. As written, each of those calls ends the request with a "Call to undefined method" error. For these four operations the model, and the account above, give the intended behaviour; "## Left out" names them and the lines involved.

## Model

| member | source | states |
|---|---|---|
| PhpText.Trim | web/modules/custom/guestbook/src/Form/GuestbookForm.php:300-303 | trim() gives a value that neither starts nor ends with a stripped character and is no longer than its input. It is empty iff every character is stripped. A value without stripped characters is unchanged. |
| PhpText.TrimIsInfix | web/modules/custom/guestbook/src/Form/GuestbookForm.php:300-303 | trim() removes only a stripped prefix and a stripped suffix: the result is the slice `s[a..b]`, every character before `a` is stripped, and so is every character from `b` on. |
| PhpText.FirstKept | web/modules/custom/guestbook/src/Form/GuestbookForm.php:219 | The left edge of trim: every character from `k` up to the result is stripped, and the character at the result (if any) is not. |
| PhpText.LastKept | web/modules/custom/guestbook/src/Form/GuestbookForm.php:219 | The right edge of trim: every character from the result up to `k` is stripped, and the character before the result (if any) is not. |
| PhpText.StrPos | web/modules/custom/guestbook/src/Form/GuestbookForm.php:464 | strpos returns None exactly when the character is absent. Otherwise it returns the index of its first occurrence. |
| PhpText.StrPosFalsy | web/modules/custom/guestbook/src/Form/GuestbookForm.php:464 | `!strpos(s, c)`: true when the character is absent and also when it is the first character, because index 0 is falsy. |
| PhpText.LastDot | web/modules/custom/guestbook/src/Form/GuestbookForm.php:259 | Finds the last '.': the index it returns holds a '.' and no later index does. It returns None iff there is no '.'. |
| PhpText.Extension | web/modules/custom/guestbook/src/Form/GuestbookForm.php:259 | The extension contains no '.'. It is empty when the name has no '.'. |
| PhpText.MatchesDigits | web/modules/custom/guestbook/src/Form/GuestbookForm.php:229-231 | `preg_match('/^[0-9]{min,max}$/', s)`: the value is digits with a length in range, or such digits followed by one final "\n", because PCRE's `$` also matches before a final newline. |
| PhpText.HasNonAscii | web/modules/custom/guestbook/src/Form/GuestbookForm.php:460 | `preg_match('/[^\x00-\x7F]/', s)`: some character lies above 0x7F. |
| PhpText.ToLower | web/modules/custom/guestbook/src/Form/GuestbookForm.php:259 | strtolower keeps the length, maps each ASCII capital to its lower-case letter (code point plus 32), and changes no other character. |
| PhpText.ToLowerIsIdempotent | web/modules/custom/guestbook/src/Form/GuestbookForm.php:373 | Lower-casing an already lower-cased extension changes nothing. |
| PhpText.TrimmedMatchesDigits | web/modules/custom/guestbook/src/Form/GuestbookForm.php:470 | After trim, the digit patterns mean "only digits, length in range": the final-newline case of `$` can no longer arise. |
| PhpText.TrimDigits | web/modules/custom/guestbook/src/Form/GuestbookForm.php:470 | trim leaves a non-empty digit string unchanged, and turns the same string plus one "\n" back into it. |
| PhpText.DigitPatternSurvivesTrim | web/modules/custom/guestbook/src/Form/GuestbookForm.php:229 | A value the server's `/^[0-9]+$/` accepts consists only of digits once trimmed. |
| FormApi.FirstFor | web/modules/custom/guestbook/src/Form/GuestbookForm.php:230-232 | The first message set for an element is None iff no call names the element. Otherwise it is the message of a call that names it, and no earlier call names it. |
| FormApi.IsTruthyId | web/modules/custom/guestbook/src/Form/GuestbookForm.php:296 | `if ($id)`: an id is truthy iff it is set and not 0. |
| FormApi.Record | web/modules/custom/guestbook/src/Form/GuestbookForm.php:220 | One setErrorByName call: an element that already has an error keeps it, otherwise it gets the call's message. |
| FormApi.Recorded | web/modules/custom/guestbook/src/Form/GuestbookForm.php:216-239 | A sequence of setErrorByName calls applied one after the other, in order. |
| FormApi.RecordedIsFirstWins | web/modules/custom/guestbook/src/Form/GuestbookForm.php:230-232 | After a sequence of setErrorByName calls, an element has an error iff it had one or some call names it. The error is the earlier one, else the first one set. |
| FormApi.RecordedAppend | web/modules/custom/guestbook/src/Form/GuestbookForm.php:216-239 | Recording two runs of calls one after the other equals recording their concatenation. |
| FormApi.FirstForAppend | web/modules/custom/guestbook/src/Form/GuestbookForm.php:216-239 | In a concatenation, the first call naming an element comes from the first part whenever that part names it. |
| FormApi.FormState.SetErrorByName | web/modules/custom/guestbook/src/Form/GuestbookForm.php:220 | The new errors are the old ones with this call recorded: an element that already has an error keeps it. |
| FormApi.FormState.SetId | web/modules/custom/guestbook/src/Form/GuestbookEditForm.php:43 | `$form_state->set('id', $id)`: the id becomes the given value and nothing else changes. |
| FormApi.FormState.SetRedirect | web/modules/custom/guestbook/src/Form/GuestbookDeleteForm.php:121 | `$form_state->setRedirect(route)`: the redirect becomes that route and nothing else changes. |
| Storage.EntryTable.Insert | web/modules/custom/guestbook/src/Form/GuestbookForm.php:312-322 | The row gets the next auto-increment id, which no row had. Every other row stays, and the counter advances by one. |
| Storage.EntryTable.Update | web/modules/custom/guestbook/src/Form/GuestbookForm.php:298-308 | Only the row with that id is replaced. An absent id changes nothing. |
| Storage.EntryTable.Delete | web/modules/custom/guestbook/src/Form/GuestbookDeleteForm.php:116-118 | The rows afterwards are the rows before minus that id. |
| Storage.FileStorage.SetPermanent | web/modules/custom/guestbook/src/Form/GuestbookForm.php:340-341 | Only that file changes, and it becomes permanent. |
| Storage.Load | web/modules/custom/guestbook/src/Form/GuestbookForm.php:371 | `$file_storage->load($fid)`: the file stored under the id, and none when no id is given or no file has it. |
| Storage.FirstFid | web/modules/custom/guestbook/src/Form/GuestbookForm.php:369-371 | `!empty($v) && is_array($v)`, then `reset($v)`: the first id of a non-empty id list, and none for an empty list or a value that is not a list. |
| GuestbookForm.MaxBytes | web/modules/custom/guestbook/src/Form/GuestbookForm.php:261 | The size limit is 2 MiB for the 'avatar' field and 5 MiB for any other field name. |
| GuestbookForm.AllowedFile | web/modules/custom/guestbook/src/Form/GuestbookForm.php:259-263 | A file name passes iff the lower-cased text after its last '.' is "jpg", "jpeg" or "png". |
| GuestbookForm.ExtensionOfDotted | web/modules/custom/guestbook/src/Form/GuestbookForm.php:259 | The extension of `base.ext` is `ext` when `ext` has no dot, whatever `base` holds. |
| GuestbookForm.AllowedDotted | web/modules/custom/guestbook/src/Form/GuestbookForm.php:259-263 | For every base name and every extension without a dot, `base.ext` passes iff the lower-cased `ext` is on the allow-list. |
| GuestbookForm.AllowListIgnoresCase | web/modules/custom/guestbook/src/Form/GuestbookForm.php:259-263 | For every base name, two dot-free extensions that differ only in the case of ASCII letters get the same allow-list verdict. |
| GuestbookForm.GifIsNeverAllowed | web/modules/custom/guestbook/src/Form/GuestbookForm.php:259-266 | A name ending in ".gif" fails the allow-list whatever its base, and for every size its first file error is the format error. |
| GuestbookForm.UpperJpgIsAllowed | web/modules/custom/guestbook/src/Form/GuestbookForm.php:259-263 | "photo.JPG" passes the allow-list, because the extension is lower-cased first. |
| GuestbookForm.AnimGifIsNotAllowed | web/modules/custom/guestbook/src/Form/GuestbookForm.php:259-263 | "anim.gif" fails the allow-list. |
| GuestbookForm.AllowListExamples | web/modules/custom/guestbook/src/Form/GuestbookForm.php:259-263 | "photo.JPG" passes because the extension is lower-cased first. "anim.gif" and a name without a dot fail. |
| GuestbookForm.CatGifIsNotAllowed | web/modules/custom/guestbook/src/Form/GuestbookForm.php:259-263 | "cat.gif" is not an allowed file. |
| GuestbookForm.NameCalls | web/modules/custom/guestbook/src/Form/GuestbookForm.php:219-221 | The name check calls setErrorByName once, with the "too short" message on name, iff the trimmed name is shorter than 2 characters. |
| GuestbookForm.EmailCalls | web/modules/custom/guestbook/src/Form/GuestbookForm.php:224-226 | The email check calls setErrorByName once, with the "invalid format" message on email, iff the validator rejects the untrimmed value. |
| GuestbookForm.PhoneCalls | web/modules/custom/guestbook/src/Form/GuestbookForm.php:229-234 | No call when the untrimmed phone matches `/^[0-9]+$/`. Otherwise "digits only" on phone, then "10 digits" as well when the trimmed phone fails `/^[0-9]{10}$/`. |
| GuestbookForm.FileCheckCalls | web/modules/custom/guestbook/src/Form/GuestbookForm.php:259-273 | For a loaded file: the format error when its name fails the allow-list, then the "too large" error, with the limit in MiB, when its size exceeds the field's limit. |
| GuestbookForm.LoadSubmitted | web/modules/custom/guestbook/src/Form/GuestbookForm.php:254-257 | The intended lookup: the stored file of the first id of a non-empty id list. |
| GuestbookForm.FileCalls | web/modules/custom/guestbook/src/Form/GuestbookForm.php:254-275 | validateFileServerSide's calls: none when no file is loaded, and the loaded file's file-check calls otherwise. |
| GuestbookForm.ValidationCalls | web/modules/custom/guestbook/src/Form/GuestbookForm.php:216-239 | The calls of the name, email, phone, avatar and feedback_image checks, in source order. |
| GuestbookForm.ValidationErrors | web/modules/custom/guestbook/src/Form/GuestbookForm.php:216-239 | The errors after validateForm: all its calls recorded, in order, onto the errors the form state already had. |
| GuestbookForm.ValidateFileServerSide | web/modules/custom/guestbook/src/Form/GuestbookForm.php:252-276 | The form state's errors become the old errors with this field's file-check calls recorded. |
| GuestbookForm.ValidateForm | web/modules/custom/guestbook/src/Form/GuestbookForm.php:216-239 | The errors become the old errors with every setErrorByName call of the name, email, phone, avatar and feedback_image checks recorded, in source order. |
| GuestbookForm.ValidationCallNames | web/modules/custom/guestbook/src/Form/GuestbookForm.php:216-239 | Each check sets errors only on its own element. |
| GuestbookForm.FirstValidationCall | web/modules/custom/guestbook/src/Form/GuestbookForm.php:216-239 | The first error validateForm sets for an element comes from that element's own check. Elements other than the five get none. |
| GuestbookForm.FirstForOfParts | web/modules/custom/guestbook/src/Form/GuestbookForm.php:216-239 | In five lists of calls that each name a single element, the first call for an element comes from that element's own list. |
| GuestbookForm.NoneForOther | web/modules/custom/guestbook/src/Form/GuestbookForm.php:216-239 | A list of calls that all name another element holds no call for the element. |
| GuestbookForm.NameRule | web/modules/custom/guestbook/src/Form/GuestbookForm.php:219-221 | The name gets an error iff its trimmed length is below 2, with no upper bound, and the error is the "too short" message. |
| GuestbookForm.EmailRule | web/modules/custom/guestbook/src/Form/GuestbookForm.php:224-226 | The email gets an error iff the validator rejects the untrimmed value. |
| GuestbookForm.PhoneRule | web/modules/custom/guestbook/src/Form/GuestbookForm.php:229-234 | The phone gets an error iff the untrimmed value fails `/^[0-9]+$/`, and the error is always "digits only". |
| GuestbookForm.PhoneLengthIsNotChecked | web/modules/custom/guestbook/src/Form/GuestbookForm.php:229-234 | A non-empty all-digit phone of any length passes. The empty value, and values starting or ending with a space, fail. |
| GuestbookForm.FirstValidationMessage | web/modules/custom/guestbook/src/Form/GuestbookForm.php:229-234 | The first message validateForm sets for any element is never the "10 digits" one. |
| GuestbookForm.TenDigitMessageNeverRecorded | web/modules/custom/guestbook/src/Form/GuestbookForm.php:229-234 | After validateForm, no element holds the "10 digits" message unless it held it before: "digits only" was always set first. |
| GuestbookForm.FileRule | web/modules/custom/guestbook/src/Form/GuestbookForm.php:255-275 | A file field gets an error iff a file is loaded and it has a disallowed extension or is larger than the limit (2 MiB for avatar, 5 MiB otherwise, the limit itself allowed). A format error takes precedence over a size error. No file means no error. |
| GuestbookForm.ValidationKeepsEarlierErrors | web/modules/custom/guestbook/src/Form/GuestbookForm.php:216-239 | Errors present before validateForm are kept. New errors appear only on its five elements. |
| GuestbookForm.ValidateFieldAjax | web/modules/custom/guestbook/src/Form/GuestbookForm.php:440-484 | The message goes to form-messages. Name: a message iff the trimmed length is below 2. Email, first failing check wins: required, Latin only, then "@ and ." when either is missing or first at index 0. Phone: a message iff the trimmed value is not all digits. Feedback: a message iff the trimmed value is empty. Other names: none. |
| GuestbookForm.LiveFileCheck | web/modules/custom/guestbook/src/Form/GuestbookForm.php:372-381 | At most one message. Format comes first. Otherwise "too large" above 2097152 bytes for avatar and 5242880 bytes for other fields. |
| GuestbookForm.ValidateFileAjax | web/modules/custom/guestbook/src/Form/GuestbookForm.php:361-388 | The target is avatar-error for avatar and feedback-image-error otherwise. There is no message without a loaded file, and the file check's message for a loaded one. |
| GuestbookForm.FileChecksAgree | web/modules/custom/guestbook/src/Form/GuestbookForm.php:259-381 | The server records a file error exactly when the live check shows a message. The two agree on its kind and limit, and the server touches no other element. |
| GuestbookForm.LiveNameMatchesServer | web/modules/custom/guestbook/src/Form/GuestbookForm.php:450-452 | The live name message is exactly the error the server records for the name. |
| GuestbookForm.ServerPhoneImpliesLive | web/modules/custom/guestbook/src/Form/GuestbookForm.php:469-473 | A phone the server accepts is accepted by the live check. |
| GuestbookForm.LivePhoneIsMoreLenient | web/modules/custom/guestbook/src/Form/GuestbookForm.php:469-473 | The live check accepts "" and " 42", which the server rejects. |
| GuestbookForm.Promote | web/modules/custom/guestbook/src/Form/GuestbookForm.php:335-346 | handleFile gives a URI iff the value is a non-empty id list whose first id has a file. That file alone becomes permanent, and its URI is returned. Otherwise nothing changes. |
| GuestbookForm.PromoteIsIdempotent | web/modules/custom/guestbook/src/Form/GuestbookForm.php:335-346 | Promoting the same value again returns the same URI and changes nothing more. The promoted file is permanent. |
| GuestbookForm.LoadSubmittedAsWritten | web/modules/custom/guestbook/src/Form/GuestbookForm.php:257 | The lookup as written, in the PHP 7 reading: `reset()` of the undefined `$file_ids` gives NULL, so load() is given no id. |
| GuestbookForm.FileCallsAsWritten | web/modules/custom/guestbook/src/Form/GuestbookForm.php:255-276 | validateFileServerSide's error calls with the as-written lookup (PHP 7 reading). |
| GuestbookForm.PromoteAsWritten | web/modules/custom/guestbook/src/Form/GuestbookForm.php:335-346 | handleFile with the as-written lookup (PHP 7 reading). |
| GuestbookForm.AsWrittenIgnoresFiles | web/modules/custom/guestbook/src/Form/GuestbookForm.php:338 | In the PHP 7 reading: with the undefined `$file_ids`, the server file check never sets an error, and handleFile never returns a URI or changes a file. |
| GuestbookForm.AsWrittenAcceptsAndDropsGif | web/modules/custom/guestbook/src/Form/GuestbookForm.php:257 | In the PHP 7 reading: a 10 MiB "cat.gif" avatar passes the as-written check and handleFile drops it. The corrected lookup records the format and size errors and returns its URI. |
| GuestbookForm.HandleFile | web/modules/custom/guestbook/src/Form/GuestbookForm.php:335-346 | The file table and the returned URI are those Promote gives. |
| GuestbookForm.StoredEntry | web/modules/custom/guestbook/src/Form/GuestbookForm.php:297-321 | The row submitForm writes: name, email, phone and feedback trimmed, then the two file URIs and the created time. |
| GuestbookForm.SubmitForm | web/modules/custom/guestbook/src/Form/GuestbookForm.php:288-324 | Both files are promoted. With a truthy id, only that row is rewritten: trimmed text, the new URIs (or none), its created time kept; an absent id changes nothing. Without one, one row is inserted at a fresh id, created at the request time. |
| GuestbookForm.RowsFrom | web/modules/custom/guestbook/src/Form/GuestbookForm.php:497-500 | The rows with ids in a range, each once, as many as there are ids there. |
| GuestbookForm.InsertByCreated | web/modules/custom/guestbook/src/Form/GuestbookForm.php:499 | Inserting into a newest-first list keeps it newest-first and one row longer. The new list starts with the inserted row or with the old first row. |
| GuestbookForm.PrependSorted | web/modules/custom/guestbook/src/Form/GuestbookForm.php:499 | A row created no earlier than the head of a newest-first list keeps the list newest-first when put in front. |
| GuestbookForm.InsertByCreatedPermutes | web/modules/custom/guestbook/src/Form/GuestbookForm.php:499 | Inserting adds exactly that row: the result is a permutation of the list plus the row. |
| GuestbookForm.SortByCreatedDesc | web/modules/custom/guestbook/src/Form/GuestbookForm.php:499 | The result is newest-first and a permutation of its input. |
| GuestbookForm.OrderByCreatedDesc | web/modules/custom/guestbook/src/Form/GuestbookForm.php:497-500 | The query returns every row of the table once and nothing else, with `created` non-increasing. |
| GuestbookForm.ReviewOf | web/modules/custom/guestbook/src/Form/GuestbookForm.php:510-518 | The review of one row: its text fields copied, each file URI made absolute when it is truthy and '' otherwise, and its created time. |
| GuestbookForm.IsTruthyUri | web/modules/custom/guestbook/src/Form/GuestbookForm.php:515-516 | `$entry->avatar ? ... : ''`: a stored URI is truthy iff it is set and is neither "" nor "0". |
| GuestbookForm.GetGuestbookReviews | web/modules/custom/guestbook/src/Form/GuestbookForm.php:494-522 | One review per row, in query order, each built from its row (empty avatar and image when the URI is falsy). The result has as many reviews as the table has rows, newest first. |
| GuestbookForm.BuildReviews | web/modules/custom/guestbook/src/Form/GuestbookForm.php:509-519 | The foreach builds one review per result row, in the same order, each equal to ReviewOf of its row. |
| GuestbookForm.ReviewsKeepOrder | web/modules/custom/guestbook/src/Form/GuestbookForm.php:499-519 | Reviews built row by row from a newest-first result are newest-first by creation time. |
| GuestbookForm.ReviewsOfRows | web/modules/custom/guestbook/src/Form/GuestbookForm.php:509-519 | Reviews built from a result holding exactly the table's rows show every row, and each review is the review of a stored row. |
| GuestbookEditForm.FormFor | web/modules/custom/guestbook/src/Form/GuestbookEditForm.php:35-77 | A falsy id gives "No review ID provided". An id without a row gives "Review not found", never a default record. Otherwise the defaults are the stored name and feedback. |
| GuestbookEditForm.FindRow | web/modules/custom/guestbook/src/Form/GuestbookEditForm.php:45-55 | The select by id with `fetchAssoc()`: the row with that id, or none, which gives "Review not found". |
| GuestbookEditForm.Edited | web/modules/custom/guestbook/src/Form/GuestbookEditForm.php:89-102 | Same ids. Only the row with the form state's id changes, and only in name and feedback. No id, or an absent one, changes nothing. |
| GuestbookEditForm.BuildForm | web/modules/custom/guestbook/src/Form/GuestbookEditForm.php:35-77 | Returns FormFor's form. It stores a truthy query id in the form state before the lookup, and nothing otherwise. |
| GuestbookEditForm.SubmitForm | web/modules/custom/guestbook/src/Form/GuestbookEditForm.php:89-102 | The table becomes Edited with the form state's id and the untrimmed values, and "Review updated" follows. |
| GuestbookEditForm.EditRequest | web/modules/custom/guestbook/src/Form/GuestbookEditForm.php:43-90 | The id buildForm saves is the one submitForm updates. When the form was shown, that row now holds the new name and message. |
| GuestbookEditForm.EditKeepsOtherFields | web/modules/custom/guestbook/src/Form/GuestbookEditForm.php:92-99 | Email, phone, avatar, feedback_image and created of the edited row are unchanged. |
| GuestbookEditForm.EditThenBuildShowsEdit | web/modules/custom/guestbook/src/Form/GuestbookEditForm.php:57-99 | Building the form after an edit shows the values just written. |
| GuestbookEditForm.SubmitDefaultsIsNoOp | web/modules/custom/guestbook/src/Form/GuestbookEditForm.php:57-99 | Submitting the defaults unchanged leaves the table as it was. |
| GuestbookEditForm.EditTwice | web/modules/custom/guestbook/src/Form/GuestbookEditForm.php:92-99 | Of two edits of one id, the second wins. |
| GuestbookDeleteForm.Deleted | web/modules/custom/guestbook/src/Form/GuestbookDeleteForm.php:115-118 | The rows afterwards are the rows before minus that id. Every remaining row is unchanged, and a NULL id deletes nothing. |
| GuestbookDeleteForm.DeleteForm.BuildForm | web/modules/custom/guestbook/src/Form/GuestbookDeleteForm.php:49-53 | The route's id is stored in the form object. |
| GuestbookDeleteForm.DeleteForm.CancelUrl | web/modules/custom/guestbook/src/Form/GuestbookDeleteForm.php:75-77 | Cancel goes to guestbook.page and reads and writes nothing. |
| GuestbookDeleteForm.DeleteForm.SubmitForm | web/modules/custom/guestbook/src/Form/GuestbookDeleteForm.php:113-122 | Deletes the stored id, always reports "entry deleted" and redirects to guestbook.page. |
| GuestbookDeleteForm.DeleteRequest | web/modules/custom/guestbook/src/Form/GuestbookDeleteForm.php:49-122 | The id given to buildForm is the id submitForm deletes. That row is gone and every other row is as it was. |
| GuestbookDeleteForm.DeleteAbsentIsNoOp | web/modules/custom/guestbook/src/Form/GuestbookDeleteForm.php:116-118 | Deleting an id no row has changes nothing. |
| GuestbookDeleteForm.DeleteIsIdempotent | web/modules/custom/guestbook/src/Form/GuestbookDeleteForm.php:116-118 | Deleting twice is deleting once. |
| GuestbookDeleteForm.DeleteShrinksByOne | web/modules/custom/guestbook/src/Form/GuestbookDeleteForm.php:116-118 | Deleting a present id removes exactly one row. |
| GuestbookController.IsEmptyId | web/modules/custom/guestbook/src/Controller/GuestbookController.php:21 | `empty($review['id'])` on a string id: true iff the id is missing, "" or "0". |
| GuestbookController.Decorated | web/modules/custom/guestbook/src/Controller/GuestbookController.php:21-26 | The id and other keys are kept. An administrator gets edit and delete links on guestbook.edit and guestbook.delete carrying the review's own id, when that id is not empty (unset, '' or '0'). Otherwise the review is unchanged. |
| GuestbookController.Content | web/modules/custom/guestbook/src/Controller/GuestbookController.php:20-27 | Same count and order. Each review is decorated, keeping its id and other keys. A review has buttons iff it had them or the user may administer and its id is non-empty. |
| GuestbookController.NoPermissionNoButtons | web/modules/custom/guestbook/src/Controller/GuestbookController.php:21 | Without the permission, every review is left as it came. |
| GuestbookController.ButtonsCarryOwnId | web/modules/custom/guestbook/src/Controller/GuestbookController.php:23-24 | Both buttons carry the review's id and point at the edit and delete routes. |
| GuestbookController.Delete | web/modules/custom/guestbook/src/Controller/GuestbookController.php:49-56 | Removes only that row, with no confirmation, a no-op for an absent id. Always "Review deleted" and a redirect to /guestbook. |
| GuestbookModal.IsTruthy | web/modules/custom/guestbook/js/guestbook-modal.js:40 | `if (!id)` on a value from getAttribute: null and "" are falsy, every other string is truthy. |
| GuestbookModal.AttrText | web/modules/custom/guestbook/js/guestbook-modal.js:18-19 | setAttribute stores the string form of the id, so a null id is stored as "null". |
| GuestbookModal.DeleteUrl | web/modules/custom/guestbook/js/guestbook-modal.js:45 | The URL is "/guestbook/", then the id, then "/delete". |
| GuestbookModal.DeleteUrlIsInjective | web/modules/custom/guestbook/js/guestbook-modal.js:45 | Distinct ids post to distinct URLs. |
| GuestbookModal.FirstIndex | web/modules/custom/guestbook/js/guestbook-modal.js:52 | querySelector finds nothing iff no review has the id. Otherwise it finds the first review with it. |
| GuestbookModal.RemoveFirst | web/modules/custom/guestbook/js/guestbook-modal.js:52-55 | Removing an absent id is a no-op. Otherwise exactly the first matching review goes, and the others stay in order. |
| GuestbookModal.DeleteClick | web/modules/custom/guestbook/js/guestbook-modal.js:16-22 | The pending id (the confirm button's data-id) and the closure id become the link's id, and the modal and backdrop show. A null id is stored as "null". Requests and reviews are unchanged. |
| GuestbookModal.Dismiss | web/modules/custom/guestbook/js/guestbook-modal.js:28-36 | Modal and backdrop hide. The pending id, the closure id, requests and reviews are unchanged. |
| GuestbookModal.ConfirmClick | web/modules/custom/guestbook/js/guestbook-modal.js:38-59 | The closure id becomes the pending id. A falsy pending id sends nothing. Otherwise exactly that id is sent. The display and the reviews are unchanged. |
| GuestbookModal.ResponseAsWritten | web/modules/custom/guestbook/js/guestbook-modal.js:48-56 | Only readyState 4 with status 200 hides the dialog and removes the review matching the closure id as it is at response time. Any other outcome changes nothing. |
| GuestbookModal.Response | web/modules/custom/guestbook/js/guestbook-modal.js:48-56 | Only readyState 4 with status 200 hides the dialog and removes the review the request was sent for. Any other outcome changes nothing. |
| GuestbookModal.LaterClickOverwrites | web/modules/custom/guestbook/js/guestbook-modal.js:16-22 | A later delete click overwrites the pending id completely. |
| GuestbookModal.DismissThenReopen | web/modules/custom/guestbook/js/guestbook-modal.js:16-36 | Dismissing, then clicking the same link again, gives back the same open dialog. |
| GuestbookModal.ConfirmSendsClickedId | web/modules/custom/guestbook/js/guestbook-modal.js:18-45 | Confirming after clicking a link sends exactly that link's id. |
| GuestbookModal.ResponseIgnoresLaterClicks | web/modules/custom/guestbook/js/guestbook-modal.js:48-56 | With the id captured per request, a cancel and a click on another link while the request is in flight do not change which review the response removes. |
| GuestbookModal.ConfirmedReviewIsRemoved | web/modules/custom/guestbook/js/guestbook-modal.js:39-56 | Click, confirm and a successful response remove exactly one copy of the confirmed id from the page, and close the dialog. |
| GuestbookModal.StaleIdRemovesWrongReview | web/modules/custom/guestbook/js/guestbook-modal.js:48-57 | Confirm "1", cancel, click "2", then the response for "1" arrives: as written it removes "2", the corrected handler removes "1". |
| GuestbookModal.DeleteModal.constructor | web/modules/custom/guestbook/js/guestbook-modal.js:24-26 | The dialog starts hidden with nothing sent, and every delete link gets a listener. |
| GuestbookModal.DeleteModal.ClickDeleteLink | web/modules/custom/guestbook/js/guestbook-modal.js:16-22 | The state becomes DeleteClick of the link's id. Only the ids and the display change. |
| GuestbookModal.DeleteModal.ClickCancel | web/modules/custom/guestbook/js/guestbook-modal.js:28-31 | The state becomes Dismiss of the old state. Only the display changes. |
| GuestbookModal.DeleteModal.ClickBackdrop | web/modules/custom/guestbook/js/guestbook-modal.js:33-36 | The state becomes Dismiss of the old state. Only the display changes. |
| GuestbookModal.DeleteModal.ClickConfirm | web/modules/custom/guestbook/js/guestbook-modal.js:38-59 | The state becomes ConfirmClick of the old state. Only the closure id and the sent requests change. |
| GuestbookModal.DeleteModal.OnReadyStateChange | web/modules/custom/guestbook/js/guestbook-modal.js:48-56 | The state becomes the corrected Response for the request that completed. Only the display and the reviews change. |
| Moderation.DeletedCannotBeEdited | web/modules/custom/guestbook/src/Form/GuestbookEditForm.php:52-55 | After a row is deleted, the edit form for its id says "Review not found". |
| Moderation.PostedEntryIsEditable | web/modules/custom/guestbook/src/Form/GuestbookEditForm.php:57-69 | A row stored by the public form is offered for editing with its trimmed name and feedback. |
| Moderation.DeleteThenEdit | web/modules/custom/guestbook/src/Form/GuestbookDeleteForm.php:116-118 | Deleting through the confirmation form and then opening the edit form for the same id gives "Review not found". |

## Left out

- Render arrays, `#ajax` wiring, `ajaxSubmit` and the renderer. A live check's answer is kept as the pair (target element, message).
- Translation and the wording of messages: messages are datatype constructors, and messenger output is a returned `Notice`.
- `date('m/d/Y H:i:s', ...)`: a review keeps the raw `created` timestamp.
- `filter_var(..., FILTER_VALIDATE_EMAIL)` is a library validator: it is the uninterpreted predicate `isEmail`.
- The file URL generator, the request clock, the logger and dependency injection are parameters or left out.
- GuestbookForm.SubmitForm: the insert branch calls `$this->time()` (GuestbookForm.php:320), which `FormBase` does not define. As written, the request aborts there and no new entry is ever stored. The model gives the intended insert at the request time. The update branch uses the injected `$this->database` and is not affected.
- GuestbookForm.GetGuestbookReviews: `$this->database()` (GuestbookForm.php:497) and `$this->service()` (GuestbookForm.php:507) are not `FormBase` methods. As written, the call aborts before any row is read. The model gives the intended listing.
- GuestbookEditForm.BuildForm: `$this->request()` (GuestbookEditForm.php:36) and `$this->database()` (GuestbookEditForm.php:45) are not `FormBase` methods. As written, the form never builds. The model gives the intended form.
- GuestbookEditForm.SubmitForm: `$this->database()` (GuestbookEditForm.php:92) is not a `FormBase` method. As written, nothing is saved. The model gives the intended update.
- The framework's `#required` checks and the managed_file upload validators run outside the code shown.
- `GuestbookController.edit($id)` only forwards the id to the edit form through the query string. It is not modelled separately: `GuestbookEditForm.BuildForm` takes the query id.
- `guestbook_get_reviews()` is not part of this model. Its result is an input list.
- Query and route ids are integers (`Option<int>` where they may be missing); non-numeric strings are outside the model. PHP truthiness of an id is "present and not 0"; of a stored URI, "present, not '' and not '0'". Integers are unbounded.
- GuestbookForm.OrderByCreatedDesc: rows created in the same second come in ascending id order. SQL leaves their order unspecified, so this is one admissible order, not the only one.
- GuestbookForm.ValidateFileServerSide, GuestbookForm.HandleFile and GuestbookForm.SubmitForm: these use the corrected lookup of the first submitted file id (see Findings). Under PHP 8, `reset()` on the undefined `$file_ids` throws a TypeError as soon as a file is submitted, and the request aborts; the model does not represent that abort. The as-written lookup in its PHP 7 reading, which finds no file, is `LoadSubmittedAsWritten`.
- GuestbookModal.DeleteModal.constructor: the dialog and the backdrop start hidden. The DOMContentLoaded handler does not set their display; the hidden start comes from the page's markup or styles, which are not part of this model.
- GuestbookModal.DeleteModal.OnReadyStateChange: this is the corrected handler, which removes the review of the request that completed. The as-written handler is `ResponseAsWritten` (see Findings).
- In the dialog, the handler reads the shared `xhr` variable, so its readyState and status belong to the latest request. The event parameters stand for those values. XHR transport, asynchrony, DOM nodes beyond the reviews' data-id attributes, and `e.target` being a child of the confirm button all lie outside the model.

## Findings

| source | as written | input that shows it | evidently intended | confidence | as-written member | corrected member |
|---|---|---|---|---|---|---|
| web/modules/custom/guestbook/src/Form/GuestbookForm.php:257 | The file is looked up with `reset($file_ids)`, but the submitted ids are in `$fids` and `$file_ids` is never assigned. Under PHP 8, which the `FileExtension` and `FileSizeLimit` upload validators at lines 148–150 require, `reset()` throws a TypeError and any submission carrying a file aborts in validateForm. In the PHP 7 reading, modelled by the as-written member, `reset()` gives NULL, no file is loaded, and the format and size checks never fire. | avatar value `[7]`, where file 7 is "cat.gif" of 10 MiB: under PHP 8 the request aborts; in the PHP 7 reading no error is recorded | load the first id of `$fids`, and record the format and the size error | not executed | GuestbookForm.AsWrittenAcceptsAndDropsGif | GuestbookForm.FileRule |
| web/modules/custom/guestbook/src/Form/GuestbookForm.php:338 | handleFile also calls `reset($file_ids)` on an undefined variable. Under PHP 8 it throws a TypeError, so no submission with a file is stored. In the PHP 7 reading, modelled by the as-written member, no upload is ever made permanent and NULL is stored as its URI. | any value `[fid]` whose file exists: under PHP 8 the request aborts; in the PHP 7 reading the URI is NULL and the file stays temporary | load the first id of `$fid`, make it permanent and return its URI | not executed | GuestbookForm.AsWrittenIgnoresFiles | GuestbookForm.Promote |
| web/modules/custom/guestbook/js/guestbook-modal.js:52 | The response handler builds its selector from the shared `id`, read when the response arrives. | confirm review "1", cancel, click delete on review "2", then the 200 response for "1" arrives: review "2" disappears from the page, although "1" was deleted | remove the review whose id the request carried | not executed | GuestbookModal.StaleIdRemovesWrongReview | GuestbookModal.ResponseIgnoresLaterClicks |
