/**
 * GuestbookForm: the public entry form. Authoritative validation
 * (validateForm, validateFileServerSide) records errors in the form state;
 * the live checks (validateFieldAjax, validateFileAjax) answer one field at
 * a time; submitForm promotes the uploaded files (handleFile) and inserts or
 * updates a row; getGuestbookReviews lists the rows newest first.
 */
module GuestbookForm {
  import opened Wrappers
  import opened PhpText
  import opened Storage
  import opened FormApi

  const MiB: nat := 1024 * 1024
  const AvatarMaxBytes: nat := 2 * MiB
  const FeedbackImageMaxBytes: nat := 5 * MiB
  const AllowedExtensions: seq<string> := ["jpg", "jpeg", "png"]

  /** The values of the entry form. */
  datatype Submission = Submission(
    name: string,
    email: string,
    phone: string,
    feedback: string,
    avatar: FileValue,
    feedbackImage: FileValue)

  /** The size limit of a file field: 2 MiB for 'avatar', 5 MiB for any other name. */
  function MaxBytes(field: string): (n: nat)
    ensures field == "avatar" ==> n == 2 * MiB
    ensures field != "avatar" ==> n == 5 * MiB
  {
    if field == "avatar" then AvatarMaxBytes else FeedbackImageMaxBytes
  }

  /** The lower-cased extension of the file name is on the allow-list. */
  predicate AllowedFile(filename: string) {
    ToLower(Extension(filename)) in AllowedExtensions
  }

  /** The extension of `base.ext` is `ext` whatever `base` holds, since `ext` has no dot. */
  lemma ExtensionOfDotted(base: string, ext: string)
    requires '.' !in ext
    ensures Extension(base + "." + ext) == ext
  {
    var s := base + "." + ext;
    assert s[|base|] == '.';
    assert forall i :: |base| < i < |s| ==> s[i] == ext[i - |base| - 1];
    var d := LastDot(s, |s|);
    assert d == Some(|base|);
    assert s[|base| + 1..] == ext;
  }

  /** A name with a dotted extension passes the allow-list iff its lower-cased extension is listed. */
  lemma AllowedDotted(base: string, ext: string)
    requires '.' !in ext
    ensures AllowedFile(base + "." + ext) <==> ToLower(ext) in AllowedExtensions
  {
    ExtensionOfDotted(base, ext);
  }

  /** Two extensions that differ only in the case of ASCII letters get the same verdict. */
  lemma AllowListIgnoresCase(base: string, ext: string, other: string)
    requires '.' !in ext && '.' !in other
    requires |ext| == |other|
    requires forall i :: 0 <= i < |ext| ==> LowerChar(ext[i]) == LowerChar(other[i])
    ensures AllowedFile(base + "." + ext) <==> AllowedFile(base + "." + other)
  {
    AllowedDotted(base, ext);
    AllowedDotted(base, other);
    assert ToLower(ext) == ToLower(other);
  }

  /** Whatever its base name and its size, a ".gif" file gets the format error first. */
  lemma GifIsNeverAllowed(field: string, base: string, size: nat)
    ensures !AllowedFile(base + ".gif")
    ensures var calls := FileCheckCalls(field, base + ".gif", size);
      calls != [] && calls[0] == ErrorCall(field, FileFormat(field))
  {
    assert base + ".gif" == base + "." + "gif";
    AllowedDotted(base, "gif");
    GifIsNotAllowed();
  }

  /** The allow-list ignores the case of the extension: "photo.JPG" passes, "anim.gif" does not. */
  lemma AllowListExamples()
    ensures AllowedFile("photo.JPG")
    ensures !AllowedFile("anim.gif")
    ensures !AllowedFile("png")
  {
    UpperJpgIsAllowed();
    AnimGifIsNotAllowed();
    assert Extension("png") == "";
  }

  lemma UpperJpgIsAllowed()
    ensures AllowedFile("photo.JPG")
  {
    assert "photo.JPG" == "photo" + "." + "JPG";
    AllowedDotted("photo", "JPG");
    LowerJpg();
  }

  lemma AnimGifIsNotAllowed()
    ensures !AllowedFile("anim.gif")
  {
    assert "anim.gif" == "anim" + ".gif";
    GifIsNeverAllowed("avatar", "anim", 0);
  }

  lemma LowerJpg()
    ensures ToLower("JPG") == "jpg"
  {
    var l := ToLower("JPG");
    assert l[0] == 'j' && l[1] == 'p' && l[2] == 'g';
  }

  lemma CatGifIsNotAllowed()
    ensures !AllowedFile("cat.gif")
  {
    var n := "cat" + ".gif";
    assert |n| == 7;
    assert forall i :: 0 <= i < 7 ==> n[i] == "cat.gif"[i];
    assert n == "cat.gif";
    GifIsNeverAllowed("avatar", "cat", 0);
  }

  lemma GifIsNotAllowed()
    ensures ToLower("gif") !in AllowedExtensions
  {
    var l := ToLower("gif");
    assert l[0] == 'g';
    assert l != "jpg" && l != "jpeg" && l != "png";
  }

  // ---------------------------------------------------------------------------
  // Authoritative validation: validateForm and validateFileServerSide
  // ---------------------------------------------------------------------------

  function NameCalls(name: string): seq<ErrorCall> {
    if |Trim(name)| < 2 then [ErrorCall("name", NameTooShort)] else []
  }

  function EmailCalls(email: string, isEmail: string -> bool): seq<ErrorCall> {
    if !isEmail(email) then [ErrorCall("email", EmailInvalid)] else []
  }

  /** The 10-digit test only runs for a value that already failed the digits test. */
  function PhoneCalls(phone: string): seq<ErrorCall> {
    if !MatchesDigits(phone, 1, None) then
      [ErrorCall("phone", PhoneDigitsOnly)]
      + (if !MatchesDigits(Trim(phone), 10, Some(10)) then [ErrorCall("phone", PhoneTenDigits)] else [])
    else []
  }

  /** The errors validateFileServerSide sets for a loaded file, as a function of its field, name and size. */
  function FileCheckCalls(field: string, filename: string, size: nat): seq<ErrorCall> {
    (if !AllowedFile(filename) then [ErrorCall(field, FileFormat(field))] else [])
    + (if size > MaxBytes(field) then [ErrorCall(field, FileTooLarge(field, MaxBytes(field) / MiB))] else [])
  }

  /** The file a managed_file value refers to: `load(reset($fids))`. */
  function LoadSubmitted(files: map<int, FileRecord>, v: FileValue): Option<FileRecord> {
    Load(files, FirstFid(v))
  }

  /**
   * The lookup as written at lines 257 and 338, `load(reset($file_ids))` with
   * `$file_ids` undefined, in its PHP 7 reading: reset() warns and gives NULL,
   * so no id reaches load() and no file is returned. Under PHP 8 the same
   * call throws a TypeError and the request aborts; that outcome is not
   * modelled.
   */
  function LoadSubmittedAsWritten(files: map<int, FileRecord>, v: FileValue): Option<FileRecord> {
    if FirstFid(v).Some? then Load(files, None) else None
  }

  function FileCalls(field: string, v: FileValue, files: map<int, FileRecord>): seq<ErrorCall> {
    match LoadSubmitted(files, v)
    case None => []
    case Some(f) => FileCheckCalls(field, f.filename, f.size)
  }

  function FileCallsAsWritten(field: string, v: FileValue, files: map<int, FileRecord>): seq<ErrorCall> {
    match LoadSubmittedAsWritten(files, v)
    case None => []
    case Some(f) => FileCheckCalls(field, f.filename, f.size)
  }

  /** Every setErrorByName call validateForm makes, in order. */
  function ValidationCalls(v: Submission, files: map<int, FileRecord>, isEmail: string -> bool): seq<ErrorCall> {
    NameCalls(v.name) + EmailCalls(v.email, isEmail) + PhoneCalls(v.phone)
    + FileCalls("avatar", v.avatar, files) + FileCalls("feedback_image", v.feedbackImage, files)
  }

  /** The errors of the form state after validateForm, given the errors it had before. */
  function ValidationErrors(errors: map<string, Message>, v: Submission, files: map<int, FileRecord>,
                            isEmail: string -> bool): map<string, Message> {
    Recorded(errors, ValidationCalls(v, files, isEmail))
  }

  method ValidateFileServerSide(field: string, v: FileValue, storage: FileStorage, fs: FormState)
    modifies fs`errors
    ensures fs.errors == Recorded(old(fs.errors), FileCalls(field, v, storage.files))
  {
    ghost var e0 := fs.errors;
    if FirstFid(v).Some? {
      var file := Load(storage.files, FirstFid(v));
      if file.Some? {
        var ext := ToLower(Extension(file.value.filename));
        var size := file.value.size;
        var maxSize := if field == "avatar" then 2 * 1024 * 1024 else 5 * 1024 * 1024;
        ghost var a := if !AllowedFile(file.value.filename) then [ErrorCall(field, FileFormat(field))] else [];
        ghost var b := if size > MaxBytes(field) then [ErrorCall(field, FileTooLarge(field, MaxBytes(field) / MiB))] else [];
        if ext !in AllowedExtensions {
          fs.SetErrorByName(field, FileFormat(field));
        }
        assert fs.errors == Recorded(e0, a);
        if size > maxSize {
          fs.SetErrorByName(field, FileTooLarge(field, maxSize / (1024 * 1024)));
        }
        assert fs.errors == Recorded(Recorded(e0, a), b);
        RecordedAppend(e0, a, b);
      }
    }
  }

  method ValidateForm(fs: FormState, v: Submission, storage: FileStorage, isEmail: string -> bool)
    modifies fs`errors
    ensures fs.errors == ValidationErrors(old(fs.errors), v, storage.files, isEmail)
  {
    ghost var e0 := fs.errors;
    ghost var files := storage.files;
    if |Trim(v.name)| < 2 {
      fs.SetErrorByName("name", NameTooShort);
    }
    assert fs.errors == Recorded(e0, NameCalls(v.name));
    if !isEmail(v.email) {
      fs.SetErrorByName("email", EmailInvalid);
    }
    RecordedAppend(e0, NameCalls(v.name), EmailCalls(v.email, isEmail));
    ghost var done := NameCalls(v.name) + EmailCalls(v.email, isEmail);
    assert fs.errors == Recorded(e0, done);
    ghost var e1 := fs.errors;
    if !MatchesDigits(v.phone, 1, None) {
      fs.SetErrorByName("phone", PhoneDigitsOnly);
      if !MatchesDigits(Trim(v.phone), 10, Some(10)) {
        fs.SetErrorByName("phone", PhoneTenDigits);
      }
    }
    RecordedAppend(e1, [ErrorCall("phone", PhoneDigitsOnly)], [ErrorCall("phone", PhoneTenDigits)]);
    assert fs.errors == Recorded(e1, PhoneCalls(v.phone));
    RecordedAppend(e0, done, PhoneCalls(v.phone));
    done := done + PhoneCalls(v.phone);
    ValidateFileServerSide("avatar", v.avatar, storage, fs);
    RecordedAppend(e0, done, FileCalls("avatar", v.avatar, files));
    done := done + FileCalls("avatar", v.avatar, files);
    ValidateFileServerSide("feedback_image", v.feedbackImage, storage, fs);
    RecordedAppend(e0, done, FileCalls("feedback_image", v.feedbackImage, files));
  }

  /** Every call in `calls` names `field`. */
  ghost predicate AllName(calls: seq<ErrorCall>, field: string) {
    forall c :: c in calls ==> c.name == field
  }

  lemma ValidationCallNames(v: Submission, files: map<int, FileRecord>, isEmail: string -> bool)
    ensures AllName(NameCalls(v.name), "name")
    ensures AllName(EmailCalls(v.email, isEmail), "email")
    ensures AllName(PhoneCalls(v.phone), "phone")
    ensures AllName(FileCalls("avatar", v.avatar, files), "avatar")
    ensures AllName(FileCalls("feedback_image", v.feedbackImage, files), "feedback_image")
  {
    PhoneCallNames(v.phone);
    FileCallNames("avatar", v.avatar, files);
    FileCallNames("feedback_image", v.feedbackImage, files);
  }

  lemma PhoneCallNames(phone: string)
    ensures AllName(PhoneCalls(phone), "phone")
  {
    var calls := PhoneCalls(phone);
    if !MatchesDigits(phone, 1, None) {
      var tail := if !MatchesDigits(Trim(phone), 10, Some(10)) then [ErrorCall("phone", PhoneTenDigits)] else [];
      assert calls == [ErrorCall("phone", PhoneDigitsOnly)] + tail;
    }
  }

  lemma FileCallNames(field: string, fv: FileValue, files: map<int, FileRecord>)
    ensures AllName(FileCalls(field, fv, files), field)
  {
    if LoadSubmitted(files, fv).Some? {
      var f := LoadSubmitted(files, fv).value;
      FileCheckCallNames(field, f.filename, f.size);
    }
  }

  lemma FileCheckCallNames(field: string, filename: string, size: nat)
    ensures AllName(FileCheckCalls(field, filename, size), field)
  {
    var a := if !AllowedFile(filename) then [ErrorCall(field, FileFormat(field))] else [];
    var b := if size > MaxBytes(field) then [ErrorCall(field, FileTooLarge(field, MaxBytes(field) / MiB))] else [];
    assert FileCheckCalls(field, filename, size) == a + b;
  }

  /** Which part of validateForm's calls can name each element. */
  lemma FirstValidationCall(v: Submission, files: map<int, FileRecord>, isEmail: string -> bool, name: string)
    ensures FirstFor(ValidationCalls(v, files, isEmail), name) ==
      if name == "name" then FirstFor(NameCalls(v.name), name)
      else if name == "email" then FirstFor(EmailCalls(v.email, isEmail), name)
      else if name == "phone" then FirstFor(PhoneCalls(v.phone), name)
      else if name == "avatar" then FirstFor(FileCalls("avatar", v.avatar, files), name)
      else if name == "feedback_image" then FirstFor(FileCalls("feedback_image", v.feedbackImage, files), name)
      else None
  {
    ValidationCallNames(v, files, isEmail);
    FirstForOfParts(NameCalls(v.name), EmailCalls(v.email, isEmail), PhoneCalls(v.phone),
                    FileCalls("avatar", v.avatar, files), FileCalls("feedback_image", v.feedbackImage, files), name);
  }

  /** The first call naming an element, in five lists that each name one element only. */
  lemma FirstForOfParts(n: seq<ErrorCall>, e: seq<ErrorCall>, p: seq<ErrorCall>, a: seq<ErrorCall>,
                        f: seq<ErrorCall>, name: string)
    requires AllName(n, "name") && AllName(e, "email") && AllName(p, "phone")
    requires AllName(a, "avatar") && AllName(f, "feedback_image")
    ensures FirstFor(n + e + p + a + f, name) ==
      if name == "name" then FirstFor(n, name)
      else if name == "email" then FirstFor(e, name)
      else if name == "phone" then FirstFor(p, name)
      else if name == "avatar" then FirstFor(a, name)
      else if name == "feedback_image" then FirstFor(f, name)
      else None
  {
    var nep := n + e + p;
    FirstForAppend(nep + a, f, name);
    FirstForAppend(nep, a, name);
    FirstForAppend(n + e, p, name);
    FirstForAppend(n, e, name);
    if name != "name" { NoneForOther(n, "name", name); }
    if name != "email" { NoneForOther(e, "email", name); }
    if name != "phone" { NoneForOther(p, "phone", name); }
    if name != "avatar" { NoneForOther(a, "avatar", name); }
    if name != "feedback_image" { NoneForOther(f, "feedback_image", name); }
  }

  /** Calls that all name another element hold no call for `name`. */
  lemma NoneForOther(calls: seq<ErrorCall>, field: string, name: string)
    requires AllName(calls, field) && field != name
    ensures FirstFor(calls, name).None?
  {
    assert forall i :: 0 <= i < |calls| ==> calls[i] in calls;
  }

  /** Name: an error iff the trimmed name has fewer than 2 characters; there is no upper bound. */
  lemma NameRule(errors: map<string, Message>, v: Submission, files: map<int, FileRecord>, isEmail: string -> bool)
    requires "name" !in errors
    ensures var r := ValidationErrors(errors, v, files, isEmail);
      && ("name" in r <==> |Trim(v.name)| < 2)
      && ("name" in r ==> r["name"] == NameTooShort)
  {
    RecordedIsFirstWins(errors, ValidationCalls(v, files, isEmail), "name");
    FirstValidationCall(v, files, isEmail, "name");
  }

  /** Email: an error iff the foreign validator rejects the untrimmed value. */
  lemma EmailRule(errors: map<string, Message>, v: Submission, files: map<int, FileRecord>, isEmail: string -> bool)
    requires "email" !in errors
    ensures var r := ValidationErrors(errors, v, files, isEmail);
      && ("email" in r <==> !isEmail(v.email))
      && ("email" in r ==> r["email"] == EmailInvalid)
  {
    RecordedIsFirstWins(errors, ValidationCalls(v, files, isEmail), "email");
    FirstValidationCall(v, files, isEmail, "email");
  }

  /**
   * Phone: an error iff the untrimmed value is not a run of digits (a single
   * final newline allowed), and then always the "digits only" message.
   */
  lemma PhoneRule(errors: map<string, Message>, v: Submission, files: map<int, FileRecord>, isEmail: string -> bool)
    requires "phone" !in errors
    ensures var r := ValidationErrors(errors, v, files, isEmail);
      && ("phone" in r <==> !MatchesDigits(v.phone, 1, None))
      && ("phone" in r ==> r["phone"] == PhoneDigitsOnly)
  {
    RecordedIsFirstWins(errors, ValidationCalls(v, files, isEmail), "phone");
    FirstValidationCall(v, files, isEmail, "phone");
  }

  /** All-digit phones of any length pass; the empty value and values with spaces around them fail. */
  lemma PhoneLengthIsNotChecked(errors: map<string, Message>, v: Submission, files: map<int, FileRecord>,
                                isEmail: string -> bool)
    requires "phone" !in errors
    ensures AllDigits(v.phone) && v.phone != [] ==> "phone" !in ValidationErrors(errors, v, files, isEmail)
    ensures v.phone == [] || v.phone[0] == ' ' || v.phone[|v.phone| - 1] == ' ' ==>
      "phone" in ValidationErrors(errors, v, files, isEmail)
  {
    PhoneRule(errors, v, files, isEmail);
    var s := v.phone;
    if s != [] && s[0] == ' ' && |s| > 1 {
      assert s[..|s| - 1][0] == ' ';
    }
  }

  /** The first message validateForm sets for a field is never the "10 digits" one. */
  lemma FirstValidationMessage(v: Submission, files: map<int, FileRecord>, isEmail: string -> bool, k: string)
    ensures FirstFor(ValidationCalls(v, files, isEmail), k) != Some(PhoneTenDigits)
  {
    FirstValidationCall(v, files, isEmail, k);
    if k == "phone" {
      assert FirstFor(PhoneCalls(v.phone), k) != Some(PhoneTenDigits);
    } else if k == "avatar" || k == "feedback_image" {
      var fv := if k == "avatar" then v.avatar else v.feedbackImage;
      FileCallMessages(k, fv, files);
    }
  }

  lemma FileCallMessages(field: string, fv: FileValue, files: map<int, FileRecord>)
    ensures FirstFor(FileCalls(field, fv, files), field) != Some(PhoneTenDigits)
  {
    if LoadSubmitted(files, fv).Some? {
      var f := LoadSubmitted(files, fv).value;
      assert forall i :: 0 <= i < |FileCheckCalls(field, f.filename, f.size)| ==>
        FileCheckCalls(field, f.filename, f.size)[i].message != PhoneTenDigits;
    }
  }

  /** The "10 digits" message is never recorded by validateForm: "digits only" was set just before it. */
  lemma TenDigitMessageNeverRecorded(errors: map<string, Message>, v: Submission, files: map<int, FileRecord>,
                                     isEmail: string -> bool)
    requires forall k :: k in errors ==> errors[k] != PhoneTenDigits
    ensures var r := ValidationErrors(errors, v, files, isEmail);
      forall k :: k in r ==> r[k] != PhoneTenDigits
  {
    var calls := ValidationCalls(v, files, isEmail);
    forall k | k in Recorded(errors, calls)
      ensures Recorded(errors, calls)[k] != PhoneTenDigits
    {
      RecordedIsFirstWins(errors, calls, k);
      FirstValidationMessage(v, files, isEmail, k);
    }
  }

  /** Files: no file means no error; otherwise a format error comes first, then a size error (limit included). */
  lemma FileRule(errors: map<string, Message>, v: Submission, files: map<int, FileRecord>, isEmail: string -> bool,
                 field: string)
    requires field == "avatar" || field == "feedback_image"
    requires field !in errors
    ensures var f := LoadSubmitted(files, if field == "avatar" then v.avatar else v.feedbackImage);
      var r := ValidationErrors(errors, v, files, isEmail);
      && (field in r <==> f.Some? && (!AllowedFile(f.value.filename) || f.value.size > MaxBytes(field)))
      && (field in r ==>
            r[field] == if !AllowedFile(f.value.filename) then FileFormat(field)
                        else FileTooLarge(field, MaxBytes(field) / MiB))
  {
    RecordedIsFirstWins(errors, ValidationCalls(v, files, isEmail), field);
    FirstValidationCall(v, files, isEmail, field);
  }

  /** Errors recorded before validateForm stay, and it records errors only for its five fields. */
  lemma ValidationKeepsEarlierErrors(errors: map<string, Message>, v: Submission, files: map<int, FileRecord>,
                                     isEmail: string -> bool)
    ensures var r := ValidationErrors(errors, v, files, isEmail);
      && (forall k :: k in errors ==> k in r && r[k] == errors[k])
      && (forall k :: k in r ==> k in errors || k in ["name", "email", "phone", "avatar", "feedback_image"])
  {
    var calls := ValidationCalls(v, files, isEmail);
    forall k | k in errors ensures k in Recorded(errors, calls) && Recorded(errors, calls)[k] == errors[k] {
      RecordedIsFirstWins(errors, calls, k);
    }
    forall k | k in Recorded(errors, calls)
      ensures k in errors || k in ["name", "email", "phone", "avatar", "feedback_image"]
    {
      RecordedIsFirstWins(errors, calls, k);
      FirstValidationCall(v, files, isEmail, k);
    }
  }

  // ---------------------------------------------------------------------------
  // Live (advisory) validation: validateFieldAjax and validateFileAjax
  // ---------------------------------------------------------------------------

  /** An HtmlCommand: the element it fills and the message it puts there (None for ''). */
  datatype LiveReply = LiveReply(target: string, message: Option<Message>)

  function ValidateFieldAjax(name: string, value: string): (reply: LiveReply)
    ensures reply.target == "form-messages"
    ensures name == "name" ==>
      && (reply.message.Some? <==> |Trim(value)| < 2)
      && (reply.message.Some? ==> reply.message.value == NameTooShort)
    ensures name == "email" ==>
      var t := Trim(value);
      reply.message == if t == "" then Some(EmailRequired)
                       else if HasNonAscii(t) then Some(EmailLatinOnly)
                       else if '@' !in t || '.' !in t || t[0] == '@' || t[0] == '.' then Some(EmailNeedsAtAndDot)
                       else None
    ensures name == "phone" ==>
      && (reply.message.Some? <==> !AllDigits(Trim(value)))
      && (reply.message.Some? ==> reply.message.value == PhoneDigitsOnly)
    ensures name == "feedback" ==>
      && (reply.message.Some? <==> Trim(value) == "")
      && (reply.message.Some? ==> reply.message.value == FeedbackRequired)
    ensures name !in ["name", "email", "phone", "feedback"] ==> reply.message == None
  {
    var message :=
      if name == "name" then
        if |Trim(value)| < 2 then Some(NameTooShort) else None
      else if name == "email" then
        var t := Trim(value);
        if t == "" then Some(EmailRequired)
        else if HasNonAscii(t) then Some(EmailLatinOnly)
        else if StrPosFalsy(t, '@') || StrPosFalsy(t, '.') then Some(EmailNeedsAtAndDot)
        else None
      else if name == "phone" then
        TrimmedMatchesDigits(value, 0, None);
        if !MatchesDigits(Trim(value), 0, None) then Some(PhoneDigitsOnly) else None
      else if name == "feedback" then
        if |Trim(value)| == 0 then Some(FeedbackRequired) else None
      else None;
    LiveReply("form-messages", message)
  }

  /** The message validateFileAjax shows for a loaded file: at most one, and a format problem first. */
  function LiveFileCheck(field: string, filename: string, size: nat): (m: Option<Message>)
    ensures !AllowedFile(filename) ==> m == Some(LiveFileFormat)
    ensures AllowedFile(filename) && field == "avatar" ==>
      m == if size <= 2097152 then None else Some(LiveFileTooLarge(2))
    ensures AllowedFile(filename) && field != "avatar" ==>
      m == if size <= 5242880 then None else Some(LiveFileTooLarge(5))
  {
    var maxSize := if field == "avatar" then 2 * 1024 * 1024 else 5 * 1024 * 1024;
    if ToLower(Extension(filename)) !in AllowedExtensions then Some(LiveFileFormat)
    else if size > maxSize then Some(LiveFileTooLarge(maxSize / (1024 * 1024)))
    else None
  }

  function ValidateFileAjax(field: string, v: FileValue, files: map<int, FileRecord>): (reply: LiveReply)
    ensures reply.target == if field == "avatar" then "avatar-error" else "feedback-image-error"
    ensures LoadSubmitted(files, v).None? ==> reply.message == None
    ensures LoadSubmitted(files, v).Some? ==>
      var f := LoadSubmitted(files, v).value;
      reply.message == LiveFileCheck(field, f.filename, f.size)
  {
    var message :=
      if FirstFid(v).Some? then
        match Load(files, FirstFid(v))
        case None => None
        case Some(f) => LiveFileCheck(field, f.filename, f.size)
      else None;
    LiveReply(if field == "avatar" then "avatar-error" else "feedback-image-error", message)
  }

  /**
   * The live and the server-side file checks agree: the server records an
   * error for the field exactly when the live check shows one, of the same
   * kind and limit, although the server sets up to two errors and the live
   * check picks one.
   */
  lemma FileChecksAgree(field: string, filename: string, size: nat)
    ensures var server := Recorded(map[], FileCheckCalls(field, filename, size));
      var live := LiveFileCheck(field, filename, size);
      && server.Keys <= {field}
      && (field in server <==> live.Some?)
      && (field in server ==>
            (server[field] == FileFormat(field) <==> live == Some(LiveFileFormat))
            && (server[field] == FileTooLarge(field, MaxBytes(field) / MiB)
                <==> live == Some(LiveFileTooLarge(MaxBytes(field) / MiB))))
  {
    var calls := FileCheckCalls(field, filename, size);
    forall k | k in Recorded(map[], calls) ensures k == field {
      RecordedIsFirstWins(map[], calls, k);
    }
    RecordedIsFirstWins(map[], calls, field);
  }

  /** The live name check uses the server's rule and message. */
  lemma LiveNameMatchesServer(errors: map<string, Message>, v: Submission, files: map<int, FileRecord>,
                              isEmail: string -> bool)
    requires "name" !in errors
    ensures var r := ValidationErrors(errors, v, files, isEmail);
      ValidateFieldAjax("name", v.name).message == if "name" in r then Some(r["name"]) else None
  {
    NameRule(errors, v, files, isEmail);
  }

  /** A phone the server accepts is accepted by the live check. */
  lemma ServerPhoneImpliesLive(errors: map<string, Message>, v: Submission, files: map<int, FileRecord>,
                               isEmail: string -> bool)
    requires "phone" !in errors
    requires "phone" !in ValidationErrors(errors, v, files, isEmail)
    ensures ValidateFieldAjax("phone", v.phone).message == None
  {
    PhoneRule(errors, v, files, isEmail);
    DigitPatternSurvivesTrim(v.phone);
  }

  /** The converse fails: the live check accepts "" and " 42", which the server rejects. */
  lemma LivePhoneIsMoreLenient(errors: map<string, Message>, v: Submission, files: map<int, FileRecord>,
                               isEmail: string -> bool)
    requires "phone" !in errors
    requires v.phone == "" || v.phone == " 42"
    ensures "phone" in ValidationErrors(errors, v, files, isEmail)
    ensures ValidateFieldAjax("phone", v.phone).message == None
  {
    PhoneRule(errors, v, files, isEmail);
    if v.phone == " 42" {
      SpacedPhone();
    }
  }

  /** " 42" fails the server's pattern and passes the live one. */
  lemma SpacedPhone()
    ensures !MatchesDigits(" 42", 1, None)
    ensures AllDigits(Trim(" 42"))
  {
    SpacedPhoneServer();
    SpacedPhoneLive();
  }

  lemma SpacedPhoneServer()
    ensures !MatchesDigits(" 42", 1, None)
  {
    var s := " 42";
    assert !IsDigit(s[0]);
    assert s[2] != '\n';
  }

  lemma SpacedPhoneLive()
    ensures Trim(" 42") == "42"
  {
    var s := " 42";
    assert FirstKept(s, 0) == FirstKept(s, 1) == 1;
    assert LastKept(s, 3) == 3;
    assert s[1..3] == "42";
  }

  // ---------------------------------------------------------------------------
  // handleFile and submitForm
  // ---------------------------------------------------------------------------

  /** What handleFile leaves behind: the file table afterwards and the URI it returns. */
  datatype Promotion = Promotion(files: map<int, FileRecord>, uri: Option<string>)

  /**
   * handleFile with the lookup its comment describes: a loaded file is made
   * permanent and its URI returned; an empty or non-array value, or an id
   * without a file, gives no URI and changes nothing.
   */
  function Promote(files: map<int, FileRecord>, v: FileValue): (p: Promotion)
    ensures p.uri.None? <==> LoadSubmitted(files, v).None?
    ensures p.uri.None? ==> p.files == files
    ensures p.uri.Some? ==>
      var fid := FirstFid(v).value;
      && p.uri.value == files[fid].uri
      && p.files == files[fid := files[fid].(permanent := true)]
  {
    var fid := FirstFid(v);
    match Load(files, fid)
    case None => Promotion(files, None)
    case Some(f) => Promotion(files[fid.value := f.(permanent := true)], Some(f.uri))
  }

  /** handleFile as written, in the PHP 7 reading: its lookup never yields a file. */
  function PromoteAsWritten(files: map<int, FileRecord>, v: FileValue): Promotion {
    match LoadSubmittedAsWritten(files, v)
    case None => Promotion(files, None)
    case Some(f) => Promotion(files[FirstFid(v).value := f.(permanent := true)], Some(f.uri))
  }

  /** Promoting the same upload again returns the same URI and changes nothing more. */
  lemma PromoteIsIdempotent(files: map<int, FileRecord>, v: FileValue)
    ensures var p := Promote(files, v);
      Promote(p.files, v) == p
      && (p.uri.Some? ==> p.files[FirstFid(v).value].permanent)
  {
  }

  /** As written, in the PHP 7 reading: neither the server-side file check nor handleFile ever sees a file. */
  lemma AsWrittenIgnoresFiles(files: map<int, FileRecord>, v: FileValue, field: string)
    ensures FileCallsAsWritten(field, v, files) == []
    ensures PromoteAsWritten(files, v) == Promotion(files, None)
  {
  }

  /** The file that shows it, in the PHP 7 reading: a 10 MiB GIF uploaded as the avatar. */
  lemma AsWrittenAcceptsAndDropsGif()
    ensures var files := map[7 := FileRecord("cat.gif", 10 * MiB, "public://avatars/cat.gif", false)];
      && FileCallsAsWritten("avatar", Fids([7]), files) == []
      && FileCalls("avatar", Fids([7]), files)
         == [ErrorCall("avatar", FileFormat("avatar")), ErrorCall("avatar", FileTooLarge("avatar", 2))]
      && PromoteAsWritten(files, Fids([7])).uri == None
      && Promote(files, Fids([7])).uri == Some("public://avatars/cat.gif")
  {
    CatGifIsNotAllowed();
    assert MaxBytes("avatar") / MiB == 2;
  }

  method HandleFile(storage: FileStorage, v: FileValue) returns (uri: Option<string>)
    modifies storage
    ensures Promotion(storage.files, uri) == Promote(old(storage.files), v)
  {
    uri := None;
    if FirstFid(v).Some? {
      var file := Load(storage.files, FirstFid(v));
      if file.Some? {
        storage.SetPermanent(FirstFid(v).value);
        uri := Some(file.value.uri);
      }
    }
  }

  /** The row submitForm writes: every text field trimmed. */
  function StoredEntry(v: Submission, avatar: Option<string>, feedbackImage: Option<string>, created: int): Entry {
    Entry(Trim(v.name), Trim(v.email), Trim(v.phone), Trim(v.feedback), avatar, feedbackImage, created)
  }

  /**
   * submitForm: promote both files, then update the row whose id the form
   * state holds (keeping its created time), or insert a new row created at
   * the request time when there is no (truthy) id.
   */
  method SubmitForm(fs: FormState, v: Submission, db: EntryTable, storage: FileStorage, requestTime: int)
    requires db.Valid()
    modifies db, storage
    ensures db.Valid()
    ensures var a := Promote(old(storage.files), v.avatar);
      var b := Promote(a.files, v.feedbackImage);
      && storage.files == b.files
      && (IsTruthyId(fs.id) ==>
            var id := fs.id.value;
            && db.nextId == old(db.nextId)
            && db.rows == if id in old(db.rows)
                          then old(db.rows)[id := StoredEntry(v, a.uri, b.uri, old(db.rows)[id].created)]
                          else old(db.rows))
      && (!IsTruthyId(fs.id) ==>
            && old(db.nextId) !in old(db.rows)
            && db.nextId == old(db.nextId) + 1
            && db.rows == old(db.rows)[old(db.nextId) := StoredEntry(v, a.uri, b.uri, requestTime)]
            && |db.rows| == |old(db.rows)| + 1)
  {
    var avatarUri := HandleFile(storage, v.avatar);
    var feedbackImageUri := HandleFile(storage, v.feedbackImage);
    var id := fs.id;
    if IsTruthyId(id) {
      if id.value in db.rows {
        var created := db.rows[id.value].created;
        db.Update(id.value, StoredEntry(v, avatarUri, feedbackImageUri, created));
      }
    } else {
      var newId := db.Insert(StoredEntry(v, avatarUri, feedbackImageUri, requestTime));
    }
  }

  // ---------------------------------------------------------------------------
  // getGuestbookReviews
  // ---------------------------------------------------------------------------

  datatype Row = Row(id: int, entry: Entry)

  /** One element of the listing; `created` is the timestamp date() would format. */
  datatype Review = Review(
    name: string,
    email: string,
    phone: string,
    message: string,
    avatar: string,
    image: string,
    created: int)

  ghost predicate SortedByCreatedDesc(s: seq<Row>) {
    forall i, j :: 0 <= i < j < |s| ==> s[i].entry.created >= s[j].entry.created
  }

  /** The rows with ids in [lo, hi), in ascending id order. */
  function RowsFrom(rows: map<int, Entry>, lo: int, hi: int): (r: seq<Row>)
    decreases hi - lo
    ensures forall x :: x in r <==> lo <= x.id < hi && x.id in rows && rows[x.id] == x.entry
    ensures |r| == |set id | id in rows && lo <= id < hi|
  {
    if lo >= hi then
      assert (set id | id in rows && lo <= id < hi) == {};
      []
    else
      var rest := RowsFrom(rows, lo + 1, hi);
      var later := set id | id in rows && lo + 1 <= id < hi;
      if lo in rows then
        assert (set id | id in rows && lo <= id < hi) == later + {lo};
        [Row(lo, rows[lo])] + rest
      else
        assert (set id | id in rows && lo <= id < hi) == later;
        rest
  }

  /** Inserts a row before the first row created no later than it. */
  function InsertByCreated(x: Row, s: seq<Row>): (r: seq<Row>)
    requires SortedByCreatedDesc(s)
    ensures |r| == |s| + 1 && (r[0] == x || (s != [] && r[0] == s[0]))
    ensures SortedByCreatedDesc(r)
  {
    if s == [] || s[0].entry.created <= x.entry.created then
      PrependSorted(x, s);
      [x] + s
    else
      var rest := InsertByCreated(x, s[1..]);
      PrependSorted(s[0], rest);
      [s[0]] + rest
  }

  /** Inserting adds exactly that row: the result is a permutation of the list and the row. */
  lemma {:induction false} InsertByCreatedPermutes(x: Row, s: seq<Row>)
    requires SortedByCreatedDesc(s)
    ensures multiset(InsertByCreated(x, s)) == multiset(s) + multiset{x}
  {
    if !(s == [] || s[0].entry.created <= x.entry.created) {
      InsertByCreatedPermutes(x, s[1..]);
      assert s == [s[0]] + s[1..];
    }
  }

  /** A row created no earlier than the first of a sorted list keeps it sorted when put in front. */
  lemma PrependSorted(x: Row, s: seq<Row>)
    requires SortedByCreatedDesc(s)
    requires s == [] || s[0].entry.created <= x.entry.created
    ensures SortedByCreatedDesc([x] + s)
  {
    var r := [x] + s;
    assert forall j :: 0 < j < |r| ==> r[j] == s[j - 1];
  }

  function SortByCreatedDesc(s: seq<Row>): (r: seq<Row>)
    ensures SortedByCreatedDesc(r)
    ensures multiset(r) == multiset(s)
  {
    if s == [] then []
    else
      assert s == [s[0]] + s[1..];
      InsertByCreatedPermutes(s[0], SortByCreatedDesc(s[1..]));
      InsertByCreated(s[0], SortByCreatedDesc(s[1..]))
  }

  /**
   * `SELECT * FROM guestbook_entries ORDER BY created DESC`: every row once,
   * newest first. Rows created at the same second come in ascending id order.
   */
  function OrderByCreatedDesc(rows: map<int, Entry>, nextId: int): (r: seq<Row>)
    requires forall id :: id in rows ==> 1 <= id < nextId
    ensures |r| == |rows|
    ensures forall x :: x in r <==> x.id in rows && rows[x.id] == x.entry
    ensures forall i, j :: 0 <= i < j < |r| ==> r[i].entry.created >= r[j].entry.created
  {
    var s := RowsFrom(rows, 1, nextId);
    assert (set id | id in rows && 1 <= id < nextId) == rows.Keys;
    var r := SortByCreatedDesc(s);
    assert |r| == |multiset(r)| == |multiset(s)| == |s|;
    assert forall x :: x in r <==> x in multiset(s);
    r
  }

  /** PHP truthiness of a stored URI: NULL, '' and '0' are falsy. */
  predicate IsTruthyUri(u: Option<string>) {
    u.Some? && u.value != "" && u.value != "0"
  }

  /** The review record one row becomes; `toUrl` is the file URL generator's absolute URL. */
  function ReviewOf(e: Entry, toUrl: string -> string): Review {
    Review(e.name, e.email, e.phone, e.feedback,
           if IsTruthyUri(e.avatar) then toUrl(e.avatar.value) else "",
           if IsTruthyUri(e.feedbackImage) then toUrl(e.feedbackImage.value) else "",
           e.created)
  }

  /**
   * getGuestbookReviews: one review per stored row, newest first, each built
   * from its row by ReviewOf.
   */
  method GetGuestbookReviews(db: EntryTable, toUrl: string -> string) returns (reviews: seq<Review>)
    requires db.Valid()
    ensures var results := OrderByCreatedDesc(db.rows, db.nextId);
      |reviews| == |results| && forall i :: 0 <= i < |reviews| ==> reviews[i] == ReviewOf(results[i].entry, toUrl)
    ensures |reviews| == |db.rows|
    ensures forall i, j :: 0 <= i < j < |reviews| ==> reviews[i].created >= reviews[j].created
  {
    var results := OrderByCreatedDesc(db.rows, db.nextId);
    reviews := BuildReviews(results, toUrl);
    ReviewsKeepOrder(results, toUrl, reviews);
  }

  /** The foreach over the query result: one review per row, in the rows' order. */
  method BuildReviews(results: seq<Row>, toUrl: string -> string) returns (reviews: seq<Review>)
    ensures |reviews| == |results|
    ensures forall i :: 0 <= i < |reviews| ==> reviews[i] == ReviewOf(results[i].entry, toUrl)
  {
    reviews := [];
    for k := 0 to |results|
      invariant |reviews| == k
      invariant forall i :: 0 <= i < k ==> reviews[i] == ReviewOf(results[i].entry, toUrl)
    {
      var entry := results[k].entry;
      reviews := reviews + [Review(
        entry.name, entry.email, entry.phone, entry.feedback,
        if IsTruthyUri(entry.avatar) then toUrl(entry.avatar.value) else "",
        if IsTruthyUri(entry.feedbackImage) then toUrl(entry.feedbackImage.value) else "",
        entry.created)];
    }
  }

  /** Reviews built row by row keep the rows' newest-first order. */
  lemma ReviewsKeepOrder(results: seq<Row>, toUrl: string -> string, reviews: seq<Review>)
    requires forall i, j :: 0 <= i < j < |results| ==> results[i].entry.created >= results[j].entry.created
    requires |reviews| == |results|
    requires forall i :: 0 <= i < |reviews| ==> reviews[i] == ReviewOf(results[i].entry, toUrl)
    ensures forall i, j :: 0 <= i < j < |reviews| ==> reviews[i].created >= reviews[j].created
  {
    forall i, j | 0 <= i < j < |reviews|
      ensures reviews[i].created >= reviews[j].created
    {
      assert reviews[i].created == results[i].entry.created;
      assert reviews[j].created == results[j].entry.created;
    }
  }

  /** Reviews built row by row from a sequence holding exactly the table's rows show every row and nothing else. */
  lemma ReviewsOfRows(rows: map<int, Entry>, results: seq<Row>, toUrl: string -> string, reviews: seq<Review>)
    requires forall x :: x in results <==> x.id in rows && rows[x.id] == x.entry
    requires |reviews| == |results|
    requires forall i :: 0 <= i < |reviews| ==> reviews[i] == ReviewOf(results[i].entry, toUrl)
    ensures forall id :: id in rows ==> exists i :: 0 <= i < |reviews| && reviews[i] == ReviewOf(rows[id], toUrl)
    ensures forall i :: 0 <= i < |reviews| ==>
      results[i].id in rows && reviews[i] == ReviewOf(rows[results[i].id], toUrl)
  {
    forall id | id in rows
      ensures exists i :: 0 <= i < |reviews| && reviews[i] == ReviewOf(rows[id], toUrl)
    {
      var x := Row(id, rows[id]);
      assert x in results;
      var i :| 0 <= i < |results| && results[i] == x;
      assert reviews[i] == ReviewOf(rows[id], toUrl);
    }
    forall i | 0 <= i < |reviews|
      ensures results[i].id in rows && reviews[i] == ReviewOf(rows[results[i].id], toUrl)
    {
      assert results[i] in results;
    }
  }
}
