/**
  * The upload middleware (MIME allow-list, stored file name, size limit, error mapping)
  * and the request checks and video object of the stand-alone upload route.
  */
module Upload {
  import opened Wrappers
  import opened Text

  /** The MIME types the file filter accepts. */
  const AllowedTypes: seq<string> := [
    "video/mp4", "video/webm", "video/avi", "video/mov", "video/mkv", "video/ogg", "video/quicktime"]

  const InvalidTypeMessage: string := "Invalid file type. Only video files allowed."

  /** The upload size limit in bytes: 2 GiB. */
  const MaxFileSize: nat := 2 * 1024 * 1024 * 1024

  /** An error reaching the error-handling middleware: one raised by the upload library with
      its code, or a plain error (such as the file filter's). */
  datatype UploadError =
    | LibraryError(code: string, message: string)
    | PlainError(message: string)
  {
    function Message(): string {
      match this
      case LibraryError(_, m) => m
      case PlainError(m) => m
    }
  }

  /** The upload library's size-limit error. */
  const FileTooLarge: UploadError := LibraryError("LIMIT_FILE_SIZE", "File too large")

  /** `fileFilter`: accepts exactly the allowed MIME types; anything else is rejected with
      a plain error naming the invalid file type. */
  function FileFilter(mimetype: string): (r: Result<bool, UploadError>)
    ensures r.Success? <==> mimetype in AllowedTypes
    ensures r.Success? ==> r.value
    ensures r.Failure? ==> r.error == PlainError(InvalidTypeMessage)
  {
    if mimetype in AllowedTypes then Success(true) else Failure(PlainError(InvalidTypeMessage))
  }

  /** The size limit: a file is accepted up to and including `MaxFileSize` bytes. */
  function CheckSize(size: nat): (r: Option<UploadError>)
    ensures r.None? <==> size <= 2147483648
    ensures r.Some? ==> r.value.LibraryError? && r.value.code == "LIMIT_FILE_SIZE"
  {
    if size > MaxFileSize then Some(FileTooLarge) else None
  }

  // ---------------------------------------------------------------------------
  // Stored file name

  /** `s` without trailing slashes. */
  function StripTrailingSlashes(s: string): (r: string)
    ensures r <= s
    ensures |r| == 0 || r[|r| - 1] != '/'
  {
    if |s| > 0 && s[|s| - 1] == '/' then StripTrailingSlashes(s[..|s| - 1]) else s
  }

  /** The part of `s` after its last slash (all of `s` when there is none). */
  function AfterLastSlash(s: string): (r: string)
    ensures '/' !in r
    ensures |r| <= |s| && r == s[|s| - |r|..]
  {
    if |s| == 0 then ""
    else if s[|s| - 1] == '/' then ""
    else AfterLastSlash(s[..|s| - 1]) + [s[|s| - 1]]
  }

  /** The last index of `c` in `s`. */
  function LastIndexOf(s: string, c: char): (r: Option<nat>)
    ensures r.Some? ==> r.value < |s| && s[r.value] == c && c !in s[r.value + 1..]
    ensures r.None? <==> c !in s
  {
    if |s| == 0 then None
    else if s[|s| - 1] == c then Some(|s| - 1)
    else
      var r := LastIndexOf(s[..|s| - 1], c);
      assert s == s[..|s| - 1] + [s[|s| - 1]];
      r
  }

  /** The path module's `extname`: within the last path segment (trailing slashes ignored),
      the text from the last dot to the end, except that a segment whose only dot is its first
      character, and the segment `..`, have no extension. */
  function ExtName(path: string): (r: string)
    ensures r == [] || (r[0] == '.' && '.' !in r[1..])
    ensures '/' !in r
  {
    SegmentExtension(AfterLastSlash(StripTrailingSlashes(path)))
  }

  /** The extension of one path segment `b`: from its last dot to the end, unless that dot is
      the segment's first character or the segment is `..`. */
  function SegmentExtension(b: string): (r: string)
    requires '/' !in b
    ensures r == [] || (r[0] == '.' && '.' !in r[1..])
    ensures '/' !in r
  {
    match LastIndexOf(b, '.')
    case None => ""
    case Some(d) =>
      if d == 0 || (d == 1 && |b| == 2 && b[0] == '.') then ""
      else
        assert b[d..][1..] == b[d + 1..];
        b[d..]
  }

  /** The stored name: `video-`, the upload time and a random integer joined by `-`, then the
      extension of the original name. */
  function StoredFilename(originalname: string, now: nat, random: nat): (r: string)
    ensures "video-" <= r
    ensures |ExtName(originalname)| < |r| && r[|r| - |ExtName(originalname)|..] == ExtName(originalname)
    ensures forall k :: 0 <= k < |r| - |ExtName(originalname)| ==> r[k] != '.' && r[k] != '/'
  {
    var e := ExtName(originalname);
    StoredShape(Decimal(now), Decimal(random), e);
    "video-" + (Decimal(now) + ("-" + (Decimal(random) + e)))
  }

  /** The stored name is a stem without dots or slashes followed by the extension. */
  lemma StoredShape(d1: string, d2: string, e: string)
    requires forall k :: 0 <= k < |d1| ==> IsDigit(d1[k])
    requires forall k :: 0 <= k < |d2| ==> IsDigit(d2[k])
    ensures var r := "video-" + (d1 + ("-" + (d2 + e)));
      && |e| < |r| && r[|r| - |e|..] == e
      && forall k :: 0 <= k < |r| - |e| ==> r[k] != '.' && r[k] != '/'
  {
    var stem := "video-" + (d1 + ("-" + d2));
    forall k | 0 <= k < |stem| ensures stem[k] != '.' && stem[k] != '/' {
      if 6 <= k < 6 + |d1| { assert stem[k] == d1[k - 6]; }
      else if k > 6 + |d1| { assert stem[k] == d2[k - 7 - |d1|]; }
    }
    assert "video-" + (d1 + ("-" + (d2 + e))) == stem + e;
  }

  /** A string without slashes is its own last segment. */
  lemma {:induction false} AfterLastSlashWhole(s: string)
    requires '/' !in s
    ensures AfterLastSlash(s) == s
  {
    if |s| > 0 {
      assert '/' !in s[..|s| - 1];
      AfterLastSlashWhole(s[..|s| - 1]);
    }
  }

  /** A stem without dots or slashes followed by an extension: no slash anywhere, and the last
      dot, if any, is where the extension starts. */
  lemma StemThenExtension(r: string, n: nat, e: string)
    requires n <= |r| && r[n..] == e
    requires forall k :: 0 <= k < n ==> r[k] != '.' && r[k] != '/'
    requires e == [] || (e[0] == '.' && '.' !in e[1..])
    requires '/' !in e
    ensures '/' !in r
    ensures LastIndexOf(r, '.') == if e == [] then None else Some(n)
  {
    forall k | n <= k < |r| ensures r[k] == e[k - n] {
    }
    if e == [] {
      assert '.' !in r;
    } else {
      assert r[n + 1..] == e[1..];
      var d := LastIndexOf(r, '.').value;
      assert d == n;
    }
  }

  /** A non-empty stem without dots or slashes, followed by an extension, has that extension. */
  lemma ExtNameAfterStem(r: string, n: nat, e: string)
    requires 0 < n <= |r| && r[n..] == e
    requires forall k :: 0 <= k < n ==> r[k] != '.' && r[k] != '/'
    requires e == [] || (e[0] == '.' && '.' !in e[1..])
    requires '/' !in e
    ensures ExtName(r) == e
  {
    StemThenExtension(r, n, e);
    assert StripTrailingSlashes(r) == r;
    AfterLastSlashWhole(r);
  }

  /** The stored name keeps the extension of the original name: `extname` of the stored name
      is `extname` of the original. */
  lemma StoredFilenameKeepsExtension(originalname: string, now: nat, random: nat)
    ensures ExtName(StoredFilename(originalname, now, random)) == ExtName(originalname)
  {
    var r := StoredFilename(originalname, now, random);
    var e := ExtName(originalname);
    var n := |r| - |e|;
    assert 0 < n && r[n..] == e;
    assert forall k :: 0 <= k < n ==> r[k] != '.' && r[k] != '/';
    ExtNameAfterStem(r, n, e);
  }

  /** A common prefix cancels. */
  lemma CancelPrefix(p: string, x: string, y: string)
    requires p + x == p + y
    ensures x == y
  {
    assert (p + x)[|p|..] == x;
    assert (p + y)[|p|..] == y;
  }

  /** Distinct (time, random) pairs give distinct stored names; a stored name also determines
      the extension it carries. */
  lemma StoredFilenameInjective(o1: string, t1: nat, r1: nat, o2: string, t2: nat, r2: nat)
    requires StoredFilename(o1, t1, r1) == StoredFilename(o2, t2, r2)
    ensures t1 == t2 && r1 == r2 && ExtName(o1) == ExtName(o2)
  {
    var e1, e2 := ExtName(o1), ExtName(o2);
    var n1, n2 := Decimal(r1), Decimal(r2);
    var tail1 := "-" + (n1 + e1);
    var tail2 := "-" + (n2 + e2);
    CancelPrefix("video-", Decimal(t1) + tail1, Decimal(t2) + tail2);
    DecimalPrefixInjective(t1, tail1, t2, tail2);
    CancelPrefix("-", n1 + e1, n2 + e2);
    DecimalPrefixInjective(r1, e1, r2, e2);
  }

  // ---------------------------------------------------------------------------
  // Error mapping

  /** What the error-handling middleware does with an error: answer, or pass it on. */
  datatype ErrorOutcome = Respond(status: nat, message: string) | Forward(error: UploadError)

  /** `handleUploadError`: the library's size and unexpected-field errors become 400 answers;
      any error whose message mentions an invalid file type becomes a 400 echoing the message;
      everything else is forwarded unchanged. */
  function HandleUploadError(e: UploadError): (r: ErrorOutcome)
    ensures e.LibraryError? && e.code == "LIMIT_FILE_SIZE" ==> r == Respond(400, "File too large. Maximum size is 2GB.")
    ensures e.LibraryError? && e.code == "LIMIT_UNEXPECTED_FILE" ==> r == Respond(400, "Unexpected file field.")
    ensures !(e.LibraryError? && e.code in {"LIMIT_FILE_SIZE", "LIMIT_UNEXPECTED_FILE"}) ==>
      (Contains(e.Message(), "Invalid file type") <==> r == Respond(400, e.Message()))
    ensures (!(e.LibraryError? && e.code in {"LIMIT_FILE_SIZE", "LIMIT_UNEXPECTED_FILE"})
             && !Contains(e.Message(), "Invalid file type")) ==> r == Forward(e)
    ensures r.Forward? ==> r.error == e
    ensures r.Respond? ==> r.status == 400
  {
    if e.LibraryError? && e.code == "LIMIT_FILE_SIZE" then
      Respond(400, "File too large. Maximum size is 2GB.")
    else if e.LibraryError? && e.code == "LIMIT_UNEXPECTED_FILE" then
      Respond(400, "Unexpected file field.")
    else if Contains(e.Message(), "Invalid file type") then
      Respond(400, e.Message())
    else
      Forward(e)
  }

  /** Taken on its own, `handleUploadError` answers a file-filter rejection with a 400 echoing
      the filter's message. */
  lemma FilterRejectionIs400(mimetype: string)
    requires mimetype !in AllowedTypes
    ensures HandleUploadError(FileFilter(mimetype).error) == Respond(400, InvalidTypeMessage)
  {
    assert OccursAt(InvalidTypeMessage, "Invalid file type", 0);
  }

  /** Taken on its own, `handleUploadError` answers an oversized file with the 400 and the 2GB
      message. */
  lemma OversizeIs400(size: nat)
    requires size > MaxFileSize
    ensures HandleUploadError(CheckSize(size).value) == Respond(400, "File too large. Maximum size is 2GB.")
  {
  }

  // ---------------------------------------------------------------------------
  // The application's last error handler
  //
  // The routes that accept uploads mount the upload middleware but not `handleUploadError`,
  // so an upload error skips it and reaches the application's last error handler instead.

  /** The application's last error handler, on the errors the upload middleware raises. Such
      an error has neither a validation or cast name, nor the duplicate-key code, nor an HTTP
      status: a size-limit error answers 400 with a 100MB message, an error whose message is
      exactly "Only video files allowed!" answers 400, and anything else answers 500 with its
      message (or a generic one when that is empty). */
  function AppErrorHandler(e: UploadError): (r: ErrorOutcome)
    ensures r.Respond?
    ensures e.LibraryError? && e.code == "LIMIT_FILE_SIZE" ==> r == Respond(400, "File too large. Maximum size is 100MB")
    ensures r.status == 400 <==>
      (e.LibraryError? && e.code == "LIMIT_FILE_SIZE") || e.Message() == "Only video files allowed!"
    ensures r.status != 400 ==> r.status == 500 && (e.Message() != "" ==> r.message == e.Message())
  {
    if e.LibraryError? && e.code == "LIMIT_FILE_SIZE" then
      Respond(400, "File too large. Maximum size is 100MB")
    else if e.Message() == "Only video files allowed!" then
      Respond(400, "Only video files are allowed")
    else
      Respond(500, if e.Message() != "" then e.Message() else "Something went wrong!")
  }

  /** As deployed, a file-filter rejection is a server error: the last handler looks for a
      message the filter never produces, and the rejection carries no status. */
  lemma AppFilterRejectionIs500(mimetype: string)
    requires mimetype !in AllowedTypes
    ensures AppErrorHandler(FileFilter(mimetype).error) == Respond(500, InvalidTypeMessage)
  {
    assert InvalidTypeMessage[0] == 'I';
  }

  /** As deployed, an oversized file is refused with a message naming a 100MB maximum, while a
      file just over 100MB is accepted: the limit enforced is 2GB. */
  lemma AppOversizeMisstatesLimit(size: nat)
    requires size > MaxFileSize
    ensures AppErrorHandler(CheckSize(size).value).message == "File too large. Maximum size is 100MB"
    ensures CheckSize(100 * 1024 * 1024 + 1).None?
  {
  }

  // ---------------------------------------------------------------------------
  // The stand-alone upload route

  /** The stored file as the upload library describes it. */
  datatype File = File(originalname: string, filename: string, size: nat, mimetype: string)

  /** The video object the upload route answers with. */
  datatype UploadedVideo = UploadedVideo(
    filename: string,
    originalName: string,
    title: string,
    url: string,
    size: nat,
    mimetype: string,
    uploadedBy: string,
    uploadedAt: int)

  /** A rejected request: status and message. */
  datatype Reply = Reply(status: nat, message: string)

  /** The public URL of a stored upload. */
  function UploadUrl(filename: string): string {
    "/uploads/videos/" + filename
  }

  /** The upload route's handler: a missing file is rejected first, then a missing room
      identifier; otherwise the video object is derived from the stored file without reading
      or changing any room and without a host check. */
  function UploadRoute(file: Option<File>, roomId: Option<string>, user: string, now: int): (r: Result<UploadedVideo, Reply>)
    ensures file.None? ==> r == Failure(Reply(400, "No video file uploaded"))
    ensures file.Some? && !Truthy(roomId) ==> r == Failure(Reply(400, "Room ID is required"))
    ensures r.Success? <==> file.Some? && Truthy(roomId)
    ensures r.Success? ==>
      && r.value.url == UploadUrl(file.value.filename)
      && r.value.title <= file.value.originalname
      && '.' !in r.value.title
      && (r.value.title == file.value.originalname || file.value.originalname[|r.value.title|] == '.')
      && r.value.originalName == file.value.originalname
      && r.value.uploadedBy == user
  {
    if file.None? then Failure(Reply(400, "No video file uploaded"))
    else if !Truthy(roomId) then Failure(Reply(400, "Room ID is required"))
    else
      var f := file.value;
      Success(UploadedVideo(
        filename := f.filename,
        originalName := f.originalname,
        title := BeforeFirst(f.originalname, '.'),
        url := UploadUrl(f.filename),
        size := f.size,
        mimetype := f.mimetype,
        uploadedBy := user,
        uploadedAt := now))
  }
}
