/**
 * The Upload page: the checks a selected file must pass before it is kept,
 * the duration check once the video's metadata is known, and what submitting
 * the form sends to the backend (the storage path of the file and the video
 * record with its parsed tags).
 */
module Upload {
  import opened Wrappers
  import opened JsString

  /** What the page reads of a selected `File`: its name, its size in bytes
      and its MIME type. */
  datatype VideoFile = VideoFile(name: string, size: nat, mimeType: string)

  /** The size limit, 20 MiB. */
  const MaxFileSize: nat := 20 * 1024 * 1024

  /** The duration limit in seconds. */
  const MaxDuration: real := 60.0

  /** The outcome of `handleFileChange`'s checks, in the order it makes them. */
  datatype FileVerdict = NoFileSelected | TooLarge | NotAVideo | Accepted

  /** The two rejections of a selected file: the size check comes first and
      admits a file of exactly the limit; only a file within the limit has
      its type checked, which must begin with `video/`. */
  function CheckFile(file: VideoFile): (v: FileVerdict)
    ensures v != NoFileSelected
    ensures v == TooLarge <==> file.size > 20971520
    ensures v == NotAVideo <==> file.size <= 20971520 && !("video/" <= file.mimeType)
    ensures v == Accepted <==> file.size <= 20971520 && "video/" <= file.mimeType
  {
    if file.size > MaxFileSize then TooLarge
    else if !("video/" <= file.mimeType) then NotAVideo
    else Accepted
  }

  /** The `.map(tag => tag.trim())` step. */
  function TrimEach(parts: seq<string>): (r: seq<string>)
    ensures |r| == |parts|
    ensures forall k :: 0 <= k < |r| ==> r[k] == Trim(parts[k])
  {
    if parts == [] then [] else [Trim(parts[0])] + TrimEach(parts[1..])
  }

  /** The `.filter(Boolean)` step: the empty string is the only falsy one. */
  function NonEmpty(parts: seq<string>): (r: seq<string>)
    ensures |r| <= |parts|
    ensures forall k :: 0 <= k < |r| ==> r[k] != [] && r[k] in parts
    ensures forall p :: p in parts && p != [] ==> p in r
    ensures |parts| == 1 ==> r == (if parts[0] == [] then [] else parts)
  {
    if parts == [] then []
    else (if parts[0] != [] then [parts[0]] else []) + NonEmpty(parts[1..])
  }

  /** Trimming comma-free parts leaves comma-free texts without surrounding
      whitespace. */
  lemma TrimEachClean(parts: seq<string>)
    requires forall k :: 0 <= k < |parts| ==> ',' !in parts[k]
    ensures forall t :: t in TrimEach(parts) ==> NoSurroundingWhitespace(t) && ',' !in t
  {
    var trimmed := TrimEach(parts);
    forall k | 0 <= k < |parts| ensures ',' !in trimmed[k] {
      TrimKeepsAbsent(parts[k], ',');
    }
  }

  /** `tags.split(",").map(tag => tag.trim()).filter(Boolean)`: every tag is
      a non-empty, comma-free text without surrounding whitespace, and there
      is at most one more tag than there are commas. */
  function ParseTags(tags: string): (r: seq<string>)
    ensures |r| <= Count(tags, ',') + 1
    ensures forall k :: 0 <= k < |r| ==>
              r[k] != [] && NoSurroundingWhitespace(r[k]) && ',' !in r[k]
  {
    var parts := Split(tags, ',');
    TrimEachClean(parts);
    NonEmpty(TrimEach(parts))
  }

  lemma {:induction false} TrimEachAppend(a: seq<string>, b: seq<string>)
    ensures TrimEach(a + b) == TrimEach(a) + TrimEach(b)
  {
    if a == [] {
      assert a + b == b;
    } else {
      assert (a + b)[0] == a[0];
      assert (a + b)[1..] == a[1..] + b;
      TrimEachAppend(a[1..], b);
    }
  }

  lemma {:induction false} NonEmptyAppend(a: seq<string>, b: seq<string>)
    ensures NonEmpty(a + b) == NonEmpty(a) + NonEmpty(b)
  {
    if a == [] {
      assert a + b == b;
    } else {
      assert (a + b)[0] == a[0];
      assert (a + b)[1..] == a[1..] + b;
      NonEmptyAppend(a[1..], b);
    }
  }

  /** The tags on either side of a comma come out in input order, the left
      side's first. */
  lemma ParseTagsAroundComma(a: string, b: string)
    ensures ParseTags(a + [','] + b) == ParseTags(a) + ParseTags(b)
  {
    SplitAround(a, b, ',');
    TrimEachAppend(Split(a, ','), Split(b, ','));
    NonEmptyAppend(TrimEach(Split(a, ',')), TrimEach(Split(b, ',')));
  }

  /** A comma-free input is one tag, its trimmed text, unless it is blank. */
  lemma ParseTagsNoComma(s: string)
    requires ',' !in s
    ensures ParseTags(s) == if AllWhitespace(s) then [] else [Trim(s)]
  {
    SplitNoSeparator(s, ',');
    TrimEmpty(s);
    assert TrimEach([s]) == [Trim(s)];
  }

  predicate BlankOrCommas(s: string) {
    forall i :: 0 <= i < |s| ==> s[i] == ',' || IsWhitespace(s[i])
  }

  lemma BlankOrCommasAround(a: string, b: string)
    ensures BlankOrCommas(a + [','] + b) <==> BlankOrCommas(a) && BlankOrCommas(b)
  {
    var s := a + [','] + b;
    assert forall i :: 0 <= i < |a| ==> s[i] == a[i];
    assert forall i :: 0 <= i < |b| ==> s[|a| + 1 + i] == b[i];
    if BlankOrCommas(a) && BlankOrCommas(b) {
      forall i | 0 <= i < |s| ensures s[i] == ',' || IsWhitespace(s[i]) {
        if i > |a| { assert s[i] == b[i - |a| - 1]; }
      }
    }
  }

  /** No tag at all comes out exactly when the input is made of commas and
      whitespace only; a blank input in particular gives no tags. */
  lemma {:induction false} ParseTagsEmpty(s: string)
    ensures ParseTags(s) == [] <==> BlankOrCommas(s)
    decreases |s|
  {
    if ',' !in s {
      ParseTagsNoComma(s);
    } else {
      var k :| 0 <= k < |s| && s[k] == ',';
      var a, b := s[..k], s[k + 1..];
      assert s == a + [','] + b;
      ParseTagsAroundComma(a, b);
      BlankOrCommasAround(a, b);
      ParseTagsEmpty(a);
      ParseTagsEmpty(b);
    }
  }

  /** `name.split('.').pop()`: the text after the last `.`, or the whole name
      when it has no `.`. */
  function FileExtension(name: string): (ext: string)
    ensures '.' !in ext
    ensures |ext| <= |name| && ext == name[|name| - |ext|..]
    ensures |ext| < |name| ==> name[|name| - |ext| - 1] == '.'
    ensures |ext| == |name| <==> '.' !in name
  {
    var parts := Split(name, '.');
    SplitLast(name, '.');
    parts[|parts| - 1]
  }

  /** The storage object name `${user.id}/${Date.now()}.${fileExt}`. */
  function StoragePath(userId: string, now: nat, fileName: string): (path: string)
    ensures |path| == |userId| + |Decimal(now)| + |FileExtension(fileName)| + 2
    ensures userId + "/" <= path
  {
    var digits, ext := Decimal(now), FileExtension(fileName);
    userId + "/" + digits + "." + ext
  }

  /** A text ending in a dot and a dot-free text has that text as its
      extension. */
  lemma FileExtensionAfterDot(prefix: string, ext: string)
    requires '.' !in ext
    ensures FileExtension(prefix + ['.'] + ext) == ext
  {
    SplitAround(prefix, ext, '.');
    SplitNoSeparator(ext, '.');
  }

  /** A text `u/d.e` with a dot-free `e` reads back into its pieces, and its
      extension is `e`. */
  lemma SlashDotLayout(p: string, u: string, d: string, e: string)
    requires p == u + "/" + d + "." + e
    requires '.' !in e
    ensures |p| == |u| + |d| + |e| + 2
    ensures p[..|u|] == u && p[|u|] == '/'
    ensures p[|u| + 1..|p| - |e| - 1] == d
    ensures p[|p| - |e| - 1] == '.'
    ensures FileExtension(p) == e
  {
    assert p[..|u|] == u;
    assert p[|u| + 1..|p| - |e| - 1] == d;
    var prefix := u + "/" + d;
    assert p == prefix + ['.'] + e;
    FileExtensionAfterDot(prefix, e);
  }

  /** A storage path reads back into its parts: the user's id, a slash, the
      decimal timestamp (which `DecimalRoundTrip` reads back into the number),
      a dot and the file's extension, which is again the path's own
      extension. */
  lemma StoragePathParts(userId: string, now: nat, fileName: string)
    ensures var path, ext := StoragePath(userId, now, fileName), FileExtension(fileName);
            var digits := path[|userId| + 1..|path| - |ext| - 1];
            |path| == |userId| + |Decimal(now)| + |ext| + 2
            && path[..|userId|] == userId && path[|userId|] == '/'
            && digits == Decimal(now)
            && path[|path| - |ext| - 1] == '.'
            && FileExtension(path) == ext
  {
    var ext := FileExtension(fileName);
    var d := Decimal(now);
    var path := StoragePath(userId, now, fileName);
    SlashDotLayout(path, userId, d, ext);
  }

  /** The moderation state of a video; uploads start `pending`. */
  datatype Status = Pending | Published | Rejected

  /** The row inserted into the `videos` table. */
  datatype VideoRecord = VideoRecord(
    userId: string, title: string, description: string,
    videoUrl: string, tags: seq<string>, status: Status)

  /** The backend calls a submission makes. */
  datatype Request = StoreObject(path: string, file: VideoFile) | InsertVideo(record: VideoRecord)

  datatype SubmitResult = NoFileChosen | NotLoggedIn | UploadError | InsertError | Submitted

  /** What one submission did: how it ended and the calls it made, in order. */
  datatype Submission = Submission(result: SubmitResult, requests: seq<Request>)

  /** The state slots of the Upload page that its handlers update. */
  class UploadForm {
    var videoFile: Option<VideoFile>
    var videoPreview: string

    constructor ()
      ensures videoFile == None && videoPreview == ""
    {
      videoFile := None;
      videoPreview := "";
    }

    /** `handleFileChange`: an absent or rejected file leaves both slots as
        they were; an accepted one is stored with its preview URL. */
    method HandleFileChange(selected: Option<VideoFile>, previewUrl: string) returns (v: FileVerdict)
      modifies this
      ensures v == (if selected.None? then NoFileSelected else CheckFile(selected.value))
      ensures v == Accepted ==> videoFile == selected && videoPreview == previewUrl
      ensures v != Accepted ==> videoFile == old(videoFile) && videoPreview == old(videoPreview)
    {
      if selected.None? {
        return NoFileSelected;
      }
      var file := selected.value;
      if file.size > MaxFileSize {
        return TooLarge;
      }
      if !("video/" <= file.mimeType) {
        return NotAVideo;
      }
      videoFile := Some(file);
      videoPreview := previewUrl;
      return Accepted;
    }

    /** The `onloadedmetadata` callback of an accepted file: a video longer
        than 60 seconds clears both slots; one of 60 seconds or less leaves
        them alone. */
    method OnLoadedMetadata(duration: real)
      modifies this
      ensures duration > 60.0 ==> videoFile == None && videoPreview == ""
      ensures duration <= 60.0 ==> videoFile == old(videoFile) && videoPreview == old(videoPreview)
    {
      if duration > MaxDuration {
        videoFile := None;
        videoPreview := "";
      }
    }

    /** `handleSubmit`, with the backend's answers as parameters: the signed-in
        user (if any), the clock, whether the storage upload and the insert
        succeed, and the public URL of the stored object. Without a file or a
        user nothing is sent; otherwise the file is stored under its storage
        path, and only a successful upload is followed by the insert of a
        `pending` record carrying the parsed tags. */
    method HandleSubmit(title: string, description: string, tags: string,
                        user: Option<string>, now: nat,
                        uploadOk: bool, publicUrl: string, insertOk: bool)
      returns (sub: Submission)
      ensures videoFile.None? ==> sub == Submission(NoFileChosen, [])
      ensures videoFile.Some? && user.None? ==> sub == Submission(NotLoggedIn, [])
      ensures videoFile.Some? && user.Some? ==>
                1 <= |sub.requests| <= 2
                && sub.requests[0] == StoreObject(StoragePath(user.value, now, videoFile.value.name), videoFile.value)
                && (|sub.requests| == 2 <==> uploadOk)
      ensures videoFile.Some? && user.Some? && !uploadOk ==> sub.result == UploadError
      ensures videoFile.Some? && user.Some? && uploadOk ==>
                sub.requests[1] == InsertVideo(VideoRecord(user.value, title, description, publicUrl, ParseTags(tags), Pending))
                && sub.result == (if insertOk then Submitted else InsertError)
    {
      if videoFile.None? {
        return Submission(NoFileChosen, []);
      }
      if user.None? {
        return Submission(NotLoggedIn, []);
      }
      var file, uid := videoFile.value, user.value;
      var fileExt := FileExtension(file.name);
      var fileName := uid + "/" + Decimal(now) + "." + fileExt;
      var requests := [StoreObject(fileName, file)];
      if !uploadOk {
        return Submission(UploadError, requests);
      }
      var record := VideoRecord(uid, title, description, publicUrl, ParseTags(tags), Pending);
      requests := requests + [InsertVideo(record)];
      if !insertOk {
        return Submission(InsertError, requests);
      }
      return Submission(Submitted, requests);
    }
  }
}
