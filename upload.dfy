/** The video upload route: the client's file name is stripped to letters, digits and
    dots, prefixed with a unique suffix, written under `/uploads/`, and recorded as a
    video row whose title falls back to the unstripped file name. The clock and random
    number behind the suffix are a parameter, and the directory creation and the disk
    write are one parameter saying whether they succeeded. */
module Upload {
  import opened Common
  import opened Schema
  import opened Seqs
  import opened Store

  /** The characters `/[^a-zA-Z0-9\.]/g` does not remove. */
  predicate IsAllowed(c: char) {
    ('a' <= c <= 'z') || ('A' <= c <= 'Z') || ('0' <= c <= '9') || c == '.'
  }

  /** `file.name.replace(/[^a-zA-Z0-9\.]/g, "")`. */
  function Sanitize(name: string): (r: string)
    ensures forall i :: 0 <= i < |r| ==> IsAllowed(r[i])
    ensures |r| <= |name|
  {
    FilterAccepted(name, IsAllowed);
    FilterIsSubsequence(name, IsAllowed);
    SubsequenceNoLonger(Filter(name, IsAllowed), name);
    Filter(name, IsAllowed)
  }

  /** The name the file is stored under: the unique suffix, a dash, the stripped name. */
  function StoredName(suffix: string, name: string): string {
    suffix + "-" + Sanitize(name)
  }

  const UploadsPrefix := "/uploads/"

  /** The path recorded in the video row. */
  function FilePath(suffix: string, name: string): string {
    UploadsPrefix + StoredName(suffix, name)
  }

  /** `title || file.name`: a missing or empty title falls back to the file's name. */
  function TitleOrName(title: Option<string>, name: string): (r: string)
    ensures title.Some? && title.value != "" ==> r == title.value
    ensures title.None? || title.value == "" ==> r == name
  {
    if title.Some? && title.value != "" then title.value else name
  }

  const Duration := "0:00"

  /** The stripped name holds only ASCII letters, digits and dots, so in particular no
      path separator, and every allowed character of the name survives. */
  lemma SanitizedAllowedOnly(name: string)
    ensures forall i :: 0 <= i < |Sanitize(name)| ==> IsAllowed(Sanitize(name)[i])
    ensures '/' !in Sanitize(name) && '\\' !in Sanitize(name)
    ensures forall c :: c in Sanitize(name) <==> c in name && IsAllowed(c)
  {
    FilterAccepted(name, IsAllowed);
    FilterMembership(name, IsAllowed);
  }

  /** Stripping deletes characters without reordering the others. */
  lemma SanitizedIsSubsequence(name: string)
    ensures IsSubsequence(Sanitize(name), name)
    ensures |Sanitize(name)| <= |name|
  {
    FilterIsSubsequence(name, IsAllowed);
    SubsequenceNoLonger(Sanitize(name), name);
  }

  lemma {:induction false} SubsequenceNoLonger<T>(r: seq<T>, s: seq<T>)
    requires IsSubsequence(r, s)
    ensures |r| <= |s|
    decreases |s|
  {
    if r != [] {
      if r[0] == s[0] && IsSubsequence(r[1..], s[1..]) {
        SubsequenceNoLonger(r[1..], s[1..]);
      } else {
        SubsequenceNoLonger(r, s[1..]);
      }
    }
  }

  /** A name that is already clean is stored as it is. */
  lemma CleanNameUnchanged(name: string)
    requires forall i :: 0 <= i < |name| ==> IsAllowed(name[i])
    ensures Sanitize(name) == name
  {
    FilterKeepsAll(name, IsAllowed);
  }

  /** Stripping a stripped name changes nothing. */
  lemma SanitizeIdempotent(name: string)
    ensures Sanitize(Sanitize(name)) == Sanitize(name)
  {
    FilterIdempotent(name, IsAllowed);
  }

  /** The recorded path is the uploads directory followed by the stored name, and the
      stored name ends with the stripped file name after the suffix and a dash. */
  lemma FilePathShape(suffix: string, name: string)
    ensures var p := FilePath(suffix, name);
      && p[..|UploadsPrefix|] == UploadsPrefix
      && p[|UploadsPrefix|..] == StoredName(suffix, name)
      && p[|UploadsPrefix| + |suffix|] == '-'
      && p[|UploadsPrefix| + |suffix| + 1..] == Sanitize(name)
      && |p| == 10 + |suffix| + |Sanitize(name)|
  {
  }

  /** What `formData.get("file")` yields: a file, a text field, or nothing. */
  datatype Entry = FileEntry(name: string) | TextEntry(text: string)

  /** The parsed multipart body. */
  datatype Form = Form(file: Option<Entry>, title: Option<string>)

  /** `NextResponse.json({ video })` with status 200, or `{ error }` with a status. */
  datatype Response = Uploaded(video: Video) | Failed(status: int, error: string)

  const NoFile := "No file provided"
  const UploadFailed := "Upload failed"

  /** `!file`: no entry, or an empty text field. */
  predicate Missing(file: Option<Entry>) {
    file.None? || file.value == TextEntry("")
  }

  /** `POST /api/videos/upload`. `form` is `None` when the body cannot be parsed as form
      data; `diskWrites` says whether creating the directory and writing the file
      succeed. `written` is the stored name of the file written to disk, if any. Any
      error after the file check, including a text field where a file was expected
      (its `name` is undefined), ends in 500 "Upload failed"; a failed insert leaves
      the written file behind. */
  method Upload(db: Database, form: Option<Form>, suffix: string, diskWrites: bool)
    returns (response: Response, written: Option<string>)
    requires db.Valid()
    modifies db
    ensures db.Valid()
    ensures form.Some? && Missing(form.value.file) ==>
      response == Failed(400, NoFile) && written.None? && unchanged(db)
    ensures form.None? || (!Missing(form.value.file) && (form.value.file.value.TextEntry? || !diskWrites)) ==>
      response == Failed(500, UploadFailed) && written.None? && unchanged(db)
    ensures form.Some? && form.value.file.Some? && form.value.file.value.FileEntry? && diskWrites ==>
      var name := form.value.file.value.name;
      var v := Video(old(db.serials.video), TitleOrName(form.value.title, name), FilePath(suffix, name), Some(Duration), None, None);
      && written == Some(StoredName(suffix, name))
      && (VideoFits(v) ==> response == Uploaded(v) && db.videos == old(db.videos)[v.id := v])
      && (!VideoFits(v) ==> response == Failed(500, UploadFailed) && unchanged(db))
    ensures response.Uploaded? ==> response.video.id !in old(db.videos) && VideoFits(response.video)
    ensures db.accountSets == old(db.accountSets) && db.accounts == old(db.accounts)
    ensures db.posts == old(db.posts) && db.statuses == old(db.statuses)
  {
    written := None;
    if form.None? {
      return Failed(500, UploadFailed), written;
    }
    var file := form.value.file;
    if Missing(file) {
      return Failed(400, NoFile), written;
    }
    if !diskWrites {
      return Failed(500, UploadFailed), written;
    }
    match file.value {
      case TextEntry(_) =>
        return Failed(500, UploadFailed), written;
      case FileEntry(name) =>
        var filename := StoredName(suffix, name);
        written := Some(filename);
        var video := db.InsertVideo(TitleOrName(form.value.title, name), UploadsPrefix + filename, Some(Duration));
        if video.Err? {
          return Failed(500, UploadFailed), written;
        }
        response := Uploaded(video.value);
    }
  }
}
