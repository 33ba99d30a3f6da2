/**
 * The upload handler (main.go:23-97) and writeFile (main.go:99-112).
 *
 * The multipart form is given already parsed: its scalar fields and its
 * file fields are sequences in the (arbitrary) order Go's map iteration
 * happens to produce, and every file-system call comes with its outcome.
 * Paths are built by an abstract `join`, standing for filepath.Join.
 *
 * HandleUpload is the specification: the new directories, stored files and
 * response body of one request as a function of the old ones. The method
 * Upload is the handler itself, written step by step, and is proved to do
 * exactly what HandleUpload says.
 */
module UploadSpec {
  import opened Common
  import opened Text

  /** The request-size ceiling (main.go:18). */
  const MaxFileSize: nat := 20 * 1024 * 1024
  /** The most attachments one file field may carry (main.go:72). */
  const MaxFilesPerField: nat := 100
  /** What the content type must contain (main.go:28). */
  const FormDataMarker := "multipart/form-data"
  /** filepath.Join(".", "public", "uploads") (main.go:20), once cleaned. */
  const RootDirectory := "public/uploads"
  /** The scalar field that names the target directory (main.go:48). */
  const SubdirKey := "subdir"

  // ---------------------------------------------------------------------
  // The request

  /** What writeFile's os.Create and io.Copy did for one attachment. */
  datatype WriteOutcome = Written | CreateFailed(error: string) | CopyFailed(error: string)

  /**
   * One uploaded file: its name and bytes, the outcome of opening its
   * stream (f.Open), and what writing it out did.
   */
  datatype Attachment = Attachment(filename: string, data: seq<byte>, open: Outcome, write: WriteOutcome)

  /** An entry of MultipartForm.Value. */
  datatype ValueField = ValueField(key: string, values: seq<string>)

  /** An entry of MultipartForm.File. */
  datatype FileField = FileField(key: string, files: seq<Attachment>)

  datatype Form = Form(values: seq<ValueField>, fileFields: seq<FileField>)

  /**
   * The request as the handler sees it: the content-type header, the
   * declared length and what ParseMultipartForm made of the body.
   */
  datatype Request = Request(contentType: string, contentLength: int, form: Result<Form>)

  /** A Go map never holds a key twice. */
  predicate DistinctKeys(values: seq<ValueField>) {
    forall i, j :: 0 <= i < j < |values| ==> values[i].key != values[j].key
  }

  // ---------------------------------------------------------------------
  // The disk

  /**
   * A file under the root: either everything was copied, or os.Create
   * truncated it and the copy then failed part-way.
   */
  datatype StoredFile = Complete(data: seq<byte>) | Partial

  /** The directories the handlers created and the files they wrote, by path. */
  datatype Disk = Disk(dirs: set<string>, files: map<string, StoredFile>)

  // ---------------------------------------------------------------------
  // The response texts

  const ContentTypeMessage := "content-type must be multipart/form-data"
  const NoFileMessage := "no file"
  const NoKeyMessage := "no multipartform key"

  function TooLargeMessage(length: nat): string {
    "[E] file to large, length=" + FormatDecimal(length) + ", limit " + FormatDecimal(MaxFileSize)
  }

  function ParseErrorMessage(error: string): string {
    "ParseMultipartForm error:" + error
  }

  function MkdirFailMessage(dir: string): string {
    "mkdir fail, " + dir
  }

  function TooManyMessage(count: nat): string {
    "too many files: " + FormatDecimal(count)
  }

  function FailedMessage(error: string): string {
    "upload failed, last err: " + error
  }

  function SuccessMessage(count: nat): string {
    "successful, " + FormatDecimal(count) + " files uploaded"
  }

  // ---------------------------------------------------------------------
  // Specification: the subdirectory

  /**
   * The subdirectory the scalar fields ask for: the first value of a field
   * named "subdir" that has at least one value.
   */
  function SubdirOf(values: seq<ValueField>): Option<string>
    decreases |values|
  {
    if values == [] then None
    else if Last(values).key == SubdirKey && |Last(values).values| > 0 then Some(Last(values).values[0])
    else SubdirOf(DropLast(values))
  }

  predicate NamesSubdir(field: ValueField) {
    field.key == SubdirKey && |field.values| > 0
  }

  // ---------------------------------------------------------------------
  // Specification: one attachment and writeFile

  /** The destination of a file: root, subdirectory, file name (main.go:100). */
  function Destination(join: seq<string> -> string, subdir: string, filename: string): string {
    join([RootDirectory, subdir, filename])
  }

  /** What writeFile does to the files: Create truncates, Copy fills. */
  function StoreWrite(files: map<string, StoredFile>, path: string, data: seq<byte>, write: WriteOutcome): map<string, StoredFile> {
    match write
    case CreateFailed(_) => files
    case CopyFailed(_) => files[path := Partial]
    case Written => files[path := Complete(data)]
  }

  /** The error writeFile returns. */
  function WriteError(write: WriteOutcome): Option<string> {
    match write
    case Written => None
    case CreateFailed(e) => Some(e)
    case CopyFailed(e) => Some(e)
  }

  /** The error one attachment contributes: from Open, else from writeFile. */
  function AttachmentError(a: Attachment): Option<string> {
    if a.open.Fail? then Some(a.open.error) else WriteError(a.write)
  }

  /** What handling one attachment does to the files (main.go:79-88). */
  function StoreAttachment(files: map<string, StoredFile>, join: seq<string> -> string, subdir: string, a: Attachment): map<string, StoredFile> {
    if a.open.Fail? then files
    else StoreWrite(files, Destination(join, subdir, a.filename), a.data, a.write)
  }

  /** What handling a field's attachments in order does to the files. */
  function StoreAll(files: map<string, StoredFile>, join: seq<string> -> string, subdir: string, atts: seq<Attachment>): map<string, StoredFile>
    decreases |atts|
  {
    if atts == [] then files
    else StoreAttachment(StoreAll(files, join, subdir, DropLast(atts)), join, subdir, Last(atts))
  }

  /** `lastErr` after the loop of main.go:78-90. */
  function LastError(atts: seq<Attachment>): Option<string>
    decreases |atts|
  {
    if atts == [] then None
    else if AttachmentError(Last(atts)).Some? then AttachmentError(Last(atts))
    else LastError(DropLast(atts))
  }

  // ---------------------------------------------------------------------
  // Specification: the file fields

  /** Files and body so far, and whether the handler has returned. */
  datatype Progress = Progress(files: map<string, StoredFile>, body: seq<string>, stopped: bool)

  /** One iteration of the loop of main.go:64-96. */
  function HandleField(p: Progress, join: seq<string> -> string, subdir: string, field: FileField): Progress {
    if |field.key| == 0 then Progress(p.files, p.body + [NoKeyMessage], true)
    else if |field.files| > MaxFilesPerField then Progress(p.files, p.body + [TooManyMessage(|field.files|)], true)
    else
      var files := StoreAll(p.files, join, subdir, field.files);
      var lastErr := LastError(field.files);
      if lastErr.Some? then Progress(files, p.body + [FailedMessage(lastErr.value)], true)
      else Progress(files, p.body + [SuccessMessage(|field.files|)], false)
  }

  /** The loop of main.go:64-96 over the file fields, in the given order. */
  function HandleFields(p: Progress, join: seq<string> -> string, subdir: string, fields: seq<FileField>): Progress
    decreases |fields|
  {
    if fields == [] then p
    else
      var before := HandleFields(p, join, subdir, DropLast(fields));
      if before.stopped then before else HandleField(before, join, subdir, Last(fields))
  }

  // ---------------------------------------------------------------------
  // Specification: the whole request

  datatype UploadResult = UploadResult(disk: Disk, body: seq<string>)

  /** Everything after the multipart body was parsed (main.go:44-96). */
  function HandleForm(disk: Disk, join: seq<string> -> string, form: Form, mkdir: Outcome): UploadResult {
    var sub := SubdirOf(form.values);
    if sub.Some? && mkdir.Fail? then
      UploadResult(disk, [MkdirFailMessage(join([RootDirectory, sub.value]))])
    else
      var dirs := if sub.Some? then disk.dirs + {join([RootDirectory, sub.value])} else disk.dirs;
      var subdir := if sub.Some? then sub.value else "";
      if |form.fileFields| == 0 then UploadResult(Disk(dirs, disk.files), [NoFileMessage])
      else
        var p := HandleFields(Progress(disk.files, [], false), join, subdir, form.fileFields);
        UploadResult(Disk(dirs, p.files), p.body)
  }

  /**
   * One upload request: the checks of main.go:28-41 in order, then
   * HandleForm. `mkdir` is the outcome os.MkdirAll would have.
   */
  function HandleUpload(disk: Disk, join: seq<string> -> string, req: Request, mkdir: Outcome): UploadResult {
    if !Contains(req.contentType, FormDataMarker) then UploadResult(disk, [ContentTypeMessage])
    else if req.contentLength >= MaxFileSize then UploadResult(disk, [TooLargeMessage(req.contentLength)])
    else if req.form.Err? then UploadResult(disk, [ParseErrorMessage(req.form.error)])
    else HandleForm(disk, join, req.form.value, mkdir)
  }
}
