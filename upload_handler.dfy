/**
 * The upload handler as the source writes it: checks with early returns,
 * a loop over the scalar fields that makes the subdirectory, and a loop
 * over the file fields with an inner loop over their attachments that
 * keeps the last error. Its effects go to a Storage (the directories and
 * files under the root) and a ResponseWriter (the body, one chunk per
 * w.Write call).
 */
module UploadHandler {
  import opened Common
  import opened Text
  import opened UploadSpec
  import UploadProperties

  /** The part of the file system the handler touches. */
  class Storage {
    /** filepath.Join; its path cleaning is not modelled. */
    const join: seq<string> -> string
    var dirs: set<string>
    var files: map<string, StoredFile>

    constructor (join: seq<string> -> string, dirs: set<string>, files: map<string, StoredFile>)
      ensures this.join == join && this.dirs == dirs && this.files == files
    {
      this.join := join;
      this.dirs := dirs;
      this.files := files;
    }

    function Snapshot(): Disk
      reads this
    {
      Disk(dirs, files)
    }

    /** os.MkdirAll(dir, 0755), whose outcome is given. */
    method MkdirAll(dir: string, outcome: Outcome) returns (err: Option<string>)
      modifies this
      ensures outcome.Pass? ==> dirs == old(dirs) + {dir} && err == None
      ensures outcome.Fail? ==> dirs == old(dirs) && err == Some(outcome.error)
      ensures files == old(files)
    {
      if outcome.Fail? {
        return Some(outcome.error);
      }
      dirs := dirs + {dir};
      return None;
    }
  }

  /** The response body, as the sequence of chunks written to it. */
  class ResponseWriter {
    var body: seq<string>

    constructor ()
      ensures body == []
    {
      body := [];
    }

    method Write(chunk: string)
      modifies this
      ensures body == old(body) + [chunk]
    {
      body := body + [chunk];
    }
  }

  /**
   * writeFile (main.go:99-112): create (truncating) the destination, then
   * copy the bytes into it; report the first error.
   */
  method WriteFile(fs: Storage, subdir: string, filename: string, data: seq<byte>, write: WriteOutcome) returns (err: Option<string>)
    modifies fs
    ensures fs.files == StoreWrite(old(fs.files), Destination(fs.join, subdir, filename), data, write)
    ensures fs.dirs == old(fs.dirs)
    ensures err == WriteError(write)
  {
    var path := fs.join([RootDirectory, subdir, filename]);
    if write.CreateFailed? {
      return Some(write.error);
    }
    fs.files := fs.files[path := Partial];
    if write.CopyFailed? {
      return Some(write.error);
    }
    fs.files := fs.files[path := Complete(data)];
    return None;
  }

  /**
   * The loop of main.go:46-57 over the scalar fields: when a "subdir"
   * field has a value, make RootDirectory/subdir; a failure is written to
   * the body and reported with `ok` false.
   */
  method MakeSubdir(w: ResponseWriter, fs: Storage, values: seq<ValueField>, mkdir: Outcome) returns (subdir: string, ok: bool)
    requires DistinctKeys(values)
    modifies w, fs
    ensures var sub := SubdirOf(values);
      subdir == (if sub.Some? then sub.value else "") &&
      ok == (sub.None? || mkdir.Pass?) &&
      fs.dirs == (if sub.Some? && ok then old(fs.dirs) + {fs.join([RootDirectory, sub.value])} else old(fs.dirs)) &&
      w.body == (if ok then old(w.body) else old(w.body) + [MkdirFailMessage(fs.join([RootDirectory, sub.value]))])
    ensures fs.files == old(fs.files)
  {
    subdir := "";
    ghost var found := false;
    ghost var at := 0;
    var i := 0;
    while i < |values|
      invariant 0 <= i <= |values|
      invariant fs.files == old(fs.files) && w.body == old(w.body)
      invariant found ==> 0 <= at < i && NamesSubdir(values[at]) && subdir == values[at].values[0]
      invariant SubdirOf(values[..i]) == if found then Some(subdir) else None
      invariant fs.dirs == if found then old(fs.dirs) + {fs.join([RootDirectory, subdir])} else old(fs.dirs)
      invariant !found ==> subdir == ""
      invariant found ==> mkdir.Pass?
    {
      var field := values[i];
      assert DropLast(values[..i + 1]) == values[..i];
      if field.key == SubdirKey && |field.values| > 0 {
        subdir := field.values[0];
        var dir := fs.join([RootDirectory, subdir]);
        var err := fs.MkdirAll(dir, mkdir);
        if err.Some? {
          UploadProperties.SubdirOfSpec(values);
          w.Write(MkdirFailMessage(dir));
          return subdir, false;
        }
        found, at := true, i;
      }
      i := i + 1;
    }
    assert values[..i] == values;
    ok := true;
  }

  /**
   * The loop of main.go:78-90 over one field's attachments: each is
   * opened and written, a failure is remembered in `lastErr` and the loop
   * goes on.
   */
  method StoreAttachments(fs: Storage, subdir: string, atts: seq<Attachment>) returns (lastErr: Option<string>)
    modifies fs
    ensures fs.files == StoreAll(old(fs.files), fs.join, subdir, atts)
    ensures lastErr == LastError(atts)
    ensures fs.dirs == old(fs.dirs)
  {
    lastErr := None;
    var k := 0;
    while k < |atts|
      invariant 0 <= k <= |atts|
      invariant fs.files == StoreAll(old(fs.files), fs.join, subdir, atts[..k])
      invariant lastErr == LastError(atts[..k])
      invariant fs.dirs == old(fs.dirs)
    {
      var f := atts[k];
      assert DropLast(atts[..k + 1]) == atts[..k];
      if f.open.Fail? {
        lastErr := Some(f.open.error);
        k := k + 1;
        continue;
      }
      var err := WriteFile(fs, subdir, f.filename, f.data, f.write);
      if err.Some? {
        lastErr := err;
        k := k + 1;
        continue;
      }
      k := k + 1;
    }
    assert atts[..k] == atts;
  }

  /**
   * The loop of main.go:64-96 over the file fields: each field is checked
   * and its attachments stored; the handler returns at the first field
   * that does not succeed, and otherwise goes on to the next field.
   */
  method StoreFileFields(w: ResponseWriter, fs: Storage, subdir: string, fields: seq<FileField>)
    modifies w, fs
    ensures var p := HandleFields(Progress(old(fs.files), [], false), fs.join, subdir, fields);
      fs.files == p.files && w.body == old(w.body) + p.body
    ensures fs.dirs == old(fs.dirs)
  {
    ghost var start := Progress(old(fs.files), [], false);
    var j := 0;
    while j < |fields|
      invariant 0 <= j <= |fields|
      invariant var p := HandleFields(start, fs.join, subdir, fields[..j]);
        !p.stopped && fs.files == p.files && w.body == old(w.body) + p.body
      invariant fs.dirs == old(fs.dirs)
    {
      var field := fields[j];
      assert DropLast(fields[..j + 1]) == fields[..j];
      if |field.key| == 0 {
        w.Write(NoKeyMessage);
        UploadProperties.StoppedIsFinal(start, fs.join, subdir, fields, j + 1);
        return;
      }
      if |field.files| > MaxFilesPerField {
        w.Write(TooManyMessage(|field.files|));
        UploadProperties.StoppedIsFinal(start, fs.join, subdir, fields, j + 1);
        return;
      }
      var lastErr := StoreAttachments(fs, subdir, field.files);
      if lastErr.Some? {
        w.Write(FailedMessage(lastErr.value));
        UploadProperties.StoppedIsFinal(start, fs.join, subdir, fields, j + 1);
        return;
      }
      w.Write(SuccessMessage(|field.files|));
      j := j + 1;
    }
    assert fields[..j] == fields;
  }

  /** upload (main.go:23-97), with `mkdir` the outcome os.MkdirAll would have. */
  method Upload(w: ResponseWriter, fs: Storage, req: Request, mkdir: Outcome)
    requires req.form.Ok? ==> DistinctKeys(req.form.value.values)
    modifies w, fs
    ensures var r := HandleUpload(old(fs.Snapshot()), fs.join, req, mkdir);
      fs.Snapshot() == r.disk && w.body == old(w.body) + r.body
  {
    if !Contains(req.contentType, FormDataMarker) {
      w.Write(ContentTypeMessage);
      return;
    }
    if req.contentLength >= MaxFileSize {
      w.Write(TooLargeMessage(req.contentLength));
      return;
    }
    if req.form.Err? {
      w.Write(ParseErrorMessage(req.form.error));
      return;
    }
    var form := req.form.value;
    var subdir, ok := MakeSubdir(w, fs, form.values, mkdir);
    if !ok {
      return;
    }
    if |form.fileFields| == 0 {
      w.Write(NoFileMessage);
      return;
    }
    StoreFileFields(w, fs, subdir, form.fileFields);
  }
}
