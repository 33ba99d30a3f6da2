/**
 * What the upload handler promises, proved about its specification
 * HandleUpload (module UploadSpec). Every property holds for every order of
 * the form's fields, since the order is an arbitrary parameter.
 */
module UploadProperties {
  import opened Common
  import opened Text
  import opened UploadSpec

  // ---------------------------------------------------------------------
  // The checks before the form is looked at (main.go:28-41)

  /** A content type without the multipart marker is refused first, and nothing is created. */
  lemma WrongContentTypeRejected(disk: Disk, join: seq<string> -> string, req: Request, mkdir: Outcome)
    requires !Contains(req.contentType, FormDataMarker)
    ensures HandleUpload(disk, join, req, mkdir) == UploadResult(disk, [ContentTypeMessage])
  {
  }

  /**
   * A declared length at or over the limit is refused with a message that
   * names both the length and the limit, and nothing is created.
   */
  lemma OversizeRejected(disk: Disk, join: seq<string> -> string, req: Request, mkdir: Outcome)
    requires Contains(req.contentType, FormDataMarker)
    requires req.contentLength >= MaxFileSize
    ensures var r := HandleUpload(disk, join, req, mkdir);
      r.disk == disk && |r.body| == 1 &&
      Contains(r.body[0], FormatDecimal(req.contentLength)) &&
      Contains(r.body[0], FormatDecimal(MaxFileSize))
  {
    var n := FormatDecimal(req.contentLength);
    var limit := FormatDecimal(MaxFileSize);
    ContainsInfix("[E] file to large, length=", n, ", limit " + limit);
    assert TooLargeMessage(req.contentLength) == "[E] file to large, length=" + n + (", limit " + limit);
    ContainsInfix("[E] file to large, length=" + n + ", limit ", limit, "");
    assert TooLargeMessage(req.contentLength) == "[E] file to large, length=" + n + ", limit " + limit + "";
  }

  /** A length strictly under the limit goes on to the parse result and the form. */
  lemma UnderLimitProceeds(disk: Disk, join: seq<string> -> string, req: Request, mkdir: Outcome)
    requires Contains(req.contentType, FormDataMarker)
    requires req.contentLength < MaxFileSize
    ensures req.form.Err? ==> HandleUpload(disk, join, req, mkdir) == UploadResult(disk, [ParseErrorMessage(req.form.error)])
    ensures req.form.Ok? ==> HandleUpload(disk, join, req, mkdir) == HandleForm(disk, join, req.form.value, mkdir)
  {
  }

  // ---------------------------------------------------------------------
  // The subdirectory (main.go:44-57)

  /**
   * SubdirOf finds a "subdir" field with a value when there is one, and
   * then gives its first value, whichever position the field has.
   */
  lemma {:induction false} SubdirOfSpec(values: seq<ValueField>)
    requires DistinctKeys(values)
    ensures SubdirOf(values).Some? <==> exists i :: 0 <= i < |values| && NamesSubdir(values[i])
    ensures forall i :: 0 <= i < |values| && NamesSubdir(values[i]) ==> SubdirOf(values) == Some(values[i].values[0])
    decreases |values|
  {
    if values != [] {
      var init := DropLast(values);
      assert DistinctKeys(init) by {
        forall i, j | 0 <= i < j < |init| ensures init[i].key != init[j].key {
          assert init[i] == values[i] && init[j] == values[j];
        }
      }
      SubdirOfSpec(init);
      forall i | 0 <= i < |init| ensures init[i] == values[i] { }
      if !NamesSubdir(Last(values)) {
        assert forall i :: 0 <= i < |values| && NamesSubdir(values[i]) ==> i < |init|;
      } else {
        forall i | 0 <= i < |init| ensures !NamesSubdir(init[i]) {
          assert values[i].key != values[|values| - 1].key;
        }
      }
    }
  }

  /** The subdirectory does not depend on the order of the scalar fields. */
  lemma SubdirOfOrderFree(a: seq<ValueField>, b: seq<ValueField>)
    requires DistinctKeys(a) && DistinctKeys(b)
    requires forall f :: f in a <==> f in b
    ensures SubdirOf(a) == SubdirOf(b)
  {
    SubdirOfSpec(a);
    SubdirOfSpec(b);
    forall i | 0 <= i < |a| && NamesSubdir(a[i]) ensures SubdirOf(b) == Some(a[i].values[0]) {
      assert a[i] in b;
    }
    forall i | 0 <= i < |b| && NamesSubdir(b[i]) ensures SubdirOf(a) == Some(b[i].values[0]) {
      assert b[i] in a;
    }
  }

  /**
   * After the checks, RootDirectory/subdir is created exactly when a
   * "subdir" field has a value (its first one is used) and MkdirAll
   * succeeds; a failing MkdirAll aborts with the directory's name and
   * leaves the disk as it was. This happens before the "no file" check.
   */
  lemma SubdirDirectory(disk: Disk, join: seq<string> -> string, form: Form, mkdir: Outcome)
    requires DistinctKeys(form.values)
    ensures var r := HandleForm(disk, join, form, mkdir);
      forall i :: 0 <= i < |form.values| && NamesSubdir(form.values[i]) ==>
        var dir := join([RootDirectory, form.values[i].values[0]]);
        (mkdir.Fail? ==> r == UploadResult(disk, [MkdirFailMessage(dir)])) &&
        (mkdir.Pass? ==> r.disk.dirs == disk.dirs + {dir})
    ensures (forall i :: 0 <= i < |form.values| ==> !NamesSubdir(form.values[i])) ==>
      HandleForm(disk, join, form, mkdir).disk.dirs == disk.dirs
  {
    SubdirOfSpec(form.values);
  }

  /** Without file fields the body is "no file", yet the subdirectory has been made. */
  lemma NoFileAfterSubdir(disk: Disk, join: seq<string> -> string, form: Form, mkdir: Outcome)
    requires |form.fileFields| == 0
    requires SubdirOf(form.values).None? || mkdir.Pass?
    ensures var r := HandleForm(disk, join, form, mkdir);
      r.body == [NoFileMessage] && r.disk.files == disk.files &&
      (SubdirOf(form.values).Some? ==> join([RootDirectory, SubdirOf(form.values).value]) in r.disk.dirs)
  {
  }

  // ---------------------------------------------------------------------
  // Attachments (main.go:77-90, main.go:99-111)

  /** Whether handling the attachment creates (and so changes) its destination file. */
  predicate Touches(a: Attachment) {
    a.open.Pass? && !a.write.CreateFailed?
  }

  /** What the destination of a touching attachment holds right after it. */
  function Stored(a: Attachment): StoredFile {
    if a.write.Written? then Complete(a.data) else Partial
  }

  /**
   * `lastErr` is nil exactly when no attachment failed, and otherwise is
   * the error of the last attachment that did.
   */
  lemma {:induction false} LastErrorSpec(atts: seq<Attachment>)
    ensures LastError(atts).None? <==> forall i :: 0 <= i < |atts| ==> AttachmentError(atts[i]).None?
    ensures LastError(atts).Some? ==>
      exists i :: 0 <= i < |atts| && LastError(atts) == AttachmentError(atts[i]) &&
        forall j :: i < j < |atts| ==> AttachmentError(atts[j]).None?
    decreases |atts|
  {
    if atts != [] {
      var init := DropLast(atts);
      LastErrorSpec(init);
      assert forall i :: 0 <= i < |init| ==> init[i] == atts[i];
      if AttachmentError(Last(atts)).Some? {
        assert LastError(atts) == AttachmentError(atts[|atts| - 1]);
      } else if LastError(init).Some? {
        var i :| 0 <= i < |init| && LastError(init) == AttachmentError(init[i]) &&
          forall j :: i < j < |init| ==> AttachmentError(init[j]).None?;
        assert LastError(atts) == AttachmentError(atts[i]);
      }
    }
  }

  /**
   * Handling attachments only adds files at the destinations of the
   * attachments that opened and were created; everything else keeps its
   * contents.
   */
  lemma {:induction false} StoreAllFrame(files: map<string, StoredFile>, join: seq<string> -> string, subdir: string, atts: seq<Attachment>)
    ensures files.Keys <= StoreAll(files, join, subdir, atts).Keys
    ensures forall path :: path in StoreAll(files, join, subdir, atts) && (path !in files || StoreAll(files, join, subdir, atts)[path] != files[path]) ==>
      exists i :: 0 <= i < |atts| && Touches(atts[i]) && path == Destination(join, subdir, atts[i].filename)
    decreases |atts|
  {
    if atts != [] {
      var init := DropLast(atts);
      StoreAllFrame(files, join, subdir, init);
      assert forall i :: 0 <= i < |init| ==> init[i] == atts[i];
    }
  }

  /**
   * Every attachment that opened and was created leaves its destination
   * holding what it wrote, unless a later attachment of the field goes to
   * the same destination; failures of other attachments do not undo it.
   */
  lemma {:induction false} StoreAllKeepsWrite(files: map<string, StoredFile>, join: seq<string> -> string, subdir: string, atts: seq<Attachment>, i: nat)
    requires i < |atts| && Touches(atts[i])
    requires forall j :: i < j < |atts| && Touches(atts[j]) ==>
      Destination(join, subdir, atts[j].filename) != Destination(join, subdir, atts[i].filename)
    ensures var path := Destination(join, subdir, atts[i].filename);
      path in StoreAll(files, join, subdir, atts) && StoreAll(files, join, subdir, atts)[path] == Stored(atts[i])
    decreases |atts|
  {
    if i < |atts| - 1 {
      var init := DropLast(atts);
      assert forall j :: 0 <= j < |init| ==> init[j] == atts[j];
      StoreAllKeepsWrite(files, join, subdir, init, i);
    }
  }

  // ---------------------------------------------------------------------
  // One file field (main.go:64-96)

  /** A field that is handled to the end and answers "successful". */
  predicate FieldSucceeds(field: FileField) {
    |field.key| > 0 && |field.files| <= MaxFilesPerField &&
    forall i :: 0 <= i < |field.files| ==> AttachmentError(field.files[i]).None?
  }

  /** The handler returns after a field exactly when that field does not succeed. */
  lemma HandleFieldStops(p: Progress, join: seq<string> -> string, subdir: string, field: FileField)
    ensures HandleField(p, join, subdir, field).stopped <==> !FieldSucceeds(field)
    ensures |HandleField(p, join, subdir, field).body| == |p.body| + 1
    ensures HandleField(p, join, subdir, field).body[..|p.body|] == p.body
  {
    LastErrorSpec(field.files);
    var r := HandleField(p, join, subdir, field);
    assert r.body == p.body + [Last(r.body)];
  }

  /**
   * More than 100 attachments: "too many files: N" and none of them is
   * opened or written. Exactly 100 is allowed.
   */
  lemma TooManyFiles(p: Progress, join: seq<string> -> string, subdir: string, field: FileField)
    requires |field.key| > 0
    ensures |field.files| > MaxFilesPerField ==>
      HandleField(p, join, subdir, field) == Progress(p.files, p.body + [TooManyMessage(|field.files|)], true)
    ensures |field.files| == MaxFilesPerField ==>
      HandleField(p, join, subdir, field).files == StoreAll(p.files, join, subdir, field.files)
  {
  }

  /**
   * When some attachment fails, every attachment is still attempted, the
   * body ends with the error of the last failing one, and the handler
   * returns.
   */
  lemma FieldFailure(p: Progress, join: seq<string> -> string, subdir: string, field: FileField)
    requires |field.key| > 0 && |field.files| <= MaxFilesPerField
    requires exists i :: 0 <= i < |field.files| && AttachmentError(field.files[i]).Some?
    ensures var r := HandleField(p, join, subdir, field);
      r.stopped && r.files == StoreAll(p.files, join, subdir, field.files) &&
      exists i :: 0 <= i < |field.files| && AttachmentError(field.files[i]).Some? &&
        r.body == p.body + [FailedMessage(AttachmentError(field.files[i]).value)] &&
        forall j :: i < j < |field.files| ==> AttachmentError(field.files[j]).None?
  {
    LastErrorSpec(field.files);
  }

  /** A field without failures appends "successful, N files uploaded" and the handler goes on. */
  lemma FieldSuccess(p: Progress, join: seq<string> -> string, subdir: string, field: FileField)
    requires FieldSucceeds(field)
    ensures HandleField(p, join, subdir, field) ==
      Progress(StoreAll(p.files, join, subdir, field.files), p.body + [SuccessMessage(|field.files|)], false)
  {
    LastErrorSpec(field.files);
  }

  // ---------------------------------------------------------------------
  // All file fields

  /** The success messages of the given fields, in order. */
  function Successes(fields: seq<FileField>): seq<string> {
    seq(|fields|, i requires 0 <= i < |fields| => SuccessMessage(|fields[i].files|))
  }

  /** Once the handler has returned, the remaining fields change nothing. */
  lemma {:induction false} StoppedIsFinal(p: Progress, join: seq<string> -> string, subdir: string, fields: seq<FileField>, n: nat)
    requires n <= |fields|
    requires HandleFields(p, join, subdir, fields[..n]).stopped
    ensures HandleFields(p, join, subdir, fields) == HandleFields(p, join, subdir, fields[..n])
    decreases |fields| - n
  {
    if n < |fields| {
      assert DropLast(fields[..n + 1]) == fields[..n];
      StoppedIsFinal(p, join, subdir, fields, n + 1);
    } else {
      assert fields[..n] == fields;
    }
  }

  /** When every field succeeds, the body is one success message per field. */
  lemma {:induction false} AllFieldsSucceed(p: Progress, join: seq<string> -> string, subdir: string, fields: seq<FileField>)
    requires !p.stopped
    requires forall i :: 0 <= i < |fields| ==> FieldSucceeds(fields[i])
    ensures !HandleFields(p, join, subdir, fields).stopped
    ensures HandleFields(p, join, subdir, fields).body == p.body + Successes(fields)
    decreases |fields|
  {
    if fields != [] {
      var init := DropLast(fields);
      assert forall i :: 0 <= i < |init| ==> init[i] == fields[i];
      AllFieldsSucceed(p, join, subdir, init);
      FieldSuccess(HandleFields(p, join, subdir, init), join, subdir, Last(fields));
      assert Successes(fields) == Successes(init) + [SuccessMessage(|Last(fields).files|)];
    }
  }

  /**
   * The handler stops at the first field that does not succeed: the body
   * keeps the success messages of the fields before it, then that field's
   * message, and no later field is looked at.
   */
  lemma FirstFailingFieldStops(p: Progress, join: seq<string> -> string, subdir: string, fields: seq<FileField>, k: nat)
    requires !p.stopped
    requires k < |fields| && !FieldSucceeds(fields[k])
    requires forall i :: 0 <= i < k ==> FieldSucceeds(fields[i])
    ensures var before := HandleFields(p, join, subdir, fields[..k]);
      var r := HandleFields(p, join, subdir, fields);
      r == HandleField(before, join, subdir, fields[k]) && r.stopped &&
      before.body == p.body + Successes(fields[..k]) &&
      |r.body| == |p.body| + k + 1 && r.body[..|p.body| + k] == p.body + Successes(fields[..k])
  {
    var before := HandleFields(p, join, subdir, fields[..k]);
    AllFieldsSucceed(p, join, subdir, fields[..k]);
    assert DropLast(fields[..k + 1]) == fields[..k];
    HandleFieldStops(before, join, subdir, fields[k]);
    StoppedIsFinal(p, join, subdir, fields, k + 1);
  }

  /** The file fields only change files at the destinations of their attachments. */
  lemma {:induction false} FieldsFrame(p: Progress, join: seq<string> -> string, subdir: string, fields: seq<FileField>)
    ensures p.files.Keys <= HandleFields(p, join, subdir, fields).files.Keys
    ensures var files := HandleFields(p, join, subdir, fields).files;
      forall path :: path in files && (path !in p.files || files[path] != p.files[path]) ==>
        exists i, j :: 0 <= i < |fields| && 0 <= j < |fields[i].files| &&
          Touches(fields[i].files[j]) && path == Destination(join, subdir, fields[i].files[j].filename)
    decreases |fields|
  {
    if fields != [] {
      var init := DropLast(fields);
      FieldsFrame(p, join, subdir, init);
      var before := HandleFields(p, join, subdir, init);
      var field := Last(fields);
      StoreAllFrame(before.files, join, subdir, field.files);
      var files := HandleFields(p, join, subdir, fields).files;
      forall path | path in files && (path !in p.files || files[path] != p.files[path])
        ensures exists i, j ::
          0 <= i < |fields| && 0 <= j < |fields[i].files| &&
          Touches(fields[i].files[j]) && path == Destination(join, subdir, fields[i].files[j].filename)
      {
        if path in before.files && files[path] == before.files[path] {
          var i, j :| 0 <= i < |init| && 0 <= j < |init[i].files| &&
            Touches(init[i].files[j]) && path == Destination(join, subdir, init[i].files[j].filename);
          assert init[i] == fields[i];
        } else {
          var j :| 0 <= j < |field.files| && Touches(field.files[j]) && path == Destination(join, subdir, field.files[j].filename);
          assert field == fields[|fields| - 1];
        }
      }
    }
  }

  /**
   * Every file an upload creates or changes lies at (RootDirectory,
   * subdir, filename) for one of its attachments, with subdir the first
   * value of the "subdir" field, or "" when there is none.
   */
  lemma UploadDestinations(disk: Disk, join: seq<string> -> string, req: Request, mkdir: Outcome)
    ensures var r := HandleUpload(disk, join, req, mkdir);
      disk.files.Keys <= r.disk.files.Keys &&
      forall path :: path in r.disk.files && (path !in disk.files || r.disk.files[path] != disk.files[path]) ==>
        req.form.Ok? &&
        var form := req.form.value;
        var subdir := if SubdirOf(form.values).Some? then SubdirOf(form.values).value else "";
        exists i, j :: 0 <= i < |form.fileFields| && 0 <= j < |form.fileFields[i].files| &&
          path == Destination(join, subdir, form.fileFields[i].files[j].filename)
  {
    if req.form.Ok? {
      var form := req.form.value;
      var subdir := if SubdirOf(form.values).Some? then SubdirOf(form.values).value else "";
      FieldsFrame(Progress(disk.files, [], false), join, subdir, form.fileFields);
    }
  }

  /**
   * The basic promise of an upload: a request under the limit with one
   * file field holding one attachment that opens and is written stores its
   * bytes at (RootDirectory, subdir, filename) and answers
   * "successful, 1 files uploaded".
   */
  lemma SingleAttachmentStored(disk: Disk, join: seq<string> -> string, req: Request, mkdir: Outcome, key: string, a: Attachment)
    requires Contains(req.contentType, FormDataMarker) && req.contentLength < MaxFileSize
    requires req.form.Ok? && req.form.value.fileFields == [FileField(key, [a])]
    requires |key| > 0 && a.open.Pass? && a.write.Written?
    requires SubdirOf(req.form.value.values).None? || mkdir.Pass?
    ensures var sub := SubdirOf(req.form.value.values);
      var subdir := if sub.Some? then sub.value else "";
      var r := HandleUpload(disk, join, req, mkdir);
      r.body == [SuccessMessage(1)] &&
      Destination(join, subdir, a.filename) in r.disk.files &&
      r.disk.files[Destination(join, subdir, a.filename)] == Complete(a.data)
  {
    var sub := SubdirOf(req.form.value.values);
    var subdir := if sub.Some? then sub.value else "";
    var field := FileField(key, [a]);
    var start := Progress(disk.files, [], false);
    assert DropLast([field]) == [] && Last([field]) == field;
    assert HandleFields(start, join, subdir, []) == start;
    assert FieldSucceeds(field);
    FieldSuccess(start, join, subdir, field);
    StoreAllKeepsWrite(disk.files, join, subdir, [a], 0);
    var p := HandleFields(start, join, subdir, [field]);
    assert p == HandleField(start, join, subdir, field);
    assert HandleUpload(disk, join, req, mkdir) == HandleForm(disk, join, req.form.value, mkdir);
    assert |req.form.value.fileFields| != 0;
    assert HandleUpload(disk, join, req, mkdir).disk.files == p.files;
    assert HandleUpload(disk, join, req, mkdir).body == p.body;
  }
}
