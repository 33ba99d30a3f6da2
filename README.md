# File server upload/download decisions in Dafny

This project models the decision logic of a small HTTP file server written
in Go (`main.go`): the upload handler `upload` with its helper `writeFile`,
the download handler `download`, and the pure helper `getContentType`.
File-system calls, the multipart parser, URL decoding and path joining are
not re-implemented: their outcomes are inputs of the model.

- `common.dfy` — `Option`, `Outcome` (Go's `error`), `Result`, `byte`.
- `text.dfy` (module `Text`) — `strings.Contains`, `strings.Split` on one
  character and its inverse `Join`, `strings.ToLower` as far as matching
  ASCII words goes, and decimal formatting (`%d`, `strconv.FormatInt`) with
  its inverse `ParseDecimal`.
- `content_type.dfy` (module `ContentType`) — `getContentType`: the
  extension is the text after the last `.`, and the returned type is
  always `application/octet-stream`, because the source overwrites the
  table's answer on its last line. The table is modelled separately by
  `TableType`, and `TableTypeOverridden` proves its answer never reaches
  the result.
- `upload_spec.dfy` (module `UploadSpec`) — the request (content type,
  declared length, parse result; scalar fields and file fields as
  sequences in whatever order Go's map iteration yields; each attachment
  with its file name, bytes and the outcomes of opening and writing it),
  the disk (created directories, stored files by path) and `HandleUpload`,
  the function that gives the new disk and the response body of one
  request.
- `upload_properties.dfy` (module `UploadProperties`) — what the upload
  handler promises, proved of `HandleUpload` for every field order.
- `upload_handler.dfy` (module `UploadHandler`) — the handler written as
  the source writes it: classes `Storage` (directories and files, updated
  in place) and `ResponseWriter` (the body, one chunk per `w.Write`), the
  method `WriteFile`, and the method `Upload`, which makes its checks and
  calls `MakeSubdir`, `StoreFileFields` and `StoreAttachments`, the loops
  over scalar fields, file fields and attachments; each is proved to do
  exactly what `HandleUpload` and its parts say.
- `download.dfy` (module `Download`) — `download` as a function from the
  request URI and the outcomes of decoding, opening and stat-ing to a reply
  (status, headers, body).

Points of the handlers' behaviour that the model keeps as the code has them:

- There is no `return` after the success message (main.go:95), so the
  handler goes on to the next file field. A field that succeeds appends
  "successful, N files uploaded"; the handler stops only at the first
  field with an empty key, more than 100 attachments, or a failing
  attachment, and the earlier success messages stay in the body.
- Within a field every attachment is tried; only the error of the last
  failing one is reported, and successful attachments stay written.
- The directory is created before the "no file" check, so it can exist
  after a request that stored nothing.
- The download's `Content-Disposition` uses the raw, still encoded request
  name, and its `Content-Type` is always `application/octet-stream`.
- A failure to decode the URI or to stat the file is answered with status
  200; only a failure to open the file gives 404.

## Model

| member | source | states |
|---|---|---|
| `Text.FormatDecimal` | main.go:174 | decimal formatting gives only digits, no leading zero, and parses back to the number it formats |
| `Text.Split` | main.go:115 | there is at least one piece and no piece contains the separator |
| `Text.SplitCount` | main.go:115-118 | there are two or more pieces exactly when the separator occurs in the string |
| `Text.SplitLastPiece` | main.go:115-119 | the last piece is a suffix of the string, preceded by the separator when there are two or more pieces |
| `Text.JoinSplit` | main.go:115 | joining the pieces with the separator gives back the split string |
| `Text.SplitJoin` | main.go:115 | splitting the join of separator-free pieces gives back the pieces |
| `Text.ToLowerEqualsWord` | main.go:120 | an extension lower-cases to a lower-case ASCII word exactly when it has the word's length and each character is the matching letter, its ASCII capital, or the non-ASCII capital (U+0130, U+212A) whose lower case is 'i' or 'k' |
| `ContentType.TableType` | main.go:120-137 | the table has an entry exactly for the ten known extensions, compared in lower case, and none of its types is application/octet-stream |
| `ContentType.GetContentType` | main.go:114-142 | the type is always application/octet-stream; the extension has no '.', is "" for a name without '.', and otherwise is the text after the last '.' |
| `ContentType.ExtensionIsLastPiece` | main.go:115-119 | for a name with a '.', the extension is the last piece of the name split on '.' |
| `ContentType.TableTypeOverridden` | main.go:139-140 | whenever the table knows the extension, the returned type differs from the table's type |
| `ContentType.TableTypeIgnoresCase` | main.go:120 | the table lookup gives the same answer for an extension and its lower-case form |
| `ContentType.PngExample` | main.go:114-142 | "photo.PNG" has extension "PNG", the table says image/png, and the type returned is application/octet-stream |
| `UploadProperties.WrongContentTypeRejected` | main.go:28-31 | a content type without multipart/form-data gives exactly the body "content-type must be multipart/form-data" and leaves directories and files as they were, whatever the length |
| `UploadProperties.OversizeRejected` | main.go:32-35 | a declared length at or over 20 MiB gives a single message containing the length and the limit, and leaves the disk unchanged |
| `UploadProperties.UnderLimitProceeds` | main.go:32-41 | a length strictly below the limit goes on: a parse error gives "ParseMultipartForm error:" plus its text, a parsed form is handled further |
| `UploadProperties.SubdirOfSpec` | main.go:46-49 | a subdirectory is chosen exactly when some field named "subdir" has a value, and then it is that field's first value, wherever the field stands |
| `UploadProperties.SubdirOfOrderFree` | main.go:46-57 | the chosen subdirectory does not depend on the order of the scalar fields |
| `UploadProperties.SubdirDirectory` | main.go:44-56 | RootDirectory/subdir is added to the directories when a "subdir" field has a value and MkdirAll succeeds; a failing MkdirAll gives only "mkdir fail, " plus that directory and changes nothing; without such a field no directory is made |
| `UploadProperties.NoFileAfterSubdir` | main.go:44-62 | with no file fields the body is "no file", no file changes, and the subdirectory has still been made |
| `UploadProperties.LastErrorSpec` | main.go:77-94 | the remembered error is nil exactly when no attachment failed to open or write, and otherwise it is the error of the last failing attachment |
| `UploadProperties.StoreAllFrame` | main.go:78-90 | handling a field's attachments never removes a file and changes only the destinations of attachments that opened and were created |
| `UploadProperties.StoreAllKeepsWrite` | main.go:78-111 | an attachment that opened and was created leaves its destination holding its bytes (or a partial file after a failed copy), whatever the other attachments did, unless a later attachment goes to the same destination |
| `UploadProperties.HandleFieldStops` | main.go:64-96 | the handler returns after a file field exactly when the field has an empty key, more than 100 attachments or a failing attachment; each field appends exactly one message |
| `UploadProperties.TooManyFiles` | main.go:72-75 | more than 100 attachments gives "too many files: N" before any attachment is opened, and stops; exactly 100 are handled |
| `UploadProperties.FieldFailure` | main.go:77-94 | when some attachment fails, all attachments are still stored as far as they go, the body gains "upload failed, last err: " plus the error of the last failing attachment, and the handler stops |
| `UploadProperties.FieldSuccess` | main.go:91-96 | a field without failures stores its attachments, appends "successful, N files uploaded" with N its number of attachments, and processing continues |
| `UploadProperties.StoppedIsFinal` | main.go:67-93 | once the handler has returned, the remaining file fields change neither the files nor the body |
| `UploadProperties.AllFieldsSucceed` | main.go:64-96 | when every file field succeeds, the body is one success message per field, in field order |
| `UploadProperties.FirstFailingFieldStops` | main.go:64-96 | the handler stops at the first failing field: the body is the success messages of the fields before it followed by that field's message, and later fields are never looked at |
| `UploadProperties.FieldsFrame` | main.go:64-90 | the file fields only add or change files at the destinations of their own attachments |
| `UploadProperties.UploadDestinations` | main.go:99-101 | every file a request creates or changes lies at (RootDirectory, subdir, filename) of one of its attachments, with subdir the first "subdir" value or "" |
| `UploadProperties.SingleAttachmentStored` | main.go:28-111 | a request under the limit with one file field holding one attachment that opens and is written stores its bytes at (RootDirectory, subdir, filename) and answers exactly "successful, 1 files uploaded" |
| `UploadHandler.Storage.MkdirAll` | main.go:50-54 | success adds the directory, failure changes nothing and returns the error |
| `UploadHandler.WriteFile` | main.go:99-112 | the destination is join(RootDirectory, subdir, filename); a create failure changes nothing, a copy failure leaves a truncated partial file, success stores the bytes; the error returned is the one that occurred |
| `UploadHandler.MakeSubdir` | main.go:44-57 | the loop over scalar fields yields the chosen subdirectory (or ""), makes RootDirectory/subdir, and on a MkdirAll failure writes "mkdir fail, " plus the directory |
| `UploadHandler.StoreAttachments` | main.go:77-90 | the loop over attachments stores them as the specification says and ends with the last error |
| `UploadHandler.StoreFileFields` | main.go:64-96 | the loop over file fields produces the files and body of the specification, returning at the first failing field |
| `UploadHandler.Upload` | main.go:23-97 | the handler leaves exactly the directories, files and body HandleUpload gives for the old disk, the request and the MkdirAll outcome |
| `Download.Download` | main.go:144-178 | the favicon gives an empty reply; status is 404 exactly when decoding succeeded and opening failed, otherwise 200; headers are set exactly when the file's bytes are sent; any Content-Type the handler sets is application/octet-stream |
| `Download.ServesFile` | main.go:165-177 | a file that opens and stats is sent whole with status 200 and exactly three headers: Content-Disposition "attachment; filename=" plus the raw URI minus its first character, Content-Type application/octet-stream, Content-Length the stat size |
| `Download.ReportsErrors` | main.go:151-169 | a decode failure gives its error text with status 200, an open failure its error text with status 404, a stat failure its error text with status 200, all without headers |

## Left out

- `main`, the listener and the route registration (main.go:186-193): server start-up, not decision logic.
- `req.ParseMultipartForm`: its result is an input (a parsed form or an error text); its in-memory ceiling is not modelled.
- `filepath.Join`: an abstract `join` parameter; its path cleaning is not modelled, so two (subdir, filename) pairs reach the same file only when `join` maps them to the same path.
- `url.QueryUnescape`: an abstract `unescape` parameter; percent-decoding is not modelled.
- `os.Open`, `f.Stat`, `f.Seek`, `io.Copy` in the download: an abstract `open` parameter yields the stat outcome and the bytes sent; a failing or short copy after the headers is not modelled.
- `os.Create` and `io.Copy` in writeFile: outcomes given per attachment; after a failed copy the file's contents are not modelled beyond "partial".
- `f.Open` of an attachment: its outcome is given per attachment; the descriptors the source never closes are not modelled.
- UploadHandler.Storage.MkdirAll: records only the requested directory, not the parents `os.MkdirAll` also creates, nor parents created before a failure; the 0755 permissions are not modelled.
- Logging, `spew.Dump` (main.go:42) and the KB size computed as a float (main.go:89): output only.
- Concurrent requests and Go's random map iteration order: the field order is an arbitrary parameter, and every property holds for every order.
- Download.Download: requires a non-empty request URI; slicing an empty one would panic, and the HTTP server never hands the handler one.
- Text.ToLower: folds only A-Z, U+0130 and U+212A (the characters whose lower case is ASCII), which decides table matches exactly as Go's full Unicode lower-casing does but does not model the lower case of other characters.
- Go strings are bytes, the model's are Unicode characters; for the valid UTF-8 requests the server passes to the handlers this changes nothing in `Split`, `Contains` or `RequestURI[1:]`.
- UploadHandler.WriteFile: ignores, as the source does, the error of the deferred `dst.Close()` (main.go:102); a write is `Complete` even if closing the file fails.
- Download.Download: its `headers` are only those the handler sets; net/http's sniffed `Content-Type` on the error replies (main.go:154, 161, 167) is not modelled.
- Uploading a file and downloading it again: the download's file outcomes are inputs, so the round trip through the disk is not stated.
