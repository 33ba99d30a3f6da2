/**
 * The download handler (main.go:144-178): the reply to a GET request,
 * decided from the raw request URI and the outcomes of decoding it,
 * opening the file and stat-ing it.
 */
module Download {
  import opened Common
  import opened Text
  import opened ContentType
  import UploadSpec

  /** The request the handler ignores (main.go:145). */
  const FaviconPath := "/favicon.ico"
  /** The status a reply has unless WriteHeader says otherwise. */
  const StatusOK: nat := 200
  const StatusNotFound: nat := 404

  /** What was written to the body: nothing, an error text, or the file's bytes. */
  datatype Body = NoBody | Message(text: string) | FileBytes(data: seq<byte>)

  datatype Reply = Reply(status: nat, headers: map<string, string>, body: Body)

  /** An open file: the outcome of f.Stat() (its size) and the bytes io.Copy sends. */
  datatype OpenedFile = OpenedFile(stat: Result<nat>, data: seq<byte>)

  /** The name a request asks for: the raw URI without its first character (main.go:151). */
  function RequestedName(uri: string): string
    requires uri != ""
  {
    uri[1..]
  }

  /** The path the handler opens: the decoded name under the root (main.go:158). */
  function OpenPath(join: seq<string> -> string, decoded: string): string {
    join([UploadSpec.RootDirectory, decoded])
  }

  /** The three headers of a successful download (main.go:171-174). */
  function DownloadHeaders(name: string, size: nat): map<string, string> {
    map[
      "Content-Disposition" := "attachment; filename=" + name,
      "Content-Type" := GetContentType(name).contentType,
      "Content-Length" := FormatDecimal(size)
    ]
  }

  /**
   * download: `unescape` stands for url.QueryUnescape, `join` for
   * filepath.Join and `open` for os.Open on the resulting path.
   */
  function Download(uri: string, join: seq<string> -> string, unescape: string -> Result<string>, open: string -> Result<OpenedFile>): (r: Reply)
    requires uri != ""
    ensures uri == FaviconPath ==> r == Reply(StatusOK, map[], NoBody)
    ensures r.status == StatusNotFound <==>
      uri != FaviconPath && unescape(RequestedName(uri)).Ok? &&
      open(OpenPath(join, unescape(RequestedName(uri)).value)).Err?
    ensures r.status == StatusOK || r.status == StatusNotFound
    ensures r.body.FileBytes? <==> r.headers != map[]
    ensures "Content-Type" in r.headers ==> r.headers["Content-Type"] == OctetStream
  {
    if uri == FaviconPath then Reply(StatusOK, map[], NoBody)
    else
      var filename := RequestedName(uri);
      var decoded := unescape(filename);
      if decoded.Err? then Reply(StatusOK, map[], Message(decoded.error))
      else
        var f := open(OpenPath(join, decoded.value));
        if f.Err? then Reply(StatusNotFound, map[], Message(f.error))
        else if f.value.stat.Err? then Reply(StatusOK, map[], Message(f.value.stat.error))
        else
          var headers := DownloadHeaders(filename, f.value.stat.value);
          assert "Content-Length" in headers;
          Reply(StatusOK, headers, FileBytes(f.value.data))
  }

  /**
   * A file that opens and stats is sent whole, as an attachment named by
   * the raw (still encoded) request name, typed OctetStream, with the
   * stat size as its length.
   */
  lemma ServesFile(uri: string, join: seq<string> -> string, unescape: string -> Result<string>, open: string -> Result<OpenedFile>)
    requires uri != "" && uri != FaviconPath
    requires unescape(RequestedName(uri)).Ok?
    requires var f := open(OpenPath(join, unescape(RequestedName(uri)).value));
      f.Ok? && f.value.stat.Ok?
    ensures var f := open(OpenPath(join, unescape(RequestedName(uri)).value)).value;
      var r := Download(uri, join, unescape, open);
      r.status == StatusOK && r.body == FileBytes(f.data) &&
      r.headers.Keys == {"Content-Disposition", "Content-Type", "Content-Length"} &&
      r.headers["Content-Disposition"] == "attachment; filename=" + uri[1..] &&
      r.headers["Content-Type"] == OctetStream &&
      ParseDecimal(r.headers["Content-Length"]) == f.stat.value
  {
  }

  /** Every failure is reported by its error text, with status 404 only when the open failed. */
  lemma ReportsErrors(uri: string, join: seq<string> -> string, unescape: string -> Result<string>, open: string -> Result<OpenedFile>)
    requires uri != "" && uri != FaviconPath
    ensures var r := Download(uri, join, unescape, open);
      var decoded := unescape(RequestedName(uri));
      (decoded.Err? ==> r == Reply(StatusOK, map[], Message(decoded.error))) &&
      (decoded.Ok? && open(OpenPath(join, decoded.value)).Err? ==>
        r == Reply(StatusNotFound, map[], Message(open(OpenPath(join, decoded.value)).error))) &&
      (decoded.Ok? && open(OpenPath(join, decoded.value)).Ok? && open(OpenPath(join, decoded.value)).value.stat.Err? ==>
        r == Reply(StatusOK, map[], Message(open(OpenPath(join, decoded.value)).value.stat.error)))
  {
  }
}
