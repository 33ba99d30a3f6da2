/**
 * getContentType (main.go:114-142): the file extension of a name and the
 * MIME type a download is served with.
 */
module ContentType {
  import opened Common
  import opened Text

  /** The generic binary-stream type that every download is served with. */
  const OctetStream := "application/octet-stream"

  /** The extensions the table knows, in lower case. */
  const TableExtensions := {"jpeg", "jpe", "jpg", "png", "gif", "mp4", "mp3", "wav", "pdf", "doc"}

  /** The pair getContentType returns. */
  datatype Typed = Typed(extension: string, contentType: string)

  /**
   * The extension-to-type table of main.go:120-137, matched on the
   * lower-cased extension. An extension outside the table has no entry.
   */
  function TableType(extension: string): (t: Option<string>)
    ensures t.Some? ==> t.value != OctetStream
    ensures t.Some? <==> ToLower(extension) in TableExtensions
  {
    var e := ToLower(extension);
    if e == "jpeg" || e == "jpe" || e == "jpg" then Some("image/jpeg")
    else if e == "png" then Some("image/png")
    else if e == "gif" then Some("image/gif")
    else if e == "mp4" then Some("video/mpeg4")
    else if e == "mp3" then Some("audio/mp3")
    else if e == "wav" then Some("audio/wav")
    else if e == "pdf" then Some("application/pdf")
    else if e == "doc" then Some("application/msword")
    else None
  }

  /**
   * getContentType: the extension is the text after the last '.' when the
   * name has one, and "" otherwise. The type the table gives for it
   * (TableType) is then replaced by OctetStream (main.go:140), so the
   * returned type never depends on the name; the lookup has no other
   * effect and is left out of the body.
   */
  function GetContentType(fileName: string): (r: Typed)
    ensures r.contentType == OctetStream
    ensures '.' !in r.extension
    ensures '.' !in fileName ==> r.extension == ""
    ensures '.' in fileName ==>
      |r.extension| < |fileName| &&
      fileName[|fileName| - |r.extension| - 1] == '.' &&
      fileName[|fileName| - |r.extension|..] == r.extension
  {
    var parts := Split(fileName, '.');
    SplitCount(fileName, '.');
    SplitLastPiece(fileName, '.');
    var extension := if |parts| >= 2 then Last(parts) else "";
    Typed(extension, OctetStream)
  }

  /** The extension is exactly the last piece of the name split on '.'. */
  lemma ExtensionIsLastPiece(fileName: string)
    requires '.' in fileName
    ensures GetContentType(fileName).extension == Last(Split(fileName, '.'))
  {
  }

  /**
   * The table lookup is overridden: for a name whose extension is in the
   * table, the type returned is not the table's type.
   */
  lemma TableTypeOverridden(fileName: string)
    requires TableType(GetContentType(fileName).extension).Some?
    ensures GetContentType(fileName).contentType != TableType(GetContentType(fileName).extension).value
  {
  }

  /** The table ignores the case of the extension. */
  lemma {:induction false} TableTypeIgnoresCase(extension: string)
    ensures TableType(extension) == TableType(ToLower(extension))
  {
    ToLowerIdempotent(extension);
  }

  /** An example of both points: "photo.PNG" has a table type, yet is served as OctetStream. */
  lemma PngExample()
    ensures GetContentType("photo.PNG") == Typed("PNG", OctetStream)
    ensures TableType("PNG") == Some("image/png")
  {
    PhotoPngSplits();
    ToLowerEqualsWord("PNG", "png");
  }

  lemma PhotoPngSplits()
    ensures Split("photo.PNG", '.') == ["photo", "PNG"]
  {
    assert "photo.PNG" == "photo" + ['.'] + "PNG";
    SplitTwo("photo", '.', "PNG");
  }

  lemma SplitTwo(x: string, sep: char, y: string)
    requires sep !in x && sep !in y
    ensures Split(x + [sep] + y, sep) == [x, y]
  {
    SplitAppend(x, sep, y);
    SplitNoSeparator(x, sep);
  }
}
