/**
 * Classifying a decoded entry as an image or as text, and the row shown for it.
 */
module Classify {
  import opened Wrappers

  const ImagePrefix: string := "image/"

  /** `mime.starts_with("image/")`. */
  predicate IsImageMime(mime: string)
  {
    |ImagePrefix| <= |mime| && mime[..|ImagePrefix|] == ImagePrefix
  }

  /**
   * The MIME string the program tests: the sniffer's output, or the empty
   * string (`unwrap_or_default`) when the sniff failed.
   */
  function MimeOf(sniffed: Option<string>): string
  {
    match sniffed
    case None => ""
    case Some(m) => m
  }

  /** What a row displays: a picture read from a file, or a text label. */
  datatype View = Picture(path: string) | Label(text: string)

  /** One row of the list; `id` is the identifier line the row's click handler captured. */
  datatype Row = Row(id: string, view: View)

  /**
   * The row built for identifier `line` whose staged bytes sniffed as `mime`:
   * a picture of the staging file when the MIME type is an image type, and
   * otherwise a label showing the identifier line itself (not the decoded bytes).
   */
  function RowFor(line: string, mime: string, stagingPath: string): (row: Row)
    ensures row.id == line
    ensures row.view.Picture? <==> IsImageMime(mime)
    ensures row.view.Picture? ==> row.view.path == stagingPath
    ensures row.view.Label? ==> row.view.text == line
  {
    if IsImageMime(mime) then Row(line, Picture(stagingPath)) else Row(line, Label(line))
  }

  /** `starts_with("image/")` holds exactly of the strings that are "image/" followed by something. */
  lemma ImageMimeIff(mime: string)
    ensures IsImageMime(mime) <==> exists rest :: mime == ImagePrefix + rest
  {
    if IsImageMime(mime) {
      assert mime == ImagePrefix + mime[|ImagePrefix|..];
    }
    if exists rest :: mime == ImagePrefix + rest {
      var rest :| mime == ImagePrefix + rest;
      assert mime[..|ImagePrefix|] == ImagePrefix;
    }
  }

  /**
   * An entry is classified as an image exactly when the sniff succeeded and
   * its output starts with "image/": the default for a failed sniff never does.
   */
  lemma ImageIffSniffedImage(sniffed: Option<string>)
    ensures IsImageMime(MimeOf(sniffed)) <==> (sniffed.Some? && IsImageMime(sniffed.value))
    ensures sniffed.None? ==> MimeOf(sniffed) == ""
  {
  }

  /** A failed sniff yields the empty MIME string, hence a text row showing the identifier. */
  lemma FailedSniffIsText(line: string, stagingPath: string)
    ensures RowFor(line, MimeOf(None), stagingPath) == Row(line, Label(line))
  {
  }

  /** What `file` prints for a PNG file classifies as an image; what it prints for text or an empty file does not. */
  lemma SnifferOutputs()
    ensures IsImageMime("image/png\n")
    ensures !IsImageMime("text/plain\n")
    ensures !IsImageMime("inode/x-empty\n")
  {
    assert ("image/png\n")[..|ImagePrefix|] == ImagePrefix;
    assert ("text/plain\n")[0] != ImagePrefix[0];
    assert ("inode/x-empty\n")[1] != ImagePrefix[1];
  }
}
