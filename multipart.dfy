/**
 * The minimal `multipart/form-data` decoder of FileController.java
 * (`Multiparser.parse`). It handles a single file part: the filename
 * parameter of RFC 7578 section 4.2, an optional Content-Type line, and the
 * content up to the closing delimiter of RFC 2046 section 5.1.1, falling back
 * to a plain delimiter. Every failure, including the exceptions the source
 * catches, yields `None`.
 */
module Multipart {
  import opened Wrappers
  import opened Charset
  import opened Search

  const FilenameMarker: string := "filename=\""
  const Quote: string := "\""
  const ContentTypeMarker: string := "Content-Type: "
  const Crlf: string := "\r\n"
  const HeaderEndMarker: string := "\r\n\r\n"

  /** `Multiparser.ParseResult`: the decoded file part. */
  datatype Part = Part(filename: string, fileContent: seq<byte>, contentType: Option<string>)

  /** What the Content-Type step finds; `Unterminated` is where `substring` throws. */
  datatype ContentTypeLine = NoLine | Line(value: string) | Unterminated {
    function AsOption(): Option<string> {
      if Line? then Some(value) else None
    }
  }

  /** The bytes of `"\r\n--" + boundary + "--"`, the closing delimiter. */
  function CloseDelimiter(boundary: string): seq<byte> {
    Encode("\r\n--" + boundary + "--")
  }

  /** The bytes of `"\r\n--" + boundary`, a delimiter that more parts follow. */
  function Delimiter(boundary: string): seq<byte> {
    Encode("\r\n--" + boundary)
  }

  lemma MatchAtSingle<T>(s: seq<T>, c: T, j: int)
    ensures MatchAt(s, [c], j) <==> 0 <= j < |s| && s[j] == c
  {
    if 0 <= j < |s| {
      assert s[j..j + 1] == [s[j]];
    }
  }

  /**
   * The filename step: the text between the first `filename="` and the next
   * quote, with the offset of that quote. `None` when there is no marker, and
   * when no quote follows it (`substring` with end -1 throws).
   */
  function FilenameOf(text: string): (r: Option<(string, nat)>)
    ensures r.Some? ==> '"' !in r.value.0
  {
    var fs := IndexOf(text, FilenameMarker, 0);
    if fs == -1 then None
    else
      var ns := fs + |FilenameMarker|;
      var fe := IndexOf(text, Quote, ns);
      if fe == -1 then None
      else
        assert forall i :: 0 <= i < fe - ns ==> text[ns..fe][i] != '"' by {
          forall i | 0 <= i < fe - ns
            ensures text[ns..fe][i] != '"'
          {
            MatchAtSingle(text, '"', ns + i);
          }
        }
        Some((text[ns..fe], fe))
  }

  /**
   * The Content-Type step: `Content-Type: ` searched from the closing quote.
   * There is no line exactly when no marker follows.
   */
  function ContentTypeOf(text: string, nameEnd: nat): (r: ContentTypeLine)
    ensures r == NoLine <==> Absent(text, ContentTypeMarker, nameEnd)
  {
    var cs := IndexOf(text, ContentTypeMarker, nameEnd);
    if cs == -1 then NoLine
    else
      var vs := cs + |ContentTypeMarker|;
      var ce := IndexOf(text, Crlf, vs);
      if ce == -1 then Unterminated else Line(text[vs..ce])
  }

  /**
   * The content step: from just after the first `\r\n\r\n` up to the first
   * closing delimiter, else the first plain delimiter. `None` when the blank
   * line or both delimiters are missing, or when the content would be empty.
   */
  function ContentOf(data: seq<byte>, boundary: string): (r: Option<seq<byte>>)
    ensures r.Some? ==> |r.value| > 0
  {
    var headerEnd := IndexOf(Decode(data), HeaderEndMarker, 0);
    if headerEnd == -1 then None
    else ContentFromStart(data, boundary, headerEnd + |HeaderEndMarker|)
  }

  /** The content from `contentStart` to its end; `None` when it has no end or is empty. */
  function ContentFromStart(data: seq<byte>, boundary: string, contentStart: nat): (r: Option<seq<byte>>)
    ensures r.Some? ==> |r.value| > 0
  {
    var contentEnd := ContentEndOf(data, boundary, contentStart);
    if contentEnd == -1 || contentEnd <= contentStart then None
    else Some(data[contentStart..contentEnd])
  }

  /** The first closing delimiter from `contentStart`, else the first plain one, else -1. */
  function ContentEndOf(data: seq<byte>, boundary: string, contentStart: nat): (r: int)
    ensures r == -1 <==> Absent(data, CloseDelimiter(boundary), contentStart) &&
                         Absent(data, Delimiter(boundary), contentStart)
    ensures r != -1 ==> contentStart <= r <= |data|
  {
    var closeAt := IndexOf(data, CloseDelimiter(boundary), contentStart);
    if closeAt != -1 then closeAt else IndexOf(data, Delimiter(boundary), contentStart)
  }

  /**
   * `Multiparser.parse()`: the three steps in the source's order. The text
   * steps search the body decoded in the platform charset and the content
   * step searches the raw bytes; under ISO-8859-1 their offsets agree.
   */
  function Parse(data: seq<byte>, boundary: string): (r: Option<Part>)
    ensures r.Some? ==> |r.value.fileContent| > 0 && '"' !in r.value.filename
  {
    var text := Decode(data);
    match FilenameOf(text)
    case None => None
    case Some((filename, nameEnd)) =>
      var line := ContentTypeOf(text, nameEnd);
      if line.Unterminated? then None
      else
        match ContentOf(data, boundary)
        case None => None
        case Some(content) => Some(Part(filename, content, line.AsOption()))
  }

  // ---- An independent, declarative description of the decoder ----

  /** `k` is the first offset at or after `from` at which `pat` occurs in `s`. */
  ghost predicate IsFirst<T>(s: seq<T>, pat: seq<T>, from: int, k: int) {
    from <= k && MatchAt(s, pat, k) && forall i :: from <= i < k ==> !MatchAt(s, pat, i)
  }

  /** `pat` does not occur in `s` at or after `from`. */
  ghost predicate Absent<T>(s: seq<T>, pat: seq<T>, from: int) {
    forall i :: from <= i ==> !MatchAt(s, pat, i)
  }

  /** The filename is the text between the first marker and the next quote, at `nameEnd`. */
  ghost predicate FilenameAt(text: string, nameEnd: int, filename: string) {
    exists fs ::
      IsFirst(text, FilenameMarker, 0, fs) &&
      IsFirst(text, Quote, fs + |FilenameMarker|, nameEnd) &&
      filename == text[fs + |FilenameMarker|..nameEnd]
  }

  /** The text from `start` up to the next CRLF. */
  ghost predicate LineFrom(text: string, start: int, value: string) {
    0 <= start && exists ce :: IsFirst(text, Crlf, start, ce) && value == text[start..ce]
  }

  /**
   * The content type is absent when no `Content-Type: ` follows the end of the
   * filename, and otherwise is the text after that marker up to the next CRLF.
   */
  ghost predicate ContentTypeAfter(text: string, nameEnd: int, contentType: Option<string>) {
    (Absent(text, ContentTypeMarker, nameEnd) && contentType == None) ||
    exists cs ::
      IsFirst(text, ContentTypeMarker, nameEnd, cs) &&
      contentType.Some? && LineFrom(text, cs + |ContentTypeMarker|, contentType.value)
  }

  /**
   * The content ends at the first closing delimiter at or after its start, or,
   * only when there is none, at the first plain delimiter.
   */
  ghost predicate ContentEndsAt(data: seq<byte>, boundary: string, start: int, end: int) {
    IsFirst(data, CloseDelimiter(boundary), start, end) ||
    (Absent(data, CloseDelimiter(boundary), start) && IsFirst(data, Delimiter(boundary), start, end))
  }

  /** The content is the non-empty run from `start` to where it ends. */
  ghost predicate ContentFrom(data: seq<byte>, boundary: string, start: int, content: seq<byte>) {
    0 <= start && exists ce :: ContentEndsAt(data, boundary, start, ce) && start < ce && content == data[start..ce]
  }

  /** The content starts right after the first blank line anywhere in the body. */
  ghost predicate ContentAt(data: seq<byte>, boundary: string, content: seq<byte>) {
    exists hs ::
      IsFirst(Decode(data), HeaderEndMarker, 0, hs) &&
      ContentFrom(data, boundary, hs + |HeaderEndMarker|, content)
  }

  /** `data` decodes to `p` with boundary `boundary`. */
  ghost predicate Decodes(data: seq<byte>, boundary: string, p: Part) {
    exists nameEnd ::
      FilenameAt(Decode(data), nameEnd, p.filename) &&
      ContentTypeAfter(Decode(data), nameEnd, p.contentType) &&
      ContentAt(data, boundary, p.fileContent)
  }

  // ---- The steps against the description ----

  lemma FilenameSound(text: string)
    requires FilenameOf(text).Some?
    ensures FilenameAt(text, FilenameOf(text).value.1, FilenameOf(text).value.0)
  {
    var fs := IndexOf(text, FilenameMarker, 0);
    assert IsFirst(text, FilenameMarker, 0, fs);
  }

  lemma FilenameComplete(text: string, nameEnd: int, filename: string)
    requires FilenameAt(text, nameEnd, filename)
    ensures FilenameOf(text) == Some((filename, nameEnd))
  {
    var fs :| IsFirst(text, FilenameMarker, 0, fs) &&
              IsFirst(text, Quote, fs + |FilenameMarker|, nameEnd) &&
              filename == text[fs + |FilenameMarker|..nameEnd];
    IndexOfIs(text, FilenameMarker, 0, fs);
    IndexOfIs(text, Quote, fs + |FilenameMarker|, nameEnd);
  }

  lemma ContentTypeSound(text: string, nameEnd: nat)
    requires !ContentTypeOf(text, nameEnd).Unterminated?
    ensures var line := ContentTypeOf(text, nameEnd);
            ContentTypeAfter(text, nameEnd, line.AsOption())
  {
    var cs := IndexOf(text, ContentTypeMarker, nameEnd);
    if cs != -1 {
      var vs := cs + |ContentTypeMarker|;
      var ce := IndexOf(text, Crlf, vs);
      assert IsFirst(text, Crlf, vs, ce);
      assert LineFrom(text, vs, text[vs..ce]);
      assert IsFirst(text, ContentTypeMarker, nameEnd, cs);
    }
  }

  lemma ContentTypeComplete(text: string, nameEnd: nat, contentType: Option<string>)
    requires ContentTypeAfter(text, nameEnd, contentType)
    ensures ContentTypeOf(text, nameEnd) == if contentType.Some? then Line(contentType.value) else NoLine
  {
    if !Absent(text, ContentTypeMarker, nameEnd) {
      var cs :| IsFirst(text, ContentTypeMarker, nameEnd, cs) &&
                contentType.Some? && LineFrom(text, cs + |ContentTypeMarker|, contentType.value);
      var vs := cs + |ContentTypeMarker|;
      var ce :| IsFirst(text, Crlf, vs, ce) && contentType.value == text[vs..ce];
      IndexOfIs(text, ContentTypeMarker, nameEnd, cs);
      IndexOfIs(text, Crlf, vs, ce);
      assert ContentTypeOf(text, nameEnd) == Line(text[vs..ce]);
    } else {
      assert ContentTypeOf(text, nameEnd) == NoLine;
    }
  }

  lemma ContentEndSound(data: seq<byte>, boundary: string, start: nat)
    requires ContentEndOf(data, boundary, start) != -1
    ensures ContentEndsAt(data, boundary, start, ContentEndOf(data, boundary, start))
  {
  }

  lemma ContentEndComplete(data: seq<byte>, boundary: string, start: nat, end: int)
    requires ContentEndsAt(data, boundary, start, end)
    ensures ContentEndOf(data, boundary, start) == end
  {
    if IsFirst(data, CloseDelimiter(boundary), start, end) {
      IndexOfIs(data, CloseDelimiter(boundary), start, end);
    } else {
      IndexOfIs(data, Delimiter(boundary), start, end);
    }
  }

  lemma ContentFromSound(data: seq<byte>, boundary: string, start: nat)
    requires ContentFromStart(data, boundary, start).Some?
    ensures ContentFrom(data, boundary, start, ContentFromStart(data, boundary, start).value)
  {
    var end := ContentEndOf(data, boundary, start);
    ContentEndSound(data, boundary, start);
    assert ContentEndsAt(data, boundary, start, end);
  }

  lemma ContentFromComplete(data: seq<byte>, boundary: string, start: nat, content: seq<byte>)
    requires ContentFrom(data, boundary, start, content)
    ensures ContentFromStart(data, boundary, start) == Some(content)
  {
    var ce :| ContentEndsAt(data, boundary, start, ce) && start < ce && content == data[start..ce];
    ContentEndComplete(data, boundary, start, ce);
  }

  lemma ContentSound(data: seq<byte>, boundary: string)
    requires ContentOf(data, boundary).Some?
    ensures ContentAt(data, boundary, ContentOf(data, boundary).value)
  {
    var hs := IndexOf(Decode(data), HeaderEndMarker, 0);
    ContentFromSound(data, boundary, hs + |HeaderEndMarker|);
    assert IsFirst(Decode(data), HeaderEndMarker, 0, hs);
  }

  lemma ContentComplete(data: seq<byte>, boundary: string, content: seq<byte>)
    requires ContentAt(data, boundary, content)
    ensures ContentOf(data, boundary) == Some(content)
  {
    var hs :| IsFirst(Decode(data), HeaderEndMarker, 0, hs) &&
              ContentFrom(data, boundary, hs + |HeaderEndMarker|, content);
    IndexOfIs(Decode(data), HeaderEndMarker, 0, hs);
    ContentFromComplete(data, boundary, hs + |HeaderEndMarker|, content);
  }

  // ---- The decoder against the description ----

  /** Every part `Parse` returns satisfies the declarative description. */
  lemma ParseSound(data: seq<byte>, boundary: string)
    requires Parse(data, boundary).Some?
    ensures Decodes(data, boundary, Parse(data, boundary).value)
  {
    var text := Decode(data);
    var nameEnd := FilenameOf(text).value.1;
    FilenameSound(text);
    ContentTypeSound(text, nameEnd);
    ContentSound(data, boundary);
  }

  /** Whatever the declarative description admits is what `Parse` returns. */
  lemma ParseComplete(data: seq<byte>, boundary: string, p: Part)
    requires Decodes(data, boundary, p)
    ensures Parse(data, boundary) == Some(p)
  {
    var text := Decode(data);
    var nameEnd :| FilenameAt(text, nameEnd, p.filename) &&
                   ContentTypeAfter(text, nameEnd, p.contentType) &&
                   ContentAt(data, boundary, p.fileContent);
    FilenameComplete(text, nameEnd, p.filename);
    ContentTypeComplete(text, nameEnd, p.contentType);
    ContentComplete(data, boundary, p.fileContent);
  }

  // ---- Failure paths ----

  /** No `filename="` anywhere: no part. */
  lemma ParseNeedsFilenameMarker(data: seq<byte>, boundary: string)
    requires Absent(Decode(data), FilenameMarker, 0)
    ensures Parse(data, boundary) == None
  {
  }

  /** No quote after the first `filename="`: the exception is caught and there is no part. */
  lemma ParseNeedsClosingQuote(data: seq<byte>, boundary: string, fs: int)
    requires IsFirst(Decode(data), FilenameMarker, 0, fs)
    requires Absent(Decode(data), Quote, fs + |FilenameMarker|)
    ensures Parse(data, boundary) == None
  {
    IndexOfIs(Decode(data), FilenameMarker, 0, fs);
  }

  /** A `Content-Type: ` line with no CRLF after it makes the whole decode fail. */
  lemma ParseNeedsContentTypeEnd(data: seq<byte>, boundary: string, filename: string, nameEnd: int, cs: int)
    requires FilenameAt(Decode(data), nameEnd, filename)
    requires IsFirst(Decode(data), ContentTypeMarker, nameEnd, cs)
    requires Absent(Decode(data), Crlf, cs + |ContentTypeMarker|)
    ensures Parse(data, boundary) == None
  {
    FilenameComplete(Decode(data), nameEnd, filename);
    IndexOfIs(Decode(data), ContentTypeMarker, nameEnd, cs);
  }

  /** No blank line anywhere: no part. */
  lemma ParseNeedsHeaderEnd(data: seq<byte>, boundary: string)
    requires Absent(Decode(data), HeaderEndMarker, 0)
    ensures Parse(data, boundary) == None
  {
  }

  /** Neither delimiter after the content start: no part, never a truncated one. */
  lemma ParseNeedsDelimiter(data: seq<byte>, boundary: string, hs: int)
    requires IsFirst(Decode(data), HeaderEndMarker, 0, hs)
    requires Absent(data, CloseDelimiter(boundary), hs + |HeaderEndMarker|)
    requires Absent(data, Delimiter(boundary), hs + |HeaderEndMarker|)
    ensures Parse(data, boundary) == None
  {
    IndexOfIs(Decode(data), HeaderEndMarker, 0, hs);
  }

  /** A delimiter right after the blank line (an empty file) gives no part. */
  lemma ParseRejectsEmptyContent(data: seq<byte>, boundary: string, hs: int)
    requires IsFirst(Decode(data), HeaderEndMarker, 0, hs)
    requires MatchAt(data, CloseDelimiter(boundary), hs + |HeaderEndMarker|)
    ensures Parse(data, boundary) == None
  {
    IndexOfIs(Decode(data), HeaderEndMarker, 0, hs);
    ContentEndComplete(data, boundary, hs + |HeaderEndMarker|, hs + |HeaderEndMarker|);
  }
}
