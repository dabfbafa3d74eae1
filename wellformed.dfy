/**
 * What a browser sends for a form with one file field, and the proof that the
 * decoder recovers that file exactly: the filename, the content type and
 * every content byte.
 */
module WellFormed {
  import opened Wrappers
  import opened Charset
  import opened Search
  import opened Multipart

  const DashDash: string := "--"
  const DispositionName: string := "Content-Disposition: "
  const FormData: string := "form-data; "
  /** The form field's name parameter, which browsers put before the filename. */
  const NameOpen: string := "name=\""
  const NameClose: string := "\"; "

  /** Where the filename ends in the head: the offset of its closing quote. */
  function NameEnd(boundary: string, field: string, filename: string): nat {
    |DashDash| + |boundary| + |Crlf| + |DispositionName| + |FormData| + |NameOpen| + |field| + |NameClose| +
    |FilenameMarker| + |filename|
  }

  /** The delimiter line and the part's header lines, ending in the blank line. */
  function Head(boundary: string, field: string, filename: string, contentType: string): string {
    DelimiterLine(boundary) + Crlf + DispositionLine(field, filename) + Crlf + TypeLine(contentType) + HeaderEndMarker
  }

  function DelimiterLine(boundary: string): string { DashDash + boundary }
  /** `Content-Disposition: form-data; name="<field>"; filename="<filename>"` */
  function DispositionLine(field: string, filename: string): string {
    DispositionName + FormData + NameOpen + field + NameClose + FilenameMarker + filename + Quote
  }
  function TypeLine(contentType: string): string { ContentTypeMarker + contentType }

  /** Regrouping the head around the filename and around the content type. */
  lemma RegroupFilename(l1: string, d: string, fd: string, no: string, n: string, nc: string, fm: string, f: string,
                        q: string, l3: string)
    ensures l1 + Crlf + (d + fd + no + n + nc + fm + f + q) + Crlf + l3 + HeaderEndMarker ==
            (l1 + Crlf + d + fd) + no + n + nc + fm + f + (q + Crlf + l3 + HeaderEndMarker)
  {
  }

  lemma RegroupContentType(l1: string, d: string, fd: string, no: string, n: string, nc: string, fm: string, f: string,
                           q: string, cm: string, ct: string)
    ensures l1 + Crlf + (d + fd + no + n + nc + fm + f + q) + Crlf + (cm + ct) + HeaderEndMarker ==
            (l1 + Crlf + d + fd + no + n + nc + fm + f) + q + Crlf + cm + ct + HeaderEndMarker
  {
  }

  /** A complete body with one file part and the closing delimiter. */
  function Body(boundary: string, field: string, filename: string, contentType: string, content: seq<byte>): seq<byte> {
    Encode(Head(boundary, field, filename, contentType)) + content + CloseDelimiter(boundary) + Encode(Crlf)
  }

  /**
   * The conditions under which the body is well formed: header values are
   * single-line text in the charset, the boundary, field name and filename
   * hold no quote, the field name does not end in `=`, the content is not
   * empty, and the closing delimiter does not occur in the content, even
   * overlapping its end (RFC 2046 section 5.1.1 demands this of the boundary).
   */
  ghost predicate WellFormedPart(boundary: string, field: string, filename: string, contentType: string,
                                 content: seq<byte>) {
    && IsLatin1(boundary) && IsLatin1(field) && IsLatin1(filename) && IsLatin1(contentType)
    && '"' !in boundary && '\r' !in boundary
    && '"' !in field && '\r' !in field && (field == [] || field[|field| - 1] != '=')
    && '"' !in filename && '\r' !in filename
    && '\r' !in contentType
    && |content| > 0
    && forall i :: 0 <= i < |content| ==> !MatchAt(content + CloseDelimiter(boundary), CloseDelimiter(boundary), i)
  }

  /** A first match within `s` stays the first match once `s` is extended. */
  lemma IsFirstExtend<T>(s: seq<T>, t: seq<T>, pat: seq<T>, from: int, k: int)
    requires IsFirst(s, pat, from, k)
    ensures IsFirst(s + t, pat, from, k)
  {
    MatchAtPrefix(s, t, pat, k);
    forall i | from <= i < k
      ensures !MatchAt(s + t, pat, i)
    {
      if 0 <= i {
        MatchAtPrefix(s, t, pat, i);
      }
    }
  }

  lemma NotInSlice<T>(s: seq<T>, lo: int, hi: int, c: T)
    requires 0 <= lo <= hi <= |s| && c !in s[lo..hi]
    ensures forall j :: lo <= j < hi ==> s[j] != c
  {
    forall j | lo <= j < hi
      ensures s[j] != c
    {
      assert s[j] == s[lo..hi][j - lo];
    }
  }

  /**
   * No `filename="` starts before `fs` when the only quotes before its
   * closing quote's position are at `q1` and `q2`, and the marker cannot end
   * on either: at `q1` its first letter would sit on a character that is not
   * `f`, at `q2` its `=` on a character that is not `=`.
   */
  lemma NoMarkerBefore(h: string, q1: int, q2: int, fs: int)
    requires 9 <= q1 < q2 < fs && fs + 9 <= |h|
    requires '"' !in h[..q1] && h[q1 - 9] != 'f'
    requires '"' !in h[q1 + 1..q2] && h[q2 - 1] != '='
    requires '"' !in h[q2 + 1..fs + 9]
    ensures forall i :: 0 <= i < fs ==> !MatchAt(h, FilenameMarker, i)
  {
    NotInSlice(h, 0, q1, '"');
    NoMatchByElement(h, FilenameMarker, 9, 0, q1 - 9);
    NoMatchByElement(h, FilenameMarker, 0, q1 - 9, q1 - 8);
    NotInSlice(h, q1 + 1, q2, '"');
    NoMatchByElement(h, FilenameMarker, 9, q1 - 8, q2 - 9);
    NoMatchByElement(h, FilenameMarker, 8, q2 - 9, q2 - 8);
    NotInSlice(h, q2 + 1, fs + 9, '"');
    NoMatchByElement(h, FilenameMarker, 9, q2 - 8, fs);
  }

  /**
   * The first `filename="` is the one after the name parameter: the only
   * quotes before it are the two around the field name, and `filename="`
   * cannot end on either (the first is preceded by `; name=`, the second by
   * the field name, which does not end in `=`). The name runs to the next quote.
   */
  lemma FirstFilename(a: string, field: string, filename: string, rest: string)
    requires '"' !in a && |a| >= 4 && a[|a| - 4] != 'f'
    requires '"' !in field && (field == [] || field[|field| - 1] != '=')
    requires '"' !in filename && |rest| > 0 && rest[0] == '"'
    ensures var p := a + NameOpen + field + NameClose;
            var h := p + FilenameMarker + filename + rest;
            var ns := |p| + |FilenameMarker|;
            IsFirst(h, FilenameMarker, 0, |p|) &&
            IsFirst(h, Quote, ns, ns + |filename|) &&
            h[ns..ns + |filename|] == filename
  {
    var p := a + NameOpen + field + NameClose;
    var h := p + FilenameMarker + filename + rest;
    var q1 := |a| + 5;           // the quote opening the field name
    var q2 := q1 + 1 + |field|;  // the quote closing it
    var fs := |p|;
    var ns := fs + |FilenameMarker|;
    assert '"' !in h[..q1] by {
      assert h[..q1] == a + NameOpen[..5];
      assert '"' !in NameOpen[..5];
    }
    assert h[q1 - 9] != 'f' by {
      assert h[q1 - 9] == a[|a| - 4];
    }
    assert '"' !in h[q1 + 1..q2] by {
      assert h[q1 + 1..q2] == field;
    }
    assert h[q2 - 1] != '=' by {
      if field != [] {
        assert h[q2 - 1] == field[|field| - 1];
      } else {
        assert h[q2 - 1] == NameOpen[5];
      }
    }
    assert '"' !in h[q2 + 1..fs + 9] by {
      assert h[q2 + 1..fs + 9] == NameClose[1..] + FilenameMarker[..9];
      assert '"' !in NameClose[1..] + FilenameMarker[..9];
    }
    NoMarkerBefore(h, q1, q2, fs);
    assert h[fs..ns] == FilenameMarker;
    assert h[ns..ns + |filename|] == filename;
    assert h[ns + |filename|] == rest[0];
    QuoteAfter(h, ns, filename);
  }

  /** A quote-free run followed by a quote ends at that quote. */
  lemma QuoteAfter(h: string, ns: int, filename: string)
    requires 0 <= ns && ns + |filename| < |h| && h[ns..ns + |filename|] == filename
    requires '"' !in filename && h[ns + |filename|] == '"'
    ensures IsFirst(h, Quote, ns, ns + |filename|)
  {
    NotInSlice(h, ns, ns + |filename|, '"');
    NoMatchByElement(h, Quote, 0, ns, ns + |filename|);
    MatchAtSingle(h, '"', ns + |filename|);
  }

  lemma HeadFilename(boundary: string, field: string, filename: string, contentType: string)
    requires '"' !in boundary && '"' !in field && (field == [] || field[|field| - 1] != '=') && '"' !in filename
    ensures var h := Head(boundary, field, filename, contentType);
            var fs := |DashDash| + |boundary| + |Crlf| + |DispositionName| + |FormData| +
                      |NameOpen| + |field| + |NameClose|;
            IsFirst(h, FilenameMarker, 0, fs) &&
            IsFirst(h, Quote, fs + |FilenameMarker|, fs + |FilenameMarker| + |filename|) &&
            h[fs + |FilenameMarker|..fs + |FilenameMarker| + |filename|] == filename
  {
    var a := DelimiterLine(boundary) + Crlf + DispositionName + FormData;
    var rest := Quote + Crlf + TypeLine(contentType) + HeaderEndMarker;
    RegroupFilename(DelimiterLine(boundary), DispositionName, FormData, NameOpen, field, NameClose,
                    FilenameMarker, filename, Quote, TypeLine(contentType));
    assert '"' !in DashDash && '"' !in Crlf && '"' !in DispositionName && '"' !in FormData;
    assert '"' !in a;
    assert a[|a| - 4] == FormData[7] == 't';
    FirstFilename(a, field, filename, rest);
  }

  /** After the closing quote, the first `Content-Type: ` is the one on the next line. */
  lemma FirstContentType(q: string, contentType: string, rest: string)
    requires '\r' !in contentType && |rest| >= 2 && rest[..2] == Crlf
    ensures var h := q + Quote + Crlf + ContentTypeMarker + contentType + rest;
            var cs := |q| + |Quote| + |Crlf|;
            var vs := cs + |ContentTypeMarker|;
            IsFirst(h, ContentTypeMarker, |q|, cs) &&
            IsFirst(h, Crlf, vs, vs + |contentType|) &&
            h[vs..vs + |contentType|] == contentType
  {
    var h := q + Quote + Crlf + ContentTypeMarker + contentType + rest;
    var cs := |q| + |Quote| + |Crlf|;
    var vs := cs + |ContentTypeMarker|;
    assert h[|q|..cs] == Quote + Crlf;
    assert 'C' !in Quote + Crlf;
    assert h[cs..vs] == ContentTypeMarker;
    assert h[vs..vs + |contentType|] == contentType;
    assert h[vs + |contentType|..vs + |contentType| + 2] == rest[..2];
    NotInSlice(h, |q|, cs, 'C');
    NoMatchByElement(h, ContentTypeMarker, 0, |q|, cs);
    NotInSlice(h, vs, vs + |contentType|, '\r');
    NoMatchByElement(h, Crlf, 0, vs, vs + |contentType|);
  }

  lemma HeadContentType(boundary: string, field: string, filename: string, contentType: string)
    requires '\r' !in contentType
    ensures var h := Head(boundary, field, filename, contentType);
            var fe := NameEnd(boundary, field, filename);
            var cs := fe + |Quote| + |Crlf|;
            var vs := cs + |ContentTypeMarker|;
            IsFirst(h, ContentTypeMarker, fe, cs) &&
            IsFirst(h, Crlf, vs, vs + |contentType|) &&
            h[vs..vs + |contentType|] == contentType
  {
    var q := DashDash + boundary + Crlf + DispositionName + FormData + NameOpen + field + NameClose +
             FilenameMarker + filename;
    RegroupContentType(DelimiterLine(boundary), DispositionName, FormData, NameOpen, field, NameClose,
                       FilenameMarker, filename, Quote, ContentTypeMarker, contentType);
    assert HeaderEndMarker[..2] == Crlf;
    FirstContentType(q, contentType, HeaderEndMarker);
  }

  /** The first blank line of three CR-free, non-empty lines. */
  lemma FirstBlankLine(a: string, b: string, c: string)
    requires '\r' !in a && '\r' !in b && '\r' !in c && |b| > 0 && |c| > 0
    ensures var h := a + Crlf + b + Crlf + c + HeaderEndMarker;
            IsFirst(h, HeaderEndMarker, 0, |h| - |HeaderEndMarker|)
  {
    var h := a + Crlf + b + Crlf + c + HeaderEndMarker;
    var r1 := |a|;
    var r2 := r1 + 2 + |b|;
    var e := r2 + 2 + |c|;
    assert h[0..r1] == a;
    assert h[r1 + 2..r2] == b;
    assert h[r2 + 2..e] == c;
    assert h[e..e + 4] == HeaderEndMarker;
    assert h[r1 + 1] == '\n' && h[r2 + 1] == '\n';
    NotInSlice(h, 0, r1, '\r');
    NotInSlice(h, r1 + 2, r2, '\r');
    NotInSlice(h, r2 + 2, e, '\r');
    // a blank line must start on a CR, and the one at the end of each line is followed by text
    assert h[r1 + 2] == b[0] && b[0] in b;
    assert h[r2 + 2] == c[0] && c[0] in c;
    NoMatchByElement(h, HeaderEndMarker, 0, 0, r1);
    NoMatchByElement(h, HeaderEndMarker, 2, r1, r1 + 1);
    NoMatchByElement(h, HeaderEndMarker, 0, r1 + 1, r2);
    NoMatchByElement(h, HeaderEndMarker, 2, r2, r2 + 1);
    NoMatchByElement(h, HeaderEndMarker, 0, r2 + 1, e);
  }

  lemma HeadEnd(boundary: string, field: string, filename: string, contentType: string)
    requires '\r' !in boundary && '\r' !in field && '\r' !in filename && '\r' !in contentType
    ensures var h := Head(boundary, field, filename, contentType);
            IsFirst(h, HeaderEndMarker, 0, |h| - |HeaderEndMarker|)
  {
    FirstBlankLine(DelimiterLine(boundary), DispositionLine(field, filename), TypeLine(contentType));
  }

  /** The content ends where the closing delimiter after it starts. */
  lemma ContentEnd(h: seq<byte>, content: seq<byte>, boundary: string, trailer: seq<byte>)
    requires forall i :: 0 <= i < |content| ==> !MatchAt(content + CloseDelimiter(boundary), CloseDelimiter(boundary), i)
    ensures IsFirst(h + content + CloseDelimiter(boundary) + trailer, CloseDelimiter(boundary), |h|, |h| + |content|)
  {
    FirstAfterContent(h, content, CloseDelimiter(boundary), trailer);
  }

  lemma FirstAfterContent<T>(h: seq<T>, content: seq<T>, close: seq<T>, trailer: seq<T>)
    requires forall i :: 0 <= i < |content| ==> !MatchAt(content + close, close, i)
    ensures IsFirst(h + content + close + trailer, close, |h|, |h| + |content|)
  {
    var data := h + content + close + trailer;
    var cc := content + close;
    var m := h + cc;
    assert data == m + trailer;
    forall i | |h| <= i <= |h| + |content|
      ensures MatchAt(data, close, i) <==> MatchAt(cc, close, i - |h|)
    {
      assert data[i..i + |close|] == m[i..i + |close|];
      assert m[i..i + |close|] == cc[i - |h|..i - |h| + |close|];
    }
    assert cc[|content|..|content| + |close|] == close;
  }

  lemma LiteralsLatin1()
    ensures IsLatin1(DashDash) && IsLatin1(Crlf) && IsLatin1(DispositionName) && IsLatin1(FormData) &&
            IsLatin1(NameOpen) && IsLatin1(NameClose) && IsLatin1(FilenameMarker) && IsLatin1(Quote) &&
            IsLatin1(ContentTypeMarker) && IsLatin1(HeaderEndMarker)
  {
    DispositionNameLatin1();
    FormDataLatin1();
    ContentTypeMarkerLatin1();
  }

  lemma DispositionNameLatin1() ensures IsLatin1(DispositionName) {}
  lemma FormDataLatin1() ensures IsLatin1(FormData) {}
  lemma ContentTypeMarkerLatin1() ensures IsLatin1(ContentTypeMarker) {}

  lemma DispositionLineLatin1(field: string, filename: string)
    requires IsLatin1(field) && IsLatin1(filename)
    ensures IsLatin1(DispositionLine(field, filename))
  {
    LiteralsLatin1();
    var s := DispositionName;
    Latin1Concat(s, FormData);
    s := s + FormData;
    Latin1Concat(s, NameOpen);
    s := s + NameOpen;
    Latin1Concat(s, field);
    s := s + field;
    Latin1Concat(s, NameClose);
    s := s + NameClose;
    Latin1Concat(s, FilenameMarker);
    s := s + FilenameMarker;
    Latin1Concat(s, filename);
    s := s + filename;
    Latin1Concat(s, Quote);
  }

  lemma HeadLatin1(boundary: string, field: string, filename: string, contentType: string)
    requires IsLatin1(boundary) && IsLatin1(field) && IsLatin1(filename) && IsLatin1(contentType)
    ensures IsLatin1(Head(boundary, field, filename, contentType))
  {
    LiteralsLatin1();
    Latin1Concat(DashDash, boundary);
    DispositionLineLatin1(field, filename);
    Latin1Concat(ContentTypeMarker, contentType);
    var l1 := DelimiterLine(boundary);
    var l2 := DispositionLine(field, filename);
    var l3 := TypeLine(contentType);
    Latin1Concat(l1, Crlf);
    Latin1Concat(l1 + Crlf, l2);
    Latin1Concat(l1 + Crlf + l2, Crlf);
    Latin1Concat(l1 + Crlf + l2 + Crlf, l3);
    Latin1Concat(l1 + Crlf + l2 + Crlf + l3, HeaderEndMarker);
  }

  lemma BodyText(boundary: string, field: string, filename: string, contentType: string, content: seq<byte>)
    requires IsLatin1(boundary) && IsLatin1(field) && IsLatin1(filename) && IsLatin1(contentType)
    ensures Decode(Body(boundary, field, filename, contentType, content)) ==
            Head(boundary, field, filename, contentType) + Decode(content + CloseDelimiter(boundary) + Encode(Crlf))
  {
    var h := Head(boundary, field, filename, contentType);
    var tail := content + CloseDelimiter(boundary) + Encode(Crlf);
    assert Body(boundary, field, filename, contentType, content) == Encode(h) + tail;
    DecodeConcat(Encode(h), tail);
    HeadLatin1(boundary, field, filename, contentType);
    DecodeEncode(h);
  }

  lemma WellFormedFilename(boundary: string, field: string, filename: string, contentType: string, rest: string)
    requires '"' !in boundary && '"' !in field && (field == [] || field[|field| - 1] != '=') && '"' !in filename
    ensures FilenameAt(Head(boundary, field, filename, contentType) + rest,
                       NameEnd(boundary, field, filename), filename)
  {
    var h := Head(boundary, field, filename, contentType);
    var fs := |DashDash| + |boundary| + |Crlf| + |DispositionName| + |FormData| + |NameOpen| + |field| + |NameClose|;
    var ns := fs + |FilenameMarker|;
    var fe := ns + |filename|;
    HeadFilename(boundary, field, filename, contentType);
    IsFirstExtend(h, rest, FilenameMarker, 0, fs);
    IsFirstExtend(h, rest, Quote, ns, fe);
    assert (h + rest)[ns..fe] == h[ns..fe];
  }

  lemma WellFormedContentType(boundary: string, field: string, filename: string, contentType: string, rest: string)
    requires '\r' !in contentType
    ensures ContentTypeAfter(Head(boundary, field, filename, contentType) + rest,
                             NameEnd(boundary, field, filename), Some(contentType))
  {
    var h := Head(boundary, field, filename, contentType);
    var fe := NameEnd(boundary, field, filename);
    var cs := fe + |Quote| + |Crlf|;
    var vs := cs + |ContentTypeMarker|;
    HeadContentType(boundary, field, filename, contentType);
    IsFirstExtend(h, rest, ContentTypeMarker, fe, cs);
    IsFirstExtend(h, rest, Crlf, vs, vs + |contentType|);
    assert (h + rest)[vs..vs + |contentType|] == h[vs..vs + |contentType|];
    assert LineFrom(h + rest, vs, contentType);
  }

  lemma WellFormedContent(boundary: string, field: string, filename: string, contentType: string, content: seq<byte>)
    requires WellFormedPart(boundary, field, filename, contentType, content)
    ensures ContentAt(Body(boundary, field, filename, contentType, content), boundary, content)
  {
    BodyText(boundary, field, filename, contentType, content);
    HeadEnd(boundary, field, filename, contentType);
    ContentAfterHead(Head(boundary, field, filename, contentType), content, boundary, Encode(Crlf));
  }

  /** Content that follows a head ending in its first blank line is the content the body carries. */
  lemma ContentAfterHead(h: string, content: seq<byte>, boundary: string, trailer: seq<byte>)
    requires |h| >= |HeaderEndMarker| && IsFirst(h, HeaderEndMarker, 0, |h| - |HeaderEndMarker|)
    requires Decode(Encode(h) + content + CloseDelimiter(boundary) + trailer) ==
             h + Decode(content + CloseDelimiter(boundary) + trailer)
    requires |content| > 0
    requires forall i :: 0 <= i < |content| ==> !MatchAt(content + CloseDelimiter(boundary), CloseDelimiter(boundary), i)
    ensures ContentAt(Encode(h) + content + CloseDelimiter(boundary) + trailer, boundary, content)
  {
    var data := Encode(h) + content + CloseDelimiter(boundary) + trailer;
    var hs := |h| - |HeaderEndMarker|;
    IsFirstExtend(h, Decode(content + CloseDelimiter(boundary) + trailer), HeaderEndMarker, 0, hs);
    ContentEnd(Encode(h), content, boundary, trailer);
    var ce := |h| + |content|;
    assert ContentEndsAt(data, boundary, |h|, ce);
    assert data[|h|..ce] == content;
    assert ContentFrom(data, boundary, |h|, content);
  }

  /**
   * A well-formed body with one file part, its disposition line written as
   * browsers write it, decodes to exactly that part: its filename, its
   * content type and its content, byte for byte.
   */
  lemma WellFormedParse(boundary: string, field: string, filename: string, contentType: string, content: seq<byte>)
    requires WellFormedPart(boundary, field, filename, contentType, content)
    ensures Parse(Body(boundary, field, filename, contentType, content), boundary) ==
            Some(Part(filename, content, Some(contentType)))
  {
    var data := Body(boundary, field, filename, contentType, content);
    var rest := Decode(content + CloseDelimiter(boundary) + Encode(Crlf));
    BodyText(boundary, field, filename, contentType, content);
    WellFormedFilename(boundary, field, filename, contentType, rest);
    WellFormedContentType(boundary, field, filename, contentType, rest);
    WellFormedContent(boundary, field, filename, contentType, content);
    ParseComplete(data, boundary, Part(filename, content, Some(contentType)));
  }
}
