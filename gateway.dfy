/**
 * The HTTP side of the gateway, minus the plumbing: the upload handler's
 * gate, boundary extraction and stored-name rules, and the download
 * handler's code extraction and the split of a transfer stream into the
 * sender's header line and the file's bytes.
 */
module Gateway {
  import opened Wrappers
  import opened Charset
  import opened Search
  import opened Text
  import opened Multipart
  import opened Sharing
  import WellFormed

  const MultipartFormData: string := "multipart/form-data"
  const BoundaryMarker: string := "boundary="
  const UnnamedFile: string := "unnamed-file"
  const DownloadFile: string := "download-file"
  const Newline: byte := 10

  // ---- Upload ----

  /** The upload gate: a Content-Type header is present and starts with `multipart/form-data`. */
  predicate AcceptsContentType(contentType: Option<string>): (r: bool)
    ensures contentType.None? ==> !r
    ensures contentType.Some? ==>
              (r <==> |MultipartFormData| <= |contentType.value| &&
                      contentType.value == MultipartFormData + contentType.value[|MultipartFormData|..])
  {
    contentType.Some? && StartsWith(contentType.value, MultipartFormData)
  }

  /**
   * The boundary parameter: the rest of the header after the first
   * `boundary=`. With no `boundary=` at all the index is -1, and the rest
   * after offset 8 is taken instead.
   */
  function BoundaryOf(contentType: string): (b: string)
    requires StartsWith(contentType, MultipartFormData)
    ensures |b| <= |contentType| && b == contentType[|contentType| - |b|..]
    ensures IndexOf(contentType, BoundaryMarker, 0) == -1 ==> b == contentType[8..]
    ensures IndexOf(contentType, BoundaryMarker, 0) != -1 ==>
              var k := |contentType| - |b| - |BoundaryMarker|;
              0 <= k && MatchAt(contentType, BoundaryMarker, k) &&
              forall i :: 0 <= i < k ==> !MatchAt(contentType, BoundaryMarker, i)
  {
    contentType[IndexOf(contentType, BoundaryMarker, 0) + |BoundaryMarker|..]
  }

  /** The header a browser sends for a multipart form names its boundary, and that is what is taken. */
  lemma BoundaryOfHeader(boundary: string)
    ensures var contentType := MultipartFormData + "; " + BoundaryMarker + boundary;
            StartsWith(contentType, MultipartFormData) && BoundaryOf(contentType) == boundary
  {
    var contentType := MultipartFormData + "; " + BoundaryMarker + boundary;
    var k := |MultipartFormData| + 2;
    assert contentType[..|MultipartFormData|] == MultipartFormData;
    assert contentType[k..k + |BoundaryMarker|] == BoundaryMarker;
    assert forall j :: 0 <= j < k + 8 ==> contentType[j] != '=';
    NoMatchByElement(contentType, BoundaryMarker, 8, 0, k);
    IndexOfIs(contentType, BoundaryMarker, 0, k);
    assert contentType[k + |BoundaryMarker|..] == boundary;
  }

  /** A blank or missing filename is replaced by `unnamed-file`. */
  function UploadName(filename: string): (r: string)
    ensures Trim(filename) == [] ==> r == UnnamedFile
    ensures Trim(filename) != [] ==> r == filename
  {
    if Trim(filename) == [] then UnnamedFile else filename
  }

  /**
   * The stored file's name: a fresh UUID, `_`, and the last path component
   * of the uploaded name.
   */
  function StoredName(uuid: string, filename: string): (r: string)
    ensures StartsWith(r, uuid + "_")
    ensures '/' !in uuid ==> '/' !in r
  {
    var g := GetName(UploadName(filename));
    PrefixedName(uuid, "_", g);
    uuid + "_" + g
  }

  lemma PrefixedName(a: string, sep: string, b: string)
    requires sep == "_" && '/' !in b
    ensures StartsWith(a + sep + b, a + sep)
    ensures '/' !in a ==> '/' !in a + sep + b
  {
    assert (a + sep + b)[..|a + sep|] == a + sep;
  }

  /**
   * Where the upload is written: its stored name directly inside the upload
   * directory, so that the name the file server later takes from the path is
   * the stored name.
   */
  function UploadPath(uploadDir: string, uuid: string, filename: string): (r: string)
    ensures |r| > |uploadDir| && r[..|uploadDir| + 1] == uploadDir + "/"
    ensures '/' !in uuid ==> '/' !in r[|uploadDir| + 1..]
    ensures '/' !in uuid ==> GetName(r) == StoredName(uuid, filename)
  {
    var name := StoredName(uuid, filename);
    InDirectory(uploadDir, name);
    if '/' !in uuid then
      GetNameJoin(uploadDir, name);
      uploadDir + "/" + name
    else uploadDir + "/" + name
  }

  /** `dir + "/" + name` starts with the directory and its separator, and `name` follows. */
  lemma InDirectory(dir: string, name: string)
    ensures var p := dir + "/" + name;
            |p| > |dir| && p[..|dir| + 1] == dir + "/" && p[|dir| + 1..] == name
  {
    var p := dir + "/" + name;
    assert p[..|dir| + 1] == dir + "/";
    assert p[|dir| + 1..] == name;
  }

  /** A blank filename is stored as `unnamed-file`. */
  lemma StoredNameBlank(uuid: string, filename: string)
    requires Trim(filename) == []
    ensures StoredName(uuid, filename) == uuid + "_" + UnnamedFile
  {
    UnnamedPlain();
    assert UploadName(filename) == UnnamedFile;
    assert GetName(UnnamedFile) == UnnamedFile;
  }

  /**
   * A filename with directories in it is stored under its last component
   * only; with `UploadPath` the file then lands directly in the upload directory.
   */
  lemma StoredNameInDirectory(uuid: string, dir: string, name: string)
    requires name != [] && '/' !in name
    ensures StoredName(uuid, dir + "/" + name) == uuid + "_" + name
  {
    var p := dir + "/" + name;
    assert p[|dir|] == '/' && !IsTrimmed(p[|dir|]);
    TrimEmpty(p);
    GetNameJoin(dir, name);
  }

  lemma UnnamedPlain()
    ensures '/' !in UnnamedFile
  {
  }

  /** A plain filename that is not blank is stored unchanged after the UUID. */
  lemma StoredNamePlain(uuid: string, filename: string)
    requires Trim(filename) != [] && '/' !in filename
    ensures StoredName(uuid, filename) == uuid + "_" + filename
  {
  }

  /** `Integer.toString` of a Java `int`, which `Integer.parseInt` reads back. */
  function IntString(n: int): (r: string)
    ensures IntMin <= n <= IntMax ==> ParseInt(r) == Some(n)
  {
    if n < 0 then
      var r := "-" + DecimalString(0 - n);
      DigitsValueDecimal(0 - n);
      assert r[1..] == DecimalString(0 - n);
      r
    else
      DigitsValueDecimal(n);
      DecimalString(n)
  }

  const PortKey: string := "{\"port\": "

  /** The body of a successful upload response: the code, readable back from between the braces. */
  function PortJson(port: int): (r: string)
    ensures |r| > |PortKey| && r[..|PortKey|] == PortKey && r[|r| - 1] == '}'
    ensures IntMin <= port <= IntMax ==> ParseInt(r[|PortKey|..|r| - 1]) == Some(port)
  {
    var r := PortKey + IntString(port) + "}";
    assert r[|PortKey|..|r| - 1] == IntString(port);
    r
  }

  /** What the upload handler decides before any state changes. */
  datatype UploadStep =
    | UploadRejected(status: int, message: string)
    | Store(filePath: string, content: seq<byte>)

  function UploadStepOf(requestMethod: string, contentType: Option<string>, body: seq<byte>,
                        uploadDir: string, uuid: string): (r: UploadStep)
    ensures !EqualsIgnoreCase(requestMethod, "POST") ==> r == UploadRejected(405, "Method not allowed")
    ensures EqualsIgnoreCase(requestMethod, "POST") && !AcceptsContentType(contentType) ==>
              r == UploadRejected(400, "Bad Request: Content-Type must be multipart/form-data")
    ensures EqualsIgnoreCase(requestMethod, "POST") && AcceptsContentType(contentType) ==>
              match Parse(body, BoundaryOf(contentType.value))
              case None => r == UploadRejected(400, "Bad Request: Could not parse file content")
              case Some(part) => r == Store(UploadPath(uploadDir, uuid, part.filename), part.fileContent)
    ensures r.Store? ==> |r.content| > 0
  {
    if !EqualsIgnoreCase(requestMethod, "POST") then UploadRejected(405, "Method not allowed")
    else if !AcceptsContentType(contentType) then
      UploadRejected(400, "Bad Request: Content-Type must be multipart/form-data")
    else
      match Parse(body, BoundaryOf(contentType.value))
      case None => UploadRejected(400, "Bad Request: Could not parse file content")
      case Some(part) => Store(UploadPath(uploadDir, uuid, part.filename), part.fileContent)
  }

  /**
   * A browser's upload of one well-formed file part is stored, byte for
   * byte, under the UUID-prefixed name.
   */
  lemma UploadWellFormed(boundary: string, field: string, filename: string, contentType: string, content: seq<byte>,
                         uploadDir: string, uuid: string)
    requires WellFormed.WellFormedPart(boundary, field, filename, contentType, content)
    ensures UploadStepOf("POST", Some(MultipartFormData + "; " + BoundaryMarker + boundary),
                         WellFormed.Body(boundary, field, filename, contentType, content), uploadDir, uuid) ==
            Store(UploadPath(uploadDir, uuid, filename), content)
  {
    BoundaryOfHeader(boundary);
    WellFormed.WellFormedParse(boundary, field, filename, contentType, content);
  }

  /** A well-formed upload of a plain, non-blank file name is written to `<dir>/<uuid>_<filename>`. */
  lemma UploadWellFormedPlain(boundary: string, field: string, filename: string, contentType: string,
                              content: seq<byte>, uploadDir: string, uuid: string)
    requires WellFormed.WellFormedPart(boundary, field, filename, contentType, content)
    requires Trim(filename) != [] && '/' !in filename
    ensures UploadStepOf("POST", Some(MultipartFormData + "; " + BoundaryMarker + boundary),
                         WellFormed.Body(boundary, field, filename, contentType, content), uploadDir, uuid) ==
            Store(uploadDir + "/" + (uuid + "_" + filename), content)
  {
    UploadWellFormed(boundary, field, filename, contentType, content, uploadDir, uuid);
    StoredNamePlain(uuid, filename);
  }

  /**
   * The upload handler: on a stored upload the file is written, registered
   * under a fresh code, and the code is returned as JSON.
   */
  method Upload(sharer: FileSharer, requestMethod: string, contentType: Option<string>, body: seq<byte>,
                uploadDir: string, uuid: string, candidates: seq<int>, disk: map<string, seq<byte>>)
    returns (status: int, response: string, written: map<string, seq<byte>>)
    requires sharer.Valid()
    requires exists c :: c in candidates && c !in sharer.availableFiles
    modifies sharer
    ensures sharer.Valid()
    ensures match UploadStepOf(requestMethod, contentType, body, uploadDir, uuid)
            case UploadRejected(s, m) =>
              status == s && response == m && written == disk &&
              sharer.availableFiles == old(sharer.availableFiles) && sharer.issued == old(sharer.issued)
            case Store(filePath, content) =>
              var port := FirstFree(candidates, old(sharer.availableFiles));
              status == 200 && response == PortJson(port) && written == disk[filePath := content] &&
              sharer.availableFiles == old(sharer.availableFiles)[port := filePath] &&
              sharer.issued == old(sharer.issued) + [port]
  {
    var step := UploadStepOf(requestMethod, contentType, body, uploadDir, uuid);
    match step
    case UploadRejected(s, m) =>
      status, response, written := s, m, disk;
    case Store(filePath, content) =>
      written := disk[filePath := content];
      var port := sharer.OfferFile(filePath, candidates);
      status, response := 200, PortJson(port);
  }

  // ---- Download ----

  /**
   * The transfer code: the last segment of the request path, as a Java
   * `int`. A path with no separator is read whole; an empty last segment is
   * no code.
   */
  function CodeOf(path: string): (r: Option<int>)
    ensures '/' !in path ==> r == ParseInt(path)
    ensures |path| > 0 && path[|path| - 1] == '/' ==> r == None
  {
    ParseInt(path[LastIndexOf(path, '/') + 1..])
  }

  /** The code of a path is `parseInt` of its last segment, whatever comes before it. */
  lemma CodeOfSegment(prefix: string, seg: string)
    requires '/' !in seg
    ensures CodeOf(prefix + "/" + seg) == ParseInt(seg)
  {
    var path := prefix + "/" + seg;
    assert path[|prefix|] == '/';
    assert forall i :: |prefix| < i < |path| ==> path[i] == seg[i - |prefix| - 1];
    var k := LastIndexOf(path, '/');
    assert k == |prefix|;
    assert path[k + 1..] == seg;
  }

  /** A code the upload handler issued, put at the end of a download path, is read back. */
  lemma CodeOfPath(prefix: string, port: int)
    requires 0 <= port <= IntMax
    ensures CodeOf(prefix + "/" + IntString(port)) == Some(port)
  {
    var digits := DecimalString(port);
    assert forall i :: 0 <= i < |digits| ==> digits[i] != '/' by {
      assert AllDigits(digits);
    }
    CodeOfSegment(prefix, digits);
  }

  /**
   * A last segment that is not a number is no code, whatever the prefix
   * (`/download/abc`, say): the download answers 400.
   */
  lemma CodeOfNonNumeric(prefix: string)
    ensures CodeOf(prefix + "/" + "abc") == None
  {
    NotANumber();
    CodeOfSegment(prefix, "abc");
  }

  lemma NotANumber()
    ensures '/' !in "abc" && ParseInt("abc") == None
  {
    ParseIntNeedsDigits("abc", 0);
  }

  /** Leading zeros are read, as `parseInt` reads them: `/download/007` is code 7. */
  lemma CodeOfLeadingZeros(prefix: string)
    ensures CodeOf(prefix + "/" + "007") == Some(7)
  {
    ValueOfZeroZeroSeven();
    CodeOfSegment(prefix, "007");
  }

  lemma ValueOfZeroZeroSeven()
    ensures '/' !in "007" && ParseInt("007") == Some(7)
  {
    assert "007"[..2] == "00" && "00"[..1] == "0" && "0"[..0] == [];
    assert AllDigits("007") && DigitsValue("007") == 7;
    ParseDigitsRun("007");
  }

  /** The header line of a transfer stream: every byte before the first newline. */
  function HeaderLine(stream: seq<byte>): (h: seq<byte>)
    ensures |h| <= |stream| && h == stream[..|h|] && Newline !in h
    ensures |h| < |stream| ==> stream[|h|] == Newline
  {
    var nl := IndexOf(stream, [Newline], 0);
    if nl == -1 then
      assert forall j :: 0 <= j < |stream| ==> stream[j] != Newline by {
        forall j | 0 <= j < |stream|
          ensures stream[j] != Newline
        {
          MatchAtSingle(stream, Newline, j);
        }
      }
      stream
    else
      MatchAtSingle(stream, Newline, nl);
      assert forall j :: 0 <= j < nl ==> stream[j] != Newline by {
        forall j | 0 <= j < nl
          ensures stream[j] != Newline
        {
          MatchAtSingle(stream, Newline, j);
        }
      }
      stream[..nl]
  }

  /** The file name the header line announces, or `download-file`. */
  function AnnouncedName(header: seq<byte>): (name: string)
    ensures var line := Trim(Decode(header));
            StartsWith(line, HeaderPrefix) ==> line == HeaderPrefix + name
    ensures var line := Trim(Decode(header));
            !StartsWith(line, HeaderPrefix) ==> name == DownloadFile
  {
    var line := Trim(Decode(header));
    if StartsWith(line, HeaderPrefix) then line[|HeaderPrefix|..]
    else DownloadFile
  }

  /**
   * The name the download side gives the file it receives: what follows
   * `Filename: ` in the trimmed header line, or `download-file` when the line
   * does not start with it.
   */
  function StreamName(stream: seq<byte>): (name: string)
    ensures var line := Trim(Decode(HeaderLine(stream)));
            StartsWith(line, HeaderPrefix) ==> line == HeaderPrefix + name
    ensures var line := Trim(Decode(HeaderLine(stream)));
            !StartsWith(line, HeaderPrefix) ==> name == DownloadFile
  {
    AnnouncedName(HeaderLine(stream))
  }

  /**
   * The bytes the download side stores: the stream is the header line, its
   * newline and these bytes; a stream with no newline leaves none.
   */
  function StreamBody(stream: seq<byte>): (body: seq<byte>)
    ensures |HeaderLine(stream)| < |stream| ==> stream == HeaderLine(stream) + [Newline] + body
    ensures |HeaderLine(stream)| == |stream| ==> body == []
  {
    var h := HeaderLine(stream);
    if |h| < |stream| then
      assert stream == stream[..|h|] + [stream[|h|]] + stream[|h| + 1..];
      stream[|h| + 1..]
    else []
  }

  /** The header line ends at a newline or at the end of the stream, whichever comes first. */
  lemma HeaderLineIs(stream: seq<byte>, n: nat)
    requires n <= |stream| && Newline !in stream[..n]
    requires n == |stream| || stream[n] == Newline
    ensures HeaderLine(stream) == stream[..n]
    ensures StreamBody(stream) == if n < |stream| then stream[n + 1..] else []
  {
    var h := HeaderLine(stream);
    assert |h| <= n by {
      if n < |stream| {
        assert stream[n] == Newline;
      }
    }
    assert stream[..n][..|h|] == h;
  }

  /**
   * Reads the header byte by byte up to the first newline or the end of the
   * stream, then copies the rest through the buffer.
   */
  method ReceiveTransfer(stream: seq<byte>) returns (fileName: string, body: seq<byte>)
    ensures fileName == StreamName(stream) && body == StreamBody(stream)
  {
    var header: seq<byte> := [];
    var pos := 0;
    var sawNewline := false;
    while pos < |stream|
      invariant 0 <= pos <= |stream|
      invariant header == stream[..pos] && Newline !in header && !sawNewline
    {
      var b := stream[pos];
      pos := pos + 1;
      if b == Newline {
        sawNewline := true;
        break;
      }
      header := header + [b];
    }
    HeaderLineIs(stream, |header|);
    assert !sawNewline ==> stream[pos..] == [];
    fileName := AnnouncedName(header);
    body := CopyStream(stream[pos..], []);
  }

  /** How the download handler answers. */
  datatype DownloadResponse =
    | DownloadRejected(status: int, message: string)
    | Attachment(fileName: string, body: seq<byte>)

  /**
   * The download handler: a GET whose path ends in a code is connected to
   * that code's file server, if one listens, and the stream it sends is
   * returned as an attachment.
   */
  method Download(requestMethod: string, path: string, listening: map<int, seq<byte>>)
    returns (response: DownloadResponse)
    ensures !EqualsIgnoreCase(requestMethod, "GET") ==> response == DownloadRejected(405, "Method not allowed")
    ensures EqualsIgnoreCase(requestMethod, "GET") && CodeOf(path).None? ==>
              response == DownloadRejected(400, "Bad Request: Invalid port number")
    ensures EqualsIgnoreCase(requestMethod, "GET") && CodeOf(path).Some? && CodeOf(path).value !in listening ==>
              response.DownloadRejected? && response.status == 500
    ensures EqualsIgnoreCase(requestMethod, "GET") && CodeOf(path).Some? && CodeOf(path).value in listening ==>
              response == Attachment(StreamName(listening[CodeOf(path).value]),
                                     StreamBody(listening[CodeOf(path).value]))
  {
    if !EqualsIgnoreCase(requestMethod, "GET") {
      return DownloadRejected(405, "Method not allowed");
    }
    var code := CodeOf(path);
    if code.None? {
      return DownloadRejected(400, "Bad Request: Invalid port number");
    }
    if code.value !in listening {
      return DownloadRejected(500, "Error downloading file: Connection refused");
    }
    var fileName, body := ReceiveTransfer(listening[code.value]);
    response := Attachment(fileName, body);
  }

  // ---- The two ends of a transfer ----

  /** No newline byte in the encoding of a string without `\n`. */
  lemma EncodeNoNewline(s: string)
    requires '\n' !in s
    ensures Newline !in Encode(s)
  {
    forall i | 0 <= i < |s|
      ensures Encode(s)[i] != Newline
    {
      assert s[i] in s;
    }
  }

  /**
   * What the sender writes for a file whose base name is printable at its
   * end and has no newline, the download side splits back into that name and
   * exactly the file's bytes.
   */
  lemma SplitFrame(filePath: string, file: seq<byte>)
    requires var name := GetName(filePath);
             name != [] && IsLatin1(name) && '\n' !in name && !IsTrimmed(name[|name| - 1])
    ensures StreamName(Frame(filePath, file)) == GetName(filePath)
    ensures StreamBody(Frame(filePath, file)) == file
  {
    var name := GetName(filePath);
    var line := HeaderPrefix + name;
    var wire := Frame(filePath, file);
    EncodeConcat(line, "\n");
    assert wire == Encode(line) + [Newline] + file;
    HeaderPrefixPlain();
    assert '\n' !in line;
    EncodeNoNewline(line);
    assert wire[|Encode(line)|] == Newline;
    assert wire[..|Encode(line)|] == Encode(line);
    HeaderLineIs(wire, |Encode(line)|);
    var h := HeaderLine(wire);
    Latin1Concat(HeaderPrefix, name);
    DecodeEncode(line);
    assert line[0] == 'F' && line[|line| - 1] == name[|name| - 1];
    TrimUnchanged(line);
    assert StartsWith(line, HeaderPrefix);
    assert wire[|h| + 1..] == file;
  }

  /**
   * An upload's stored file, sent by its file server, reaches the
   * downloader under its stored name with the uploaded bytes intact.
   */
  lemma UploadedFileArrives(uploadDir: string, uuid: string, filename: string, content: seq<byte>)
    requires '/' !in uuid && '\n' !in uuid && IsLatin1(uuid)
    requires '/' !in filename && '\n' !in filename && IsLatin1(filename)
    requires filename != [] && !IsTrimmed(filename[|filename| - 1])
    ensures StreamName(Frame(UploadPath(uploadDir, uuid, filename), content)) == uuid + "_" + filename
    ensures StreamBody(Frame(UploadPath(uploadDir, uuid, filename), content)) == content
  {
    var path := UploadPath(uploadDir, uuid, filename);
    var name := uuid + "_" + filename;
    assert GetName(path) == name by {
      assert Trim(filename) != [] by {
        TrimEmpty(filename);
        assert !IsTrimmed(filename[|filename| - 1]);
      }
      StoredNamePlain(uuid, filename);
    }
    assert name != [] && IsLatin1(name) && '\n' !in name && !IsTrimmed(name[|name| - 1]) by {
      SeparatorPlain();
      JoinedName(uuid, "_", filename);
    }
    SplitFrame(path, content);
  }

  lemma SeparatorPlain()
    ensures IsLatin1("_") && '\n' !in "_"
  {
  }

  /** Joining plain names gives a plain name that ends where the last one does. */
  lemma JoinedName(a: string, sep: string, b: string)
    requires IsLatin1(a) && IsLatin1(sep) && IsLatin1(b)
    requires '\n' !in a && '\n' !in sep && '\n' !in b && b != []
    ensures var name := a + sep + b;
            name != [] && IsLatin1(name) && '\n' !in name && name[|name| - 1] == b[|b| - 1]
  {
    Latin1Concat(a, sep);
    Latin1Concat(a + sep, b);
  }

  /**
   * The sample upload `a.txt` holding `hello` arrives as `hello` under the
   * UUID-prefixed name the sender announces.
   */
  lemma HelloTransfer(uploadDir: string, uuid: string)
    requires '/' !in uuid && '\n' !in uuid && IsLatin1(uuid)
    ensures var hello: seq<byte> := [0x68, 0x65, 0x6C, 0x6C, 0x6F];
            var wire := Frame(UploadPath(uploadDir, uuid, "a.txt"), hello);
            StreamName(wire) == uuid + "_" + "a.txt" && StreamBody(wire) == hello
  {
    var name := "a.txt";
    assert name[|name| - 1] == 't';
    assert '/' !in name && '\n' !in name && IsLatin1(name);
    UploadedFileArrives(uploadDir, uuid, name, [0x68, 0x65, 0x6C, 0x6C, 0x6F]);
  }

  /**
   * A file offered for sharing is served on the code it is given, and a
   * client of that code receives its base name and exactly its bytes.
   */
  method ShareAndReceive(sharer: FileSharer, filePath: string, candidates: seq<int>, disk: map<string, seq<byte>>)
    returns (fileName: string, body: seq<byte>)
    requires sharer.Valid()
    requires exists c :: c in candidates && c !in sharer.availableFiles
    requires filePath in disk
    requires var name := GetName(filePath);
             name != [] && IsLatin1(name) && '\n' !in name && !IsTrimmed(name[|name| - 1])
    modifies sharer
    ensures sharer.Valid()
    ensures fileName == GetName(filePath) && body == disk[filePath]
  {
    var port := sharer.OfferFile(filePath, candidates);
    var outcome := sharer.StartFileServer(port, disk);
    SplitFrame(filePath, disk[filePath]);
    fileName, body := ReceiveTransfer(outcome.wire);
  }

  /**
   * The whole exchange for a browser's well-formed upload of a plain file
   * name: the upload answers 200 with the code as JSON, and a download of
   * that code, while its file server listens, is an attachment named
   * `<uuid>_<filename>` holding exactly the uploaded bytes.
   */
  method UploadThenDownload(sharer: FileSharer, boundary: string, field: string, filename: string,
                            contentType: string, content: seq<byte>, uploadDir: string, uuid: string,
                            candidates: seq<int>, disk: map<string, seq<byte>>, prefix: string)
    returns (status: int, response: string, download: DownloadResponse)
    requires sharer.Valid()
    requires exists c :: c in candidates && c !in sharer.availableFiles
    requires forall c :: c in candidates ==> 0 <= c <= IntMax
    requires WellFormed.WellFormedPart(boundary, field, filename, contentType, content)
    requires '/' !in uuid && '\n' !in uuid && IsLatin1(uuid)
    requires '/' !in filename && '\n' !in filename && filename != [] && !IsTrimmed(filename[|filename| - 1])
    modifies sharer
    ensures sharer.Valid()
    ensures status == 200 && response == PortJson(FirstFree(candidates, old(sharer.availableFiles)))
    ensures download == Attachment(uuid + "_" + filename, content)
  {
    var port := FirstFree(candidates, sharer.availableFiles);
    var header := MultipartFormData + "; " + BoundaryMarker + boundary;
    var request := WellFormed.Body(boundary, field, filename, contentType, content);
    UploadWellFormed(boundary, field, filename, contentType, content, uploadDir, uuid);
    var written;
    status, response, written := Upload(sharer, "POST", Some(header), request, uploadDir, uuid, candidates, disk);
    var outcome := sharer.StartFileServer(port, written);
    UploadedFileArrives(uploadDir, uuid, filename, content);
    CodeOfPath(prefix, port);
    download := Download("GET", prefix + "/" + IntString(port), map[port := outcome.wire]);
  }
}
