# Peerlink transfer core, modelled in Dafny

Peerlink is a peer-to-peer file-sharing service. A browser uploads one file as
a `multipart/form-data` request. The gateway stores the file under a
UUID-prefixed name and registers the stored path under a numeric transfer code,
which is also the port of a one-shot file server. The browser later downloads
`/download/<code>`. The gateway then connects to that port, reads the header
line the sender writes (`Filename: <name>\n`), and returns the rest of the
stream as an attachment.

This project models that core over byte sequences and a finite map:

- `Search` (`search.dfy`): `String.indexOf`, `lastIndexOf` and the byte search
  `findSequence`. The byte search is an imperative method with the source's
  nested loops and labelled `continue`, proved against `IndexOf`.
- `Charset` (`charset.dfy`): the platform charset, fixed to ISO-8859-1.
  Decoding maps each byte to the character with the same code. Encoding maps
  each character below 256 to its byte and any other character to `?`. Under
  this charset an offset in the decoded text is the same offset in the bytes.
- `Text` (`text.dfy`): the `java.lang.String`, `java.io.File` and
  `java.lang.Integer` operations the handlers use: `trim`, `startsWith`,
  `equalsIgnoreCase`, `File.getName` on a Unix path, `Integer.parseInt` and
  `Integer.toString`.
- `Multipart` (`multipart.dfy`): `Multiparser.parse`. It is a pure function
  from the body and boundary to an optional part. Beside it is an independent,
  declarative description of a successful decode (`Decodes`). `ParseSound` and
  `ParseComplete` prove the two agree in both directions. Separate lemmas cover
  each failure path.
- `WellFormed` (`wellformed.dfy`): the body a browser sends for one file
  part, with the disposition line in the browsers' order
  `form-data; name="<field>"; filename="<filename>"`. `WellFormedParse` proves
  that the decoder returns exactly that part's filename, content type and
  content.
- `Sharing` (`sharing.dfy`): the `FileSharer` registry as a class with a
  `map<int, string>` field. It also holds the sender's framing and its
  4096-byte copy loop.
- `Gateway` (`gateway.dfy`): the upload and download handlers without the HTTP
  plumbing. This is the content-type gate, boundary extraction, stored-name
  rules, code extraction, and the byte-by-byte header split on the receiving
  side. It also holds the lemmas that connect the two ends of a transfer.

The transfer-code generator is not part of this model. It appears as a finite
sequence of candidate codes that, by precondition, holds at least one code not
yet registered. The file system is a `map<string, seq<byte>>`. A connection to
a transfer port gives the byte stream that port's server sends.

Take an upload of `a.txt` holding `hello`. One could expect the downloading
client to receive `Filename: a.txt\nhello`. The code instead announces the
base name of the stored path, so the client receives
`Filename: <uuid>_a.txt\nhello`. The model follows the code, and
`HelloTransfer` states this transfer as the code behaves.

The decoder looks for the first blank line anywhere in the body. When a form
sends another field before the file part, that first blank line ends the
other field's headers. The decoded content then runs from that field's value,
through the file part's headers, to the closing delimiter. The model keeps
this behaviour (`ContentSound`, `ContentComplete`).

## Model

| member | source | states |
|---|---|---|
| Search.IndexOf | backend/src/main/java/p2p/controller/FileController.java:244-260 | the result is -1 exactly when the pattern occurs nowhere at or after `from`; otherwise it is the least such offset, and the pattern occurs there |
| Search.FindSequence | backend/src/main/java/p2p/controller/FileController.java:296-307 | returns the least `i >= startPos` at which `sequence` occurs in `data`, or -1 when there is none; a non-negative result leaves room for the whole sequence before the end of `data` |
| Search.LastIndexOf | backend/src/main/java/p2p/controller/FileController.java:167 | the result is -1 or an index holding `c`, and no later index holds `c` |
| Charset.Encode | backend/src/main/java/p2p/service/FileSharer.java:71-72 | `getBytes()` keeps the length and maps each character to its own byte, or to `?` when it is above 255 |
| Charset.Decode | backend/src/main/java/p2p/controller/FileController.java:242 | `new String(bytes)` keeps the length, maps each byte to the character with the same code, and gives Latin-1 text |
| Charset.DecodeEncode | backend/src/main/java/p2p/service/FileSharer.java:71-72 | decoding the bytes of a Latin-1 string gives back the string |
| Charset.EncodeDecode | backend/src/main/java/p2p/controller/FileController.java:242 | encoding decoded bytes gives back the bytes |
| Text.TrimStart | backend/src/main/java/p2p/controller/FileController.java:186 | the result is a suffix of the input; every dropped character is `<= ' '`; a non-empty result starts with a character above `' '` |
| Text.TrimEnd | backend/src/main/java/p2p/controller/FileController.java:186 | the result is a prefix of the input; every dropped character is `<= ' '`; a non-empty result ends with a character above `' '` |
| Text.Trim | backend/src/main/java/p2p/controller/FileController.java:186 | `trim()` is no longer than its input, and a non-empty result neither starts nor ends with a character `<= ' '` |
| Text.TrimSlice | backend/src/main/java/p2p/controller/FileController.java:186 | `trim()` is a contiguous stretch of the input, and every character before or after that stretch is `<= ' '` |
| Text.TrimEmpty | backend/src/main/java/p2p/controller/FileController.java:119 | `trim()` is empty if and only if every character is `<= ' '` |
| Text.TrimUnchanged | backend/src/main/java/p2p/controller/FileController.java:186 | a string that starts and ends above `' '` is its own trim |
| Text.StartsWith | backend/src/main/java/p2p/controller/FileController.java:91 | `s.startsWith(p)` holds exactly when `p` fits in `s` and `s` is `p` followed by the rest |
| Text.EqualsIgnoreCase | backend/src/main/java/p2p/controller/FileController.java:80 | two strings match exactly when they have the same length and at every position the characters are equal or are the upper and lower case of one ASCII letter |
| Text.MethodNamesIgnoreCase | backend/src/main/java/p2p/controller/FileController.java:80 | `post` passes the upload's method check and `Get` the download's GET check, while `GET` does not pass as `POST` and `PUT` does not either |
| Text.StripTrailingSlashes | backend/src/main/java/p2p/controller/FileController.java:123 | drops exactly the trailing separators |
| Text.GetName | backend/src/main/java/p2p/controller/FileController.java:123 | the last path component has no separator, and a name without separators is its own last component |
| Text.GetNameTrailing | backend/src/main/java/p2p/controller/FileController.java:123 | trailing separators do not change a path's last component |
| Text.GetNameJoin | backend/src/main/java/p2p/service/FileSharer.java:70 | the last component of `dir + "/" + name` is `name` when `name` is non-empty and has no separator |
| Text.ParseInt | backend/src/main/java/p2p/controller/FileController.java:170 | a parsed value lies in the 32-bit range; an empty string or one starting with neither a digit nor a sign gives no value; a run of digits gives its decimal value exactly when that value is at most 2147483647; `+` followed by digits gives their value under the same bound; `-` followed by digits gives the negated value exactly when it is at least -2147483648; anything else after a sign gives no value |
| Text.ParseIntNeedsDigits | backend/src/main/java/p2p/controller/FileController.java:170 | any character that is neither a digit nor a leading sign makes `parseInt` fail |
| Text.DecimalString | backend/src/main/java/p2p/controller/FileController.java:133 | the decimal text of a number is a non-empty run of digits |
| Text.DigitsValueDecimal | backend/src/main/java/p2p/controller/FileController.java:133 | the decimal text of `n` has value `n` |
| Text.ParseDecimal | backend/src/main/java/p2p/controller/FileController.java:170 | `parseInt` reads back the decimal text of any `n` up to the largest `int` |
| Multipart.FilenameOf | backend/src/main/java/p2p/controller/FileController.java:243-248 | the extracted filename never contains a quote |
| Multipart.ContentTypeOf | backend/src/main/java/p2p/controller/FileController.java:250-257 | there is no content-type line exactly when no `Content-Type: ` occurs after the filename's closing quote |
| Multipart.ContentOf | backend/src/main/java/p2p/controller/FileController.java:259-275 | extracted content is never empty |
| Multipart.ContentFromStart | backend/src/main/java/p2p/controller/FileController.java:270-273 | content it returns is never empty (that a missing end gives no content is stated by `ContentFromSound`) |
| Multipart.ContentEndOf | backend/src/main/java/p2p/controller/FileController.java:264-269 | the end is -1 exactly when neither the closing delimiter nor the plain delimiter occurs at or after the content start; any other end lies between the start and the end of the body |
| Multipart.Parse | backend/src/main/java/p2p/controller/FileController.java:240-281 | a decoded part has non-empty content and a filename without quotes |
| Multipart.FilenameSound | backend/src/main/java/p2p/controller/FileController.java:243-248 | the extracted name lies between the first `filename="` and the first quote after it |
| Multipart.FilenameComplete | backend/src/main/java/p2p/controller/FileController.java:243-248 | the text between the first marker and the next quote is what is extracted, with that quote's offset |
| Multipart.ContentTypeSound | backend/src/main/java/p2p/controller/FileController.java:250-257 | unless the line is unterminated, the content type is absent when no `Content-Type: ` follows the filename and otherwise is the text to the next CRLF |
| Multipart.ContentTypeComplete | backend/src/main/java/p2p/controller/FileController.java:250-257 | a content type as the description states it is the one the step finds |
| Multipart.ContentEndSound | backend/src/main/java/p2p/controller/FileController.java:264-269 | a found end is the first closing delimiter, or the first plain delimiter only when no closing delimiter follows the start |
| Multipart.ContentEndComplete | backend/src/main/java/p2p/controller/FileController.java:264-269 | an end as the description states it is the one found |
| Multipart.ContentFromSound | backend/src/main/java/p2p/controller/FileController.java:264-273 | extracted content is the non-empty run from the start to its end |
| Multipart.ContentFromComplete | backend/src/main/java/p2p/controller/FileController.java:264-273 | content as the description states it is what is extracted |
| Multipart.ContentSound | backend/src/main/java/p2p/controller/FileController.java:259-273 | extracted content starts right after the first blank line anywhere in the body |
| Multipart.ContentComplete | backend/src/main/java/p2p/controller/FileController.java:259-273 | content after the first blank line, as described, is what is extracted |
| Multipart.ParseSound | backend/src/main/java/p2p/controller/FileController.java:240-281 | every part `parse` returns meets the declarative description of filename, content type and content |
| Multipart.ParseComplete | backend/src/main/java/p2p/controller/FileController.java:240-281 | any part the description admits is exactly what `parse` returns, so the result is fully determined by the body and boundary |
| Multipart.ParseNeedsFilenameMarker | backend/src/main/java/p2p/controller/FileController.java:244-245 | no `filename="` in the body gives no part |
| Multipart.ParseNeedsClosingQuote | backend/src/main/java/p2p/controller/FileController.java:247-248 | no quote after the first marker gives no part, where the source's `substring` throws and the exception is caught |
| Multipart.ParseNeedsContentTypeEnd | backend/src/main/java/p2p/controller/FileController.java:253-256 | a `Content-Type: ` line with no CRLF after it makes the whole decode fail |
| Multipart.ParseNeedsHeaderEnd | backend/src/main/java/p2p/controller/FileController.java:259-261 | no `\r\n\r\n` in the body gives no part |
| Multipart.ParseNeedsDelimiter | backend/src/main/java/p2p/controller/FileController.java:264-270 | neither delimiter after the content start gives no part, never a truncated one |
| Multipart.ParseRejectsEmptyContent | backend/src/main/java/p2p/controller/FileController.java:270 | a closing delimiter right after the blank line, that is an empty file, gives no part |
| WellFormed.WellFormedParse | backend/src/main/java/p2p/controller/FileController.java:240-281 | a body with one file part whose disposition line reads `form-data; name="<field>"; filename="<filename>"`, as browsers write it, decodes to exactly that filename, content type and content, when the header values are single-line Latin-1 text without quotes, the field name does not end in `=`, the content is non-empty and the closing delimiter does not occur in it |
| Gateway.AcceptsContentType | backend/src/main/java/p2p/controller/FileController.java:91 | no Content-Type header fails the gate; a present one passes exactly when it begins with `multipart/form-data` |
| Gateway.BoundaryOf | backend/src/main/java/p2p/controller/FileController.java:101 | the boundary is the rest of the header after the first `boundary=`, or the rest after offset 8 when there is none |
| Gateway.BoundaryOfHeader | backend/src/main/java/p2p/controller/FileController.java:91-101 | `multipart/form-data; boundary=B` passes the gate and yields `B` |
| Gateway.UploadName | backend/src/main/java/p2p/controller/FileController.java:118-121 | a blank filename becomes `unnamed-file`; any other filename is kept |
| Gateway.StoredName | backend/src/main/java/p2p/controller/FileController.java:123 | the stored name starts with the UUID and `_`, and has no separator when the UUID has none |
| Gateway.UploadPath | backend/src/main/java/p2p/controller/FileController.java:123-124 | the upload path is the upload directory, a separator, and then text that has no separator when the UUID has none, so the file lands directly in the upload directory; when the UUID has no separator, the last component of the path is the stored name |
| Gateway.StoredNameInDirectory | backend/src/main/java/p2p/controller/FileController.java:123 | a filename with directories in it, such as `dir/name`, is stored as `<uuid>_name`, keeping only its last component |
| Gateway.StoredNameBlank | backend/src/main/java/p2p/controller/FileController.java:119-123 | a blank filename is stored as `<uuid>_unnamed-file` |
| Gateway.StoredNamePlain | backend/src/main/java/p2p/controller/FileController.java:123 | a non-blank filename without separators is stored as `<uuid>_<filename>` |
| Gateway.IntString | backend/src/main/java/p2p/controller/FileController.java:133 | the decimal text of any 32-bit `int` reads back through `parseInt` to the same number |
| Gateway.PortJson | backend/src/main/java/p2p/controller/FileController.java:133 | the response is `{"port": `, then text that `parseInt` reads back as the code, then `}` |
| Gateway.UploadStepOf | backend/src/main/java/p2p/controller/FileController.java:80-124 | a method other than POST gives 405; a missing or non-multipart Content-Type gives 400; an undecodable body gives 400; otherwise the decoded, non-empty content is stored at the derived path |
| Gateway.UploadWellFormed | backend/src/main/java/p2p/controller/FileController.java:100-124 | a browser's well-formed upload, with the header `multipart/form-data; boundary=B`, is stored byte for byte at the upload path of its filename |
| Gateway.UploadWellFormedPlain | backend/src/main/java/p2p/controller/FileController.java:100-124 | when the filename is not blank and has no separator, that upload path is `<dir>/<uuid>_<filename>` |
| Gateway.Upload | backend/src/main/java/p2p/controller/FileController.java:118-138 | a rejected upload leaves the registry and disk unchanged; a stored upload writes the file, registers it under the first free candidate code, and answers 200 with `{"port": <code>}` |
| Gateway.CodeOf | backend/src/main/java/p2p/controller/FileController.java:166-170 | a path with no separator is parsed whole, and a path ending in a separator gives no code |
| Gateway.CodeOfSegment | backend/src/main/java/p2p/controller/FileController.java:166-170 | the code of `<prefix>/<seg>`, for a last segment `seg` without a separator, is exactly `parseInt(seg)`, whatever the prefix |
| Gateway.CodeOfNonNumeric | backend/src/main/java/p2p/controller/FileController.java:170 | a path ending in `/abc`, such as `/download/abc`, gives no code, which is the 400 answer |
| Gateway.CodeOfLeadingZeros | backend/src/main/java/p2p/controller/FileController.java:170 | a path ending in `/007`, such as `/download/007`, gives code 7, as `parseInt` reads leading zeros |
| Gateway.CodeOfPath | backend/src/main/java/p2p/controller/FileController.java:166-170 | the code at the end of a download path, as the upload answer prints it, is read back exactly |
| Gateway.HeaderLine | backend/src/main/java/p2p/controller/FileController.java:179-184 | the header is the longest newline-free prefix of the stream, and a newline follows it unless the stream ends |
| Gateway.AnnouncedName | backend/src/main/java/p2p/controller/FileController.java:186-189 | when the trimmed header starts with `Filename: ` the name is the remainder; otherwise it is `download-file` |
| Gateway.StreamName | backend/src/main/java/p2p/controller/FileController.java:186-189 | when the trimmed header line starts with `Filename: ` the received name is the rest of that line; otherwise it is `download-file` |
| Gateway.StreamBody | backend/src/main/java/p2p/controller/FileController.java:191-194 | when a newline follows the header, the stream is the header, that newline and the received bytes; a stream with no newline leaves no bytes |
| Gateway.HeaderLineIs | backend/src/main/java/p2p/controller/FileController.java:179-194 | a newline-free prefix ended by a newline or by the end of the stream is the header, and the body is everything after that newline |
| Gateway.ReceiveTransfer | backend/src/main/java/p2p/controller/FileController.java:175-195 | the byte-by-byte header loop and the buffered copy loop produce the announced name and exactly the bytes after the first newline |
| Gateway.Download | backend/src/main/java/p2p/controller/FileController.java:157-225 | a method other than GET gives 405; a non-numeric code gives 400; no server on the port gives 500; otherwise the answer is the split stream |
| Gateway.EncodeNoNewline | backend/src/main/java/p2p/service/FileSharer.java:71-72 | a string without `\n` encodes to bytes without a newline |
| Gateway.SplitFrame | backend/src/main/java/p2p/service/FileSharer.java:70-78 | the download side splits what the sender writes back into the base name and exactly the file's bytes, when the name is non-empty, Latin-1, free of `\n` and ends above `' '` |
| Gateway.UploadedFileArrives | backend/src/main/java/p2p/controller/FileController.java:123-124 | when the UUID and the filename are Latin-1 text without `/` or `\n`, and the filename is non-empty and ends with a character above `' '`, an uploaded file arrives at the downloader as `<uuid>_<filename>` with its bytes intact |
| Gateway.ShareAndReceive | backend/src/main/java/p2p/service/FileSharer.java:19-78 | a file that is on disk, and whose base name is non-empty Latin-1 text without `\n` ending with a character above `' '`, once offered for sharing and served on its code, reaches that code's client as its base name and exactly its bytes; some candidate code must be free, and the registry stays valid |
| Gateway.UploadThenDownload | backend/src/main/java/p2p/controller/FileController.java:80-225 | a browser's well-formed upload of a plain filename answers 200 with `{"port": <code>}` for the first free candidate, and a download of that code is the attachment `<uuid>_<filename>` holding exactly the uploaded bytes |
| Gateway.HelloTransfer | backend/src/main/java/p2p/service/FileSharer.java:70-78 | the sample upload `a.txt` holding `hello` arrives as `hello` under `<uuid>_a.txt` |
| Sharing.Header | backend/src/main/java/p2p/service/FileSharer.java:70-71 | the header is `Filename: `, then the name, then one newline |
| Sharing.Frame | backend/src/main/java/p2p/service/FileSharer.java:70-78 | what the server writes is the encoded header for the path's base name, followed by exactly the file's bytes |
| Sharing.CopyStream | backend/src/main/java/p2p/service/FileSharer.java:74-78 | the chunked copy through a 4096-byte buffer appends every source byte once, in order |
| Sharing.SendFile | backend/src/main/java/p2p/service/FileSharer.java:66-78 | a missing file sends nothing; otherwise the wire carries `Filename: <basename>\n` and then the file's bytes |
| Sharing.FirstFree | backend/src/main/java/p2p/service/FileSharer.java:21-23 | the chosen code is a candidate not yet registered, and every candidate before it is registered |
| Sharing.FirstFreeSkips | backend/src/main/java/p2p/service/FileSharer.java:21-23 | registered candidates ahead of the rest do not change the choice |
| Sharing.FirstFreeAt | backend/src/main/java/p2p/service/FileSharer.java:21-25 | the first index holding an unregistered code gives the chosen code |
| Sharing.FileSharer.constructor | backend/src/main/java/p2p/service/FileSharer.java:14-16 | the registry starts empty, with nothing issued |
| Sharing.FileSharer.OfferFile | backend/src/main/java/p2p/service/FileSharer.java:19-28 | returns the first candidate not registered before the call; maps it to the path and leaves every other entry unchanged; keeps the issued codes pairwise distinct and equal to the keys |
| Sharing.FileSharer.StartFileServer | backend/src/main/java/p2p/service/FileSharer.java:31-47 | a code without an entry serves nothing; otherwise the one client gets what the sender handler writes for the stored path |

## Left out

- Sockets, threads and HTTP plumbing are not modelled. This covers binding and accepting on the transfer port, the detached sender and server threads, CORS, response headers, the executor, and the temporary file the download is buffered in. A download reads the stream a port's server sends, given as a map from port to bytes.
- Only one client per file server: after one download the source serves nothing more on that port, but its registry entry stays. The model does not track which servers are still listening.
- `UploadUtils.generateCode` is not part of this model. Its codes are a finite candidate sequence.
- Sharing.FileSharer.OfferFile: requires some candidate to be free. The source retries forever, and stops only when the generator eventually yields an unregistered code.
- Randomness and the file system: the UUID is a parameter, and files are a `map<string, seq<byte>>`. Failures of writing a file (the 500 answer of the upload handler) are not modelled.
- The charset is fixed to ISO-8859-1. Under a multi-byte platform charset, the source's text offsets and byte offsets can differ; that case is not modelled.
- `File.getName` is modelled for Unix separators, and `File.separator` is `/`.
- Text.ParseInt: accepts ASCII digits only, where `Integer.parseInt` also takes other Unicode decimal digits.
- Text.EqualsIgnoreCase: folds ASCII letters only.
- WellFormed.WellFormedParse: covers only the browsers' parameter order, `name` before `filename`. It also excludes field names that end in `=`, which is more than needed: only a field name ending in `filename=` would make the decoder take the wrong quote.
- A code outside the port range makes the source's `Socket` constructor throw an exception that neither handler catches. The model treats that code like any other port with no server.
- Gateway.SplitFrame: covers names whose last character is above `' '`. A name ending in whitespace is not recovered, because `trim()` removes that whitespace.
- Read sizes: each read of the copy loop returns the rest of the stream, up to the 4096-byte buffer. A stream that delivers shorter reads writes the same bytes.
- Console logging is not modelled.
- The `ParseResult.filename == null` test of the upload handler is not modelled: the decoder never returns a null filename.
