# A verified model of the request pipeline of a small C file server

The server (`server.c`) accepts TCP connections and handles each one on its
own thread. `handle_client` receives one buffer of bytes. It matches the
request line against `^GET /([^ ]*) HTTP/1` and writes a NUL at the end of
the captured path. It percent-decodes the path, takes the file extension
after the last dot, and builds either `HTTP/1.1 200 OK` with a Content-Type
header and the file's bytes, or a fixed 404 response. It sends that response
and closes the connection.

This project models that pipeline in Dafny, one module per component:

- `Bytes` (bytes.dfy): a byte as a C `char` (a character code below 256),
  `Option`, `tolower` in the C locale, the hexadecimal digits `%x` reads, and
  C strings (the bytes up to the first NUL).
- `Mime` (mime.dfy): `get_mime_type` and `strcasecmp`.
- `FileExtension` (extension.dfy): `strrchr` and `get_file_extension`.
- `UrlDecode` (url_decode.dfy): `url_decode`, as the spec function `Decode`
  and as the C loop `UrlDecode`, which writes into an array through a write
  counter. The module also has a percent-encoder that serves as the inverse
  (section 2.1 of RFC 3986; section 2.3 gives the unreserved bytes).
- `RequestLine` (request_line.dfy): the regular expression as a hand-written
  matcher that returns the capture's `[start, end)` offsets (the request-line
  shape of section 3 of RFC 9112). It also covers the NUL that
  `handle_client` writes at the capture end.
- `Response` (response.dfy): `build_http_response` writing into the caller's
  array. An `OpenFile` class stands for the file descriptor. Its `read`
  returns any chunk of 1 to "what is both asked for and left" bytes, or 0 at
  end of file or when it is asked for 0 bytes. `BUFFER_SIZE` is the constant
  `BufferSize`.
- `Handler` (handler.dfy): `handle_client` over a `Connection` object, which
  records what was sent and whether the socket is closed. `Serve` gives what
  one connection sends back, as a function of the received bytes and a
  filesystem map from names to contents.

The filesystem is a `map` from file names to contents. `open` fails for
names that are not in it, and always for the empty name, as `open("")` does. The bytes `recv` returned are a
parameter.

The matcher treats the received bytes as a C string, as `regexec` does. The
capture `[^ ]*` stops at the first space or NUL. A NUL before the space
means there is no match.

`build_http_response` reads at most `BUFFER_SIZE - |header|` file bytes, so a
larger file is cut. See `Response.HttpResponse` and
`Response.LargeFileTruncated`.

`url_decode` returns a NUL-terminated `char*`. `get_file_extension` and
`open` read it as a C string, so a decoded `%00` ends the file name there.
The model does the same (`Handler.FileName`, `Handler.ServeNulTruncated`).

## Model

| member | source | states |
|---|---|---|
| `Bytes.ToLower` | server.c:17 | definition: `tolower` in the C locale, the folding `strcasecmp` applies (`A`-`Z` to `a`-`z`, every other byte unchanged) |
| `Bytes.HexByte` | server.c:131 | definition: `%2x` on two hexadecimal digits, the byte whose value is 16 × the first digit's value + the second's |
| `Bytes.HexByteOfDigits` | server.c:131 | `%2x` inverts upper-case hex formatting: the two digits of any byte read back as that byte |
| `Bytes.CString` | server.c:167-168 | the C string at an offset ends at the first NUL or at the end of the buffer; it contains no NUL and is the buffer's bytes from that offset |
| `Bytes.CStringBeforeNul` | server.c:168-172 | a C string whose bytes hold a NUL is read only up to the first one |
| `Mime.CaseEqual` | server.c:17 | `strcasecmp(a, b) == 0`: only strings of equal length compare equal; its full meaning is `Mime.CaseEqualIsLowerEqual` |
| `Mime.GetMimeType` | server.c:15-37 | total: the result is always one of text/html, text/plain, image/jpeg, image/png, application/octet-stream |
| `Mime.CaseEqualIsLowerEqual` | server.c:17 | `strcasecmp(a, b) == 0` holds exactly when both strings are equal after ASCII lower-casing |
| `Mime.MimeTypeByTable` | server.c:15-37 | the chain of comparisons equals a lookup of the lower-cased extension in the table html/htm→text/html, txt→text/plain, jpg/jpeg→image/jpeg, png→image/png; any other extension gives application/octet-stream |
| `Mime.MimeTypeCases` | server.c:17-36 | each MIME type is returned exactly for its extensions, in any letter case (both directions); octet-stream is returned exactly for extensions outside the table |
| `Mime.MimeTypeCaseInsensitive` | server.c:17-32 | two extensions equal up to letter case get the same type |
| `Mime.EmptyExtensionIsOctetStream` | server.c:33-36 | the empty extension gives application/octet-stream |
| `FileExtension.LastIndexOf` | server.c:107 | `strrchr`: None exactly when the byte is absent; otherwise an index holding the byte with no later occurrence |
| `FileExtension.GetFileExtension` | server.c:105-116 | no dot after index 0 gives ""; otherwise the result is exactly the suffix after the last dot; the result never contains a dot |
| `FileExtension.ExtensionOfSplit` | server.c:107-115 | for any name `stem + "." + ext` with a non-empty stem and a dot-free `ext`, the extension is `ext` |
| `FileExtension.ExtensionExamplesDotted` | server.c:107-115 | `a.txt` gives `txt`, `a.` gives ``, `a.b.c` gives `c` |
| `FileExtension.ExtensionExamplesUndotted` | server.c:108-111 | `.bashrc` and `noext` give `` |
| `UrlDecode.Decode` | server.c:118-143 | the output is never longer than the input; a reported malformed escape is a `%` with two bytes after it that are not both hex digits |
| `UrlDecode.DecodeEscapeStep` | server.c:127-133 | defining equation of `Decode`, used by the loop proof: a `%` at `i` with `i + 2 < len` and two hex digits after it becomes one byte of their value, and three input bytes are consumed |
| `UrlDecode.DecodeLiteralStep` | server.c:135-138 | defining equation of `Decode`, used by the loop proof: every other byte, a `%` in the last two positions included, is copied and one byte is consumed |
| `UrlDecode.UrlDecode` | server.c:118-143 | the C loop, through a `strlen + 1` byte buffer and a write counter, computes exactly `Decode(src)`, and its writes stay inside the buffer |
| `UrlDecode.DecodeWithoutPercent` | server.c:125-139 | an input without `%` decodes to itself |
| `UrlDecode.DecodePercentEncode` | server.c:125-139 | decoding undoes percent-encoding with upper-case digits, whichever non-`%` bytes are left literal |
| `UrlDecode.DecodeFullyEncoded` | server.c:125-139 | encoding every byte as `%XX` and decoding gives the original sequence |
| `RequestLine.MatchesWithCaptureEnd` | server.c:158 | definition of what the pattern means: `GET /` at offset 0, then bytes that are neither space nor NUL up to the capture end, then ` HTTP/1` |
| `RequestLine.FindStop` | server.c:158 | the first offset at or after `i` where `[^ ]*` must stop: every byte before it can be captured, and the byte at it (if any) is a space or NUL |
| `RequestLine.MatchRequestLine` | server.c:158-167 | on success the capture starts at 5 and the pattern matches with that capture end; failure happens exactly when no capture end fits the pattern (`GET /`, bytes that are neither space nor NUL, then ` HTTP/1`) |
| `RequestLine.CaptureEndUnique` | server.c:158 | at most one capture end fits: the capture runs to the first space |
| `RequestLine.MatchBuiltLine` | server.c:158-162 | `GET /` + a path with no space and no NUL + ` HTTP/1` + anything matches, and the capture is that path |
| `RequestLine.TerminatedCapture` | server.c:165-167 | after the NUL is written at the capture end, the C string at the capture start is exactly the captured path, which contains no space |
| `RequestLine.MatchExampleGet` | server.c:158-162 | `GET /foo.txt HTTP/1.1...` captures offsets [5, 12), i.e. `foo.txt` |
| `RequestLine.MatchExamplePost` | server.c:158-162 | `POST / HTTP/1.1...` does not match |
| `Response.Header` | server.c:44-48 | a header is the status line, CRLF, `Content-Type: `, the type and the empty line; it ends with `\r\n\r\n` and is 20 bytes longer than the status line and type |
| `Response.OkHeader` | server.c:44-48 | the 200 header starts with `HTTP/1.1 200 OK` and is 35 bytes longer than the type |
| `Response.OkHeaderLength` | server.c:43-48 | every 200 header is at most 59 bytes, far below `BUFFER_SIZE` |
| `Response.Blit` | server.c:70 | `memcpy`: the destination range is replaced by the source and nothing else changes |
| `Response.OpenFile.Read` | server.c:75 | `read`: returns 0 exactly at end of file or when asked for 0 bytes, never more than asked for; the bytes after the offset are copied to the buffer and the offset moves past them |
| `Response.ReadBody` | server.c:74-78 | whatever the chunk sizes, the loop leaves header + file prefix of length `min(|file|, BUFFER_SIZE - |header|)`, and the length stays within `BUFFER_SIZE` |
| `Response.BuildHttpResponse` | server.c:39-81 | `response[..response_len]` is `HttpResponse(file, ext)`: the 404 text when the open fails, otherwise the 200 header with `get_mime_type(ext)` and the file prefix; `response_len <= BUFFER_SIZE` |
| `Response.HttpResponse` | server.c:39-81 | the result of `build_http_response` whatever sizes the reads return: at most `BUFFER_SIZE` bytes; the 404 text when the open fails; otherwise `min(|header| + |file|, BUFFER_SIZE)` bytes that begin with the 200 header and continue with a prefix of the file |
| `Response.HtmlHeaderText` | server.c:44-48 | the 200 header for text/html is exactly `HTTP/1.1 200 OK\r\nContent-Type: text/html\r\n\r\n` |
| `Response.NotFoundIsFixed` | server.c:51-58 | a failed open gives exactly `HTTP/1.1 404 Not Found\r\nContent-Type: text/plain\r\n\r\n404 Not Found`, 65 bytes |
| `Response.SmallFileServedWhole` | server.c:69-78 | a file that fits beside the header is served whole after the header |
| `Response.LargeFileTruncated` | server.c:75-78 | a larger file is cut so that the response is exactly `BUFFER_SIZE` bytes |
| `Response.HeaderEndsAtBlankLine` | server.c:44-48 | the first empty line of a built header is its own terminator when the status line and the type contain no CR |
| `Response.ResponseSplits` | server.c:44-58 | a client splitting any response at its first empty line reads back the status line and Content-Type, and then exactly the served body (the file prefix, or `404 Not Found`) |
| `Response.OpenFile.constructor` | server.c:51 | a freshly opened file is read from offset 0 |
| `Handler.Open` | server.c:51-52 | definition: `open` over the filesystem map; a non-empty name in the map yields its contents, any other name fails, the empty one always (ENOENT) |
| `Handler.Connection.Send` | server.c:180 | one more response is recorded as sent; the connection stays open |
| `Handler.Connection.Close` | server.c:190 | the connection is closed and nothing more is sent |
| `Handler.FileName` | server.c:168-172 | the name that `strrchr` and `open` see is a NUL-free prefix of the decoded path |
| `Handler.Serve` | server.c:145-192 | what one connection sends: nothing exactly when the request line does not match, otherwise one response of at most `BUFFER_SIZE` bytes |
| `Handler.DefinedRequest` | server.c:131-172 | definition: the modelled inputs are those where a matching path has only two-hex-digit escapes and its file name's extension fits in `file_ext` |
| `Handler.DecodeRequestPath` | server.c:165-168 | writes NUL at the capture end, changes nothing else in the buffer, and returns the decoded capture read as a C string |
| `Handler.BuildResponseFor` | server.c:170-177 | copies the extension and its NUL into the 32-byte `file_ext` without overflow, then returns the builder's response for the file and its extension |
| `Handler.HandleClient` | server.c:145-192 | sends nothing when the request does not match, otherwise exactly one response, `Serve(received, fs)`; the connection is closed on both paths |
| `Handler.SilentIffNoMatch` | server.c:162-185 | nothing is sent exactly when no capture end fits the pattern |
| `Handler.ServeMatched` | server.c:162-180 | defining equation of `Serve` on a match: the response is `build_http_response` applied to the file name of `url_decode(capture)` and its extension |
| `Handler.EncodedRequestDecodes` | server.c:158-168 | the request line for an encoded name matches, and its capture decodes to the name |
| `Handler.ServeEncodedRequest` | server.c:158-180 | end to end: a request for any name, percent-encoded with space and NUL escaped, is answered with the response for that name read as a C string, whatever follows ` HTTP/1` |
| `Handler.ServeNulTruncated` | server.c:165-177 | a path that decodes to `head`, NUL, `tail` is answered for `head` alone, with the extension of `head` |
| `Handler.ServePlainRequest` | server.c:158-180 | a request for a name made of unreserved bytes, with a dot, is answered with the response for that name and the extension after the dot |
| `Handler.ServeIndexExample` | server.c:145-192 | `GET /index.html` with `index.html` holding `<p>hi</p>` is answered with `HTTP/1.1 200 OK\r\nContent-Type: text/html\r\n\r\n` followed by exactly `<p>hi</p>` |
| `Handler.ServeMissingExample` | server.c:145-192 | `GET /missing.xyz` for a missing file is answered with exactly the 404 response |

## Left out

- `main` (server.c:194-258) is not modelled: socket creation, `bind`, `listen`, the accept loop, and `pthread_create`/`pthread_detach`. These are OS networking and concurrency. Handlers share no state, so each connection is modelled on its own.
- `recv` is not modelled. `HandleClient` takes the bytes it returned as a parameter of at most `BUFFER_SIZE` bytes. If nothing was received, the model sends nothing.
- The model does not reproduce the `recv` error path (server.c:152-153). There, `-1` is stored in a `size_t` and passes the `> 0` test. This is a signedness bug in the source.
- `recv` does not NUL-terminate the buffer, so `regexec` may read past the received bytes (server.c:152, 162). The model takes the end of the received bytes as the end of the C string.
- The POSIX regex engine is not modelled. Only the one pattern of server.c:158 is, as a hand-written matcher.
- `UrlDecode.Decode`: where the two bytes after an escaping `%` are not both hex digits, it returns `MalformedEscape` instead of a value. In that case `sscanf("%2x")` (server.c:131) may leave `hex_val` unset. It also skips white space, accepts a sign, or reads just one digit (`%4G` gives byte 4). None of these cases is modelled byte for byte.
- `Handler.HandleClient`: requires `DefinedRequest(received)`, and so does `Handler.Serve`. If the request line matches, every escape in the path must have two hex digits, and the extension of the file name must be at most 31 bytes. A longer extension overflows the 32-byte `file_ext` through `strcpy` (server.c:171-172). Those inputs are a proper subset of the ones on which the C code is defined. The model does not cover escapes that `sscanf` reads in a defined way without two hex digits, listed under `UrlDecode.Decode` above.
- The `fstat` call and `file_size` (server.c:64-66) are not modelled, because the value is never used.
- `read` failing part-way through (returning -1) is not modelled. The model's `read` always delivers bytes until end of file or a full buffer. In C a failure silently ends the loop with a shorter response.
- `malloc`/`free` bookkeeping is not modelled, and neither is allocation failure. The source leaks `header` on the 404 early return (server.c:43, 60).
- The `snprintf` bounds on the 100 MiB header buffer are not modelled, because the header is at most 59 bytes (`Response.OkHeaderLength`). The NUL that `snprintf` writes after the 404 text is not modelled either, because `response_len` excludes it.
- `send` is modelled as delivering the whole response. Partial writes and send failures are not modelled. The connection is closed either way.
- The file name is not sanitised. A request containing `../` reaches files outside the working directory; the model's filesystem map treats every name alike.
