/** The response builder `build_http_response` (server.c:39-81): a status
    line and a Content-Type header, then the file's bytes read into the
    caller's buffer, or the fixed 404 response when the file cannot be opened. */
module Response {
  import opened Bytes
  import Mime

  /** `BUFFER_SIZE` (server.c:13): 100 MiB. */
  const BufferSize: nat := 104857600

  const CRLF: seq<Byte> := "\r\n"
  const BlankLine: seq<Byte> := CRLF + CRLF
  const OkStatusLine: seq<Byte> := "HTTP/1.1 200 OK"
  const NotFoundStatusLine: seq<Byte> := "HTTP/1.1 404 Not Found"
  const ContentTypeField: seq<Byte> := "Content-Type: "
  const NotFoundBody: seq<Byte> := "404 Not Found"

  /** A status line and a Content-Type header, up to and including the empty
      line that ends the header. */
  function Header(statusLine: seq<Byte>, mime: seq<Byte>): (h: seq<Byte>)
    ensures |h| == |statusLine| + |mime| + 20
    ensures h[|h| - 4..] == BlankLine
  {
    statusLine + CRLF + ContentTypeField + mime + BlankLine
  }

  /** The header `snprintf` formats for the 200 response (server.c:44-48). */
  function OkHeader(mime: seq<Byte>): (h: seq<Byte>)
    ensures |h| == |mime| + 35 && h[..|OkStatusLine|] == OkStatusLine
  {
    Header(OkStatusLine, mime)
  }

  /** The whole 404 response (server.c:54-58). */
  const NotFoundResponse: seq<Byte> := Header(NotFoundStatusLine, Mime.TextPlain) + NotFoundBody

  /** Every header the builder can produce fits the buffer with room to spare. */
  lemma OkHeaderLength(ext: seq<Byte>)
    ensures |OkHeader(Mime.GetMimeType(ext))| <= 59 < BufferSize
  {
  }

  function Min(a: int, b: int): (m: int)
    ensures m <= a && m <= b && (m == a || m == b)
  {
    if a <= b then a else b
  }

  /** The number of file bytes that fit after `header` in the buffer. */
  function BodyLength(contents: seq<Byte>, header: seq<Byte>): (n: nat)
    requires |header| <= BufferSize
    ensures n <= |contents| && |header| + n <= BufferSize
    ensures n == |contents| || |header| + n == BufferSize
  {
    Min(|contents|, BufferSize - |header|)
  }

  /** The response for a file (`None` when `open` fails) and an extension,
      whatever sizes the individual reads return. */
  function HttpResponse(file: Option<seq<Byte>>, ext: seq<Byte>): (r: seq<Byte>)
    ensures |r| <= BufferSize
    ensures file.None? ==> r == NotFoundResponse
    ensures file.Some? ==> |r| == Min(|OkHeader(Mime.GetMimeType(ext))| + |file.value|, BufferSize)
    ensures file.Some? ==> OkHeader(Mime.GetMimeType(ext)) <= r && r <= OkHeader(Mime.GetMimeType(ext)) + file.value
  {
    match file
    case None => NotFoundResponse
    case Some(contents) =>
      var header := OkHeader(Mime.GetMimeType(ext));
      OkHeaderLength(ext);
      header + contents[..BodyLength(contents, header)]
  }

  /** `memcpy(dst + at, src, |src|)`. */
  method Blit(dst: array<Byte>, at: nat, src: seq<Byte>)
    requires at + |src| <= dst.Length
    modifies dst
    ensures dst[..] == old(dst[..])[..at] + src + old(dst[..])[at + |src|..]
  {
    forall k | 0 <= k < |src| {
      dst[at + k] := src[k];
    }
  }

  /** An open file descriptor: the file's bytes and the read offset. */
  class OpenFile {
    const contents: seq<Byte>
    var offset: nat

    ghost predicate Valid()
      reads this
    {
      offset <= |contents|
    }

    constructor (contents: seq<Byte>)
      ensures Valid() && this.contents == contents && offset == 0
    {
      this.contents := contents;
      offset := 0;
    }

    /** `read(fd, buf + at, count)`: some number of bytes between 1 and what
        is both asked for and left, or 0 at end of file or when `count` is 0. */
    method Read(buf: array<Byte>, at: nat, count: nat) returns (n: nat)
      requires Valid() && at + count <= buf.Length
      modifies this, buf
      ensures Valid() && offset == old(offset) + n && n <= count
      ensures n == 0 <==> old(offset) == |contents| || count == 0
      ensures buf[..] == old(buf[..])[..at] + contents[old(offset)..offset] + old(buf[..])[at + n..]
    {
      var available := Min(count, |contents| - offset);
      if available == 0 {
        return 0;
      }
      n :| 1 <= n <= available;
      Blit(buf, at, contents[offset..offset + n]);
      offset := offset + n;
    }
  }

  /** After a read of `n` bytes at `len`, the filled part of the buffer
      grows by exactly those bytes. */
  lemma ChunkAppended(header: seq<Byte>, contents: seq<Byte>, before: seq<Byte>, after: seq<Byte>,
                      offset: nat, n: nat)
    requires |header| + offset + n <= |before| && offset + n <= |contents|
    requires before[..|header| + offset] == header + contents[..offset]
    requires after == before[..|header| + offset] + contents[offset..offset + n]
                      + before[|header| + offset + n..]
    ensures after[..|header| + offset + n] == header + contents[..offset + n]
  {
    assert contents[..offset + n] == contents[..offset] + contents[offset..offset + n];
  }

  /** The loop of server.c:75-78: read into the buffer after the header until
      `read` returns 0. */
  method ReadBody(fd: OpenFile, response: array<Byte>, header: seq<Byte>) returns (responseLen: nat)
    requires fd.Valid() && fd.offset == 0 && |header| <= BufferSize <= response.Length
    requires response[..|header|] == header
    modifies fd, response
    ensures responseLen <= BufferSize
    ensures response[..responseLen] == header + fd.contents[..BodyLength(fd.contents, header)]
  {
    responseLen := |header|;
    while true
      invariant fd.Valid()
      invariant responseLen == |header| + fd.offset <= BufferSize
      invariant response[..responseLen] == header + fd.contents[..fd.offset]
      decreases |fd.contents| - fd.offset
    {
      ghost var before := response[..];
      ghost var offset := fd.offset;
      var bytesRead := fd.Read(response, responseLen, BufferSize - responseLen);
      if bytesRead == 0 {
        break;
      }
      ChunkAppended(header, fd.contents, before, response[..], offset, bytesRead);
      responseLen := responseLen + bytesRead;
    }
  }

  /** The builder. `response` is the caller's buffer; the result is
      `*response_len`. The response is the same for every way `read` splits
      the file, and never longer than `BUFFER_SIZE`. */
  method BuildHttpResponse(file: Option<seq<Byte>>, ext: seq<Byte>, response: array<Byte>)
    returns (responseLen: nat)
    requires BufferSize <= response.Length
    modifies response
    ensures responseLen <= BufferSize
    ensures response[..responseLen] == HttpResponse(file, ext)
  {
    var mime := Mime.GetMimeType(ext);
    var header := OkHeader(mime);
    OkHeaderLength(ext);
    if file.None? {
      Blit(response, 0, NotFoundResponse);
      responseLen := |NotFoundResponse|;
      return;
    }
    var fd := new OpenFile(file.value);
    Blit(response, 0, header);
    responseLen := ReadBody(fd, response, header);
  }

  /** The 200 header for an HTML file, byte for byte. */
  lemma HtmlHeaderText(mime: seq<Byte>)
    requires mime == Mime.TextHtml
    ensures OkHeader(mime) == "HTTP/1.1 200 OK\r\n" + "Content-Type: text/html\r\n\r\n"
  {
  }

  /** When the open fails, the response is the fixed 404 text, 65 bytes. */
  lemma NotFoundIsFixed(ext: seq<Byte>)
    ensures HttpResponse(None, ext) == NotFoundResponse
    ensures |NotFoundResponse| == 65
    ensures NotFoundResponse
         == "HTTP/1.1 404 Not Found\r\n" + "Content-Type: text/plain\r\n\r\n" + "404 Not Found"
  {
  }

  /** A file that fits beside the header is served whole. */
  lemma SmallFileServedWhole(contents: seq<Byte>, ext: seq<Byte>)
    requires |OkHeader(Mime.GetMimeType(ext))| + |contents| <= BufferSize
    ensures HttpResponse(Some(contents), ext) == OkHeader(Mime.GetMimeType(ext)) + contents
  {
    assert contents[..|contents|] == contents;
  }

  /** A larger file is cut so that the response fills the buffer exactly. */
  lemma LargeFileTruncated(contents: seq<Byte>, ext: seq<Byte>)
    requires |OkHeader(Mime.GetMimeType(ext))| + |contents| > BufferSize
    ensures |HttpResponse(Some(contents), ext)| == BufferSize
    ensures HttpResponse(Some(contents), ext)
         == OkHeader(Mime.GetMimeType(ext)) + contents[..BufferSize - |OkHeader(Mime.GetMimeType(ext))|]
  {
    OkHeaderLength(ext);
  }

  /** The first `\r\n\r\n` at or after offset `i`: where a client finds the
      end of the header. */
  function FindBlankLine(r: seq<Byte>, i: nat): (j: Option<nat>)
    requires i <= |r|
    ensures j.Some? ==> i <= j.value && j.value + 4 <= |r| && r[j.value..j.value + 4] == BlankLine
    decreases |r| - i
  {
    if |r| < i + 4 then None
    else if r[i..i + 4] == BlankLine then Some(i)
    else FindBlankLine(r, i + 1)
  }

  datatype Message = Message(head: seq<Byte>, body: seq<Byte>)

  /** A client's view of a response: the header lines and the body after the
      first empty line. */
  function SplitResponse(r: seq<Byte>): (m: Option<Message>)
    ensures m.Some? ==> r == m.value.head + BlankLine + m.value.body
  {
    match FindBlankLine(r, 0)
    case None => None
    case Some(j) => Some(Message(r[..j], r[j + 4..]))
  }

  lemma {:induction false} FindFirstBlankLine(r: seq<Byte>, i: nat, j: nat)
    requires i <= j && j + 4 <= |r| && r[j..j + 4] == BlankLine
    requires forall k :: i <= k < j ==> r[k] != '\r' || r[k + 2] != '\r'
    ensures FindBlankLine(r, i) == Some(j)
    decreases j - i
  {
    if i < j {
      assert r[i..i + 4][0] == r[i] && r[i..i + 4][2] == r[i + 2];
      FindFirstBlankLine(r, i + 1, j);
    }
  }

  /** A header built by `Header` ends at its own empty line, provided the
      status line and the type hold no carriage return. */
  lemma HeaderEndsAtBlankLine(statusLine: seq<Byte>, mime: seq<Byte>, body: seq<Byte>)
    requires '\r' !in statusLine && '\r' !in mime
    ensures SplitResponse(Header(statusLine, mime) + body)
         == Some(Message(statusLine + CRLF + ContentTypeField + mime, body))
  {
    var head := statusLine + CRLF + ContentTypeField + mime;
    var r := Header(statusLine, mime) + body;
    assert r == head + BlankLine + body;
    var n := |head|;
    forall k | 0 <= k < n ensures r[k] != '\r' || r[k + 2] != '\r' {
      if k < |statusLine| {
        assert r[k] == statusLine[k];
      } else if k == |statusLine| {
        assert r[k + 2] == ContentTypeField[0];
      } else if k == |statusLine| + 1 {
        assert r[k] == '\n';
      } else if k < |statusLine| + 2 + |ContentTypeField| {
        assert r[k] == ContentTypeField[k - |statusLine| - 2];
      } else {
        assert r[k] == mime[k - |statusLine| - 2 - |ContentTypeField|];
      }
    }
    assert r[n..n + 4] == BlankLine;
    FindFirstBlankLine(r, 0, n);
    assert r[..n] == head && r[n + 4..] == body;
  }

  /** A client splitting the response at the first empty line reads back the
      status line, the content type, and exactly the bytes served. */
  lemma ResponseSplits(file: Option<seq<Byte>>, ext: seq<Byte>)
    ensures SplitResponse(HttpResponse(file, ext)) ==
      match file
      case None =>
        Some(Message(NotFoundStatusLine + CRLF + ContentTypeField + Mime.TextPlain, NotFoundBody))
      case Some(contents) =>
        var mime := Mime.GetMimeType(ext);
        Some(Message(OkStatusLine + CRLF + ContentTypeField + mime,
                     contents[..BodyLength(contents, OkHeader(mime))]))
  {
    var mime := Mime.GetMimeType(ext);
    assert '\r' !in mime;
    match file
    case None =>
      HeaderEndsAtBlankLine(NotFoundStatusLine, Mime.TextPlain, NotFoundBody);
    case Some(contents) =>
      OkHeaderLength(ext);
      HeaderEndsAtBlankLine(OkStatusLine, mime, contents[..BodyLength(contents, OkHeader(mime))]);
  }
}
