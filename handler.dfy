/** The per-connection pipeline of `handle_client` (server.c:145-192):
    receive, match the request line, terminate and decode the path, take its
    extension, build the response, send it, close the connection. */
module Handler {
  import opened Bytes
  import Mime
  import FileExtension
  import UrlDecode
  import RequestLine
  import Response

  /** `char file_ext[32]` (server.c:171) holds 31 bytes and the NUL. */
  const MaxExtensionLength: nat := 31

  /** The files `open` can reach, by name, with their contents. */
  type FileSystem = map<seq<Byte>, seq<Byte>>

  /** `open(name, O_RDONLY)`: the file's bytes, or None when it fails. The
      empty path names no file (ENOENT) whatever the map holds. */
  function Open(fs: FileSystem, name: seq<Byte>): Option<seq<Byte>> {
    if name != [] && name in fs then Some(fs[name]) else None
  }

  /** The file name `handle_client` works with: the decoded path read as the
      C string `url_decode` returns, so a decoded `%00` ends it. */
  function FileName(decoded: seq<Byte>): (name: seq<Byte>)
    ensures NUL !in name && name <= decoded
  {
    CString(decoded, 0)
  }

  /** Received bytes that the model covers: when the request line matches,
      every escape in the path has two hexadecimal digits and the extension
      of the file name fits `file_ext` (otherwise `strcpy` overflows it). */
  predicate DefinedRequest(received: seq<Byte>) {
    match RequestLine.MatchRequestLine(received)
    case None => true
    case Some(span) =>
      var decoded := UrlDecode.Decode(received[span.start..span.end]);
      decoded.Decoded?
      && |FileExtension.GetFileExtension(FileName(decoded.bytes))| <= MaxExtensionLength
  }

  /** What one connection sends back: nothing when the request line does not
      match, otherwise the response for the decoded file name. */
  function Serve(received: seq<Byte>, fs: FileSystem): (sent: Option<seq<Byte>>)
    requires DefinedRequest(received)
    ensures sent.None? <==> RequestLine.MatchRequestLine(received).None?
    ensures sent.Some? ==> |sent.value| <= Response.BufferSize
  {
    match RequestLine.MatchRequestLine(received)
    case None => None
    case Some(span) =>
      var name := FileName(UrlDecode.Decode(received[span.start..span.end]).bytes);
      Some(Response.HttpResponse(Open(fs, name), FileExtension.GetFileExtension(name)))
  }

  /** The client's socket as the handler uses it: what has been sent on it,
      and whether it is closed. */
  class Connection {
    var sent: seq<seq<Byte>>
    var closed: bool

    constructor ()
      ensures sent == [] && !closed
    {
      sent := [];
      closed := false;
    }

    /** `send(client_fd, data, |data|, 0)`. */
    method Send(data: seq<Byte>)
      requires !closed
      modifies this
      ensures sent == old(sent) + [data] && !closed
    {
      sent := sent + [data];
    }

    /** `close(client_fd)`. */
    method Close()
      requires !closed
      modifies this
      ensures closed && sent == old(sent)
    {
      closed := true;
    }
  }

  /** Lines 165-168: end the path with a NUL written into the request
      buffer, decode the C string that starts at the capture, and read the
      result as the C string `file_name`. */
  method DecodeRequestPath(buffer: array<Byte>, span: RequestLine.Span) returns (fileName: seq<Byte>)
    requires RequestLine.MatchRequestLine(buffer[..]) == Some(span)
    requires UrlDecode.Decode(buffer[span.start..span.end]).Decoded?
    modifies buffer
    ensures span.end < buffer.Length && buffer[..] == old(buffer[..])[span.end := NUL]
    ensures fileName == FileName(UrlDecode.Decode(old(buffer[span.start..span.end])).bytes)
  {
    ghost var received := buffer[..];
    RequestLine.TerminatedCapture(received, span);
    buffer[span.end] := NUL;
    assert buffer[..] == received[span.end := NUL];
    var encodedName := CString(buffer[..], span.start);
    var decoded := UrlDecode.UrlDecode(encodedName);
    fileName := FileName(decoded.bytes);
  }

  /** Lines 171-177: copy the extension into `file_ext`, then build the
      response into a buffer of twice `BUFFER_SIZE` bytes. */
  method BuildResponseFor(fileName: seq<Byte>, fs: FileSystem) returns (response: seq<Byte>)
    requires |FileExtension.GetFileExtension(fileName)| <= MaxExtensionLength
    ensures response == Response.HttpResponse(Open(fs, fileName), FileExtension.GetFileExtension(fileName))
  {
    var ext := FileExtension.GetFileExtension(fileName);
    var fileExt := new Byte[MaxExtensionLength + 1];
    Response.Blit(fileExt, 0, ext + [NUL]);
    assert fileExt[..|ext|] == ext;
    var buffer := new Byte[2 * Response.BufferSize];
    var responseLen := Response.BuildHttpResponse(Open(fs, fileName), fileExt[..|ext|], buffer);
    response := buffer[..responseLen];
  }

  /** `handle_client` for a connection on which `recv` returned `received`.
      It sends at most one response, exactly what `Serve` gives, and closes
      the connection on every path. */
  method HandleClient(conn: Connection, received: seq<Byte>, fs: FileSystem)
    requires !conn.closed && |received| <= Response.BufferSize
    requires DefinedRequest(received)
    modifies conn
    ensures conn.closed
    ensures conn.sent == old(conn.sent) + match Serve(received, fs) case None => [] case Some(r) => [r]
  {
    if |received| > 0 {
      var buffer := new Byte[|received|];
      Response.Blit(buffer, 0, received);
      assert buffer[..] == received;
      var matched := RequestLine.MatchRequestLine(buffer[..]);
      if matched.Some? {
        assert buffer[matched.value.start..matched.value.end]
            == received[matched.value.start..matched.value.end];
        var fileName := DecodeRequestPath(buffer, matched.value);
        var response := BuildResponseFor(fileName, fs);
        conn.Send(response);
      }
    }
    conn.Close();
  }

  /** Nothing is sent exactly when the request line does not match. */
  lemma SilentIffNoMatch(received: seq<Byte>, fs: FileSystem)
    requires DefinedRequest(received)
    ensures Serve(received, fs).None? <==> forall e :: !RequestLine.MatchesWithCaptureEnd(received, e)
  {
    match RequestLine.MatchRequestLine(received)
    case None =>
    case Some(span) =>
      assert RequestLine.MatchesWithCaptureEnd(received, span.end);
  }

  /** On a match, the one response sent is the builder's output for the
      file name of the decoded capture and its extension. */
  lemma ServeMatched(received: seq<Byte>, fs: FileSystem, span: RequestLine.Span, decoded: seq<Byte>)
    requires RequestLine.MatchRequestLine(received) == Some(span)
    requires UrlDecode.Decode(received[span.start..span.end]) == UrlDecode.Decoded(decoded)
    requires |FileExtension.GetFileExtension(FileName(decoded))| <= MaxExtensionLength
    ensures DefinedRequest(received)
    ensures Serve(received, fs)
         == Some(Response.HttpResponse(Open(fs, FileName(decoded)),
                                       FileExtension.GetFileExtension(FileName(decoded))))
  {
  }

  /** The request line for an encoded name matches, and its capture
      decodes to the name. */
  lemma EncodedRequestDecodes(name: seq<Byte>, literal: Byte -> bool, rest: seq<Byte>, received: seq<Byte>)
    requires !literal(Space) && !literal(NUL)
    requires received == RequestLine.MethodPrefix + UrlDecode.PercentEncode(name, literal)
                         + RequestLine.VersionMarker + rest
    ensures var span := RequestLine.Span(5, 5 + |UrlDecode.PercentEncode(name, literal)|);
      RequestLine.MatchRequestLine(received) == Some(span) &&
      UrlDecode.Decode(received[span.start..span.end]) == UrlDecode.Decoded(name)
  {
    var encoded := UrlDecode.PercentEncode(name, literal);
    UrlDecode.PercentEncodeAvoids(name, literal, Space);
    UrlDecode.PercentEncodeAvoids(name, literal, NUL);
    RequestLine.MatchBuiltLine(encoded, rest);
    UrlDecode.DecodePercentEncode(name, literal);
  }

  /** End to end: a request for the percent-encoding of `name` (space and NUL
      escaped, any other bytes left literal or not) is answered with the
      response for `name` read as a C string, whatever follows ` HTTP/1`. */
  lemma ServeEncodedRequest(name: seq<Byte>, literal: Byte -> bool, rest: seq<Byte>,
                            fs: FileSystem, received: seq<Byte>)
    requires !literal(Space) && !literal(NUL)
    requires |FileExtension.GetFileExtension(FileName(name))| <= MaxExtensionLength
    requires received == RequestLine.MethodPrefix + UrlDecode.PercentEncode(name, literal)
                         + RequestLine.VersionMarker + rest
    ensures DefinedRequest(received)
    ensures Serve(received, fs)
         == Some(Response.HttpResponse(Open(fs, FileName(name)),
                                       FileExtension.GetFileExtension(FileName(name))))
  {
    EncodedRequestDecodes(name, literal, rest, received);
    ServeMatched(received, fs, RequestLine.Span(5, 5 + |UrlDecode.PercentEncode(name, literal)|), name);
  }

  /** `name`, made of unreserved bytes, is its own encoding and its own file
      name, and has the extension after its dot. */
  lemma PlainName(name: seq<Byte>, stem: seq<Byte>, ext: seq<Byte>)
    requires name == stem + [Dot] + ext && stem != [] && Dot !in ext
    requires forall i :: 0 <= i < |name| ==> UrlDecode.Unreserved(name[i]) && name[i] != Percent
    ensures UrlDecode.PercentEncode(name, UrlDecode.Unreserved) == name
    ensures FileName(name) == name
    ensures FileExtension.GetFileExtension(name) == ext
  {
    UrlDecode.PercentEncodeLiteral(name, UrlDecode.Unreserved);
    assert NUL !in name by {
      forall i | 0 <= i < |name| ensures name[i] != NUL { assert UrlDecode.Unreserved(name[i]); }
    }
    CStringWithoutNul(name);
    FileExtension.ExtensionOfSplit(stem, ext);
  }

  /** A request for a plain name is answered with the response for it. */
  lemma ServePlainRequest(name: seq<Byte>, stem: seq<Byte>, ext: seq<Byte>, rest: seq<Byte>,
                          fs: FileSystem, received: seq<Byte>)
    requires name == stem + [Dot] + ext && stem != [] && Dot !in ext && |ext| <= MaxExtensionLength
    requires forall i :: 0 <= i < |name| ==> UrlDecode.Unreserved(name[i]) && name[i] != Percent
    requires received == RequestLine.MethodPrefix + name + RequestLine.VersionMarker + rest
    ensures DefinedRequest(received)
    ensures Serve(received, fs) == Some(Response.HttpResponse(Open(fs, name), ext))
  {
    PlainName(name, stem, ext);
    ServeEncodedRequest(name, UrlDecode.Unreserved, rest, fs, received);
  }

  /** A request whose path decodes to `head`, a NUL and `tail` is answered
      for `head` alone: `strrchr` and `open` stop at the NUL, so the
      extension is taken from `head` whatever `tail` holds. */
  lemma ServeNulTruncated(head: seq<Byte>, tail: seq<Byte>, literal: Byte -> bool, rest: seq<Byte>,
                          fs: FileSystem, received: seq<Byte>)
    requires NUL !in head && !literal(Space) && !literal(NUL)
    requires |FileExtension.GetFileExtension(head)| <= MaxExtensionLength
    requires received == RequestLine.MethodPrefix + UrlDecode.PercentEncode(head + [NUL] + tail, literal)
                         + RequestLine.VersionMarker + rest
    ensures DefinedRequest(received)
    ensures Serve(received, fs)
         == Some(Response.HttpResponse(Open(fs, head), FileExtension.GetFileExtension(head)))
  {
    CStringBeforeNul(head, tail);
    ServeEncodedRequest(head + [NUL] + tail, literal, rest, fs, received);
  }

  /** Requesting an existing `index.html` holding `<p>hi</p>` gives the 200
      header with type text/html followed by exactly the file. */
  lemma ServeIndexExample(received: seq<Byte>, fs: FileSystem)
    requires received == "GET /index.html HTTP/1.1\r\n\r\n"
    requires fs == map["index.html" := "<p>hi</p>"]
    ensures DefinedRequest(received)
    ensures Serve(received, fs) == Some(Response.OkHeader(Mime.TextHtml) + "<p>hi</p>")
    ensures Response.OkHeader(Mime.TextHtml) == "HTTP/1.1 200 OK\r\n" + "Content-Type: text/html\r\n\r\n"
  {
    var index: seq<Byte>, html: seq<Byte>, tail: seq<Byte> := "index", "html", ".1\r\n\r\n";
    ServePlainRequest("index.html", index, html, tail, fs, received);
    HtmlResponse("<p>hi</p>", html);
    Response.HtmlHeaderText(Mime.TextHtml);
  }

  lemma HtmlResponse(contents: seq<Byte>, ext: seq<Byte>)
    requires ext == "html" && contents == "<p>hi</p>"
    ensures Response.HttpResponse(Some(contents), ext) == Response.OkHeader(Mime.TextHtml) + contents
  {
    Mime.MimeTypeByTable(ext);
    assert Lower(ext) == ext;
    Response.SmallFileServedWhole(contents, ext);
  }

  /** Requesting a file that does not exist gives exactly the 404 response. */
  lemma ServeMissingExample(received: seq<Byte>, fs: FileSystem)
    requires received == "GET /missing.xyz HTTP/1.1\r\n\r\n"
    requires "missing.xyz" !in fs
    ensures DefinedRequest(received)
    ensures Serve(received, fs) == Some(Response.NotFoundResponse)
  {
    var missing: seq<Byte>, xyz: seq<Byte>, tail: seq<Byte> := "missing", "xyz", ".1\r\n\r\n";
    ServePlainRequest("missing.xyz", missing, xyz, tail, fs, received);
  }
}
