/** The request-line matcher: the regular expression `^GET /([^ ]*) HTTP/1`
    of `handle_client` (server.c:158-167), applied to the received bytes as a
    C string. It recognises the request-line shape of section 3 of RFC 9112
    for the GET method and a version starting with `HTTP/1`. */
module RequestLine {
  import opened Bytes

  const MethodPrefix: seq<Byte> := "GET /"
  const VersionMarker: seq<Byte> := " HTTP/1"

  /** The `[start, end)` offsets of a capture inside the buffer (a regmatch_t). */
  datatype Span = Span(start: nat, end: nat)

  /** A byte the capture `[^ ]*` can take inside a C string: not a space, and
      not the NUL that ends the string. */
  predicate PathByte(b: Byte) {
    b != Space && b != NUL
  }

  /** The pattern matches `buf` with its capture group ending at `end`:
      `GET /` at offset 0, path bytes from 5 to `end`, then ` HTTP/1`. The
      literal parts hold no NUL, so the match lies inside the C string. */
  predicate MatchesWithCaptureEnd(buf: seq<Byte>, end: nat) {
    && 5 <= end && end + 7 <= |buf|
    && buf[..5] == MethodPrefix
    && buf[end..end + 7] == VersionMarker
    && forall k :: 5 <= k < end ==> PathByte(buf[k])
  }

  /** The first offset at or after `i` that is the end of the buffer or holds
      a byte the capture cannot take. */
  function FindStop(buf: seq<Byte>, i: nat): (e: nat)
    requires i <= |buf|
    ensures i <= e <= |buf|
    ensures forall k :: i <= k < e ==> PathByte(buf[k])
    ensures e < |buf| ==> !PathByte(buf[e])
    decreases |buf| - i
  {
    if i == |buf| || !PathByte(buf[i]) then i else FindStop(buf, i + 1)
  }

  /** At most one capture end fits the pattern: the capture cannot hold the
      space that starts ` HTTP/1`. */
  lemma CaptureEndUnique(buf: seq<Byte>, e1: nat, e2: nat)
    requires MatchesWithCaptureEnd(buf, e1) && MatchesWithCaptureEnd(buf, e2)
    ensures e1 == e2
  {
    assert buf[e1] == buf[e1..e1 + 7][0] == Space;
    assert buf[e2] == buf[e2..e2 + 7][0] == Space;
  }

  lemma MatchEndIsStop(buf: seq<Byte>, e: nat)
    requires MatchesWithCaptureEnd(buf, e)
    ensures FindStop(buf, 5) == e
  {
    assert buf[e] == buf[e..e + 7][0];
  }

  /** `regexec` with the pattern above: the span of the capture group, or
      None when the pattern does not match at the start of the buffer. */
  function MatchRequestLine(buf: seq<Byte>): (r: Option<Span>)
    ensures r.Some? ==> r.value.start == 5 && MatchesWithCaptureEnd(buf, r.value.end)
    ensures r.None? ==> forall e :: !MatchesWithCaptureEnd(buf, e)
  {
    if |buf| < 5 || buf[..5] != MethodPrefix then None
    else
      var e := FindStop(buf, 5);
      if e + 7 <= |buf| && buf[e..e + 7] == VersionMarker then Some(Span(5, e))
      else
        assert forall e' :: MatchesWithCaptureEnd(buf, e') ==> e' == e by {
          forall e' | MatchesWithCaptureEnd(buf, e') ensures e' == e { MatchEndIsStop(buf, e'); }
        }
        None
  }

  /** Writing NUL at the capture end (server.c:165) makes the C string at the
      capture start exactly the captured path, which holds no space. */
  lemma TerminatedCapture(buf: seq<Byte>, span: Span)
    requires MatchRequestLine(buf) == Some(span)
    ensures span.end < |buf|
    ensures CString(buf[span.end := NUL], span.start) == buf[span.start..span.end]
    ensures Space !in buf[span.start..span.end]
  {
    var t := buf[span.end := NUL];
    CStringUpToNul(t, span.start, span.end);
    assert t[span.start..span.end] == buf[span.start..span.end];
  }

  /** A request line built from a path without space or NUL matches, and its
      capture is that path. */
  lemma MatchBuiltLine(path: seq<Byte>, rest: seq<Byte>)
    requires Space !in path && NUL !in path
    ensures var buf := MethodPrefix + path + VersionMarker + rest;
      MatchRequestLine(buf) == Some(Span(5, 5 + |path|)) && buf[5..5 + |path|] == path
  {
    var buf := MethodPrefix + path + VersionMarker + rest;
    var end := 5 + |path|;
    assert buf[..5] == MethodPrefix;
    assert buf[end..end + 7] == VersionMarker;
    assert buf[5..end] == path;
    forall k | 5 <= k < end ensures PathByte(buf[k]) {
      assert buf[k] == path[k - 5];
    }
    assert MatchesWithCaptureEnd(buf, end);
    CaptureEndUnique(buf, MatchRequestLine(buf).value.end, end);
  }

  /** A well-formed request line yields its path. */
  lemma MatchExampleGet(buf: seq<Byte>)
    requires buf == "GET /foo.txt HTTP/1.1\r\n\r\n"
    ensures MatchRequestLine(buf) == Some(Span(5, 12))
  {
    var path: seq<Byte>, rest: seq<Byte> := "foo.txt", ".1\r\n\r\n";
    assert buf == MethodPrefix + path + VersionMarker + rest;
    MatchBuiltLine(path, rest);
  }

  /** Any other method does not match. */
  lemma MatchExamplePost()
    ensures MatchRequestLine("POST / HTTP/1.1\r\n\r\n") == None
  {
    var buf: seq<Byte> := "POST / HTTP/1.1\r\n\r\n";
    assert buf[..5] != MethodPrefix by { assert buf[1] == 'O'; }
  }
}
