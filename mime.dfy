/** The content-type resolver `get_mime_type` (server.c:15-37): a chain of
    case-insensitive comparisons against a fixed set of extensions. */
module Mime {
  import opened Bytes

  const TextHtml: seq<Byte> := "text/html"
  const TextPlain: seq<Byte> := "text/plain"
  const ImageJpeg: seq<Byte> := "image/jpeg"
  const ImagePng: seq<Byte> := "image/png"
  const OctetStream: seq<Byte> := "application/octet-stream"

  /** `strcasecmp(a, b) == 0` for strings without NUL: byte by byte, after
      folding both sides to lower case. */
  function CaseEqual(a: seq<Byte>, b: seq<Byte>): (eq: bool)
    ensures eq ==> |a| == |b|
  {
    if a == [] || b == [] then a == b
    else ToLower(a[0]) == ToLower(b[0]) && CaseEqual(a[1..], b[1..])
  }

  /** The MIME type served for a file extension; total. */
  function GetMimeType(ext: seq<Byte>): (mime: seq<Byte>)
    ensures mime in {TextHtml, TextPlain, ImageJpeg, ImagePng, OctetStream}
  {
    if CaseEqual(ext, "html") || CaseEqual(ext, "htm") then TextHtml
    else if CaseEqual(ext, "txt") then TextPlain
    else if CaseEqual(ext, "jpg") || CaseEqual(ext, "jpeg") then ImageJpeg
    else if CaseEqual(ext, "png") then ImagePng
    else OctetStream
  }

  /** The table the comparisons implement, keyed by lower-case extension. */
  const MimeTable: map<seq<Byte>, seq<Byte>> :=
    map["html" := TextHtml, "htm" := TextHtml, "txt" := TextPlain,
        "jpg" := ImageJpeg, "jpeg" := ImageJpeg, "png" := ImagePng]

  /** `strcasecmp` equality is equality after folding both strings. */
  lemma {:induction false} CaseEqualIsLowerEqual(a: seq<Byte>, b: seq<Byte>)
    ensures CaseEqual(a, b) <==> Lower(a) == Lower(b)
  {
    if a != [] && b != [] {
      CaseEqualIsLowerEqual(a[1..], b[1..]);
      assert Lower(a) == [ToLower(a[0])] + Lower(a[1..]);
      assert Lower(b) == [ToLower(b[0])] + Lower(b[1..]);
    }
  }

  /** Comparing against a lower-case key is comparing the folded extension. */
  lemma CaseEqualLowerKey(ext: seq<Byte>, key: seq<Byte>)
    requires Lower(key) == key
    ensures CaseEqual(ext, key) <==> Lower(ext) == key
  {
    CaseEqualIsLowerEqual(ext, key);
  }

  /** `get_mime_type` agrees with the table: the folded extension is looked up,
      and every extension outside the table, the empty one included, gets
      `application/octet-stream`. */
  lemma MimeTypeByTable(ext: seq<Byte>)
    ensures GetMimeType(ext) ==
      if Lower(ext) in MimeTable then MimeTable[Lower(ext)] else OctetStream
  {
    var keys: seq<seq<Byte>> := ["html", "htm", "txt", "jpg", "jpeg", "png"];
    forall k | k in keys ensures CaseEqual(ext, k) <==> Lower(ext) == k {
      assert Lower(k) == k;
      CaseEqualLowerKey(ext, k);
    }
    assert CaseEqual(ext, "html") <==> Lower(ext) == "html" by { assert keys[0] == "html"; }
    assert CaseEqual(ext, "htm") <==> Lower(ext) == "htm" by { assert keys[1] == "htm"; }
    assert CaseEqual(ext, "txt") <==> Lower(ext) == "txt" by { assert keys[2] == "txt"; }
    assert CaseEqual(ext, "jpg") <==> Lower(ext) == "jpg" by { assert keys[3] == "jpg"; }
    assert CaseEqual(ext, "jpeg") <==> Lower(ext) == "jpeg" by { assert keys[4] == "jpeg"; }
    assert CaseEqual(ext, "png") <==> Lower(ext) == "png" by { assert keys[5] == "png"; }
  }

  /** Two extensions that differ only in letter case get the same type. */
  lemma MimeTypeCaseInsensitive(a: seq<Byte>, b: seq<Byte>)
    requires CaseEqual(a, b)
    ensures GetMimeType(a) == GetMimeType(b)
  {
    CaseEqualIsLowerEqual(a, b);
    MimeTypeByTable(a);
    MimeTypeByTable(b);
  }

  /** The six recognised extensions, in any letter case, and the fallback. */
  lemma MimeTypeCases(ext: seq<Byte>)
    ensures GetMimeType(ext) == TextHtml <==> Lower(ext) == "html" || Lower(ext) == "htm"
    ensures GetMimeType(ext) == TextPlain <==> Lower(ext) == "txt"
    ensures GetMimeType(ext) == ImageJpeg <==> Lower(ext) == "jpg" || Lower(ext) == "jpeg"
    ensures GetMimeType(ext) == ImagePng <==> Lower(ext) == "png"
    ensures GetMimeType(ext) == OctetStream <==> Lower(ext) !in MimeTable
  {
    MimeTypeByTable(ext);
  }

  /** The empty extension (no dot in the name) is served as a byte stream. */
  lemma EmptyExtensionIsOctetStream()
    ensures GetMimeType([]) == OctetStream
  {
    MimeTypeByTable([]);
  }
}
