/** The percent-decoder `url_decode` (server.c:118-143): `%` followed by two
    hexadecimal digits becomes the byte they denote (the `%` HEXDIG HEXDIG
    form of section 2.1 of RFC 3986); every other byte is copied. */
module UrlDecode {
  import opened Bytes

  /** The outcome of decoding. `MalformedEscape(at)` names the first escape
      whose two following bytes are not both hexadecimal digits: there the C
      code's `sscanf("%2x")` may leave its result unset. */
  datatype Decoding = Decoded(bytes: seq<Byte>) | MalformedEscape(at: nat)

  /** Position `i` starts an escape: a `%` with at least two bytes after it.
      A `%` in the last two positions is not an escape (server.c:127). */
  predicate EscapeAt(src: seq<Byte>, i: nat) {
    i + 2 < |src| && src[i] == Percent
  }

  predicate WellFormedEscape(src: seq<Byte>, i: nat)
    requires EscapeAt(src, i)
  {
    IsHexDigit(src[i + 1]) && IsHexDigit(src[i + 2])
  }

  /** `out` has been produced from the first `consumed` bytes of the input,
      and `rest` is the decoding of the remaining bytes. */
  function Continue(out: seq<Byte>, consumed: nat, rest: Decoding): (r: Decoding)
    ensures r.Decoded? <==> rest.Decoded?
    ensures r.Decoded? ==> out <= r.bytes
  {
    match rest
    case Decoded(bytes) => Decoded(out + bytes)
    case MalformedEscape(at) => MalformedEscape(consumed + at)
  }

  /** The decoding of `src`, scanning left to right. */
  function Decode(src: seq<Byte>): (r: Decoding)
    ensures r.Decoded? ==> |r.bytes| <= |src|
    ensures r.MalformedEscape? ==> EscapeAt(src, r.at) && !WellFormedEscape(src, r.at)
    decreases |src|
  {
    if src == [] then Decoded([])
    else if EscapeAt(src, 0) then
      if WellFormedEscape(src, 0) then
        var rest := Decode(src[3..]);
        assert rest.MalformedEscape? ==> src[3..][rest.at] == src[3 + rest.at];
        Continue([HexByte(src[1], src[2])], 3, rest)
      else MalformedEscape(0)
    else
      var rest := Decode(src[1..]);
      assert rest.MalformedEscape? ==> src[1..][rest.at] == src[1 + rest.at];
      Continue([src[0]], 1, rest)
  }

  /** One step of the scan at `i`: an escape yields one byte and consumes three. */
  lemma DecodeEscapeStep(src: seq<Byte>, i: nat)
    requires EscapeAt(src, i) && WellFormedEscape(src, i)
    ensures Decode(src[i..]) == Continue([HexByte(src[i + 1], src[i + 2])], 3, Decode(src[i + 3..]))
  {
    assert EscapeAt(src[i..], 0);
    assert src[i..][3..] == src[i + 3..];
  }

  /** One step of the scan at `i`: any other byte is copied and consumes one. */
  lemma DecodeLiteralStep(src: seq<Byte>, i: nat)
    requires i < |src| && !EscapeAt(src, i)
    ensures Decode(src[i..]) == Continue([src[i]], 1, Decode(src[i + 1..]))
  {
    assert !EscapeAt(src[i..], 0);
    assert src[i..][1..] == src[i + 1..];
  }

  lemma ContinueAppend(out: seq<Byte>, consumed: nat, step: seq<Byte>, width: nat, rest: Decoding)
    ensures Continue(out, consumed, Continue(step, width, rest))
         == Continue(out + step, consumed + width, rest)
  {
    if rest.Decoded? {
      assert out + (step + rest.bytes) == (out + step) + rest.bytes;
    }
  }

  /** The C loop: a byte buffer of `strlen(src) + 1` bytes, a write counter,
      and an index that skips the two digits of each escape. */
  method UrlDecode(src: seq<Byte>) returns (r: Decoding)
    ensures r == Decode(src)
  {
    var srcLen := |src|;
    var decoded := new Byte[srcLen + 1];
    var decodedLen := 0;
    var i := 0;
    while i < srcLen
      invariant 0 <= decodedLen <= i <= srcLen
      invariant Decode(src) == Continue(decoded[..decodedLen], i, Decode(src[i..]))
    {
      ghost var out := decoded[..decodedLen];
      if src[i] == Percent && i + 2 < srcLen {
        if !(IsHexDigit(src[i + 1]) && IsHexDigit(src[i + 2])) {
          assert Decode(src[i..]) == MalformedEscape(0) by { assert EscapeAt(src[i..], 0); }
          return MalformedEscape(i);
        }
        var b := HexByte(src[i + 1], src[i + 2]);
        DecodeEscapeStep(src, i);
        ContinueAppend(out, i, [b], 3, Decode(src[i + 3..]));
        decoded[decodedLen] := b;
        decodedLen := decodedLen + 1;
        assert decoded[..decodedLen] == out + [b];
        i := i + 2;
      } else {
        DecodeLiteralStep(src, i);
        ContinueAppend(out, i, [src[i]], 1, Decode(src[i + 1..]));
        decoded[decodedLen] := src[i];
        decodedLen := decodedLen + 1;
        assert decoded[..decodedLen] == out + [src[i]];
      }
      i := i + 1;
    }
    decoded[decodedLen] := NUL;
    assert src[i..] == [];
    r := Decoded(decoded[..decodedLen]);
  }

  /** A string without `%` decodes to itself. */
  lemma {:induction false} DecodeWithoutPercent(src: seq<Byte>)
    requires Percent !in src
    ensures Decode(src) == Decoded(src)
  {
    if src != [] {
      DecodeWithoutPercent(src[1..]);
      assert src == [src[0]] + src[1..];
    }
  }

  /** The unreserved characters of section 2.3 of RFC 3986: letters, digits,
      `-`, `.`, `_` and `~`. */
  predicate Unreserved(b: Byte) {
    'a' <= b <= 'z' || 'A' <= b <= 'Z' || '0' <= b <= '9' || b == '-' || b == '.' || b == '_' || b == '~'
  }

  /** Percent-encoding of one byte: kept literally when `literal` allows it
      and it is not `%`, otherwise `%` and two upper-case hexadecimal digits. */
  function EncodeByte(b: Byte, literal: Byte -> bool): (e: seq<Byte>)
    ensures |e| == 1 || |e| == 3
  {
    if literal(b) && b != Percent then [b]
    else [Percent, HexDigit(b as int / 16), HexDigit(b as int % 16)]
  }

  function PercentEncode(s: seq<Byte>, literal: Byte -> bool): (e: seq<Byte>)
    ensures |s| <= |e| <= 3 * |s|
  {
    if s == [] then [] else EncodeByte(s[0], literal) + PercentEncode(s[1..], literal)
  }

  /** Decoding undoes percent-encoding, whichever bytes are left literal. */
  lemma {:induction false} DecodePercentEncode(s: seq<Byte>, literal: Byte -> bool)
    ensures Decode(PercentEncode(s, literal)) == Decoded(s)
  {
    if s != [] {
      var b := s[0];
      var e := PercentEncode(s, literal);
      var rest := PercentEncode(s[1..], literal);
      DecodePercentEncode(s[1..], literal);
      if literal(b) && b != Percent {
        assert e[1..] == rest;
        assert !EscapeAt(e, 0);
      } else {
        assert e[3..] == rest;
        assert EscapeAt(e, 0) && WellFormedEscape(e, 0);
        HexByteOfDigits(b);
      }
      assert s == [b] + s[1..];
    }
  }

  /** Encoding every byte as `%XX` with upper-case digits and decoding gives
      the original bytes back. */
  lemma DecodeFullyEncoded(s: seq<Byte>)
    ensures Decode(PercentEncode(s, b => false)) == Decoded(s)
  {
    DecodePercentEncode(s, b => false);
  }

  /** An encoding keeps no space and no NUL unless they are left literal. */
  lemma {:induction false} PercentEncodeAvoids(s: seq<Byte>, literal: Byte -> bool, b: Byte)
    requires !literal(b) && !IsHexDigit(b) && b != Percent
    ensures b !in PercentEncode(s, literal)
  {
    if s != [] {
      PercentEncodeAvoids(s[1..], literal, b);
    }
  }

  /** Bytes that are kept literal and are not `%` encode to themselves. */
  lemma {:induction false} PercentEncodeLiteral(s: seq<Byte>, literal: Byte -> bool)
    requires forall i :: 0 <= i < |s| ==> literal(s[i]) && s[i] != Percent
    ensures PercentEncode(s, literal) == s
  {
    if s != [] {
      PercentEncodeLiteral(s[1..], literal);
      assert s == [s[0]] + s[1..];
    }
  }

}
