/** Bytes as the server handles them: C `char` values, the Option wrapper used
    for "may be absent", ASCII case folding as `tolower` does it in the C
    locale, and the hexadecimal digits read by `%x`. */
module Bytes {

  /** One C `char`: a character code below 256. String literals of ASCII text
      are sequences of Bytes. */
  type Byte = c: char | c as int < 256

  const NUL: Byte := 0 as char
  const Space: Byte := ' '
  const Dot: Byte := '.'
  const Percent: Byte := '%'

  datatype Option<T> = None | Some(value: T)

  /** `tolower` in the C locale: only 'A'..'Z' change. */
  function ToLower(b: Byte): Byte {
    if 'A' <= b <= 'Z' then (b as int + 32) as char else b
  }

  /** Every byte of `s` folded to lower case. */
  function Lower(s: seq<Byte>): (r: seq<Byte>)
    ensures |r| == |s|
    ensures forall i :: 0 <= i < |s| ==> r[i] == ToLower(s[i])
  {
    seq(|s|, i requires 0 <= i < |s| => ToLower(s[i]))
  }

  /** The digits `%x` accepts: 0-9, a-f, A-F. */
  predicate IsHexDigit(b: Byte) {
    '0' <= b <= '9' || 'a' <= b <= 'f' || 'A' <= b <= 'F'
  }

  function HexValue(b: Byte): (v: nat)
    requires IsHexDigit(b)
    ensures v < 16
  {
    if '0' <= b <= '9' then b as int - '0' as int
    else if 'a' <= b <= 'f' then b as int - 'a' as int + 10
    else b as int - 'A' as int + 10
  }

  /** The upper-case hexadecimal digit of `v`. */
  function HexDigit(v: nat): (b: Byte)
    requires v < 16
    ensures IsHexDigit(b) && HexValue(b) == v
  {
    if v < 10 then ('0' as int + v) as char else ('A' as int + v - 10) as char
  }

  /** The byte denoted by two hexadecimal digits, high digit first. */
  function HexByte(hi: Byte, lo: Byte): Byte
    requires IsHexDigit(hi) && IsHexDigit(lo)
  {
    (16 * HexValue(hi) + HexValue(lo)) as char
  }

  /** Reading back the two upper-case digits of a byte gives that byte. */
  lemma HexByteOfDigits(b: Byte)
    ensures HexByte(HexDigit(b as int / 16), HexDigit(b as int % 16)) == b
  {
  }

  /** The bytes of the C string that starts at `from`: up to the first NUL,
      or to the end of the buffer. */
  function CString(s: seq<Byte>, from: nat): (r: seq<Byte>)
    requires from <= |s|
    ensures NUL !in r
    ensures from + |r| <= |s| && r == s[from..from + |r|]
    ensures from + |r| == |s| || s[from + |r|] == NUL
    decreases |s| - from
  {
    if from == |s| || s[from] == NUL then [] else [s[from]] + CString(s, from + 1)
  }

  /** A C string runs exactly up to the first NUL. */
  lemma {:induction false} CStringUpToNul(s: seq<Byte>, from: nat, stop: nat)
    requires from <= stop < |s| && s[stop] == NUL
    requires forall k :: from <= k < stop ==> s[k] != NUL
    ensures CString(s, from) == s[from..stop]
    decreases stop - from
  {
    if from < stop {
      CStringUpToNul(s, from + 1, stop);
      assert s[from..stop] == [s[from]] + s[from + 1..stop];
    }
  }

  /** A C string without NUL is read whole. */
  lemma CStringWithoutNul(s: seq<Byte>)
    requires NUL !in s
    ensures CString(s, 0) == s
  {
  }

  /** A C string holding a NUL is read up to that NUL and no further. */
  lemma CStringBeforeNul(head: seq<Byte>, tail: seq<Byte>)
    requires NUL !in head
    ensures CString(head + [NUL] + tail, 0) == head
  {
    var s := head + [NUL] + tail;
    assert s[|head|] == NUL;
    forall k | 0 <= k < |head| ensures s[k] != NUL {
      assert s[k] == head[k];
    }
    CStringUpToNul(s, 0, |head|);
    assert s[0..|head|] == head;
  }
}
