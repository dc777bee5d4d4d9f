/** UTF-8 through percent-escapes: `encodeURIComponent`, `decodeURIComponent`,
    `utf8ToBinaryString` and `binaryStringToUtf8` (util.js). The byte layout
    is that of section 3 of RFC 3629; an escape is `%` and two hexadecimal
    digits as in section 2.1 of RFC 3986. */
module Utf8 {
  import opened Base
  import opened Binary

  // ---------------------------------------------------------------------
  // Hexadecimal digits
  // ---------------------------------------------------------------------

  /** The upper-case digit for `d`, as `toString(16).toUpperCase()` and
      `encodeURIComponent` write it. */
  function HexDigit(d: int): (c: char)
    requires 0 <= d < 16
  {
    if d < 10 then ('0' as int + d) as char else ('A' as int + d - 10) as char
  }

  /** The value of a hexadecimal digit of either case, or -1. */
  function HexValue(c: char): (v: int)
    ensures -1 <= v < 16
  {
    if '0' <= c <= '9' then c as int - '0' as int
    else if 'A' <= c <= 'F' then c as int - 'A' as int + 10
    else if 'a' <= c <= 'f' then c as int - 'a' as int + 10
    else -1
  }

  predicate IsUpperHex(c: char) {
    ('0' <= c <= '9') || ('A' <= c <= 'F')
  }

  lemma HexDigitValue(d: int)
    requires 0 <= d < 16
    ensures HexValue(HexDigit(d)) == d
    ensures IsUpperHex(HexDigit(d))
  {
  }

  /** `v.toString(16).toUpperCase()`. */
  function HexString(v: nat): (r: string)
    ensures |r| >= 1
    decreases v
  {
    if v < 16 then [HexDigit(v)] else HexString(v / 16) + [HexDigit(v % 16)]
  }

  /** The two upper-case digits of a byte: the escape body both directions use. */
  function ByteEscape(b: byte): (r: string)
    ensures |r| == 3 && r[0] == '%'
    ensures HexValue(r[1]) * 16 + HexValue(r[2]) == b
    ensures IsUpperHex(r[1]) && IsUpperHex(r[2])
  {
    HexDigitValue(b / 16);
    HexDigitValue(b % 16);
    ['%', HexDigit(b / 16), HexDigit(b % 16)]
  }

  /** Every byte written as its `%XY` escape. */
  function PercentEncode(bs: seq<byte>): (r: string)
    ensures |r| == 3 * |bs|
    decreases |bs|
  {
    if |bs| == 0 then "" else ByteEscape(bs[0]) + PercentEncode(bs[1..])
  }

  lemma {:induction false} PercentEncodeAt(bs: seq<byte>, j: nat)
    requires j < |bs|
    ensures PercentEncode(bs)[3 * j..3 * j + 3] == ByteEscape(bs[j])
    decreases j
  {
    if j > 0 {
      PercentEncodeAt(bs[1..], j - 1);
      assert PercentEncode(bs) == ByteEscape(bs[0]) + PercentEncode(bs[1..]);
      assert PercentEncode(bs)[3 * j..3 * j + 3] == PercentEncode(bs[1..])[3 * (j - 1)..3 * (j - 1) + 3];
    }
  }

  // ---------------------------------------------------------------------
  // UTF-8 (RFC 3629 section 3)
  // ---------------------------------------------------------------------

  /** The UTF-8 bytes of one scalar value. */
  function CharBytes(c: char): (r: seq<byte>)
    ensures 1 <= |r| <= 4
    ensures |r| == 1 <==> c as int < 0x80
  {
    var v := c as int;
    if v < 0x80 then [v]
    else if v < 0x800 then [0xC0 + v / 64, 0x80 + v % 64]
    else if v < 0x10000 then [0xE0 + v / 4096, 0x80 + (v / 64) % 64, 0x80 + v % 64]
    else [0xF0 + v / 262144, 0x80 + (v / 4096) % 64, 0x80 + (v / 64) % 64, 0x80 + v % 64]
  }

  /** The UTF-8 encoding of a string. */
  function Encode(s: string): (r: seq<byte>)
    ensures |r| >= |s|
    decreases |s|
  {
    if |s| == 0 then [] else CharBytes(s[0]) + Encode(s[1..])
  }

  // ---------------------------------------------------------------------
  // encodeURIComponent and utf8ToBinaryString
  // ---------------------------------------------------------------------

  /** The characters `encodeURIComponent` copies unescaped. */
  predicate Unreserved(c: char) {
    ('A' <= c <= 'Z') || ('a' <= c <= 'z') || ('0' <= c <= '9') || c in "-_.!~*'()"
  }

  /** `encodeURIComponent(s)`: unreserved characters kept, every other
      character replaced by the escapes of its UTF-8 bytes. Strings here hold
      scalar values only, so the lone-surrogate error cannot arise. */
  function EncodeURIComponent(s: string): (r: string)
    ensures forall i :: 0 <= i < |r| ==> r[i] == '%' || IsUpperHex(r[i]) || Unreserved(r[i])
    decreases |s|
  {
    if |s| == 0 then ""
    else
      var head := if Unreserved(s[0]) then [s[0]] else PercentEncode(CharBytes(s[0]));
      assert forall i :: 0 <= i < |head| ==> head[i] == '%' || IsUpperHex(head[i]) || Unreserved(head[i]) by {
        if !Unreserved(s[0]) {
          forall i | 0 <= i < |head|
            ensures head[i] == '%' || IsUpperHex(head[i])
          {
            PercentEncodeAt(CharBytes(s[0]), i / 3);
            assert head[i] == head[3 * (i / 3)..3 * (i / 3) + 3][i % 3];
          }
        }
      }
      head + EncodeURIComponent(s[1..])
  }

  /** The replacement `/%([0-9A-F]{2})/g` → `String.fromCharCode(parseInt(p1, 16))`. */
  function UnescapeUpper(e: string): (r: string)
    decreases |e|
  {
    if |e| == 0 then ""
    else if |e| >= 3 && e[0] == '%' && IsUpperHex(e[1]) && IsUpperHex(e[2]) then
      [(HexValue(e[1]) * 16 + HexValue(e[2])) as char] + UnescapeUpper(e[3..])
    else [e[0]] + UnescapeUpper(e[1..])
  }

  /** `utf8ToBinaryString`. */
  function Utf8ToBinaryString(s: string): (r: string)
    ensures r == BufferToBinaryString(Encode(s))
    ensures |r| == |Encode(s)| && IsBinaryString(r)
  {
    Utf8ToBinaryStringIsEncode(s);
    UnescapeUpper(EncodeURIComponent(s))
  }

  lemma {:induction false} UnescapePercentEncoded(bs: seq<byte>, rest: string)
    ensures UnescapeUpper(PercentEncode(bs) + rest) == BufferToBinaryString(bs) + UnescapeUpper(rest)
    decreases |bs|
  {
    if |bs| > 0 {
      var e := PercentEncode(bs) + rest;
      assert e == ByteEscape(bs[0]) + (PercentEncode(bs[1..]) + rest);
      assert e[3..] == PercentEncode(bs[1..]) + rest;
      var esc := ByteEscape(bs[0]);
      assert e[0] == '%' && e[1] == esc[1] && e[2] == esc[2];
      assert UnescapeUpper(e) == [bs[0] as char] + UnescapeUpper(e[3..]);
      assert BufferToBinaryString([bs[0]]) == [bs[0] as char];
      UnescapePercentEncoded(bs[1..], rest);
      BufferToBinaryStringAppend([bs[0]], bs[1..]);
      assert [bs[0]] + bs[1..] == bs;
      calc {
        UnescapeUpper(e);
        [bs[0] as char] + UnescapeUpper(PercentEncode(bs[1..]) + rest);
        [bs[0] as char] + (BufferToBinaryString(bs[1..]) + UnescapeUpper(rest));
        ([bs[0] as char] + BufferToBinaryString(bs[1..])) + UnescapeUpper(rest);
        BufferToBinaryString(bs) + UnescapeUpper(rest);
      }
    } else {
      assert PercentEncode(bs) + rest == rest;
      assert BufferToBinaryString(bs) + UnescapeUpper(rest) == UnescapeUpper(rest);
    }
  }

  /** Percent-encoding a text and unescaping every `%XX` yields exactly
      one character per UTF-8 byte. */
  lemma {:induction false} Utf8ToBinaryStringIsEncode(s: string)
    ensures UnescapeUpper(EncodeURIComponent(s)) == BufferToBinaryString(Encode(s))
    decreases |s|
  {
    if |s| > 0 {
      Utf8ToBinaryStringIsEncode(s[1..]);
      var tail := EncodeURIComponent(s[1..]);
      BufferToBinaryStringAppend(CharBytes(s[0]), Encode(s[1..]));
      if Unreserved(s[0]) {
        assert EncodeURIComponent(s) == [s[0]] + tail;
        assert ([s[0]] + tail)[1..] == tail;
        assert CharBytes(s[0]) == [s[0] as int];
      } else {
        assert EncodeURIComponent(s) == PercentEncode(CharBytes(s[0])) + tail;
        UnescapePercentEncoded(CharBytes(s[0]), tail);
      }
    }
  }

  // ---------------------------------------------------------------------
  // decodeURIComponent
  // ---------------------------------------------------------------------

  /** The byte written by the escape starting at `k`, if there is one. */
  function EscapedByte(s: string, k: nat): (r: Option<byte>)
    ensures r.Some? ==> k + 2 < |s| && s[k] == '%'
  {
    if k + 2 < |s| && s[k] == '%' && HexValue(s[k + 1]) >= 0 && HexValue(s[k + 2]) >= 0
    then Some(HexValue(s[k + 1]) * 16 + HexValue(s[k + 2]))
    else None
  }

  /** Length of the UTF-8 sequence a lead byte opens, 0 when it opens none. */
  function SequenceLength(b: byte): nat {
    if b < 0x80 then 1
    else if b < 0xC0 then 0
    else if b < 0xE0 then 2
    else if b < 0xF0 then 3
    else if b < 0xF8 then 4
    else 0
  }

  predicate IsContinuation(b: byte) {
    0x80 <= b < 0xC0
  }

  /** The continuation bytes escaped at positions `3j`, ..., `3(n-1)`. */
  function Continuations(s: string, j: nat, n: nat): (r: Option<seq<byte>>)
    requires 1 <= j <= n
    ensures r.Some? ==> |r.value| == n - j
    ensures r.Some? ==> forall i :: 0 <= i < |r.value| ==> IsContinuation(r.value[i])
    decreases n - j
  {
    if j == n then Some([])
    else match EscapedByte(s, 3 * j)
      case None => None
      case Some(b) =>
        if !IsContinuation(b) then None
        else match Continuations(s, j + 1, n)
          case None => None
          case Some(more) => Some([b] + more)
  }

  /** The code point a lead byte and its continuation bytes spell. */
  function Assemble(b: byte, tail: seq<byte>): (v: int)
    requires |tail| + 1 == SequenceLength(b)
    requires forall i :: 0 <= i < |tail| ==> IsContinuation(tail[i])
    ensures 0 <= v
    ensures |tail| == 0 ==> v < 0x80
    ensures |tail| == 1 ==> v < 0x800
    ensures |tail| == 2 ==> v < 0x10000
    ensures |tail| == 3 ==> v < 0x200000
  {
    var lead: int := b;
    if |tail| == 0 then lead
    else
      assert IsContinuation(tail[0]);
      var t0 := tail[0] as int - 0x80;
      if |tail| == 1 then (lead - 0xC0) * 64 + t0
      else
        assert IsContinuation(tail[1]);
        var t1 := tail[1] as int - 0x80;
        if |tail| == 2 then ((lead - 0xE0) * 64 + t0) * 64 + t1
        else
          assert IsContinuation(tail[2]);
          var t2 := tail[2] as int - 0x80;
          (((lead - 0xF0) * 64 + t0) * 64 + t1) * 64 + t2
  }

  /** Rejects overlong forms, surrogates and values above U+10FFFF. */
  predicate WellFormed(v: int, n: nat) {
    || n == 1
    || (n == 2 && 0x80 <= v)
    || (n == 3 && 0x800 <= v && !(0xD800 <= v <= 0xDFFF))
    || (n == 4 && 0x10000 <= v <= 0x10FFFF)
  }

  /** `decodeURIComponent(s)`: characters other than `%` are copied, each
      escape sequence must spell one well-formed UTF-8 sequence, and anything
      else is a URIError. */
  function DecodeURIComponent(s: string): (r: Result<string>)
    ensures r.Err? ==> r.error == UriMalformed
    decreases |s|
  {
    if |s| == 0 then Ok("")
    else if s[0] != '%' then
      var rest :- DecodeURIComponent(s[1..]);
      Ok([s[0]] + rest)
    else match EscapedByte(s, 0)
      case None => Err(UriMalformed)
      case Some(b) =>
        var n := SequenceLength(b);
        if n == 0 || |s| < 3 * n then Err(UriMalformed)
        else match Continuations(s, 1, n)
          case None => Err(UriMalformed)
          case Some(tail) =>
            var v := Assemble(b, tail);
            if !WellFormed(v, n) then Err(UriMalformed)
            else
              var rest :- DecodeURIComponent(s[3 * n..]);
              Ok([v as char] + rest)
  }

  /** Text without `%` is copied unchanged. */
  lemma {:induction false} DecodeWithoutEscapes(s: string)
    requires '%' !in s
    ensures DecodeURIComponent(s) == Ok(s)
    decreases |s|
  {
    if |s| > 0 {
      DecodeWithoutEscapes(s[1..]);
      assert [s[0]] + s[1..] == s;
    }
  }

  /** `c` followed by the decoding of the rest, or the rest's error. */
  function Prepend(c: char, r: Result<string>): Result<string> {
    match r
    case Ok(t) => Ok([c] + t)
    case Err(e) => Err(e)
  }

  // ---------------------------------------------------------------------
  // binaryStringToUtf8
  // ---------------------------------------------------------------------

  /** The characters `.` does not match in a JavaScript regular expression. */
  predicate IsLineTerminator(c: char) {
    c == '\n' || c == '\r' || c == '\U{2028}' || c == '\U{2029}'
  }

  /** The replacement `/(.)/g` applies to one character: `%` and its code in
      upper-case hexadecimal, padded to at least two digits. Line terminators
      are not matched by `.` and stay as they are. */
  function EscapeChar(c: char): string {
    if IsLineTerminator(c) then [c]
    else
      var h := HexString(c as int);
      "%" + (if |h| < 2 then "0" + h else h)
  }

  function EscapeAll(s: string): string
    decreases |s|
  {
    if |s| == 0 then "" else EscapeChar(s[0]) + EscapeAll(s[1..])
  }

  /** `binaryStringToUtf8`. */
  function BinaryStringToUtf8(s: string): (r: Result<string>)
    ensures r.Err? ==> r.error == UriMalformed
    ensures (forall i :: 0 <= i < |s| ==> s[i] as int < 0x80) ==> r == Ok(s)
  {
    if forall i :: 0 <= i < |s| ==> s[i] as int < 0x80 then
      AsciiDecodes(s);
      DecodeURIComponent(EscapeAll(s))
    else
      DecodeURIComponent(EscapeAll(s))
  }

  /** The escapes of an ASCII text decode back to it. */
  lemma {:induction false} AsciiDecodes(s: string)
    requires forall i :: 0 <= i < |s| ==> s[i] as int < 0x80
    ensures DecodeURIComponent(EscapeAll(s)) == Ok(s)
    decreases |s|
  {
    if |s| > 0 {
      var c := s[0];
      AsciiDecodes(s[1..]);
      assert BufferToBinaryString(CharBytes(c)) == [c];
      assert EscapeAll([c]) == EscapeChar(c) by {
        assert [c][1..] == [];
      }
      DecodeHead(c, EscapeAll(s[1..]));
      assert [c] + s[1..] == s;
    }
  }

  lemma {:induction false} EscapeAllAppend(a: string, b: string)
    ensures EscapeAll(a + b) == EscapeAll(a) + EscapeAll(b)
    decreases |a|
  {
    if |a| > 0 {
      assert (a + b)[0] == a[0];
      assert (a + b)[1..] == a[1..] + b;
      EscapeAllAppend(a[1..], b);
      calc {
        EscapeAll(a + b);
        EscapeChar(a[0]) + EscapeAll(a[1..] + b);
        EscapeChar(a[0]) + (EscapeAll(a[1..]) + EscapeAll(b));
        (EscapeChar(a[0]) + EscapeAll(a[1..])) + EscapeAll(b);
      }
    } else {
      assert a + b == b;
    }
  }

  /** A byte other than LF and CR is escaped exactly as `encodeURIComponent`
      would escape it. */
  lemma EscapeByteChar(b: byte)
    requires b != 10 && b != 13
    ensures EscapeChar(b as char) == ByteEscape(b)
  {
    if b >= 16 {
      assert HexString(b) == HexString(b / 16) + [HexDigit(b % 16)];
    }
  }

  lemma {:induction false} EscapeBytes(bs: seq<byte>)
    requires forall i :: 0 <= i < |bs| ==> bs[i] >= 0x80
    ensures EscapeAll(BufferToBinaryString(bs)) == PercentEncode(bs)
    decreases |bs|
  {
    if |bs| > 0 {
      EscapeBytes(bs[1..]);
      BufferToBinaryStringAppend([bs[0]], bs[1..]);
      assert [bs[0]] + bs[1..] == bs;
      EscapeAllAppend(BufferToBinaryString([bs[0]]), BufferToBinaryString(bs[1..]));
      EscapeByteChar(bs[0]);
      assert EscapeAll([bs[0] as char]) == EscapeChar(bs[0] as char);
    }
  }

  lemma EscapedByteOfEscape(s: string, k: nat, b: byte)
    requires k + 3 <= |s| && s[k..k + 3] == ByteEscape(b)
    ensures EscapedByte(s, k) == Some(b)
  {
    var esc := ByteEscape(b);
    assert s[k] == esc[0] && s[k + 1] == esc[1] && s[k + 2] == esc[2];
  }

  lemma EscapedByteOfEncoding(bs: seq<byte>, rest: string, j: nat)
    requires j < |bs|
    ensures EscapedByte(PercentEncode(bs) + rest, 3 * j) == Some(bs[j])
  {
    var k := 3 * j;
    var e := PercentEncode(bs);
    PercentEncodeAt(bs, j);
    assert k + 3 <= |e|;
    var t := e + rest;
    assert t[k..k + 3] == e[k..k + 3];
    EscapedByteOfEscape(t, k, bs[j]);
  }

  lemma {:induction false} ContinuationsOfEncoding(bs: seq<byte>, rest: string, j: nat)
    requires 1 <= j <= |bs|
    requires forall i :: j <= i < |bs| ==> IsContinuation(bs[i])
    ensures Continuations(PercentEncode(bs) + rest, j, |bs|) == Some(bs[j..])
    decreases |bs| - j
  {
    if j < |bs| {
      EscapedByteOfEncoding(bs, rest, j);
      ContinuationsOfEncoding(bs, rest, j + 1);
      assert bs[j..] == [bs[j]] + bs[j + 1..];
    }
  }

  lemma Split64(v: nat)
    ensures v == (v / 64) * 64 + v % 64
    ensures (v / 64) / 64 == v / 4096
    ensures (v / 4096) / 64 == v / 262144
  {
  }

  /** The bytes of a non-ASCII character are a lead byte announcing their
      number, then continuation bytes, and they assemble to a well-formed
      value equal to the character. */
  lemma CharBytesShape(c: char)
    requires c as int >= 0x80
    ensures var bs := CharBytes(c);
      && SequenceLength(bs[0]) == |bs|
      && (forall i :: 1 <= i < |bs| ==> IsContinuation(bs[i]))
      && Assemble(bs[0], bs[1..]) == c as int
      && WellFormed(c as int, |bs|)
  {
    var v := c as int;
    Split64(v);
    if v < 0x800 {
    } else if v < 0x10000 {
      Split64(v / 64);
    } else {
      Split64(v / 64);
      Split64(v / 4096);
    }
  }

  /** Decoding the escapes of one character's UTF-8 bytes gives that
      character back, whatever follows. */
  lemma DecodeOneChar(c: char, rest: string)
    requires c as int >= 0x80
    ensures DecodeURIComponent(PercentEncode(CharBytes(c)) + rest)
         == Prepend(c, DecodeURIComponent(rest))
  {
    var bs := CharBytes(c);
    var s := PercentEncode(bs) + rest;
    var n := |bs|;
    CharBytesShape(c);
    EscapedByteOfEncoding(bs, rest, 0);
    ContinuationsOfEncoding(bs, rest, 1);
    assert s[3 * n..] == rest;
  }

  /** ASCII characters other than LF and CR decode from their escape. */
  lemma DecodeOneAscii(c: char, rest: string)
    requires c as int < 0x80 && c != '\n' && c != '\r'
    ensures DecodeURIComponent(ByteEscape(c as int) + rest) == Prepend(c, DecodeURIComponent(rest))
  {
    var s := ByteEscape(c as int) + rest;
    assert EscapedByte(s, 0) == Some(c as int);
    assert s[3..] == rest;
  }

  /** The escapes of one character's bytes decode to that character,
      whatever follows. */
  lemma DecodeHead(c: char, restEsc: string)
    ensures DecodeURIComponent(EscapeAll(BufferToBinaryString(CharBytes(c))) + restEsc)
         == Prepend(c, DecodeURIComponent(restEsc))
  {
    var headEsc := EscapeAll(BufferToBinaryString(CharBytes(c)));
    if c as int < 0x80 {
      assert BufferToBinaryString(CharBytes(c)) == [c];
      assert [c][1..] == [];
      assert headEsc == EscapeChar(c) + EscapeAll([]);
      if c == '\n' || c == '\r' {
        assert headEsc + restEsc == [c] + restEsc;
        assert ([c] + restEsc)[1..] == restEsc;
      } else {
        EscapeByteChar(c as int);
        DecodeOneAscii(c, restEsc);
      }
    } else {
      EscapeBytes(CharBytes(c));
      DecodeOneChar(c, restEsc);
    }
  }

  /** `binaryStringToUtf8(utf8ToBinaryString(s)) == s` for every string. */
  lemma {:induction false} Utf8RoundTrip(s: string)
    ensures BinaryStringToUtf8(BufferToBinaryString(Encode(s))) == Ok(s)
    ensures BinaryStringToUtf8(Utf8ToBinaryString(s)) == Ok(s)
    decreases |s|
  {
    Utf8ToBinaryStringIsEncode(s);
    if |s| > 0 {
      var c := s[0];
      Utf8RoundTrip(s[1..]);
      var restEsc := EscapeAll(BufferToBinaryString(Encode(s[1..])));
      BufferToBinaryStringAppend(CharBytes(c), Encode(s[1..]));
      EscapeAllAppend(BufferToBinaryString(CharBytes(c)), BufferToBinaryString(Encode(s[1..])));
      DecodeHead(c, restEsc);
      assert [c] + s[1..] == s;
    }
  }
}
