/** `btoa` and `atob`: the base64 encoding of section 4 of RFC 4648 over
    binary strings, with `atob` following the forgiving decoder browsers
    implement (ASCII whitespace ignored, padding optional). */
module Base64 {
  import opened Base
  import opened Binary
  import opened Strings

  /** The 64-character alphabet of RFC 4648 section 4. */
  function Digit(i: int): (c: char)
    requires 0 <= i < 64
  {
    if i < 26 then ('A' as int + i) as char
    else if i < 52 then ('a' as int + i - 26) as char
    else if i < 62 then ('0' as int + i - 52) as char
    else if i == 62 then '+'
    else '/'
  }

  /** The value of an alphabet character, or -1. */
  function DigitValue(c: char): (v: int)
    ensures -1 <= v < 64
  {
    if 'A' <= c <= 'Z' then c as int - 'A' as int
    else if 'a' <= c <= 'z' then c as int - 'a' as int + 26
    else if '0' <= c <= '9' then c as int - '0' as int + 52
    else if c == '+' then 62
    else if c == '/' then 63
    else -1
  }

  predicate InAlphabet(c: char) {
    DigitValue(c) >= 0
  }

  lemma DigitRoundTrip(i: int)
    requires 0 <= i < 64
    ensures DigitValue(Digit(i)) == i
  {
  }

  /** The encoding without its `=` fill. */
  function EncodeUnpadded(bs: seq<byte>): (r: string)
    ensures |r| % 4 == (if |bs| % 3 == 0 then 0 else |bs| % 3 + 1)
    ensures |r| >= |bs|
    ensures |r| == (4 * |bs| + 2) / 3
    ensures forall i :: 0 <= i < |r| ==> InAlphabet(r[i])
    decreases |bs|
  {
    if |bs| < 3 then EncodeTail(bs)
    else
      var rest := EncodeUnpadded(bs[3..]);
      var g := Group(bs[0], bs[1], bs[2]);
      ShiftMod3(|bs| - 3);
      ShiftLength(|bs| - 3);
      ShiftMod4(|rest|);
      AlphabetAppend(g, rest);
      g + rest
  }

  lemma ShiftMod3(n: nat)
    ensures (n + 3) % 3 == n % 3
  {
  }

  lemma ShiftLength(n: nat)
    ensures (4 * (n + 3) + 2) / 3 == (4 * n + 2) / 3 + 4
  {
  }

  lemma ShiftMod4(n: nat)
    ensures (n + 4) % 4 == n % 4
  {
  }

  predicate AllInAlphabet(s: string) {
    forall i :: 0 <= i < |s| ==> InAlphabet(s[i])
  }

  lemma AlphabetAppend(a: string, b: string)
    requires AllInAlphabet(a) && AllInAlphabet(b)
    ensures AllInAlphabet(a + b)
  {
    forall i | 0 <= i < |a + b| ensures InAlphabet((a + b)[i]) {
      if i >= |a| {
        assert (a + b)[i] == b[i - |a|];
      }
    }
  }

  /** The digits of a last group of fewer than three bytes: the missing
      bits are zero and no digit stands for a missing byte. */
  function EncodeTail(bs: seq<byte>): (r: string)
    requires |bs| < 3
    ensures |r| == (if |bs| == 0 then 0 else |bs| + 1)
    ensures forall i :: 0 <= i < |r| ==> InAlphabet(r[i])
    ensures |bs| >= 1 ==> DigitValue(r[0]) == bs[0] / 4
    ensures |bs| == 1 ==> DigitValue(r[1]) == (bs[0] % 4) * 16
    ensures |bs| == 2 ==> DigitValue(r[1]) == (bs[0] % 4) * 16 + bs[1] / 16
    ensures |bs| == 2 ==> DigitValue(r[2]) == (bs[1] % 16) * 4
  {
    if |bs| == 0 then ""
    else
      var b0 := bs[0] as int;
      DigitRoundTrip(b0 / 4);
      if |bs| == 1 then
        DigitRoundTrip((b0 % 4) * 16);
        [Digit(b0 / 4), Digit((b0 % 4) * 16)]
      else
        var b1 := bs[1] as int;
        DigitRoundTrip((b0 % 4) * 16 + b1 / 16);
        DigitRoundTrip((b1 % 16) * 4);
        [Digit(b0 / 4), Digit((b0 % 4) * 16 + b1 / 16), Digit((b1 % 16) * 4)]
  }

  /** The `=` fill that brings the output to a multiple of four characters. */
  function Padding(n: nat): string {
    if n % 3 == 1 then "==" else if n % 3 == 2 then "=" else ""
  }

  /** Base64 of a byte sequence, padded. */
  function Encode(bs: seq<byte>): (r: string)
    ensures |r| % 4 == 0
  {
    var u := EncodeUnpadded(bs);
    PaddedLength(|u|, |bs|);
    u + Padding(|bs|)
  }

  lemma PaddedLength(m: nat, n: nat)
    requires m % 4 == (if n % 3 == 0 then 0 else n % 3 + 1)
    ensures (m + |Padding(n)|) % 4 == 0
  {
  }

  /** `btoa(s)`: a character above U+00FF raises InvalidCharacterError. */
  function Btoa(s: string): (r: Result<string>)
    ensures r.Ok? <==> IsBinaryString(s)
  {
    if IsBinaryString(s) then Ok(Encode(BinaryStringToBuffer(s))) else Err(InvalidCharacter)
  }

  predicate IsAsciiWhitespace(c: char) {
    c == '\t' || c == '\n' || c == '\U{000C}' || c == '\r' || c == ' '
  }

  function RemoveWhitespace(s: string): (r: string)
    ensures forall i :: 0 <= i < |r| ==> !IsAsciiWhitespace(r[i])
    ensures forall c :: c in r <==> c in s && !IsAsciiWhitespace(c)
    ensures |r| <= |s|
    ensures (forall i :: 0 <= i < |s| ==> !IsAsciiWhitespace(s[i])) ==> r == s
    decreases |s|
  {
    if |s| == 0 then ""
    else if IsAsciiWhitespace(s[0]) then RemoveWhitespace(s[1..])
    else [s[0]] + RemoveWhitespace(s[1..])
  }

  /** Step 2 of the forgiving decoder: on a multiple of four, drop one or two
      trailing `=`. */
  function RemovePadding(s: string): (r: string)
    ensures |s| - 2 <= |r| <= |s| && r == s[..|r|]
    ensures forall i :: |r| <= i < |s| ==> s[i] == '='
    ensures |r| < |s| <==> |s| % 4 == 0 && EndsWith(s, "=")
    ensures |r| == |s| - 2 <==> |s| % 4 == 0 && EndsWith(s, "==")
  {
    if |s| % 4 == 0 && EndsWith(s, "==") then s[..|s| - 2]
    else if |s| % 4 == 0 && EndsWith(s, "=") then s[..|s| - 1]
    else s
  }

  /** The first byte of a group: six bits of `v0`, two of `v1`. */
  function Byte0(v0: int, v1: int): (b: byte)
    requires 0 <= v0 < 64 && 0 <= v1 < 64
  {
    v0 * 4 + v1 / 16
  }

  /** The second byte of a group: four bits of `v1`, four of `v2`. */
  function Byte1(v1: int, v2: int): (b: byte)
    requires 0 <= v1 < 64 && 0 <= v2 < 64
  {
    (v1 % 16) * 16 + v2 / 4
  }

  /** The third byte of a group: two bits of `v2`, six of `v3`. */
  function Byte2(v2: int, v3: int): (b: byte)
    requires 0 <= v2 < 64 && 0 <= v3 < 64
  {
    (v2 % 4) * 64 + v3
  }

  /** Bytes of an unpadded encoding; the bits left over at the end are dropped. */
  function DecodeUnpadded(s: string): (r: seq<byte>)
    requires |s| % 4 != 1
    requires forall i :: 0 <= i < |s| ==> InAlphabet(s[i])
    ensures |r| == |s| * 3 / 4
    decreases |s|
  {
    if |s| < 2 then []
    else
      assert InAlphabet(s[0]) && InAlphabet(s[1]);
      var v0 := DigitValue(s[0]);
      var v1 := DigitValue(s[1]);
      if |s| == 2 then [Byte0(v0, v1)]
      else
        assert InAlphabet(s[2]);
        var v2 := DigitValue(s[2]);
        if |s| == 3 then [Byte0(v0, v1), Byte1(v1, v2)]
        else
          assert InAlphabet(s[3]);
          var v3 := DigitValue(s[3]);
          ShiftMod4(|s| - 4);
          ShiftDecodedLength(|s| - 4);
          [Byte0(v0, v1), Byte1(v1, v2), Byte2(v2, v3)] + DecodeUnpadded(s[4..])
  }

  lemma ShiftDecodedLength(n: nat)
    ensures (n + 4) * 3 / 4 == n * 3 / 4 + 3
  {
  }

  /** Splitting three bytes into four sextets and joining them again is the
      identity. */
  lemma GroupRoundTrip(b0: byte, b1: byte, b2: byte)
    ensures Byte0(b0 / 4, (b0 % 4) * 16 + b1 / 16) == b0
    ensures Byte1((b0 % 4) * 16 + b1 / 16, (b1 % 16) * 4 + b2 / 64) == b1
    ensures Byte2((b1 % 16) * 4 + b2 / 64, b2 % 64) == b2
  {
    var c1 := (b0 % 4) * 16 + b1 / 16;
    var c2 := (b1 % 16) * 4 + b2 / 64;
    assert c1 / 16 == b0 % 4 && c1 % 16 == b1 / 16;
    assert c2 / 4 == b1 % 16 && c2 % 4 == b2 / 64;
  }

  /** `atob(s)`: the forgiving decoder; the result is a binary string. */
  function Atob(s: string): (r: Result<string>)
    ensures r.Ok? ==> IsBinaryString(r.value)
  {
    var d := RemovePadding(RemoveWhitespace(s));
    if |d| % 4 == 1 then Err(InvalidCharacter)
    else if exists i :: 0 <= i < |d| && !InAlphabet(d[i]) then Err(InvalidCharacter)
    else Ok(BufferToBinaryString(DecodeUnpadded(d)))
  }

  /** The digits of one full group of three bytes. */
  function Group(b0: byte, b1: byte, b2: byte): (g: string)
    ensures |g| == 4
    ensures forall i :: 0 <= i < 4 ==> InAlphabet(g[i])
    ensures DigitValue(g[0]) == b0 / 4
    ensures DigitValue(g[1]) == (b0 % 4) * 16 + b1 / 16
    ensures DigitValue(g[2]) == (b1 % 16) * 4 + b2 / 64
    ensures DigitValue(g[3]) == b2 % 64
  {
    DigitRoundTrip(b0 / 4);
    DigitRoundTrip((b0 % 4) * 16 + b1 / 16);
    DigitRoundTrip((b1 % 16) * 4 + b2 / 64);
    DigitRoundTrip(b2 % 64);
    [Digit(b0 / 4), Digit((b0 % 4) * 16 + b1 / 16), Digit((b1 % 16) * 4 + b2 / 64), Digit(b2 % 64)]
  }

  lemma EncodeUnpaddedStep(bs: seq<byte>)
    requires |bs| >= 3
    ensures EncodeUnpadded(bs) == Group(bs[0], bs[1], bs[2]) + EncodeUnpadded(bs[3..])
  {
  }

  lemma DecodeGroup(b0: byte, b1: byte, b2: byte, x: string)
    requires |x| % 4 != 1
    requires forall i :: 0 <= i < |x| ==> InAlphabet(x[i])
    ensures forall i :: 0 <= i < |Group(b0, b1, b2) + x| ==> InAlphabet((Group(b0, b1, b2) + x)[i])
    ensures DecodeUnpadded(Group(b0, b1, b2) + x) == [b0, b1, b2] + DecodeUnpadded(x)
  {
    var g := Group(b0, b1, b2);
    var s := g + x;
    assert s[0] == g[0] && s[1] == g[1] && s[2] == g[2] && s[3] == g[3];
    assert s[4..] == x;
    GroupRoundTrip(b0, b1, b2);
  }

  /** A short last group decodes back to its bytes. */
  lemma DecodeEncodeTail(bs: seq<byte>)
    requires |bs| < 3
    ensures DecodeUnpadded(EncodeTail(bs)) == bs
  {
    if |bs| == 1 {
      GroupRoundTrip(bs[0], 0, 0);
    } else if |bs| == 2 {
      GroupRoundTrip(bs[0], bs[1], 0);
    }
  }

  lemma {:induction false} DecodeEncodeUnpadded(bs: seq<byte>)
    ensures DecodeUnpadded(EncodeUnpadded(bs)) == bs
    decreases |bs|
  {
    if |bs| < 3 {
      DecodeEncodeTail(bs);
    } else {
      EncodeUnpaddedStep(bs);
      DecodeEncodeUnpadded(bs[3..]);
      DecodeGroup(bs[0], bs[1], bs[2], EncodeUnpadded(bs[3..]));
      assert bs == [bs[0], bs[1], bs[2]] + bs[3..];
    }
  }

  lemma RemovePaddingOfEncode(bs: seq<byte>)
    ensures RemovePadding(Encode(bs)) == EncodeUnpadded(bs)
  {
    var u, pad := EncodeUnpadded(bs), Padding(|bs|);
    assert Encode(bs) == u + pad;
    assert (|u| + |pad|) % 4 == 0 by { assert |Encode(bs)| % 4 == 0; }
    assert pad != "" ==> |u| > 0 by { assert |u| >= |bs|; }
    RemovePaddingAppended(u, pad);
  }

  /** Stripping the padding of alphabet digits followed by their `=` fill
      leaves the digits. */
  lemma RemovePaddingAppended(u: string, pad: string)
    requires AllInAlphabet(u) && (pad == "" || pad == "=" || pad == "==")
    requires (|u| + |pad|) % 4 == 0 && (pad != "" ==> |u| > 0)
    ensures RemovePadding(u + pad) == u
  {
    var e := u + pad;
    assert !InAlphabet('=');
    if pad == "" {
      assert e == u;
      if |u| > 0 {
        assert InAlphabet(u[|u| - 1]);
        assert e[|e| - 1] != '=';
      }
    } else if pad == "==" {
      assert e[..|e| - 2] == u;
    } else {
      assert InAlphabet(u[|u| - 1]);
      assert e[|e| - 2] != '=';
      assert e[..|e| - 1] == u;
    }
  }

  /** `atob(btoa(s)) == s` for every binary string. */
  lemma AtobBtoa(s: string)
    requires IsBinaryString(s)
    ensures Btoa(s).Ok? && Atob(Btoa(s).value) == Ok(s)
  {
    var bs := BinaryStringToBuffer(s);
    var e := Encode(bs);
    assert forall i :: 0 <= i < |e| ==> InAlphabet(e[i]) || e[i] == '=' by {
      forall i | 0 <= i < |e|
        ensures InAlphabet(e[i]) || e[i] == '='
      {
        if i >= |EncodeUnpadded(bs)| {
          assert e[i] == Padding(|bs|)[i - |EncodeUnpadded(bs)|];
        }
      }
    }
    assert RemoveWhitespace(e) == e;
    RemovePaddingOfEncode(bs);
    DecodeEncodeUnpadded(bs);
    BinaryStringRoundTrip(s);
  }

  /** Encoding bytes and decoding again gives the same bytes. */
  lemma AtobEncode(bs: seq<byte>)
    ensures Atob(Encode(bs)) == Ok(BufferToBinaryString(bs))
  {
    BufferRoundTrip(bs);
    AtobBtoa(BufferToBinaryString(bs));
  }
}
