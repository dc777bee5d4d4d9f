/** `data:` URLs as util.js builds and reads them (the syntax of section 3
    of RFC 2397): `uint8ArrayToDataURL`, `stringToDataURL`, `dataURLtoString`,
    `dataURLtoBuffer`, and the conversions they are made of. */
module DataUrl {
  import opened Base
  import opened Strings
  import opened Binary
  import opened Utf8
  import opened Base64

  /** A Uint8Array together with the `mimeType` property util.js attaches to
      it; `""` when the property is absent. */
  datatype Buffer = Buffer(bytes: seq<byte>, mimeType: string)

  // ---------------------------------------------------------------------
  // The conversions util.js composes
  // ---------------------------------------------------------------------

  /** `utf8ToBuffer`. */
  function Utf8ToBuffer(s: string): (r: seq<byte>)
    ensures r == Utf8.Encode(s)
  {
    Utf8ToBinaryStringIsEncode(s);
    BufferRoundTrip(Utf8.Encode(s));
    BinaryStringToBuffer(Utf8ToBinaryString(s))
  }

  /** `utf8ToBase64`; `btoa` cannot fail on a binary string. */
  function Utf8ToBase64(s: string): (r: string)
    ensures Btoa(Utf8ToBinaryString(s)) == Ok(r)
  {
    Utf8ToBinaryStringIsEncode(s);
    BufferRoundTrip(Utf8.Encode(s));
    Base64.Encode(Utf8.Encode(s))
  }

  /** `bufferToBase64`. */
  function BufferToBase64(bytes: seq<byte>): (r: string)
    ensures Btoa(BufferToBinaryString(bytes)) == Ok(r)
  {
    BufferRoundTrip(bytes);
    Base64.Encode(bytes)
  }

  /** `base64ToBuffer`. */
  function Base64ToBuffer(b64: string): (r: Result<seq<byte>>)
    ensures r.Ok? <==> Atob(b64).Ok?
    ensures r.Err? ==> r.error == InvalidCharacter
    ensures r.Ok? ==> BufferToBinaryString(r.value) == Atob(b64).value
  {
    var bin :- Atob(b64);
    BinaryStringRoundTrip(bin);
    Ok(BinaryStringToBuffer(bin))
  }

  /** `bufferToUtf8`. */
  function BufferToUtf8(bytes: seq<byte>): (r: Result<string>)
    ensures r.Err? ==> r.error == UriMalformed
    ensures (forall i :: 0 <= i < |bytes| ==> bytes[i] < 0x80) ==> r == Ok(BufferToBinaryString(bytes))
  {
    BinaryStringToUtf8(BufferToBinaryString(bytes))
  }

  /** `base64ToUtf8`. */
  function Base64ToUtf8(b64: string): (r: Result<string>)
    ensures Base64ToBuffer(b64).Err? ==> r == Err(InvalidCharacter)
    ensures Base64ToBuffer(b64).Ok? ==> r == BufferToUtf8(Base64ToBuffer(b64).value)
  {
    var bin :- Atob(b64);
    BinaryStringRoundTrip(bin);
    BinaryStringToUtf8(bin)
  }

  lemma BufferToUtf8RoundTrip(s: string)
    ensures BufferToUtf8(Utf8ToBuffer(s)) == Ok(s)
  {
    Utf8RoundTrip(s);
  }

  lemma Base64ToUtf8RoundTrip(s: string)
    ensures Base64ToUtf8(Utf8ToBase64(s)) == Ok(s)
  {
    Utf8ToBinaryStringIsEncode(s);
    AtobEncode(Utf8.Encode(s));
    Utf8RoundTrip(s);
  }

  // ---------------------------------------------------------------------
  // The pattern /^data:((.*?)(;charset=.*?)?)(;base64)?,/
  // ---------------------------------------------------------------------

  /** What the pattern captures: `mediaType` is group 1, `typePart` group 2,
      `charset` group 3, `base64` whether group 4 took part, and `payload`
      the text after the whole match. */
  datatype Match = Match(
    header: string,
    mediaType: string,
    typePart: string,
    charset: Option<string>,
    base64: bool,
    payload: string)

  const Scheme: string := "data:"
  const CharsetTag: string := ";charset="
  const Base64Tag: string := ";base64"

  /** The first position from `i` at which the lazy group 2 can stop: where
      `;charset=` starts, where exactly `;base64` is left, or the end. */
  function StopPoint(t: string, i: nat): (l: nat)
    requires i <= |t|
    ensures i <= l <= |t|
    ensures StartsWith(t[l..], CharsetTag) || t[l..] == Base64Tag || l == |t|
    ensures forall k :: i <= k < l ==> !StartsWith(t[k..], CharsetTag) && t[k..] != Base64Tag
    decreases |t| - i
  {
    if StartsWith(t[i..], CharsetTag) || t[i..] == Base64Tag || i == |t| then i
    else StopPoint(t, i + 1)
  }

  predicate NoLineTerminator(s: string) {
    forall i :: 0 <= i < |s| ==> !IsLineTerminator(s[i])
  }

  /** The captures for the text `t` between `data:` and the first comma.
      With a lazy group 2 the first stop point wins; after `;charset=` the
      lazy group 3 stops as soon as only `;base64` or nothing remains. */
  function SplitHeader(t: string): (m: (string, string, Option<string>, bool))
    ensures m.0 + (if m.3 then Base64Tag else "") == t
    ensures StartsWith(m.0, m.1)
    ensures m.2.Some? ==> m.0 == m.1 + m.2.value && StartsWith(m.2.value, CharsetTag)
    ensures m.2.None? ==> m.0 == m.1
  {
    var l := StopPoint(t, 0);
    if StartsWith(t[l..], CharsetTag) then
      if EndsWith(t, Base64Tag) && |t| - 7 >= l + 9 then
        assert t[..|t| - 7] + Base64Tag == t;
        assert t[..|t| - 7][l..][..9] == t[l..][..9];
        (t[..|t| - 7], t[..l], Some(t[l..|t| - 7]), true)
      else
        (t, t[..l], Some(t[l..]), false)
    else if t[l..] == Base64Tag then
      assert t[..l] + Base64Tag == t;
      (t[..l], t[..l], None, true)
    else
      (t, t, None, false)
  }

  /** `dataURL.match(pattern)`; `None` when it does not match. */
  function Parse(s: string): (r: Option<Match>)
    ensures r.Some? <==>
      StartsWith(s, Scheme) && ',' in s && NoLineTerminator(s[5..IndexOf(s, ',')])
    ensures r.Some? ==> r.value.payload == s[IndexOf(s, ',') + 1..]
    ensures r.Some? ==> r.value.header == s[5..IndexOf(s, ',')] && ',' !in r.value.header
    ensures r.Some? ==>
      r.value.header == r.value.mediaType + (if r.value.base64 then Base64Tag else "")
  {
    if !StartsWith(s, Scheme) then None
    else
      var c := IndexOf(s, ',');
      if c == -1 then None
      else
        assert s[..5] == Scheme;
        assert forall k :: 0 <= k < 5 ==> s[k] == Scheme[k];
        var t := s[5..c];
        assert ',' !in t by {
          assert forall k :: 0 <= k < |t| ==> t[k] == s[..c][5 + k];
        }
        if !NoLineTerminator(t) then None
        else
          var (media, typePart, charset, isBase64) := SplitHeader(t);
          Some(Match(t, media, typePart, charset, isBase64, s[c + 1..]))
  }

  // ---------------------------------------------------------------------
  // Reading data URLs
  // ---------------------------------------------------------------------

  /** `dataURLtoString`. */
  function DataURLtoString(d: string): (r: Result<string>)
    ensures Parse(d).None? ==> r == Err(InvalidDataUri)
  {
    match Parse(d)
    case None => Err(InvalidDataUri)
    case Some(m) =>
      if m.base64 then
        var bin :- Atob(m.payload);
        BinaryStringToUtf8(bin)
      else DecodeURIComponent(m.payload)
  }

  /** The `mimeType` `dataURLtoBuffer` reports: group 1 when group 2 is
      non-empty, otherwise `text/plain` and group 3 or `;charset=utf-8`. */
  function MimeOf(m: Match): (mime: string)
    ensures m.typePart == "" && m.charset.None? ==> mime == "text/plain;charset=utf-8"
    ensures m.typePart != "" ==> mime == m.mediaType
  {
    if m.typePart != "" then m.mediaType
    else
      match m.charset
      case Some(cs) => if cs != "" then "text/plain" + cs else "text/plain;charset=utf-8"
      case None => "text/plain;charset=utf-8"
  }

  /** `dataURLtoBuffer`. */
  function DataURLtoBuffer(d: string): (r: Result<Buffer>)
    ensures Parse(d).None? ==> r == Err(InvalidDataUri)
    ensures r.Ok? ==> r.value.mimeType == MimeOf(Parse(d).value)
  {
    match Parse(d)
    case None => Err(InvalidDataUri)
    case Some(m) =>
      if m.base64 then
        var bytes :- Base64ToBuffer(m.payload);
        Ok(Buffer(bytes, MimeOf(m)))
      else
        var text :- DecodeURIComponent(m.payload);
        Ok(Buffer(Utf8ToBuffer(text), MimeOf(m)))
  }

  // ---------------------------------------------------------------------
  // Writing data URLs
  // ---------------------------------------------------------------------

  const DefaultBinaryMime: string := "application/octet-stream"
  const DefaultTextMime: string := "text/plain"

  /** The media type `uint8ArrayToDataURL` writes: the argument, else the
      buffer's own `mimeType`, else `application/octet-stream`. */
  function BinaryMime(buf: Buffer, mimeType: string): (mime: string)
    ensures mime != ""
    ensures mimeType != "" ==> mime == mimeType
    ensures mimeType == "" && buf.mimeType != "" ==> mime == buf.mimeType
    ensures mimeType == "" && buf.mimeType == "" ==> mime == DefaultBinaryMime
  {
    if mimeType != "" then mimeType
    else if buf.mimeType != "" then buf.mimeType
    else DefaultBinaryMime
  }

  /** `uint8ArrayToDataURL`. */
  function Uint8ArrayToDataURL(buf: Buffer, mimeType: string): (d: string)
    ensures var h := Scheme + BinaryMime(buf, mimeType) + Base64Tag + ",";
      StartsWith(d, h) && Base64ToBuffer(d[|h|..]) == Ok(buf.bytes)
  {
    var h := Scheme + BinaryMime(buf, mimeType) + Base64Tag + ",";
    var b64 := BufferToBase64(buf.bytes);
    AtobEncode(buf.bytes);
    BufferRoundTrip(buf.bytes);
    assert (h + b64)[..|h|] == h && (h + b64)[|h|..] == b64;
    h + b64
  }

  /** `stringToDataURL`. */
  function StringToDataURL(s: string, mimeType: string): (d: string)
    ensures var h := Scheme + (if mimeType != "" then mimeType else DefaultTextMime) + Base64Tag + ",";
      StartsWith(d, h) && Base64ToUtf8(d[|h|..]) == Ok(s)
  {
    var mime := if mimeType != "" then mimeType else DefaultTextMime;
    var h := Scheme + mime + Base64Tag + ",";
    var b64 := Utf8ToBase64(s);
    Base64ToUtf8RoundTrip(s);
    assert (h + b64)[..|h|] == h && (h + b64)[|h|..] == b64;
    h + b64
  }

  // ---------------------------------------------------------------------
  // Round trips
  // ---------------------------------------------------------------------

  /** A media type that the pattern reads back whole: no comma and no line
      terminator. */
  predicate PlainMime(m: string) {
    ',' !in m && NoLineTerminator(m)
  }

  /** A base64 alphabet string has no comma. */
  lemma Base64HasNoComma(bs: seq<byte>)
    ensures ',' !in Base64.Encode(bs)
  {
    var e := Base64.Encode(bs);
    var u := EncodeUnpadded(bs);
    forall i | 0 <= i < |e|
      ensures e[i] != ','
    {
      if i < |u| { assert InAlphabet(u[i]); } else { assert e[i] == Padding(|bs|)[i - |u|]; }
    }
  }

  /** How the pattern reads `data:<mime>;base64,<b64>`. */
  lemma {:induction false} ParseBuilt(mime: string, b64: string)
    requires PlainMime(mime)
    requires ',' !in b64
    ensures var s := Scheme + mime + Base64Tag + "," + b64;
      && Parse(s).Some?
      && Parse(s).value.base64
      && Parse(s).value.mediaType == mime
      && Parse(s).value.payload == b64
  {
    var s := Scheme + mime + Base64Tag + "," + b64;
    var c := 5 + |mime| + 7;
    assert s[c] == ',';
    assert forall k :: 0 <= k < c ==> s[k] != ',' by {
      forall k | 0 <= k < c ensures s[k] != ',' {
        if k < 5 { assert s[k] == Scheme[k]; }
        else if k < 5 + |mime| { assert s[k] == mime[k - 5]; }
        else { assert s[k] == Base64Tag[k - 5 - |mime|]; }
      }
    }
    assert IndexOf(s, ',') == c by {
      var j := IndexOf(s, ',');
      assert j >= 0 && s[j] == ',' && ',' !in s[..j];
      assert forall k :: 0 <= k < j ==> s[..j][k] == s[k];
    }
    var t := s[5..c];
    assert t == mime + Base64Tag;
    assert s[c + 1..] == b64;
    assert s[..5] == Scheme;
    assert NoLineTerminator(t) by {
      forall k | 0 <= k < |t| ensures !IsLineTerminator(t[k]) {
        if k >= |mime| { assert t[k] == Base64Tag[k - |mime|]; }
      }
    }
    HeaderOfBuilt(mime);
  }

  /** `SplitHeader(mime + ";base64")` always reports base64 and gives `mime`
      back as the media type. */
  lemma HeaderOfBuilt(mime: string)
    requires ',' !in mime
    ensures SplitHeader(mime + Base64Tag).3
    ensures SplitHeader(mime + Base64Tag).0 == mime
  {
    var t := mime + Base64Tag;
    var l := StopPoint(t, 0);
    assert t[|mime|..] == Base64Tag;
    assert l <= |mime|;
    if StartsWith(t[l..], CharsetTag) {
      assert l < |mime|;
      forall p | l < p < l + 9
        ensures t[p] != ';'
      {
        assert t[p] == t[l..][..9][p - l];
      }
      assert t[|mime|] == ';';
      assert l + 9 <= |mime|;
      assert EndsWith(t, Base64Tag);
      assert t[..|t| - 7] == mime;
    }
  }

  /** Group 2 cannot stop at a character other than `;`. */
  lemma NoStopAt(t: string, k: nat)
    requires k < |t| && t[k] != ';'
    ensures !StartsWith(t[k..], CharsetTag) && t[k..] != Base64Tag
  {
    assert t[k..][0] == t[k];
    if |t[k..]| >= 9 {
      assert t[k..][..9][0] == t[k];
    }
  }

  /** Past a run without `;`, group 2 stops where `;base64` ends the text. */
  lemma {:induction false} StopPointSkips(t: string, i: nat, n: nat)
    requires i <= n <= |t|
    requires forall k :: i <= k < n ==> t[k] != ';'
    requires t[n..] == Base64Tag
    ensures StopPoint(t, i) == n
    decreases n - i
  {
    if i < n {
      NoStopAt(t, i);
      StopPointSkips(t, i + 1, n);
    }
  }

  /** Without `;` in the media type, group 2 is the whole media type. */
  lemma StopPointPlain(mime: string)
    requires ';' !in mime
    ensures SplitHeader(mime + Base64Tag).1 == mime
  {
    var t := mime + Base64Tag;
    assert t[|mime|..] == Base64Tag;
    assert forall k :: 0 <= k < |mime| ==> t[k] == mime[k];
    StopPointSkips(t, 0, |mime|);
    assert t[..|mime|] == mime;
  }

  /** Group 2 of a built header is empty only when the media type starts
      with `;charset=`. */
  lemma TypePartOfBuilt(mime: string)
    requires mime != "" && !StartsWith(mime, CharsetTag)
    ensures SplitHeader(mime + Base64Tag).1 != ""
  {
    var t := mime + Base64Tag;
    assert t[0..] == t;
    assert !StartsWith(t, CharsetTag) by {
      if |mime| >= 9 {
        assert t[..9] == mime[..9];
      } else {
        assert t[|mime|] == ';';
      }
    }
  }

  /** `dataURLtoBuffer(uint8ArrayToDataURL(b, m))` gives `b` back, tagged
      with `m`, for a non-empty `m` without `,` or line terminators that
      does not start with `;charset=`. */
  lemma BufferDataUrlRoundTrip(buf: Buffer, mimeType: string)
    requires mimeType != "" && PlainMime(mimeType) && !StartsWith(mimeType, CharsetTag)
    ensures DataURLtoBuffer(Uint8ArrayToDataURL(buf, mimeType)) == Ok(Buffer(buf.bytes, mimeType))
  {
    var b64 := BufferToBase64(buf.bytes);
    var d := Uint8ArrayToDataURL(buf, mimeType);
    Base64HasNoComma(buf.bytes);
    ParseBuilt(mimeType, b64);
    TypePartOfBuilt(mimeType);
    var m := Parse(d).value;
    assert m.typePart != "";
    assert MimeOf(m) == mimeType;
    AtobEncode(buf.bytes);
    BufferRoundTrip(buf.bytes);
    assert Base64ToBuffer(m.payload) == Ok(buf.bytes);
  }

  /** A media type that starts with `;charset=` leaves group 2 empty, so
      `dataURLtoBuffer` reports `text/plain` followed by it instead. */
  lemma CharsetOnlyTypeChanges(buf: Buffer, cs: string)
    requires PlainMime(CharsetTag + cs)
    ensures var mime := CharsetTag + cs;
      DataURLtoBuffer(Uint8ArrayToDataURL(buf, mime)) == Ok(Buffer(buf.bytes, "text/plain" + mime))
  {
    var mime := CharsetTag + cs;
    var b64 := BufferToBase64(buf.bytes);
    Base64HasNoComma(buf.bytes);
    ParseBuilt(mime, b64);
    HeaderCharsetOnly(mime);
    var d := Uint8ArrayToDataURL(buf, mime);
    var m := Parse(d).value;
    assert m.header == mime + Base64Tag;
    assert m.typePart == "" && m.charset == Some(mime);
    assert MimeOf(m) == "text/plain" + mime;
    AtobEncode(buf.bytes);
    BufferRoundTrip(buf.bytes);
    assert Base64ToBuffer(m.payload) == Ok(buf.bytes);
  }

  lemma HeaderCharsetOnly(mime: string)
    requires StartsWith(mime, CharsetTag)
    ensures SplitHeader(mime + Base64Tag) == (mime, "", Some(mime), true)
  {
    var t := mime + Base64Tag;
    assert t[0..] == t && t[..9] == mime[..9];
    assert StopPoint(t, 0) == 0;
    assert t[..|t| - 7] == mime;
  }

  /** The base64 of a text decodes to the text's UTF-8 bytes. */
  lemma Base64ToBufferOfText(s: string)
    ensures Base64ToBuffer(Utf8ToBase64(s)) == Ok(Utf8.Encode(s))
  {
    var bytes := Utf8.Encode(s);
    assert Utf8ToBase64(s) == Base64.Encode(bytes);
    AtobEncode(bytes);
    BufferRoundTrip(bytes);
  }

  /** How the pattern reads the data URL `stringToDataURL` builds. */
  lemma ParseStringDataUrl(s: string, mimeType: string)
    requires PlainMime(mimeType)
    ensures var m := Parse(StringToDataURL(s, mimeType));
      m.Some? && m.value.base64 && m.value.payload == Utf8ToBase64(s)
  {
    var mime := if mimeType != "" then mimeType else DefaultTextMime;
    assert PlainMime(mime) by {
      if mimeType == "" {
        DefaultTextMimePlain();
      }
    }
    var b64 := Utf8ToBase64(s);
    assert ',' !in b64 by {
      assert b64 == Base64.Encode(Utf8.Encode(s));
      Base64HasNoComma(Utf8.Encode(s));
    }
    assert StringToDataURL(s, mimeType) == Scheme + mime + Base64Tag + "," + b64;
    ParseBuilt(mime, b64);
  }

  /** The default text media type has no comma and no line terminator. */
  lemma DefaultTextMimePlain()
    ensures PlainMime(DefaultTextMime)
  {
    assert forall i :: 0 <= i < |DefaultTextMime| ==> DefaultTextMime[i] in "text/plain";
  }

  /** `dataURLtoString(stringToDataURL(s, m)) == s` for any `m` without a
      comma or a line terminator. */
  lemma StringDataUrlRoundTrip(s: string, mimeType: string)
    requires PlainMime(mimeType)
    ensures DataURLtoString(StringToDataURL(s, mimeType)) == Ok(s)
  {
    ParseStringDataUrl(s, mimeType);
    Base64ToUtf8RoundTrip(s);
  }

  /** Reading a text write back as bytes yields its UTF-8 encoding. */
  lemma StringDataUrlAsBuffer(s: string, mimeType: string)
    requires PlainMime(mimeType)
    ensures DataURLtoBuffer(StringToDataURL(s, mimeType)).Ok?
    ensures DataURLtoBuffer(StringToDataURL(s, mimeType)).value.bytes == Utf8.Encode(s)
  {
    ParseStringDataUrl(s, mimeType);
    Base64ToBufferOfText(s);
  }
}
