/** Binary strings: strings whose every character is below 256 and stands for
    one byte (`bufferToBinaryString` / `binaryStringToBuffer`, util.js). */
module Binary {
  import opened Base

  predicate IsBinaryString(s: string) {
    forall i :: 0 <= i < |s| ==> s[i] as int < 256
  }

  /** `bufferToBinaryString`: one `String.fromCharCode(b)` per byte. */
  function BufferToBinaryString(buf: seq<byte>): (r: string)
    ensures |r| == |buf|
    ensures forall i :: 0 <= i < |buf| ==> r[i] as int == buf[i]
    ensures IsBinaryString(r)
  {
    seq(|buf|, i requires 0 <= i < |buf| => buf[i] as char)
  }

  /** `binaryStringToBuffer`: `charCodeAt(0)` of each character stored into a
      Uint8Array, which keeps the value modulo 256. */
  function BinaryStringToBuffer(s: string): (r: seq<byte>)
    ensures |r| == |s|
    ensures forall i :: 0 <= i < |s| ==> r[i] == (s[i] as int) % 256
  {
    seq(|s|, i requires 0 <= i < |s| => (s[i] as int) % 256)
  }

  /** Bytes survive the trip through a binary string, length included. */
  lemma BufferRoundTrip(buf: seq<byte>)
    ensures BinaryStringToBuffer(BufferToBinaryString(buf)) == buf
    ensures |BufferToBinaryString(buf)| == |buf|
  {
  }

  /** A binary string survives the trip through a buffer. */
  lemma BinaryStringRoundTrip(s: string)
    requires IsBinaryString(s)
    ensures BufferToBinaryString(BinaryStringToBuffer(s)) == s
  {
    var t := BufferToBinaryString(BinaryStringToBuffer(s));
    assert forall i :: 0 <= i < |s| ==> t[i] as int == s[i] as int;
  }

  lemma BufferToBinaryStringAppend(a: seq<byte>, b: seq<byte>)
    ensures BufferToBinaryString(a + b) == BufferToBinaryString(a) + BufferToBinaryString(b)
  {
  }
}
