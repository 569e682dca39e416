/** The extracted archive member as bytes, and its byte-for-byte reading as characters. */
module Bytes {

  /** One octet of the corpus, as the integer Python yields when iterating over `bytes`. */
  type byte = x: int | 0 <= x < 256

  /** Text in which every character has a code point below 256, i.e. one that came from a byte. */
  predicate IsByteText(text: seq<char>) {
    forall i :: 0 <= i < |text| ==> text[i] as int < 256
  }

  /**
   * `[chr(s) for s in data]`: each byte becomes the one character whose code point is
   * that byte value. There is no multi-byte decoding, so the length is kept.
   */
  function BytesToChars(raw: seq<byte>): (text: seq<char>)
    ensures |text| == |raw|
    ensures forall i :: 0 <= i < |raw| ==> text[i] as int == raw[i]
    ensures IsByteText(text)
  {
    seq(|raw|, i requires 0 <= i < |raw| => raw[i] as char)
  }

  /** The inverse reading: each character of a byte text back to its code point. */
  function CharsToBytes(text: seq<char>): (raw: seq<byte>)
    requires IsByteText(text)
    ensures |raw| == |text|
    ensures forall i :: 0 <= i < |text| ==> raw[i] == text[i] as int
  {
    seq(|text|, i requires 0 <= i < |text| => text[i] as int)
  }

  /** Reading bytes as characters loses nothing: the bytes come back unchanged. */
  lemma BytesRoundTrip(raw: seq<byte>)
    ensures CharsToBytes(BytesToChars(raw)) == raw
  {
  }

  /** And every byte text is the reading of exactly one byte sequence. */
  lemma CharsRoundTrip(text: seq<char>)
    requires IsByteText(text)
    ensures BytesToChars(CharsToBytes(text)) == text
  {
  }
}
