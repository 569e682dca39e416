/**
 * The token files `train.bin` and `val.bin`: the encoded ids cast to `uint16` and laid out
 * as two bytes each, low byte first, with no header, length prefix or padding.
 */
module TokenFile {
  import opened Bytes

  /** An unsigned 16-bit integer, the element type of the token files. */
  type u16 = x: int | 0 <= x < 65536

  /** The `uint16` cast of one id: the id modulo 2^16, which is the id itself when it fits. */
  function ToU16(id: int): (w: u16)
    ensures 0 <= id < 65536 ==> w == id
    ensures (id - w) % 65536 == 0
  {
    id % 65536
  }

  /** The cast of a whole id list to `uint16`, element by element, each id taken modulo 2^16. */
  function CastU16(ids: seq<int>): (words: seq<u16>)
    ensures |words| == |ids|
    ensures forall i :: 0 <= i < |ids| ==> words[i] == ToU16(ids[i])
  {
    seq(|ids|, i requires 0 <= i < |ids| => ToU16(ids[i]))
  }

  /** Ids below a bound of at most 2^16 pass through the cast unchanged: nothing is truncated. */
  lemma CastKeepsIds(ids: seq<int>, bound: int)
    requires bound <= 65536
    requires forall i :: 0 <= i < |ids| ==> 0 <= ids[i] < bound
    ensures CastU16(ids) == ids
  {
  }

  /** The byte image of a `uint16` array in little-endian order. */
  function LittleEndian(words: seq<u16>): (bytes: seq<byte>)
    ensures |bytes| == 2 * |words| && |bytes| % 2 == 0
  {
    if words == [] then []
    else [words[0] % 256, words[0] / 256] + LittleEndian(words[1..])
  }

  /** Word `i` sits at bytes `2i` (its low byte) and `2i+1` (its high byte). */
  lemma {:induction false} LittleEndianAt(words: seq<u16>, i: nat)
    requires i < |words|
    ensures LittleEndian(words)[2 * i] == words[i] % 256
    ensures LittleEndian(words)[2 * i + 1] == words[i] / 256
    decreases i
  {
    if i > 0 {
      LittleEndianAt(words[1..], i - 1);
    }
  }

  /** Writing two arrays one after the other gives the image of their concatenation. */
  lemma {:induction false} LittleEndianAppend(a: seq<u16>, b: seq<u16>)
    ensures LittleEndian(a + b) == LittleEndian(a) + LittleEndian(b)
    decreases |a|
  {
    if a == [] {
      assert a + b == b;
    } else {
      assert (a + b)[1..] == a[1..] + b;
      LittleEndianAppend(a[1..], b);
    }
  }

  /** Reading a token file back as `uint16` values, as a consumer of the file does. */
  function ReadLittleEndian(bytes: seq<byte>): (words: seq<u16>)
    requires |bytes| % 2 == 0
    ensures 2 * |words| == |bytes|
  {
    if bytes == [] then []
    else [bytes[0] as int + 256 * bytes[1] as int] + ReadLittleEndian(bytes[2..])
  }

  /** Reading back what was written gives the words that were written. */
  lemma {:induction false} ReadWritten(words: seq<u16>)
    ensures ReadLittleEndian(LittleEndian(words)) == words
  {
    if words != [] {
      var bytes := LittleEndian(words);
      assert bytes[2..] == LittleEndian(words[1..]);
      ReadWritten(words[1..]);
      assert words == [words[0]] + words[1..];
    }
  }

  /** And every even-length byte string is the image of exactly the words read from it. */
  lemma {:induction false} WriteRead(bytes: seq<byte>)
    requires |bytes| % 2 == 0
    ensures LittleEndian(ReadLittleEndian(bytes)) == bytes
    decreases |bytes|
  {
    if bytes != [] {
      var words := ReadLittleEndian(bytes);
      assert words[1..] == ReadLittleEndian(bytes[2..]);
      WriteRead(bytes[2..]);
      assert bytes == [bytes[0], bytes[1]] + bytes[2..];
    }
  }

  /** `ids.tofile(path)` with the byte order fixed to little-endian: fills the file image word by word. */
  method WriteTokens(words: seq<u16>) returns (buf: array<byte>)
    ensures fresh(buf)
    ensures buf.Length == 2 * |words|
    ensures buf[..] == LittleEndian(words)
  {
    buf := new byte[2 * |words|];
    var i := 0;
    while i < |words|
      invariant 0 <= i <= |words|
      invariant forall j :: 0 <= j < i ==> buf[2 * j] == words[j] % 256 && buf[2 * j + 1] == words[j] / 256
    {
      buf[2 * i] := words[i] % 256;
      buf[2 * i + 1] := words[i] / 256;
      i := i + 1;
    }
    forall k | 0 <= k < buf.Length
      ensures buf[k] == LittleEndian(words)[k]
    {
      LittleEndianAt(words, k / 2);
    }
  }
}
