/**
 * The preparation run itself: read the corpus bytes as characters, build the vocabulary,
 * split, encode both parts, and produce the two token-file images and the `meta` record.
 */
module Pipeline {
  import opened Bytes
  import opened Vocabulary
  import opened Codec
  import opened Split
  import opened TokenFile

  /** The `meta` record: `vocab_size`, `itos` and `stoi`. */
  datatype Meta = Meta(vocabSize: int, itos: map<int, char>, stoi: map<char, int>)

  /**
   * A record whose two tables are inverse bijections between its characters and
   * `[0, vocabSize)`, numbered in code-point order: enough to decode a token file
   * without rebuilding the vocabulary.
   */
  ghost predicate ConsistentMeta(meta: Meta) {
    && (forall i :: i in meta.itos <==> 0 <= i < meta.vocabSize)
    && (forall c :: c in meta.stoi ==> meta.stoi[c] in meta.itos && meta.itos[meta.stoi[c]] == c)
    && (forall i :: i in meta.itos ==> meta.itos[i] in meta.stoi && meta.stoi[meta.itos[i]] == i)
    && (forall c, d :: c in meta.stoi && d in meta.stoi ==> (c < d <==> meta.stoi[c] < meta.stoi[d]))
  }

  /**
   * The record saved beside the token files: the vocabulary size with both lookup
   * tables, so that a later reader can decode the files without the corpus.
   */
  function MakeMeta(chars: seq<char>): (meta: Meta)
    requires StrictlyIncreasing(chars)
    ensures ConsistentMeta(meta)
    ensures meta.vocabSize == |chars| && meta.stoi.Keys == CharSet(chars)
  {
    StoiItosInverse(chars);
    StoiOrderPreserving(chars);
    Meta(|chars|, Itos(chars), Stoi(chars))
  }

  /**
   * Encoding commutes with the split: encoding the train part and the validation part
   * separately gives, end to end, the encoding of the whole text.
   */
  lemma EncodeCommutesWithSplit(stoi: map<char, int>, data: seq<char>)
    ensures Encode(stoi, data).Ok? <==> Encode(stoi, SplitData(data).0).Ok? && Encode(stoi, SplitData(data).1).Ok?
    ensures Encode(stoi, data).Ok? ==>
              Encode(stoi, SplitData(data).0).value + Encode(stoi, SplitData(data).1).value == Encode(stoi, data).value
  {
    var parts := SplitData(data);
    EncodeAppend(stoi, parts.0, parts.1);
  }

  /** The byte image of one token file: the text encoded, cast to `uint16`, laid out little-endian. */
  function TokenImage(chars: seq<char>, part: seq<char>): (image: seq<byte>)
    requires StrictlyIncreasing(chars)
    requires OverVocabulary(chars, part)
    ensures |image| == 2 * |part| && |image| % 2 == 0
  {
    EncodeRange(chars, part);
    LittleEndian(CastU16(Encode(Stoi(chars), part).value))
  }

  /**
   * Over a vocabulary of at most 256 characters a token file holds two bytes per
   * character: the low one is the character's index and the high one is zero.
   */
  lemma TokenImageLayout(chars: seq<char>, part: seq<char>)
    requires StrictlyIncreasing(chars) && |chars| <= 256
    requires OverVocabulary(chars, part)
    ensures forall i :: 0 <= i < |part| ==>
              TokenImage(chars, part)[2 * i] == Stoi(chars)[part[i]] && TokenImage(chars, part)[2 * i + 1] == 0
  {
    EncodeRange(chars, part);
    var ids := Encode(Stoi(chars), part).value;
    CastKeepsIds(ids, |chars|);
    var words := CastU16(ids);
    assert TokenImage(chars, part) == LittleEndian(words);
    forall i | 0 <= i < |part|
      ensures LittleEndian(words)[2 * i] == Stoi(chars)[part[i]] && LittleEndian(words)[2 * i + 1] == 0
    {
      LittleEndianAt(words, i);
      var w := words[i];
      assert w == Stoi(chars)[part[i]] && 0 <= w < 256;
      assert w % 256 == w && w / 256 == 0;
    }
  }

  /** Reading a token file back and decoding it through `itos` gives the text back. */
  lemma TokenImageDecodes(chars: seq<char>, part: seq<char>)
    requires StrictlyIncreasing(chars) && |chars| <= 65536
    requires OverVocabulary(chars, part)
    ensures Decode(Itos(chars), ReadLittleEndian(TokenImage(chars, part))) == Ok(part)
  {
    EncodeRange(chars, part);
    var ids := Encode(Stoi(chars), part).value;
    CastKeepsIds(ids, |chars|);
    ReadWritten(CastU16(ids));
    DecodeEncode(chars, part);
  }

  /** The two token files, one after the other, are the image of the whole encoded text. */
  lemma TokenImagesConcatenate(chars: seq<char>, data: seq<char>)
    requires StrictlyIncreasing(chars)
    requires OverVocabulary(chars, data)
    ensures OverVocabulary(chars, SplitData(data).0) && OverVocabulary(chars, SplitData(data).1)
    ensures TokenImage(chars, SplitData(data).0) + TokenImage(chars, SplitData(data).1) == TokenImage(chars, data)
  {
    var parts := SplitData(data);
    assert forall i :: 0 <= i < |parts.0| ==> parts.0[i] == data[i];
    assert forall i :: 0 <= i < |parts.1| ==> parts.1[i] == data[|parts.0| + i];
    EncodeRange(chars, parts.0);
    EncodeRange(chars, parts.1);
    EncodeCommutesWithSplit(Stoi(chars), data);
    var a, b := Encode(Stoi(chars), parts.0).value, Encode(Stoi(chars), parts.1).value;
    assert CastU16(a + b) == CastU16(a) + CastU16(b);
    LittleEndianAppend(CastU16(a), CastU16(b));
  }

  /** The vocabulary of a corpus: its distinct bytes, as characters, in ascending order. */
  function CorpusVocabulary(raw: seq<byte>): (chars: seq<char>)
    ensures StrictlyIncreasing(chars)
    ensures OverVocabulary(chars, BytesToChars(raw))
    ensures CharSet(chars) == CharSet(BytesToChars(raw))
    ensures |chars| == |CharSet(BytesToChars(raw))| <= 256
  {
    var data := BytesToChars(raw);
    VocabularySize(data);
    var chars := SortedChars(data);
    assert CharSet(chars) == CharSet(data);
    chars
  }

  /**
   * The `meta` record of a run: consistent tables numbering the corpus's distinct
   * characters in code-point order, at most 256 of them, index 0 the smallest.
   */
  lemma PreparedMeta(raw: seq<byte>)
    ensures ConsistentMeta(MakeMeta(CorpusVocabulary(raw)))
    ensures MakeMeta(CorpusVocabulary(raw)).vocabSize == |CharSet(BytesToChars(raw))| <= 256
    ensures MakeMeta(CorpusVocabulary(raw)).stoi.Keys == CharSet(BytesToChars(raw))
    ensures |raw| > 0 ==>
              (0 in MakeMeta(CorpusVocabulary(raw)).itos &&
               forall c :: c in BytesToChars(raw) ==> MakeMeta(CorpusVocabulary(raw)).itos[0] <= c)
  {
    var data := BytesToChars(raw);
    if |raw| > 0 {
      LeastCharFirst(data);
    }
  }

  /**
   * The token files of a run: `2 * len` bytes each for the train prefix and the
   * validation suffix, and together the image of the whole encoded corpus.
   */
  lemma PreparedTokenFiles(raw: seq<byte>)
    ensures OverVocabulary(CorpusVocabulary(raw), SplitData(BytesToChars(raw)).0)
    ensures OverVocabulary(CorpusVocabulary(raw), SplitData(BytesToChars(raw)).1)
    ensures |TokenImage(CorpusVocabulary(raw), SplitData(BytesToChars(raw)).0)| == 2 * SplitPoint(|raw|)
    ensures |TokenImage(CorpusVocabulary(raw), SplitData(BytesToChars(raw)).1)| == 2 * (|raw| - SplitPoint(|raw|))
    ensures TokenImage(CorpusVocabulary(raw), SplitData(BytesToChars(raw)).0)
            + TokenImage(CorpusVocabulary(raw), SplitData(BytesToChars(raw)).1)
            == TokenImage(CorpusVocabulary(raw), BytesToChars(raw))
  {
    TokenImagesConcatenate(CorpusVocabulary(raw), BytesToChars(raw));
  }

  /**
   * Decoding each token file of a run through `meta['itos']` gives back exactly the
   * train prefix and the validation suffix of the corpus.
   */
  lemma PreparedRoundTrip(raw: seq<byte>)
    ensures OverVocabulary(CorpusVocabulary(raw), SplitData(BytesToChars(raw)).0)
    ensures OverVocabulary(CorpusVocabulary(raw), SplitData(BytesToChars(raw)).1)
    ensures Decode(MakeMeta(CorpusVocabulary(raw)).itos,
                   ReadLittleEndian(TokenImage(CorpusVocabulary(raw), SplitData(BytesToChars(raw)).0)))
            == Ok(BytesToChars(raw)[..SplitPoint(|raw|)])
    ensures Decode(MakeMeta(CorpusVocabulary(raw)).itos,
                   ReadLittleEndian(TokenImage(CorpusVocabulary(raw), SplitData(BytesToChars(raw)).1)))
            == Ok(BytesToChars(raw)[SplitPoint(|raw|)..])
  {
    var data := BytesToChars(raw);
    var chars := CorpusVocabulary(raw);
    var parts := SplitData(data);
    assert parts.0 == data[..SplitPoint(|raw|)] && parts.1 == data[SplitPoint(|raw|)..];
    assert OverVocabulary(chars, parts.0) && OverVocabulary(chars, parts.1) by {
      TokenImagesConcatenate(chars, data);
    }
    assert MakeMeta(chars).itos == Itos(chars);
    TokenImageDecodes(chars, parts.0);
    TokenImageDecodes(chars, parts.1);
  }

  /**
   * `main` after the archive member has been read, step by step: the images of
   * `train.bin` and `val.bin`, and the `meta` record.
   */
  method Prepare(raw: seq<byte>) returns (trainBin: array<byte>, valBin: array<byte>, meta: Meta)
    ensures fresh(trainBin) && fresh(valBin) && trainBin != valBin
    ensures meta == MakeMeta(CorpusVocabulary(raw))
    ensures OverVocabulary(CorpusVocabulary(raw), SplitData(BytesToChars(raw)).0)
    ensures OverVocabulary(CorpusVocabulary(raw), SplitData(BytesToChars(raw)).1)
    ensures trainBin[..] == TokenImage(CorpusVocabulary(raw), SplitData(BytesToChars(raw)).0)
    ensures valBin[..] == TokenImage(CorpusVocabulary(raw), SplitData(BytesToChars(raw)).1)
  {
    var data := BytesToChars(raw);

    var chars := SortedChars(data);
    var vocabSize := |chars|;
    var stoi := Stoi(chars);
    var itos := Itos(chars);

    var parts := SplitData(data);
    var trainData, valData := parts.0, parts.1;

    TokenImagesConcatenate(chars, data);
    var trainIds := Encode(stoi, trainData).value;
    var valIds := Encode(stoi, valData).value;

    trainBin := WriteTokens(CastU16(trainIds));
    valBin := WriteTokens(CastU16(valIds));

    meta := Meta(vocabSize, itos, stoi);
  }
}
