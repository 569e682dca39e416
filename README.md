# enwik8 character-level corpus preparation, modelled in Dafny

This project models the in-memory part of `data/enwik_char/prepare.py`, the script that
turns the enwik8 archive member into the training data of a character-level language
model. Once the raw bytes are in memory, `main`:

1. reads every byte as the one character whose code point is that byte (`Bytes`);
2. builds the vocabulary `chars = sorted(list(set(data)))`, `vocab_size = len(chars)`, and
   the tables `stoi` (character to index) and `itos` (index to character) (`Vocabulary`);
3. defines `encode` and `decode` as element-wise lookups through those tables (`Codec`);
4. cuts the text into a train prefix and a validation suffix at `int(n*0.9)` (`Split`);
5. encodes both parts, casts the ids to `uint16` and writes them as headerless binary
   files `train.bin` and `val.bin` (`TokenFile`), and saves a `meta` record of
   `vocab_size`, `itos` and `stoi` (`Pipeline`).

`Pipeline.Prepare` is `main` as a step-by-step method: it takes the extracted bytes and
returns the two file images and the `meta` record. The token-file writer
`TokenFile.WriteTokens` fills a byte array in a loop. The rest is functions and lemmas.

The code performs no markup stripping or other normalisation: the corpus is encoded raw,
byte for byte.

Main results:
- `stoi` and `itos` are inverse bijections between the distinct characters and
  `[0, vocab_size)`. Indices follow code-point order, so index 0 is the smallest character.
- `vocab_size` is the number of distinct bytes, at most 256.
- `decode(encode(s)) == s` for every string over the vocabulary, and `encode(decode(l)) == l`
  for every list of valid ids. `decode` fails exactly on an id outside `[0, vocab_size)`.
- The split covers the data exactly for every length, 0 and 1 included. Encoding commutes
  with it.
- Every id survives the `uint16` cast unchanged. A token file holds `2 * len` bytes, with
  id `i` at bytes `2i` (the id) and `2i+1` (zero). Reading a file back and decoding it
  through `meta['itos']` gives the original part of the corpus.

## Model

| member | source | states |
|---|---|---|
| `Bytes.BytesToChars` | data/enwik_char/prepare.py:33 | `[chr(s) for s in data]` keeps the length; character `i` has code point `raw[i]`, so every character is below 256 |
| `Bytes.CharsToBytes` | data/enwik_char/prepare.py:33 | the inverse reading of a byte text, one code point per byte, length kept |
| `Bytes.BytesRoundTrip` | data/enwik_char/prepare.py:33 | the byte-to-character reading loses nothing: the bytes come back unchanged |
| `Bytes.CharsRoundTrip` | data/enwik_char/prepare.py:33 | every text with code points below 256 is the reading of exactly one byte sequence |
| `Vocabulary.InsertSorted` | data/enwik_char/prepare.py:37 | inserting into an ascending sequence keeps it ascending without repeats and adds exactly the new character |
| `Vocabulary.SortedChars` | data/enwik_char/prepare.py:37 | `chars` is strictly increasing by code point and holds exactly the characters of the text |
| `Vocabulary.SortedUnique` | data/enwik_char/prepare.py:37 | two strictly increasing sequences with the same elements are equal, so `chars` is the one sorted listing of `set(data)` |
| `Vocabulary.CharSetSize` | data/enwik_char/prepare.py:37-38 | a sequence in which no character occurs twice has as many distinct elements as entries |
| `Vocabulary.IncreasingBelowByteRange` | data/enwik_char/prepare.py:37-38 | a strictly increasing sequence of code points in `[lo, 256)` has at most `256 - lo` entries |
| `Vocabulary.VocabularySize` | data/enwik_char/prepare.py:37-38 | `vocab_size` equals the number of distinct characters, and is at most 256 for a text read from bytes |
| `Vocabulary.Stoi` | data/enwik_char/prepare.py:43 | `stoi`'s keys are exactly the vocabulary, and each maps to an index in `[0, vocab_size)` whose character it is |
| `Vocabulary.Itos` | data/enwik_char/prepare.py:44 | `itos` is defined exactly on `[0, vocab_size)` and maps `i` to `chars[i]` |
| `Vocabulary.StoiItosInverse` | data/enwik_char/prepare.py:43-44 | `itos[stoi[c]] == c` for every character and `stoi[itos[i]] == i` for every index: a bijection |
| `Vocabulary.StoiOrderPreserving` | data/enwik_char/prepare.py:37-43 | `c < d` exactly when `stoi[c] < stoi[d]` |
| `Vocabulary.LeastCharFirst` | data/enwik_char/prepare.py:37-44 | on a non-empty text, `itos[0]` occurs in it and is its smallest character |
| `Codec.Encode` | data/enwik_char/prepare.py:46-47 | `encode` succeeds exactly when every character has an index; it then keeps the length and maps element-wise; otherwise it raises on the first unknown character |
| `Codec.Decode` | data/enwik_char/prepare.py:48-49 | `decode` succeeds exactly when every id has a character; it then keeps the length and maps element-wise; otherwise it raises on the first unknown id |
| `Codec.EncodeRange` | data/enwik_char/prepare.py:46-47 | `encode` succeeds exactly on strings over the vocabulary, keeps the length and yields ids in `[0, vocab_size)` |
| `Codec.DecodeEncode` | data/enwik_char/prepare.py:46-49 | `decode(encode(s)) == s` for every string over the vocabulary |
| `Codec.EncodeDecode` | data/enwik_char/prepare.py:46-49 | `encode(decode(l)) == l` for every list of ids in `[0, vocab_size)` |
| `Codec.DecodeRejects` | data/enwik_char/prepare.py:48-49 | `decode` raises exactly when some id lies outside `[0, vocab_size)`, naming the first such id |
| `Codec.EncodeAppend` | data/enwik_char/prepare.py:47 | `encode(a + b)` is `encode(a) + encode(b)`, and fails with the first failure of the two |
| `Split.SplitPoint` | data/enwik_char/prepare.py:53-54 | the cut `k` satisfies `0 <= k <= n` and is the floor of `0.9 n`: `10k <= 9n < 10k + 10` |
| `Split.SplitData` | data/enwik_char/prepare.py:52-54 | `train_data + val_data == data`, `len(train_data) == k`, and the two lengths sum to `n` |
| `Split.SplitShortInputs` | data/enwik_char/prepare.py:52-54 | lengths 0 and 1 split without error into an empty train part and the whole input as validation; from length 2 both parts are non-empty |
| `TokenFile.ToU16` | data/enwik_char/prepare.py:63-64 | the `uint16` cast is congruent to the id modulo 2^16 and is the id itself when it fits |
| `TokenFile.CastU16` | data/enwik_char/prepare.py:63-64 | `np.array(ids, dtype=np.uint16)` keeps the length and casts element-wise |
| `TokenFile.CastKeepsIds` | data/enwik_char/prepare.py:63-64 | ids below a bound of at most 65536 pass through the cast unchanged |
| `TokenFile.LittleEndian` | data/enwik_char/prepare.py:65-66 | a `uint16` array occupies exactly two bytes per element, with no header or padding |
| `TokenFile.LittleEndianAt` | data/enwik_char/prepare.py:65-66 | element `i` is at bytes `2i` (low byte) and `2i+1` (high byte) |
| `TokenFile.LittleEndianAppend` | data/enwik_char/prepare.py:65-66 | the image of a concatenation is the concatenation of the images |
| `TokenFile.ReadLittleEndian` | data/enwik_char/prepare.py:65-66 | reading a token file back yields one `uint16` per two bytes |
| `TokenFile.ReadWritten` | data/enwik_char/prepare.py:65-66 | reading back a written file gives the words that were written |
| `TokenFile.WriteRead` | data/enwik_char/prepare.py:65-66 | every even-length byte string is the image of the words read from it |
| `TokenFile.WriteTokens` | data/enwik_char/prepare.py:65-66 | the byte array, newly allocated and filled word by word, is exactly the little-endian image of the ids, `2 * len` bytes long |
| `Pipeline.MakeMeta` | data/enwik_char/prepare.py:69-73 | the `meta` record has `vocab_size == len(chars)` and tables that are inverse, order-preserving bijections between the vocabulary and `[0, vocab_size)` |
| `Pipeline.EncodeCommutesWithSplit` | data/enwik_char/prepare.py:53-58 | `encode(train_data) + encode(val_data) == encode(data)`, and one fails exactly when the other does |
| `Pipeline.TokenImage` | data/enwik_char/prepare.py:57-66 | a token file of an encoded part has `2 * len(part)` bytes |
| `Pipeline.TokenImageLayout` | data/enwik_char/prepare.py:57-66 | with at most 256 characters, byte `2i` of a token file is `stoi` of character `i` and byte `2i+1` is zero |
| `Pipeline.TokenImageDecodes` | data/enwik_char/prepare.py:46-66 | for any vocabulary that fits in `uint16` (at most 65536 characters), reading a token file back and decoding it through `itos` gives the part back |
| `Pipeline.TokenImagesConcatenate` | data/enwik_char/prepare.py:52-66 | `train.bin` followed by `val.bin` is the image of the whole encoded corpus |
| `Pipeline.CorpusVocabulary` | data/enwik_char/prepare.py:33-38 | the vocabulary of a corpus is strictly increasing, covers every character of the corpus, and has `vocab_size` equal to the number of distinct bytes, at most 256 |
| `Pipeline.PreparedMeta` | data/enwik_char/prepare.py:37-73 | the saved `meta` is consistent, `vocab_size` is the number of distinct bytes and at most 256, and `itos[0]` is the smallest character present |
| `Pipeline.PreparedTokenFiles` | data/enwik_char/prepare.py:52-66 | `train.bin` has `2 * int(0.9 n)` bytes and `val.bin` has `2 * (n - int(0.9 n))`; together they are the image of the whole encoded corpus |
| `Pipeline.PreparedRoundTrip` | data/enwik_char/prepare.py:46-73 | decoding `train.bin` and `val.bin` through `meta['itos']` gives exactly `data[:k]` and `data[k:]` |
| `Pipeline.Prepare` | data/enwik_char/prepare.py:32-73 | `main`'s step-by-step run produces the `meta` record of the corpus vocabulary and two new, distinct arrays holding the token-file images of the train prefix and the validation suffix |

## Left out

- `download_file` (lines 12-20) fetches the archive over the network and caches it on disk. This is I/O.
- The zip extraction `zipfile.ZipFile(...).read('enwik8')` (line 32) is a library call. `Pipeline.Prepare` takes the extracted bytes as its parameter.
- File writing is not modelled. `Pipeline.Prepare` returns the byte images of `train.bin` and `val.bin` and the `meta` value. The output paths built with `os.path` are dropped.
- `pickle.dump` of `meta` (lines 74-75) is a Python object dump. `meta` is modelled only as the record `Pipeline.Meta` of `vocab_size`, `itos` and `stoi`, not as bytes.
- `Split.SplitPoint` computes `int(n*0.9)` as the exact floor of `9n/10`. The floating-point product itself is not modelled.
- `TokenFile.WriteTokens` fixes the byte order to little-endian. `ndarray.tofile` uses the host's native order, which is little-endian on the usual hosts.
- `TokenFile.ToU16` models an out-of-range `uint16` cast as wrap-around modulo 2^16. Some NumPy versions raise an error instead. The difference never shows, because every id is below 256.
- Python's `KeyError` from `stoi[c]` and `itos[i]` is modelled as an `Err` value of `Codec.Result`. In `main` it cannot occur, and `Pipeline.Prepare` proves this before encoding.
- The `print` progress messages and the import-time call `main()` (line 79) are console output and are not modelled.
- `TokenFile.ReadLittleEndian` is the consumer's reading of a token file. The repository's training code that does this reading is not part of this model. The function is here as the inverse of the writer.
