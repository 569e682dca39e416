/**
 * The character vocabulary: `chars = sorted(list(set(data)))`, `vocab_size = len(chars)`
 * and the two lookup tables `stoi` (character to index) and `itos` (index to character).
 */
module Vocabulary {
  import opened Bytes

  /** Ascending by code point with no repeats: the shape of `sorted(set(...))`. */
  predicate StrictlyIncreasing(s: seq<char>) {
    forall i, j :: 0 <= i < j < |s| ==> s[i] < s[j]
  }

  /** No character occurs twice. */
  predicate NoRepeats(s: seq<char>) {
    forall i, j :: 0 <= i < j < |s| ==> s[i] != s[j]
  }

  /** `set(text)`: the distinct characters of a text. */
  function CharSet(text: seq<char>): set<char> {
    set c | c in text
  }

  /** Inserts `c` at its place in an ascending sequence, unless it is already there. */
  function InsertSorted(s: seq<char>, c: char): (r: seq<char>)
    requires StrictlyIncreasing(s)
    ensures StrictlyIncreasing(r)
    ensures forall x :: x in r <==> x in s || x == c
  {
    if s == [] then [c]
    else if c < s[0] then [c] + s
    else if c == s[0] then s
    else
      var rest := InsertSorted(s[1..], c);
      assert forall x :: x in rest ==> s[0] < x;
      [s[0]] + rest
  }

  /**
   * `sorted(list(set(text)))`: the distinct characters of `text` in ascending
   * code-point order.
   */
  function SortedChars(text: seq<char>): (chars: seq<char>)
    ensures StrictlyIncreasing(chars)
    ensures forall c :: c in chars <==> c in text
  {
    if text == [] then []
    else
      var prefix := SortedChars(text[..|text| - 1]);
      assert forall c :: c in text <==> c in text[..|text| - 1] || c == text[|text| - 1] by {
        assert text == text[..|text| - 1] + [text[|text| - 1]];
      }
      InsertSorted(prefix, text[|text| - 1])
  }

  /**
   * An ascending enumeration of a set of characters is unique, so `SortedChars` is
   * exactly what sorting the set yields, whatever sorting procedure is used.
   */
  lemma {:induction false} SortedUnique(a: seq<char>, b: seq<char>)
    requires StrictlyIncreasing(a) && StrictlyIncreasing(b)
    requires forall c :: c in a <==> c in b
    ensures a == b
    decreases |a|
  {
    CharSetSize(a);
    CharSetSize(b);
    assert CharSet(a) == CharSet(b);
    if a != [] {
      assert a[0] == b[0] by {
        assert a[0] in b;
        assert b[0] in a;
      }
      forall c
        ensures c in a[1..] <==> c in b[1..]
      {
        assert c in a[1..] <==> c in a && c != a[0];
        assert c in b[1..] <==> c in b && c != b[0];
      }
      SortedUnique(a[1..], b[1..]);
      assert a == [a[0]] + a[1..];
      assert b == [b[0]] + b[1..];
    }
  }

  /** In a sequence without repeats, the number of distinct elements is its length. */
  lemma {:induction false} CharSetSize(s: seq<char>)
    requires NoRepeats(s)
    ensures |CharSet(s)| == |s|
    decreases |s|
  {
    if s != [] {
      CharSetSize(s[1..]);
      assert CharSet(s) == {s[0]} + CharSet(s[1..]);
      assert s[0] !in CharSet(s[1..]);
    }
  }

  /** An ascending sequence of code points in `[lo, 256)` has at most `256 - lo` entries. */
  lemma {:induction false} IncreasingBelowByteRange(s: seq<char>, lo: int)
    requires StrictlyIncreasing(s)
    requires lo <= 256
    requires forall i :: 0 <= i < |s| ==> lo <= s[i] as int < 256
    ensures |s| <= 256 - lo
    decreases |s|
  {
    if s != [] {
      IncreasingBelowByteRange(s[1..], s[0] as int + 1);
    }
  }

  /**
   * `vocab_size == len(chars)` is the number of distinct characters of the text, and
   * at most 256 when every character came from a byte.
   */
  lemma VocabularySize(text: seq<char>)
    ensures |SortedChars(text)| == |CharSet(text)|
    ensures IsByteText(text) ==> |SortedChars(text)| <= 256
  {
    var chars := SortedChars(text);
    assert CharSet(chars) == CharSet(text);
    CharSetSize(chars);
    if IsByteText(text) {
      forall i | 0 <= i < |chars|
        ensures chars[i] as int < 256
      {
        assert chars[i] in text;
      }
      IncreasingBelowByteRange(chars, 0);
    }
  }

  /** The character-to-index table: each vocabulary character maps to its position in `chars`. */
  function Stoi(chars: seq<char>): (stoi: map<char, int>)
    requires StrictlyIncreasing(chars)
    ensures stoi.Keys == CharSet(chars)
    ensures forall c :: c in stoi ==> 0 <= stoi[c] < |chars| && chars[stoi[c]] == c
  {
    map i | 0 <= i < |chars| :: chars[i] := i
  }

  /** The index-to-character table: each position of `chars` maps to the character there. */
  function Itos(chars: seq<char>): (itos: map<int, char>)
    ensures forall i :: i in itos <==> 0 <= i < |chars|
    ensures forall i :: i in itos ==> itos[i] == chars[i]
  {
    map i | 0 <= i < |chars| :: chars[i]
  }

  /**
   * `stoi` and `itos` are mutual inverses: a bijection between the vocabulary and
   * `[0, vocab_size)`.
   */
  lemma StoiItosInverse(chars: seq<char>)
    requires StrictlyIncreasing(chars)
    ensures forall c :: c in Stoi(chars) ==> Stoi(chars)[c] in Itos(chars) && Itos(chars)[Stoi(chars)[c]] == c
    ensures forall i :: i in Itos(chars) ==> Itos(chars)[i] in Stoi(chars) && Stoi(chars)[Itos(chars)[i]] == i
  {
    var stoi, itos := Stoi(chars), Itos(chars);
    forall i | i in itos
      ensures itos[i] in stoi && stoi[itos[i]] == i
    {
      assert itos[i] == chars[i] && chars[i] in CharSet(chars);
      var j := stoi[chars[i]];
      assert chars[j] == chars[i];
    }
  }

  /** `stoi` preserves the code-point order in both directions. */
  lemma StoiOrderPreserving(chars: seq<char>)
    requires StrictlyIncreasing(chars)
    ensures forall c, d :: c in Stoi(chars) && d in Stoi(chars) ==> (c < d <==> Stoi(chars)[c] < Stoi(chars)[d])
  {
    var stoi := Stoi(chars);
    forall c, d | c in stoi && d in stoi
      ensures c < d <==> stoi[c] < stoi[d]
    {
      var i, j := stoi[c], stoi[d];
      assert chars[i] == c && chars[j] == d;
    }
  }

  /** Index 0 stands for the smallest character present in the text. */
  lemma LeastCharFirst(text: seq<char>)
    requires text != []
    ensures 0 in Itos(SortedChars(text))
    ensures Itos(SortedChars(text))[0] in text
    ensures forall c :: c in text ==> Itos(SortedChars(text))[0] <= c
  {
    var chars := SortedChars(text);
    assert text[0] in chars;
    forall c | c in text
      ensures chars[0] <= c
    {
      assert c in chars;
      var k :| 0 <= k < |chars| && chars[k] == c;
      assert k == 0 || chars[0] < chars[k];
    }
  }
}
