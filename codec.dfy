/**
 * The nested `encode` and `decode` of the preparation script: element-wise lookups
 * through `stoi` and `itos`. A missing key is Python's `KeyError`, modelled as an error
 * value naming the first offending element.
 */
module Codec {
  import opened Vocabulary

  /** The `KeyError` raised by `stoi[c]` or by `itos[i]`. */
  datatype Error = UnknownSymbol(symbol: char) | InvalidCode(code: int)

  datatype Result<T> = Ok(value: T) | Err(error: Error)

  /** `[stoi[c] for c in s]`, failing on the first character that has no index. */
  function Encode(stoi: map<char, int>, s: seq<char>): (r: Result<seq<int>>)
    ensures r.Ok? <==> forall i :: 0 <= i < |s| ==> s[i] in stoi
    ensures r.Ok? ==> |r.value| == |s| && forall i :: 0 <= i < |s| ==> r.value[i] == stoi[s[i]]
    ensures r.Err? ==> exists i :: 0 <= i < |s| && s[i] !in stoi && r.error == UnknownSymbol(s[i])
                                  && forall j :: 0 <= j < i ==> s[j] in stoi
  {
    if s == [] then Ok([])
    else if s[0] !in stoi then Err(UnknownSymbol(s[0]))
    else
      match Encode(stoi, s[1..])
      case Ok(rest) => Ok([stoi[s[0]]] + rest)
      case Err(e) =>
        assert exists i :: 1 <= i < |s| && s[i] !in stoi && e == UnknownSymbol(s[i])
                           && forall j :: 0 <= j < i ==> s[j] in stoi by {
          var i :| 0 <= i < |s[1..]| && s[1..][i] !in stoi && e == UnknownSymbol(s[1..][i])
                   && forall j :: 0 <= j < i ==> s[1..][j] in stoi;
          assert forall j :: 1 <= j < i + 1 ==> s[j] == s[1..][j - 1];
        }
        Err(e)
  }

  /** `''.join([itos[i] for i in l])`, failing on the first id that has no character. */
  function Decode(itos: map<int, char>, ids: seq<int>): (r: Result<seq<char>>)
    ensures r.Ok? <==> forall i :: 0 <= i < |ids| ==> ids[i] in itos
    ensures r.Ok? ==> |r.value| == |ids| && forall i :: 0 <= i < |ids| ==> r.value[i] == itos[ids[i]]
    ensures r.Err? ==> exists i :: 0 <= i < |ids| && ids[i] !in itos && r.error == InvalidCode(ids[i])
                                  && forall j :: 0 <= j < i ==> ids[j] in itos
  {
    if ids == [] then Ok([])
    else if ids[0] !in itos then Err(InvalidCode(ids[0]))
    else
      match Decode(itos, ids[1..])
      case Ok(rest) => Ok([itos[ids[0]]] + rest)
      case Err(e) =>
        assert exists i :: 1 <= i < |ids| && ids[i] !in itos && e == InvalidCode(ids[i])
                           && forall j :: 0 <= j < i ==> ids[j] in itos by {
          var i :| 0 <= i < |ids[1..]| && ids[1..][i] !in itos && e == InvalidCode(ids[1..][i])
                   && forall j :: 0 <= j < i ==> ids[1..][j] in itos;
          assert forall j :: 1 <= j < i + 1 ==> ids[j] == ids[1..][j - 1];
        }
        Err(e)
  }

  /** Characters of a text that all belong to the vocabulary `chars`. */
  predicate OverVocabulary(chars: seq<char>, s: seq<char>) {
    forall i :: 0 <= i < |s| ==> s[i] in chars
  }

  /**
   * `encode` keeps the length and yields ids in `[0, vocab_size)` for every string over
   * the vocabulary; a string with a character outside it raises `KeyError`.
   */
  lemma EncodeRange(chars: seq<char>, s: seq<char>)
    requires StrictlyIncreasing(chars)
    ensures Encode(Stoi(chars), s).Ok? <==> OverVocabulary(chars, s)
    ensures Encode(Stoi(chars), s).Ok? ==>
              |Encode(Stoi(chars), s).value| == |s| &&
              forall i :: 0 <= i < |s| ==> 0 <= Encode(Stoi(chars), s).value[i] < |chars|
  {
    var stoi := Stoi(chars);
    assert forall i :: 0 <= i < |s| ==> (s[i] in stoi <==> s[i] in CharSet(chars));
  }

  /** `decode(encode(s)) == s` for every string over the vocabulary. */
  lemma DecodeEncode(chars: seq<char>, s: seq<char>)
    requires StrictlyIncreasing(chars)
    requires OverVocabulary(chars, s)
    ensures Encode(Stoi(chars), s).Ok?
    ensures Decode(Itos(chars), Encode(Stoi(chars), s).value) == Ok(s)
  {
    EncodeRange(chars, s);
    StoiItosInverse(chars);
    var ids := Encode(Stoi(chars), s).value;
    var d := Decode(Itos(chars), ids);
    assert d.Ok?;
    assert d.value == s;
  }

  /** And `encode(decode(l)) == l` for every list of ids in `[0, vocab_size)`. */
  lemma EncodeDecode(chars: seq<char>, ids: seq<int>)
    requires StrictlyIncreasing(chars)
    requires forall i :: 0 <= i < |ids| ==> 0 <= ids[i] < |chars|
    ensures Decode(Itos(chars), ids).Ok?
    ensures Encode(Stoi(chars), Decode(Itos(chars), ids).value) == Ok(ids)
  {
    StoiItosInverse(chars);
    var s := Decode(Itos(chars), ids).value;
    var e := Encode(Stoi(chars), s);
    assert e.Ok?;
    assert e.value == ids;
  }

  /**
   * `decode` raises `KeyError` exactly when some id lies outside `[0, vocab_size)`, and
   * it reports the first such id.
   */
  lemma DecodeRejects(chars: seq<char>, ids: seq<int>)
    ensures Decode(Itos(chars), ids).Err? <==> exists i :: 0 <= i < |ids| && !(0 <= ids[i] < |chars|)
    ensures Decode(Itos(chars), ids).Err? ==>
              exists i :: 0 <= i < |ids| && !(0 <= ids[i] < |chars|) &&
                          Decode(Itos(chars), ids).error == InvalidCode(ids[i]) &&
                          forall j :: 0 <= j < i ==> 0 <= ids[j] < |chars|
  {
  }

  /**
   * Encoding distributes over concatenation: the result of `encode(a + b)` is that of
   * `encode(a)` followed by that of `encode(b)`, and its error is the first of theirs.
   */
  lemma {:induction false} EncodeAppend(stoi: map<char, int>, a: seq<char>, b: seq<char>)
    ensures Encode(stoi, a + b) ==
              if Encode(stoi, a).Err? then Encode(stoi, a)
              else if Encode(stoi, b).Err? then Encode(stoi, b)
              else Ok(Encode(stoi, a).value + Encode(stoi, b).value)
    decreases |a|
  {
    if a == [] {
      assert a + b == b;
      assert Encode(stoi, b).Ok? ==> [] + Encode(stoi, b).value == Encode(stoi, b).value;
    } else {
      assert (a + b)[0] == a[0];
      assert (a + b)[1..] == a[1..] + b;
      EncodeAppend(stoi, a[1..], b);
      if a[0] in stoi && Encode(stoi, a[1..]).Ok? && Encode(stoi, b).Ok? {
        assert [stoi[a[0]]] + (Encode(stoi, a[1..]).value + Encode(stoi, b).value)
            == ([stoi[a[0]]] + Encode(stoi, a[1..]).value) + Encode(stoi, b).value;
      }
    }
  }
}
