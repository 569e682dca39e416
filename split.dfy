/**
 * The positional train/validation split: `train_data = data[:int(n*0.9)]` and
 * `val_data = data[int(n*0.9):]`.
 */
module Split {

  /**
   * The cut `int(n*0.9)`, taken in exact arithmetic as the floor of `9n/10`:
   * the largest `k` with `10k <= 9n`.
   */
  function SplitPoint(n: nat): (k: nat)
    ensures k <= n
    ensures 10 * k <= 9 * n < 10 * k + 10
  {
    (9 * n) / 10
  }

  /** The train prefix and the validation suffix, both cut at `SplitPoint(|data|)`. */
  function SplitData<T>(data: seq<T>): (parts: (seq<T>, seq<T>))
    ensures |parts.0| == SplitPoint(|data|)
    ensures |parts.0| + |parts.1| == |data|
    ensures parts.0 + parts.1 == data
  {
    var k := SplitPoint(|data|);
    (data[..k], data[k..])
  }

  /** Short inputs split without error; from two elements on, both parts are non-empty. */
  lemma SplitShortInputs<T>(data: seq<T>)
    ensures |data| == 0 ==> SplitData(data).0 == [] && SplitData(data).1 == []
    ensures |data| == 1 ==> SplitData(data).0 == [] && SplitData(data).1 == data
    ensures |data| >= 2 ==> 0 < |SplitData(data).0| && 0 < |SplitData(data).1|
  {
  }
}
