/**
 * The `chunks` helper: split an array into consecutive slices of `size`
 * elements, the last one possibly shorter. The length of the result is
 * computed as JavaScript does, ToLength(Math.ceil(len / size)).
 */
module ArrayUtils {
  import opened Wrappers

  function Min(a: int, b: int): int {
    if a <= b then a else b
  }

  /** Math.ceil(len / size) for a positive size. */
  function CeilDiv(len: nat, size: nat): (n: nat)
    requires size > 0
    ensures n * size >= len
    ensures n > 0 ==> (n - 1) * size < len
  {
    (len + size - 1) / size
  }

  /** JavaScript's slice(from, to) for non-negative bounds: both are clamped to the length. */
  function Slice<T>(s: seq<T>, from: nat, to: nat): (r: seq<T>)
    ensures from <= to <= |s| ==> r == s[from..to]
  {
    var lo := Min(from, |s|);
    var hi := Min(to, |s|);
    if lo <= hi then s[lo..hi] else []
  }

  /**
   * chunks(arr, size). `None` stands for the RangeError that Array.from raises
   * when the computed length is infinite (a zero size with a non-empty array);
   * a negative quotient or NaN (zero over zero) becomes the length 0.
   */
  function Chunks<T>(arr: seq<T>, size: int): (r: Option<seq<seq<T>>>)
    ensures r.None? <==> size == 0 && |arr| > 0
    ensures size <= 0 && r.Some? ==> r.value == []
  {
    if size == 0 then (if |arr| == 0 then Some([]) else None)
    else if size < 0 then Some([])
    else
      var n := CeilDiv(|arr|, size);
      Some(seq(n, i requires 0 <= i < n => Slice(arr, i * size, i * size + size)))
  }

  /** The concatenation of a sequence of sequences, in order. */
  function Concat<T>(ss: seq<seq<T>>): seq<T> {
    if ss == [] then [] else Concat(ss[..|ss| - 1]) + ss[|ss| - 1]
  }

  lemma MulStep(i: nat, size: nat)
    ensures (i + 1) * size == i * size + size
  {
  }

  lemma MulMono(i: nat, j: nat, size: nat)
    requires i <= j
    ensures i * size <= j * size
  {
  }

  /** There are exactly as many chunks as ceil(len / size): enough to hold every element, no spare one. */
  lemma ChunkCount<T>(arr: seq<T>, size: int)
    requires size > 0
    ensures var n := |Chunks(arr, size).value|;
      n * size >= |arr| && (n > 0 ==> (n - 1) * size < |arr|)
    ensures |arr| == 0 <==> Chunks(arr, size).value == []
  {
    var n := |Chunks(arr, size).value|;
    if |arr| == 0 && n > 0 {
      MulMono(0, n - 1, size);
    }
  }

  /**
   * Chunk i is arr[i * size .. min(len, i * size + size)]: every chunk but the last
   * holds `size` elements, and the last one holds between 1 and `size`.
   */
  lemma {:induction false} ChunkAt<T>(arr: seq<T>, size: int, i: nat)
    requires size > 0
    requires i < |Chunks(arr, size).value|
    ensures i * size < |arr|
    ensures Chunks(arr, size).value[i] == arr[i * size .. Min(|arr|, i * size + size)]
    ensures i < |Chunks(arr, size).value| - 1 ==> |Chunks(arr, size).value[i]| == size
    ensures 1 <= |Chunks(arr, size).value[i]| <= size
  {
    var n := |Chunks(arr, size).value|;
    ChunkCount(arr, size);
    MulMono(i, n - 1, size);
    MulStep(i, size);
    if i < n - 1 {
      MulMono(i + 1, n - 1, size);
    }
  }

  /** Concatenating the chunks in order gives back the array exactly. */
  lemma {:induction false} ChunksConcat<T>(arr: seq<T>, size: int)
    requires size > 0
    ensures Concat(Chunks(arr, size).value) == arr
  {
    var r := Chunks(arr, size).value;
    var k := 0;
    while k < |r|
      invariant 0 <= k <= |r|
      invariant Concat(r[..k]) == arr[..Min(|arr|, k * size)]
    {
      ChunkAt(arr, size, k);
      MulStep(k, size);
      assert r[..k + 1][..k] == r[..k];
      k := k + 1;
    }
    assert r[..|r|] == r;
    ChunkCount(arr, size);
  }

  /** Forty-two days split by seven give six full weeks, day 7 * w + d of the month grid landing in week w. */
  lemma SixWeeks<T>(days: seq<T>)
    requires |days| == 42
    ensures |Chunks(days, 7).value| == 6
    ensures forall w :: 0 <= w < 6 ==> |Chunks(days, 7).value[w]| == 7
    ensures forall w, d :: 0 <= w < 6 && 0 <= d < 7 ==> Chunks(days, 7).value[w][d] == days[7 * w + d]
  {
  }
}
