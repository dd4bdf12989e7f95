/** Frame index sampling (`VideoTextDataset.sample_indices` in
    phoenix_datasets/datasets.py). The drop rate is an exact rational, numpy's
    shuffle is an explicit permutation argument. */
module FrameSampler {
  import opened Results
  import opened Lists
  import opened Sorting

  predicate StrictlyIncreasing(s: seq<nat>)
  {
    forall i, j :: 0 <= i < j < |s| ==> s[i] < s[j]
  }

  predicate NonDecreasing(s: seq<nat>)
  {
    forall i, j :: 0 <= i < j < |s| ==> s[i] <= s[j]
  }

  /** Every index addresses one of `n` frames. */
  predicate InRange(s: seq<nat>, n: nat)
  {
    forall i :: 0 <= i < |s| ==> s[i] < n
  }

  /** What `np.random.shuffle(np.arange(n))` can produce: each of 0..n-1 once. */
  predicate IsPermutation(perm: seq<nat>, n: nat)
  {
    |perm| == n && InRange(perm, n) && Distinct(perm)
  }

  predicate NatLe(a: nat, b: nat)
  {
    a <= b
  }

  lemma NatLeIsTotalPreorder()
    ensures TotalPreorder(NatLe)
  {
  }

  /** `np.round`: the nearest integer, ties going to the even neighbour. */
  function RoundHalfEven(x: real): (r: int)
    ensures x - 0.5 <= r as real <= x + 0.5
    ensures (r as real - x == 0.5 || x - r as real == 0.5) ==> r % 2 == 0
  {
    var f := x.Floor;
    var frac := x - f as real;
    if frac < 0.5 then f
    else if frac > 0.5 then f + 1
    else if f % 2 == 0 then f
    else f + 1
  }

  /** Rounding never reverses the order of two numbers. */
  lemma RoundMonotone(x: real, y: real)
    requires x <= y
    ensures RoundHalfEven(x) <= RoundHalfEven(y)
  {
    if x.Floor < y.Floor {
      assert RoundHalfEven(x) <= x.Floor + 1 <= y.Floor <= RoundHalfEven(y);
    }
  }

  lemma RoundOfInteger(k: int)
    ensures RoundHalfEven(k as real) == k
  {
    assert (k as real).Floor == k;
  }

  /** The least integer not below `x`. */
  function Ceil(x: real): (r: int)
    ensures (r - 1) as real < x <= r as real
  {
    -((-x).Floor)
  }

  /** `int(n * p_kept)`: the product is never negative, so truncation is the floor. */
  function KeptCount(n: nat, pDrop: real): (k: nat)
    requires 0.0 <= pDrop <= 1.0
    ensures k <= n
    ensures k as real <= n as real * (1.0 - pDrop) < k as real + 1.0
  {
    var x := n as real * (1.0 - pDrop);
    MulNonNegative(n as real, 1.0 - pDrop);
    MulNonNegative(n as real, pDrop);
    MulDistributes(n as real, 1.0, pDrop);
    x.Floor
  }

  /** Random mode: the first `int(n * p_kept)` entries of the shuffled range, sorted. */
  function RandomIndices(n: nat, pDrop: real, perm: seq<nat>): (r: seq<nat>)
    requires 0.0 <= pDrop <= 1.0
    requires IsPermutation(perm, n)
    ensures |r| == KeptCount(n, pDrop)
    ensures StrictlyIncreasing(r) && InRange(r, n)
    ensures Elems(r) == Elems(perm[..KeptCount(n, pDrop)])
  {
    var kept := perm[..KeptCount(n, pDrop)];
    var r := SortBy(kept, NatLe);
    NatLeIsTotalPreorder();
    SortBySorted(kept, NatLe);
    SortByDistinct(kept, NatLe);
    SortByElems(kept, NatLe);
    assert forall i :: 0 <= i < |r| ==> r[i] in Elems(kept);
    r
  }

  /** `np.clip(v, 0, n - 1)` for a frame count `n > 0`. */
  function Clip(v: int, n: nat): (c: nat)
    requires n > 0
    ensures c < n
    ensures 0 <= v < n ==> c == v
  {
    if v < 0 then 0 else if v > n - 1 then n - 1 else v
  }

  lemma DivMonotone(a: real, b: real, p: real)
    requires a <= b && p > 0.0
    ensures a / p <= b / p
  {
    assert b / p - a / p == (b - a) / p;
  }

  lemma MulNonNegative(a: real, b: real)
    requires a >= 0.0 && b >= 0.0
    ensures a * b >= 0.0
  {
  }

  lemma MulDistributes(a: real, b: real, c: real)
    ensures a * (b - c) == a * b - a * c
  {
  }

  /** The `i`-th deterministic index. `np.arange(0, n, 1 / p_kept)` holds
      `i * (1 / p_kept)`, which over exact rationals is `i / p_kept`. */
  function EvenIndex(i: nat, pKept: real, n: nat): (c: nat)
    requires pKept > 0.0 && n > 0
    ensures c < n
  {
    Clip(RoundHalfEven(i as real / pKept), n)
  }

  lemma EvenIndexMonotone(i: nat, j: nat, pKept: real, n: nat)
    requires i <= j && pKept > 0.0 && n > 0
    ensures EvenIndex(i, pKept, n) <= EvenIndex(j, pKept, n)
  {
    DivMonotone(i as real, j as real, pKept);
    RoundMonotone(i as real / pKept, j as real / pKept);
  }

  /** Deterministic mode: `np.arange(0, n, 1 / p_kept)`, rounded and clipped. The
      range holds `ceil(n / (1 / p_kept)) = ceil(n * p_kept)` values, and
      `1 / p_kept` raises `ZeroDivisionError` when every frame is dropped. */
  function EvenIndices(n: nat, pDrop: real): (r: Result<seq<nat>>)
    requires 0.0 <= pDrop <= 1.0
    ensures r.Err? <==> pDrop == 1.0
    ensures r.Err? ==> r.error == ZeroDivisionError
    ensures r.Ok? ==> |r.value| == Ceil(n as real * (1.0 - pDrop))
    ensures r.Ok? ==> NonDecreasing(r.value) && InRange(r.value, n)
    ensures r.Ok? ==> forall i :: 0 <= i < |r.value| ==> r.value[i] == EvenIndex(i, 1.0 - pDrop, n)
  {
    var pKept := 1.0 - pDrop;
    if pKept == 0.0 then Err(ZeroDivisionError)
    else
      MulNonNegative(n as real, pKept);
      var count := Ceil(n as real * pKept);
      if n == 0 then
        // `np.arange(0, 0, step)` is empty
        Ok([])
      else
        var r := seq(count, i requires 0 <= i => EvenIndex(i, pKept, n));
        assert NonDecreasing(r) by {
          forall i, j | 0 <= i < j < |r| ensures r[i] <= r[j] {
            EvenIndexMonotone(i, j, pKept, n);
          }
        }
        Ok(r)
  }

  /** `sample_indices(n)`. */
  function SampleIndices(n: nat, pDrop: real, randomDrop: bool, perm: seq<nat>): (r: Result<seq<nat>>)
    requires 0.0 <= pDrop <= 1.0
    requires randomDrop ==> IsPermutation(perm, n)
    ensures r.Ok? ==> InRange(r.value, n) && NonDecreasing(r.value)
    ensures randomDrop ==> r.Ok? && StrictlyIncreasing(r.value)
    ensures r.Err? <==> !randomDrop && pDrop == 1.0
  {
    if randomDrop then Ok(RandomIndices(n, pDrop, perm)) else EvenIndices(n, pDrop)
  }

  /** Lower and upper gaps of a strictly increasing list of naturals. */
  lemma {:induction false} IncreasingGap(s: seq<nat>, i: nat, j: nat)
    requires StrictlyIncreasing(s)
    requires i <= j < |s|
    ensures s[j] - s[i] >= j - i
    decreases j - i
  {
    if i < j {
      IncreasingGap(s, i + 1, j);
    }
  }

  /** A strictly increasing list of `n` naturals below `n` is `0, 1, ..., n-1`. */
  lemma IncreasingBelowLenIsRange(s: seq<nat>)
    requires StrictlyIncreasing(s) && InRange(s, |s|)
    ensures s == Range(|s|)
  {
    forall i | 0 <= i < |s| ensures s[i] == i {
      IncreasingGap(s, 0, i);
      IncreasingGap(s, i, |s| - 1);
    }
  }

  /** With `p_drop = 0` both modes keep every frame, in order, whatever the shuffle. */
  lemma NoDropKeepsAll(n: nat, randomDrop: bool, perm: seq<nat>)
    requires randomDrop ==> IsPermutation(perm, n)
    ensures SampleIndices(n, 0.0, randomDrop, perm) == Ok(Range(n))
  {
    if randomDrop {
      assert KeptCount(n, 0.0) == n;
      IncreasingBelowLenIsRange(RandomIndices(n, 0.0, perm));
    } else {
      var r := EvenIndices(n, 0.0);
      assert Ceil(n as real * 1.0) == n;
      assert |r.value| == n;
      forall i | 0 <= i < n ensures r.value[i] == i {
        assert i as real / 1.0 == i as real;
        RoundOfInteger(i);
      }
      assert r.value == Range(n);
    }
  }

  /** With `p_drop = 1` random mode keeps no frame and deterministic mode divides by zero. */
  lemma DropAll(n: nat, perm: seq<nat>)
    requires IsPermutation(perm, n)
    ensures SampleIndices(n, 1.0, true, perm) == Ok([])
    ensures SampleIndices(n, 1.0, false, perm) == Err(ZeroDivisionError)
  {
  }

  /** Deterministic mode keeps at least one frame of a non-empty video. */
  lemma EvenKeepsOne(n: nat, pDrop: real)
    requires 0.0 <= pDrop < 1.0 && n > 0
    ensures EvenIndices(n, pDrop).Ok? && |EvenIndices(n, pDrop).value| >= 1
  {
    var p := 1.0 - pDrop;
    assert n as real * p >= 1.0 * p by {
      assert n as real * p - 1.0 * p == (n as real - 1.0) * p;
      MulNonNegative(n as real - 1.0, p);
    }
  }

  /** Random mode may keep no frame at all of a non-empty video: one frame at
      `p_drop = 0.5` gives `int(0.5) = 0` indices. */
  lemma RandomCanKeepNone()
    ensures SampleIndices(1, 0.5, true, [0]) == Ok([])
  {
    assert KeptCount(1, 0.5) == 0;
  }

  /** Ten frames at `p_drop = 0.5` in deterministic mode give `[0, 2, 4, 6, 8]`. */
  lemma ExampleEvenStride()
    ensures SampleIndices(10, 0.5, false, []) == Ok([0, 2, 4, 6, 8])
  {
    var r := EvenIndices(10, 0.5);
    assert Ceil(10.0 * 0.5) == 5;
    assert |r.value| == 5;
    forall i | 0 <= i < 5 ensures r.value[i] == 2 * i {
      assert i as real / 0.5 == (2 * i) as real;
      RoundOfInteger(2 * i);
    }
    assert r.value == [0, 2, 4, 6, 8];
  }

  /** Clipping can repeat an index: four frames at `p_drop = 2/9` give `[0, 1, 3, 3]`. */
  lemma ExampleClippedDuplicate()
    ensures SampleIndices(4, 2.0 / 9.0, false, []) == Ok([0, 1, 3, 3])
  {
    var p := 1.0 - 2.0 / 9.0;
    assert p == 7.0 / 9.0;
    var r := EvenIndices(4, 2.0 / 9.0);
    assert Ceil(4.0 * p) == 4;
    assert |r.value| == 4;
    assert r.value[0] == 0 by { assert 0.0 / p == 0.0; }
    assert r.value[1] == 1 by { assert 1.0 / p == 9.0 / 7.0; }
    assert r.value[2] == 3 by { assert 2.0 / p == 18.0 / 7.0; }
    assert r.value[3] == 3 by { assert 3.0 / p == 27.0 / 7.0; }
    assert r.value == [0, 1, 3, 3];
  }
}
