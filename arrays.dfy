/** The "Memory management demonstration" of `wasm/src/lib.rs`:
    `create_array`, which fills a `Vec<i32>` with `0..size`, and `sum_array`,
    which adds up a slice of `i32`. A `Vec` or slice is a sequence here. */
module Arrays {
  import opened Primitives

  /** `i as i32` for a `usize`: two's-complement truncation to 32 bits, the
      one `i32` that agrees with `i` modulo 2^32. */
  function AsI32(i: USize): (v: I32)
    ensures (i - v) % 0x1_0000_0000 == 0
  {
    if i <= I32_MAX then i else i - 0x1_0000_0000
  }

  /** `create_array`: a vector of `size` elements whose element `i` is
      `i as i32`; up to 2^31 elements, that is `0, 1, ..., size - 1`. */
  method CreateArray(size: USize) returns (arr: seq<I32>)
    ensures |arr| == size
    ensures forall i :: 0 <= i < size ==> arr[i] == AsI32(i)
    ensures size <= I32_MAX + 1 ==> forall i :: 0 <= i < size ==> arr[i] == i
  {
    arr := [];
    for i := 0 to size
      invariant |arr| == i
      invariant forall k :: 0 <= k < i ==> arr[k] == AsI32(k)
    {
      arr := arr + [AsI32(i)];
    }
  }

  /** The mathematical sum of a sequence of integers. */
  function Sum(a: seq<int>): int {
    if |a| == 0 then 0 else a[0] + Sum(a[1..])
  }

  lemma {:induction false} SumAppend(a: seq<int>, b: seq<int>)
    ensures Sum(a + b) == Sum(a) + Sum(b)
  {
    if |a| == 0 {
      assert a + b == b;
    } else {
      assert (a + b)[1..] == a[1..] + b;
      SumAppend(a[1..], b);
    }
  }

  /** A sum of elements between 0 and `m` lies between 0 and `m` times the
      number of elements. */
  lemma {:induction false} SumBetween(a: seq<int>, m: nat)
    requires forall i :: 0 <= i < |a| ==> 0 <= a[i] <= m
    ensures 0 <= Sum(a) <= m * |a|
  {
    if |a| > 0 {
      SumBetween(a[1..], m);
    }
  }

  /** No partial sum of the left-to-right fold that `iter().sum()` performs
      leaves the `i32` range; a debug build panics at the first one that does,
      a release build wraps around. */
  predicate PrefixSumsFit(a: seq<I32>) {
    forall k :: 0 <= k <= |a| ==> InI32(Sum(a[..k]))
  }

  /** `sum_array`: `arr.iter().sum()`, the exact sum of the elements. */
  function SumArray(a: seq<I32>): (r: I32)
    requires PrefixSumsFit(a)
    ensures r == Sum(a)
  {
    assert a[..0] == [];
    SumFrom(a, 0, 0)
  }

  /** The fold behind `iter().sum()`: `acc` holds the sum of the first `i`
      elements, and each further element is added with `i32` addition. */
  function SumFrom(a: seq<I32>, i: nat, acc: I32): (r: I32)
    requires i <= |a| && PrefixSumsFit(a) && acc == Sum(a[..i])
    ensures r == Sum(a)
    decreases |a| - i
  {
    if i == |a| then
      assert a[..i] == a;
      acc
    else
      assert a[..i + 1] == a[..i] + [a[i]];
      SumAppend(a[..i], [a[i]]);
      assert InI32(Sum(a[..i + 1]));
      SumFrom(a, i + 1, acc + a[i])
  }

  /** The first `k` elements of `0, 1, 2, ...` add up to k(k-1)/2. */
  lemma {:induction false} PrefixSumOfIndices(a: seq<int>, k: nat)
    requires k <= |a| && forall i :: 0 <= i < |a| ==> a[i] == i
    ensures 2 * Sum(a[..k]) == k * (k - 1)
  {
    if k > 0 {
      PrefixSumOfIndices(a, k - 1);
      assert a[..k] == a[..k - 1] + [a[k - 1]];
      SumAppend(a[..k - 1], [a[k - 1]]);
      assert k * (k - 1) == (k - 1) * (k - 2) + 2 * (k - 1);
    }
  }

  lemma ProductMonotone(k: nat, n: nat)
    requires k <= n
    ensures k * (k - 1) <= n * (n - 1)
  {
  }

  /** What `sum_array(&create_array(n))` does: the indices `0..n` can be
      summed in `i32` exactly when `n <= 65536`, and then add up to
      n(n-1)/2. */
  lemma CreatedArraySum(a: seq<I32>, n: nat)
    requires |a| == n && forall i :: 0 <= i < n ==> a[i] == i
    ensures PrefixSumsFit(a) <==> n <= 65536
    ensures n <= 65536 ==> PrefixSumsFit(a) && 2 * SumArray(a) == n * (n - 1)
  {
    if n <= 65536 {
      forall k | 0 <= k <= |a| ensures InI32(Sum(a[..k])) {
        PrefixSumOfIndices(a, k);
        ProductMonotone(k, 65536);
      }
      PrefixSumOfIndices(a, n);
      assert a[..n] == a;
    } else {
      PrefixSumOfIndices(a, 65537);
      assert !InI32(Sum(a[..65537]));
    }
  }

  /** The cases pinned down by the module's unit tests. */
  lemma UnitTestCases()
    ensures PrefixSumsFit([1, 2, 3, 4]) && SumArray([1, 2, 3, 4]) == 10
    ensures PrefixSumsFit([]) && SumArray([]) == 0
  {
    var a: seq<I32> := [1, 2, 3, 4];
    forall k | 0 <= k <= |a| ensures InI32(Sum(a[..k])) {
      SumBetween(a[..k], 4);
    }
    assert [1, 2, 3, 4][1..] == [2, 3, 4] && [2, 3, 4][1..] == [3, 4] && [3, 4][1..] == [4];
    var empty: seq<I32> := [];
    assert empty[..0] == [];
  }
}
