// src/util/search.c: approximate binary search over a sorted array, and the prime list that
// src/util/dhash.c searches with it to size its bucket array.
module Search {

  ghost predicate Ascending(a: seq<int>)
  {
    forall i: nat, j: nat | i < j < |a| :: a[i] < a[j]
  }

  /** No listed item is closer to the key. Of two equally close items the higher one is meant. */
  ghost predicate IsNearest(a: seq<int>, key: int, ix: nat)
    requires ix < |a|
  {
    forall j: nat | j < |a| :: var d, e := Distance(a[ix], key), Distance(a[j], key); d < e || (d == e && j <= ix)
  }

  function Distance(x: int, y: int): int { if x < y then y - x else x - y }

  method SearchNearest(key: int, a: seq<int>) returns (ix: nat)
    requires |a| > 0 && Ascending(a)
    ensures ix < |a| && IsNearest(a, key, ix)
    ensures a[ix] < key ==> forall j: nat | ix < j < |a| :: a[j] > key
    ensures a[ix] > key ==> forall j: nat | j < ix :: a[j] < key
  {
    var low, high := 0, |a| - 1;
    while low <= high
      invariant 0 <= low <= |a| && -1 <= high < |a| && low <= high + 1
      invariant forall j: nat | j < low :: a[j] < key
      invariant forall j: nat | high < j < |a| :: a[j] > key
    {
      var mid := low + (high - low) / 2;
      var delta := key - a[mid];
      if delta < 0 {
        high := mid - 1;
      } else if delta > 0 {
        low := mid + 1;
      } else {
        return mid;
      }
    }
    if low >= |a| {
      return |a| - 1;
    }
    if high < 0 {
      return 0;
    }
    var hd := a[low] - key;
    var ld := key - a[high];
    ix := if ld < hd then high else low;
  }

  /** The least item that is not below the key, or the last item when all are below it. */
  method SearchNearestAbove(key: int, a: seq<int>) returns (ix: nat)
    requires |a| > 0 && Ascending(a)
    ensures ix < |a|
    ensures forall j: nat | j < ix :: a[j] < key
    ensures a[ix] >= key || ix == |a| - 1
  {
    ix := SearchNearest(key, a);
    if ix < |a| - 1 && key - a[ix] > 0 {
      ix := ix + 1;
    }
  }

  /** The greatest item that is not above the key, or the first item when all are above it. */
  method SearchNearestBelow(key: int, a: seq<int>) returns (ix: nat)
    requires |a| > 0 && Ascending(a)
    ensures ix < |a|
    ensures forall j: nat | ix < j < |a| :: a[j] > key
    ensures a[ix] <= key || ix == 0
  {
    ix := SearchNearest(key, a);
    if ix > 0 && key - a[ix] < 0 {
      ix := ix - 1;
    }
  }

  const PRIMES_LOW: seq<int> := [
    11, 29, 47, 67, 83, 101, 113, 137, 163, 199, 241, 293, 353, 421, 509, 619, 751]
  const PRIMES_MID: seq<int> := [
    907, 1093, 1321, 1597, 1931, 2333, 2819, 3407, 4111, 4967, 6007, 8389, 11743, 16453, 23041, 32261]
  const PRIMES_HIGH: seq<int> := [
    45161, 63241, 88523, 123941, 173501, 242923, 340079, 476137, 666559, 933209, 1048573, 2097143,
    4194301, 8388593, 16777213, 33554393, 67108859, 134217689, 268435399]

  /** The bucket counts dhash chooses from: PRIME_LIST_16 (low and mid part), then PRIME_LIST. */
  const PRIMES: seq<int> := PRIMES_LOW + PRIMES_MID + PRIMES_HIGH

  lemma NextPrimeIsGreater(i: nat)
    requires i < 51
    ensures |PRIMES| == 52 && PRIMES[i] < PRIMES[i + 1]
  {
    var a, b := |PRIMES_LOW|, |PRIMES_MID|;
    if i < a - 1 {
      assert PRIMES_LOW[i] < PRIMES_LOW[i + 1];
    } else if a <= i < a + b - 1 {
      assert PRIMES_MID[i - a] < PRIMES_MID[i - a + 1];
    } else if a + b <= i {
      assert PRIMES_HIGH[i - a - b] < PRIMES_HIGH[i - a - b + 1];
    }
  }

  lemma {:induction false} PrimesIncrease(i: nat, j: nat)
    requires i < j < 52
    ensures |PRIMES| == 52 && PRIMES[i] < PRIMES[j]
  {
    NextPrimeIsGreater(j - 1);
    if i < j - 1 {
      PrimesIncrease(i, j - 1);
    }
  }

  lemma PrimesAscend()
    ensures |PRIMES| == 52 && PRIMES[0] == 11 && Ascending(PRIMES)
  {
    NextPrimeIsGreater(0);
    forall i: nat, j: nat | i < j < |PRIMES| ensures PRIMES[i] < PRIMES[j] {
      PrimesIncrease(i, j);
    }
  }
}
