// src/util/random.c: uniform numbers in a range by rejection, and weighted choice. The 32-bit outputs of the
// generator are a parameter.
module Random {
  import opened Arithmetic

  const UINT32_MAX: nat := 0xFFFF_FFFF

  // ---- Uniform numbers in a range ----

  /** The largest multiple of the span that a 32-bit number reaches. */
  function Limit(span: nat): nat
    requires 0 < span <= UINT32_MAX
  {
    UINT32_MAX - UINT32_MAX % span
  }

  lemma LimitIs(span: nat)
    requires 0 < span <= UINT32_MAX
    ensures Limit(span) % span == 0 && Limit(span) <= UINT32_MAX < Limit(span) + span
  {
    DivModDef(UINT32_MAX, span);
    DivModUnique(Limit(span), span, UINT32_MAX / span, 0);
  }

  // The conversion to a signed number, in two's complement
  function AsInt32(x: nat): int { if x < 0x8000_0000 then x else x - (UINT32_MAX + 1) }

  class RandomState {
    const draw: nat -> nat    // the outputs of the generator
    var pos: nat              // how many have been used

    constructor (draw: nat -> nat)
      ensures this.draw == draw && pos == 0
    {
      this.draw := draw;
      pos := 0;
    }

    /** random_range32, for spans that a signed 32-bit number can hold: the remainder of the first output below the
        limit. */
    method Range32(min: int, max: int, ghost accepted: nat) returns (r: int)
      requires max - min < 0x7FFF_FFFF
      requires max >= min ==> pos <= accepted && draw(accepted) < Limit(max - min + 1)
      modifies this
      ensures max < min ==> r == min && pos == old(pos)
      ensures max >= min ==>
                && old(pos) < pos <= accepted + 1 && draw(pos - 1) < Limit(max - min + 1)
                && (forall k: nat | old(pos) <= k < pos - 1 :: draw(k) >= Limit(max - min + 1))
                && r == min + draw(pos - 1) % (max - min + 1)
    {
      if max < min {
        return min;
      }
      var span: nat := max - min + 1;
      var limit := UINT32_MAX - UINT32_MAX % span;
      var output := draw(pos);
      pos := pos + 1;
      while output >= limit
        invariant old(pos) < pos <= accepted + 1 && output == draw(pos - 1)
        invariant forall k: nat | old(pos) <= k < pos - 1 :: draw(k) >= limit
        decreases accepted + 1 - pos
      {
        output := draw(pos);
        pos := pos + 1;
      }
      r := output % span + min;
    }

    /** random_weighted_choice. The greatest key is passed on as a signed number. From a total above 2^31 on that is
        negative, no output is drawn, and the choice is always the one of key 0. */
    method WeightedChoice(cum: array<nat>, ghost weights: seq<nat>, ghost accepted: nat) returns (i: nat)
      requires IsCumulative(cum[..], weights) && Total(weights) <= UINT32_MAX && Total(weights) != 0x8000_0000
      requires 0 < Total(weights) < 0x8000_0000 ==> pos <= accepted && draw(accepted) < Limit(Total(weights))
      modifies this
      ensures i < |weights|
      ensures 0 < Total(weights) < 0x8000_0000 ==>
                && old(pos) < pos && draw(pos - 1) < Limit(Total(weights))
                && Selects(weights, i, draw(pos - 1) % Total(weights))
      ensures Total(weights) > 0x8000_0000 ==> pos == old(pos) && Selects(weights, i, 0)
      ensures Total(weights) == 0 ==> pos == old(pos) && i == |weights| - 1
    {
      var r := Range32(0, AsInt32((cum[cum.Length - 1] - 1) % (UINT32_MAX + 1)), accepted);
      i := SearchWeights(r, cum, weights);
    }
  }

  // ---- Weights ----

  function Sum(weights: seq<nat>, n: nat): nat
    requires n <= |weights|
  {
    if n == 0 then 0 else Sum(weights, n - 1) + weights[n - 1]
  }

  function Total(weights: seq<nat>): nat { Sum(weights, |weights|) }

  ghost predicate IsCumulative(cum: seq<nat>, weights: seq<nat>) {
    |cum| == |weights| > 0 && forall i: nat | i < |cum| :: cum[i] == Sum(weights, i + 1)
  }

  /** The key falls into the part of the whole that belongs to choice i. */
  predicate Selects(weights: seq<nat>, i: nat, key: nat)
    requires i < |weights|
  {
    Sum(weights, i) <= key < Sum(weights, i + 1)
  }

  lemma {:induction false} SumsAscend(weights: seq<nat>, i: nat, j: nat)
    requires i <= j <= |weights|
    ensures Sum(weights, i) <= Sum(weights, j)
    decreases j
  {
    if i < j {
      SumsAscend(weights, i, j - 1);
    }
  }

  /** Every key below the total selects one choice. */
  lemma SelectsOne(weights: seq<nat>, i: nat, j: nat, key: nat)
    requires i < |weights| && j < |weights| && Selects(weights, i, key) && Selects(weights, j, key)
    ensures i == j
  {
    if i < j {
      SumsAscend(weights, i + 1, j);
    } else if j < i {
      SumsAscend(weights, j + 1, i);
    }
  }

  // A sum in 32 bits
  function Sum32(weights: seq<nat>, n: nat): nat
    requires n <= |weights|
  {
    Sum(weights, n) % (UINT32_MAX + 1)
  }

  lemma Sum32Grows(weights: seq<nat>, n: nat)
    requires n < |weights|
    ensures Sum32(weights, n + 1) == (Sum32(weights, n) + weights[n]) % (UINT32_MAX + 1)
  {
    var m, s := UINT32_MAX + 1, Sum(weights, n);
    DivModDef(s, m);
    DivModDef(s % m + weights[n], m);
    DivModUnique(s + weights[n], m, s / m + (s % m + weights[n]) / m, (s % m + weights[n]) % m);
  }

  /** random_weights_init: the sums in 32 bits, which are the sums exactly when that of all weights fits. */
  method WeightsInit(weights: seq<nat>, cum: array<nat>)
    requires cum.Length == |weights| > 0
    modifies cum
    ensures forall k: nat | k < |weights| :: cum[k] == Sum32(weights, k + 1)
    ensures IsCumulative(cum[..], weights) <==> Total(weights) <= UINT32_MAX
  {
    var accum: nat := 0;
    var i: nat := 0;
    while i < |weights|
      invariant i <= |weights| && accum == Sum32(weights, i)
      invariant forall k: nat | k < i :: cum[k] == Sum32(weights, k + 1)
    {
      Sum32Grows(weights, i);
      accum := (accum + weights[i]) % (UINT32_MAX + 1);
      cum[i] := accum;
      i := i + 1;
    }
    forall k: nat | k < |weights| ensures Total(weights) <= UINT32_MAX ==> cum[k] == Sum(weights, k + 1) {
      SumsAscend(weights, k + 1, |weights|);
    }
    assert cum[|weights| - 1] == Sum32(weights, |weights|) <= UINT32_MAX;
  }

  /** search_weights */
  method SearchWeights(key: nat, cum: array<nat>, ghost weights: seq<nat>) returns (i: nat)
    requires IsCumulative(cum[..], weights)
    ensures i < |weights| && if key < Total(weights) then Selects(weights, i, key) else i == |weights| - 1
  {
    var low: nat, high: nat := 0, cum.Length - 1;
    while low < high
      invariant low <= high < cum.Length
      invariant Sum(weights, low) <= key && (high == |weights| - 1 || key < Sum(weights, high + 1))
      decreases high - low
    {
      var mid := low + (high - low) / 2;
      assert cum[mid] == cum[..][mid] == Sum(weights, mid + 1);
      if cum[mid] <= key {
        low := mid + 1;
      } else {
        high := mid;
      }
    }
    SumsAscend(weights, low + 1, |weights|);
    return low;
  }

  // ---- How many outputs select a choice ----

  // Keys below n that select choice i
  ghost function KeysFor(weights: seq<nat>, i: nat, n: nat): nat
    requires i < |weights|
  {
    if n == 0 then 0 else KeysFor(weights, i, n - 1) + if Selects(weights, i, n - 1) then 1 else 0
  }

  // Outputs below n whose remainder selects choice i
  ghost function OutputsFor(weights: seq<nat>, i: nat, n: nat): nat
    requires i < |weights| && Total(weights) > 0
  {
    if n == 0 then 0
    else OutputsFor(weights, i, n - 1) + if Selects(weights, i, (n - 1) % Total(weights)) then 1 else 0
  }

  lemma {:induction false} KeysForIs(weights: seq<nat>, i: nat, n: nat)
    requires i < |weights|
    ensures KeysFor(weights, i, n)
            == if n <= Sum(weights, i) then 0 else if n <= Sum(weights, i + 1) then n - Sum(weights, i) else weights[i]
    decreases n
  {
    if n > 0 {
      KeysForIs(weights, i, n - 1);
    }
  }

  // Every block of as many outputs as the total holds the same number of them
  lemma {:induction false} OutputsInBlocks(weights: seq<nat>, i: nat, blocks: nat, n: nat)
    requires i < |weights| && Total(weights) > 0 && n <= Total(weights)
    ensures OutputsFor(weights, i, blocks * Total(weights) + n) == blocks * weights[i] + KeysFor(weights, i, n)
    decreases blocks, n
  {
    var total := Total(weights);
    if n > 0 {
      OutputsInBlocks(weights, i, blocks, n - 1);
      DivModUnique(blocks * total + (n - 1), total, blocks, n - 1);
    } else if blocks > 0 {
      OutputsInBlocks(weights, i, blocks - 1, total);
      SumsAscend(weights, i + 1, |weights|);
      KeysForIs(weights, i, total);
      assert (blocks - 1) * total + total == blocks * total;
      assert (blocks - 1) * weights[i] + weights[i] == blocks * weights[i];
    }
  }

  /** Of the outputs that are accepted, exactly weights[i] * (limit / total) select choice i: the choice is as fair as
      the generator. */
  lemma WeightsAreExact(weights: seq<nat>, i: nat)
    requires i < |weights| && 0 < Total(weights) <= UINT32_MAX
    ensures OutputsFor(weights, i, Limit(Total(weights))) == weights[i] * (Limit(Total(weights)) / Total(weights))
  {
    var total := Total(weights);
    var q := UINT32_MAX / total;
    DivModDef(UINT32_MAX, total);
    DivModUnique(q * total, total, q, 0);
    OutputsInBlocks(weights, i, q, 0);
    assert Limit(total) == q * total == q * total + 0;
  }
}
