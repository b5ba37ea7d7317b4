// Runs of src/util/dhash.c that lose a pair at the probe cap, on 45161 buckets, one of the sizes it chooses from.
module HashLoss {
  import opened Arithmetic
  import opened DHash
  import opened HashProbe
  import opened HashTable
  import opened Search
  import opened Wrappers

  const SIZE: nat := 45161

  // The hash of 76460, which is that of the last bucket
  const LAST_HASH: nat := 3774330574

  // Two keys have the hash of the last bucket, all others hash 0
  function Gen(k: nat): nat { if k == MAX_PROBE_COUNT || k == MAX_PROBE_COUNT + 1 then 76460 else 0 }
  function RampHash(k: nat): nat { if k == MAX_PROBE_COUNT || k == MAX_PROBE_COUNT + 1 then LAST_HASH else 0 }

  lemma RampHashIs(k: nat)
    ensures HashInt(Gen(k)) == RampHash(k)
  {
    LastHashIs();
    DivModUnique(0, 0x1_0000_0000_0000_0000, 0, 0);
  }

  lemma LastHashIs()
    ensures HashInt(76460) == LAST_HASH && LAST_HASH % SIZE == SIZE - 1
  {
    DivModUnique(76460 * 0x9e3779b97f4a7c15, 0x1_0000_0000_0000_0000, 47254, 0xe0f7b6ce3a7bd01c);
    DivModUnique(0xe0f7b6ce3a7bd01c, 0x1_0000_0000, LAST_HASH, 0x3a7bd01c);
    DivModUnique(LAST_HASH, SIZE, 83574, SIZE - 1);
  }

  // Entries 0 to j - 1, all with hash 0, one behind the other from bucket 0 on, and fresh buckets
  ghost function RampEntry(j: nat, b: nat): Entry<nat, nat> {
    if b < j then Entry(b, 0, b + 1, false, 0) else Entry(MAX_PROBE_COUNT, 0, 0, false, 0)
  }

  ghost function Ramp(j: nat): seq<Entry<nat, nat>> { seq(SIZE, b requires 0 <= b < SIZE => RampEntry(j, b)) }

  predicate Below(k: nat, n: nat) { k < n }

  ghost function RampMap(j: nat): map<nat, nat> { map k: nat | k < j && Below(k, j) :: 0 }

  lemma RampMapGrows(j: nat)
    ensures RampMap(j + 1) == RampMap(j)[j := 0]
  {
    assert Below(j, j + 1);
  }

  lemma {:induction false} RampMapSize(j: nat)
    ensures |RampMap(j)| == j
  {
    if j > 0 {
      var before: nat := j - 1;
      RampMapSize(before);
      RampMapGrows(before);
      assert before !in RampMap(before);
    } else {
      assert RampMap(j) == map[];
    }
  }

  lemma SlotFromZero(j: nat, n: nat)
    requires 1 <= j <= n
    ensures Slot(0, j, n) == j - 1
  {
    SlotIs(0, j, n);
  }

  // One more key with hash 0 goes behind the others
  lemma {:induction false} RampTakes(j: nat, p: nat)
    requires 1 <= p <= j + 1 <= MAX_PROBE_COUNT
    ensures Probed(Ramp(j), Entry(j, 0, p, false, 0)) == Done(Ramp(j + 1), Entry(j, 0, j + 1, false, 0))
    decreases j + 1 - p
  {
    var t, item := Ramp(j), Entry(j, 0, p, false, 0);
    SlotFromZero(p, SIZE);
    if p <= j {
      ProbedOn(t, item, t, item);
      RampTakes(j, p + 1);
    } else {
      assert t[j := item] == Ramp(j + 1);
    }
  }

  // A table that is the whole ramp behind bucket 0
  ghost predicate RampBehind(t: seq<Entry<nat, nat>>) {
    |t| == SIZE && forall b: nat | 0 < b < MAX_PROBE_COUNT :: t[b] == Entry(b, 0, b + 1, false, 0)
  }

  // An entry with hash 0 finds no room there
  lemma {:induction false} RampHasNoRoom(t: seq<Entry<nat, nat>>, item: Entry<nat, nat>)
    requires RampBehind(t) && item.ikey == 0 && 2 <= item.probes <= MAX_PROBE_COUNT
    requires item.key == 0 || item.key >= MAX_PROBE_COUNT
    ensures Probed(t, item) == Lost(t, item.(probes := MAX_PROBE_COUNT))
    decreases MAX_PROBE_COUNT - item.probes
  {
    SlotFromZero(item.probes, |t|);
    ProbedOn(t, item, t, item);
    if item.probes < MAX_PROBE_COUNT {
      RampHasNoRoom(t, item.(probes := item.probes + 1));
    }
  }

  // A key with hash 0 comes to the cap although there are fresh buckets
  lemma OneTooMany(v: nat)
    ensures Probed(Ramp(MAX_PROBE_COUNT), Entry(MAX_PROBE_COUNT + 2, 0, 1, false, v))
            == Lost(Ramp(MAX_PROBE_COUNT), Entry(MAX_PROBE_COUNT + 2, 0, MAX_PROBE_COUNT, false, v))
  {
    var t, item := Ramp(MAX_PROBE_COUNT), Entry(MAX_PROBE_COUNT + 2, 0, 1, false, v);
    SlotFromZero(1, SIZE);
    ProbedOn(t, item, t, item);
    RampHasNoRoom(t, item.(probes := 2));
  }

  ghost function WithLast(): seq<Entry<nat, nat>> {
    Ramp(MAX_PROBE_COUNT)[SIZE - 1 := Entry(MAX_PROBE_COUNT, LAST_HASH, 1, false, 0)]
  }

  lemma LastTakes()
    ensures Probed(Ramp(MAX_PROBE_COUNT), Entry(MAX_PROBE_COUNT, LAST_HASH, 1, false, 0))
            == Done(WithLast(), Entry(MAX_PROBE_COUNT, LAST_HASH, 1, false, 0))
  {
    SlotIs(LAST_HASH, 1, SIZE);
  }

  // The first two probes of a key for the last bucket: that one has no room, and bucket 0 is robbed
  lemma FirstProbe(t: seq<Entry<nat, nat>>, item: Entry<nat, nat>)
    requires |t| > 1 && item.ikey % |t| + 1 == |t| && item.probes == 1
    requires t[|t| - 1].key != item.key && t[|t| - 1].probes == 1
    ensures Probed(t, item) == Probed(t, item.(probes := 2))
  {
    SlotIs(item.ikey, 1, |t|);
    ProbedOn(t, item, t, item);
  }

  lemma SecondProbe(t: seq<Entry<nat, nat>>, item: Entry<nat, nat>)
    requires |t| > 1 && item.ikey % |t| + 1 == |t| && item.probes == 2 && t[0].key != item.key
             && t[0].probes == 1 && !t[0].deleted
    ensures Probed(t, item) == Probed(t[0 := item], t[0].(probes := 2))
  {
    SlotIs(item.ikey, 2, |t|);
    ProbedOn(t, item, t[0 := item], t[0]);
  }

  /** The pair that was robbed finds no room up to the cap. */
  lemma OldPairLeftOver(v: nat)
    ensures var r := Probed(WithLast(), Entry(MAX_PROBE_COUNT + 1, LAST_HASH, 1, false, v)); r.Lost? && r.item.key == 0
  {
    var t, item := WithLast(), Entry(MAX_PROBE_COUNT + 1, LAST_HASH, 1, false, v);
    FirstProbe(t, item);
    SecondProbe(t, item.(probes := 2));
    RampHasNoRoom(t[0 := item.(probes := 2)], t[0].(probes := 2));
  }

  // ---- The runs ----

  lemma SizeIsPrime(n: nat)
    requires LeastPrime(SIZE, n)
    ensures n == SIZE
  {
    var ix: nat :| ix < |PRIMES| && PRIMES[ix] == n && (forall j: nat | j < ix :: PRIMES[j] < SIZE)
                   && (n >= SIZE || ix == |PRIMES| - 1);
    assert PRIMES[33] == SIZE;
    if ix < 33 {
      PrimesIncrease(ix, 33);
    }
  }

  // The table holds the ramp of j keys
  ghost predicate HoldsRamp(hash: DHash<nat, nat>, j: nat)
    reads hash, hash.buckets
  {
    && hash.Valid() && hash.buckets[..] == Ramp(j) && hash.m == RampMap(j)
    && hash.keys.wiped == MAX_PROBE_COUNT && hash.replaceItem == None
    && forall k: nat :: hash.keys.hash(k) == RampHash(k)
  }

  // Inserting one more key
  method Climb(hash: DHash<nat, nat>, j: nat)
    requires HoldsRamp(hash, j) && j < MAX_PROBE_COUNT
    modifies hash, hash.buckets
    ensures HoldsRamp(hash, j + 1) && hash.buckets == old(hash.buckets)
  {
    RampMapSize(j);
    RampTakes(j, 1);
    var ok, left, kept, begun := hash.Insert(j, 0, false);
    RampMapGrows(j);
  }

  /** As many keys with hash 0 as the cap. */
  method BuildRamp() returns (hash: DHash<nat, nat>)
    ensures fresh(hash) && fresh(hash.buckets) && HoldsRamp(hash, MAX_PROBE_COUNT)
  {
    hash := new DHash<nat, nat>(SIZE, Gen, MAX_PROBE_COUNT, 0, None);
    forall k: nat ensures hash.keys.hash(k) == RampHash(k) {
      RampHashIs(k);
    }
    SizeIsPrime(hash.buckets.Length);
    assert hash.buckets[..] == Ramp(0) && hash.m == RampMap(0);
    for j := 0 to MAX_PROBE_COUNT
      invariant fresh(hash) && fresh(hash.buckets) && HoldsRamp(hash, j)
    {
      Climb(hash, j);
    }
  }

  /** With exactly as many used buckets as the cap, a new pair is lost in spite of fresh buckets, so the bound of
      InsertEx on the used buckets cannot be raised. */
  method CapIsSharp(v: nat) returns (hash: DHash<nat, nat>, ok: bool, ghost before: seq<Entry<nat, nat>>)
    ensures HasFresh(before) && |UsedIn(before)| == MAX_PROBE_COUNT
    ensures !ok && hash.Valid() && hash.m == RampMap(MAX_PROBE_COUNT)
  {
    hash := BuildRamp();
    before := hash.buckets[..];
    RampUsed();
    RampMapSize(MAX_PROBE_COUNT);
    OneTooMany(v);
    ghost var kept, begun;
    var left;
    ok, left, kept, begun := hash.Insert(MAX_PROBE_COUNT + 2, v, false);
  }

  lemma RampUsed()
    ensures HasFresh(Ramp(MAX_PROBE_COUNT)) && |UsedIn(Ramp(MAX_PROBE_COUNT))| == MAX_PROBE_COUNT
  {
    var t := Ramp(MAX_PROBE_COUNT);
    assert !t[MAX_PROBE_COUNT].InUse();
    RampMapSize(MAX_PROBE_COUNT);
    assert UsedIn(t) == RampMap(MAX_PROBE_COUNT).Keys;
  }

  /** An insertion that loses a pair which was in the table before, and not the new one. */
  method OldPairLost(v: nat) returns (hash: DHash<nat, nat>, ok: bool, ghost before: map<nat, nat>)
    ensures 0 in before && MAX_PROBE_COUNT + 1 !in before && |before| == MAX_PROBE_COUNT + 1
    ensures !ok && hash.Valid() && hash.m == before[MAX_PROBE_COUNT + 1 := v] - {0}
  {
    hash := BuildRamp();
    RampMapSize(MAX_PROBE_COUNT);
    LastTakes();
    ghost var kept, begun;
    var left;
    ok, left, kept, begun := hash.Insert(MAX_PROBE_COUNT, 0, false);
    before := hash.m;
    assert Below(0, MAX_PROBE_COUNT);
    OldPairLeftOver(v);
    ok, left, kept, begun := hash.Insert(MAX_PROBE_COUNT + 1, v, false);
  }
}
