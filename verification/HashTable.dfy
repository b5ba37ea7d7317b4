// The bucket array of src/util/dhash.c as a value: what one bucket holds, the invariant that every
// operation keeps, and how each in-place change of one bucket moves the map the table stands for.
module HashTable {

  // PROBE_COUNT_BITS is 15
  const MAX_PROBE_COUNT: nat := 0x7fff

  /** One bucket. `probes == 0` is a bucket that was never used; `deleted` marks a tombstone. */
  datatype Entry<K, V> = Entry(key: K, ikey: nat, probes: nat, deleted: bool, value: V) {
    predicate InUse() { probes != 0 }
    predicate Live() { probes != 0 && !deleted }
  }

  /** How keys are hashed, and what dh_remove leaves in the key of a tombstone. */
  datatype Keys<!K(==)> = Keys(hash: K -> nat, wiped: K) {
    // A tombstone holds (wiped, 0); the match test of an insertion does not look at the deleted flag,
    // so a key that equals both parts would match it.
    predicate Admits(k: K) { k != wiped || hash(k) != 0 }
  }

  /** The next bucket of a linear probe. */
  function Next(b: nat, n: nat): (r: nat)
    requires b < n
    ensures r < n
  {
    if b + 1 >= n then b + 1 - n else b + 1
  }

  /** The bucket that probe number `j` (counted from 1) of a hashed key lands on. */
  function Slot(ikey: nat, j: nat, n: nat): (b: nat)
    requires n > 0 && j > 0
    ensures b < n
  {
    if j == 1 then ikey % n else Next(Slot(ikey, j - 1, n), n)
  }

  // The first `p` buckets on the probe path of `ikey` all have counts at least their path position
  ghost predicate PathHolds<K, V>(t: seq<Entry<K, V>>, ikey: nat, p: nat)
    requires |t| > 0
  {
    forall j: nat | 1 <= j <= p :: t[Slot(ikey, j, |t|)].probes >= j
  }

  ghost predicate EntryOk<K, V>(t: seq<Entry<K, V>>, i: nat, c: Keys<K>)
    requires i < |t|
  {
    && t[i].probes <= MAX_PROBE_COUNT
    && (t[i].deleted ==> t[i].key == c.wiped && t[i].ikey == 0 && t[i].probes != 0)
    && (t[i].Live() ==>
          && c.Admits(t[i].key)
          && t[i].ikey == c.hash(t[i].key)
          && Slot(t[i].ikey, t[i].probes, |t|) == i
          && PathHolds(t, t[i].ikey, t[i].probes))
  }

  ghost predicate WellFormed<K, V>(t: seq<Entry<K, V>>, c: Keys<K>)
  {
    |t| > 0 && forall i: nat | i < |t| :: EntryOk(t, i, c)
  }

  // The live buckets hold exactly the pairs of `m`, each once
  ghost predicate Stores<K, V>(t: seq<Entry<K, V>>, m: map<K, V>)
  {
    && (forall i: nat | i < |t| && t[i].Live() :: t[i].key in m && m[t[i].key] == t[i].value)
    && (forall k | k in m :: HasKey(t, k))
    && (forall i: nat, j: nat | i < |t| && j < |t| && t[i].Live() && t[j].Live() && t[i].key == t[j].key :: i == j)
  }

  ghost predicate HasKey<K, V>(t: seq<Entry<K, V>>, k: K)
  {
    exists i: nat :: i < |t| && t[i].Live() && t[i].key == k
  }

  ghost predicate Represents<K, V>(t: seq<Entry<K, V>>, c: Keys<K>, m: map<K, V>)
  {
    WellFormed(t, c) && Stores(t, m)
  }

  ghost predicate NoTombstones<K, V>(t: seq<Entry<K, V>>)
  {
    forall i: nat | i < |t| :: !t[i].deleted
  }

  // No bucket among the first `p` of the path holds key `k` live
  ghost predicate NotOnPath<K, V>(t: seq<Entry<K, V>>, k: K, ikey: nat, p: nat)
    requires |t| > 0
  {
    forall j: nat | 1 <= j <= p :: var e := t[Slot(ikey, j, |t|)]; !(e.Live() && e.key == k)
  }

  // Raising one count keeps every path
  lemma PathRaised<K, V>(t: seq<Entry<K, V>>, i: nat, e: Entry<K, V>, ikey: nat, p: nat)
    requires i < |t| && t[i].probes <= e.probes && PathHolds(t, ikey, p)
    ensures PathHolds(t[i := e], ikey, p)
  {
  }

  /** A key that no earlier probe has matched, at a bucket whose count is below the probe number
      (fresh buckets have count 0), is nowhere in the table. Both the lookup and the insertion
      stop on this. */
  lemma AbsentWhenShort<K, V>(t: seq<Entry<K, V>>, c: Keys<K>, m: map<K, V>, k: K, p: nat)
    requires Represents(t, c, m) && p > 0
    requires NotOnPath(t, k, c.hash(k), p - 1)
    requires t[Slot(c.hash(k), p, |t|)].probes < p
    ensures k !in m
  {
    forall i: nat | i < |t| && t[i].Live() ensures t[i].key != k {
      assert EntryOk(t, i, c);
      var q := t[i].probes;
      if q < p {
        assert Slot(t[i].ikey, q, |t|) == i;
      } else {
        assert t[Slot(t[i].ikey, p, |t|)].probes >= p;
      }
    }
  }

  /** When every probe up to the cap misses, the key is absent as well. */
  lemma AbsentAtCap<K, V>(t: seq<Entry<K, V>>, c: Keys<K>, m: map<K, V>, k: K)
    requires Represents(t, c, m)
    requires NotOnPath(t, k, c.hash(k), MAX_PROBE_COUNT)
    ensures k !in m
  {
    forall i: nat | i < |t| && t[i].Live() ensures t[i].key != k {
      assert EntryOk(t, i, c);
      assert Slot(t[i].ikey, t[i].probes, |t|) == i;
    }
  }

  // A miss at probe `p` extends the stretch of the path known not to hold `k`
  lemma MissExtends<K, V>(t: seq<Entry<K, V>>, c: Keys<K>, k: K, p: nat)
    requires WellFormed(t, c) && p > 0
    requires NotOnPath(t, k, c.hash(k), p - 1)
    requires var e := t[Slot(c.hash(k), p, |t|)]; !(e.Live() && e.ikey == c.hash(k) && e.key == k)
    ensures NotOnPath(t, k, c.hash(k), p)
    ensures Slot(c.hash(k), p + 1, |t|) == Next(Slot(c.hash(k), p, |t|), |t|)
  {
    assert EntryOk(t, Slot(c.hash(k), p, |t|), c);
  }

  // What is left of the map when bucket i is overwritten
  ghost function Without<K, V>(m: map<K, V>, e: Entry<K, V>): map<K, V>
  {
    if e.Live() then m - {e.key} else m
  }

  // Overwriting bucket i keeps every other bucket well formed as long as its count does not fall
  lemma OthersOk<K, V>(t: seq<Entry<K, V>>, c: Keys<K>, i: nat, e: Entry<K, V>)
    requires WellFormed(t, c) && i < |t| && t[i].probes <= e.probes
    ensures var t' := t[i := e]; forall x: nat | x < |t| && x != i :: EntryOk(t', x, c)
  {
    var t' := t[i := e];
    forall x: nat | x < |t| && x != i ensures EntryOk(t', x, c) {
      assert EntryOk(t, x, c);
      if t[x].Live() {
        PathRaised(t, i, e, t[x].ikey, t[x].probes);
      }
    }
  }

  // The map side of overwriting bucket i with a live entry for an absent or the same key
  lemma StoresWritten<K, V>(t: seq<Entry<K, V>>, m: map<K, V>, i: nat, e: Entry<K, V>)
    requires Stores(t, m) && i < |t| && e.Live()
    requires e.key !in m || (t[i].Live() && t[i].key == e.key)
    ensures Stores(t[i := e], Without(m, t[i])[e.key := e.value])
  {
    var t' := t[i := e];
    var m' := Without(m, t[i])[e.key := e.value];
    forall k | k in m' ensures HasKey(t', k) {
      if k == e.key {
        assert t'[i].Live();
      } else {
        assert HasKey(t, k);
        var x: nat :| x < |t| && t[x].Live() && t[x].key == k;
        assert t'[x].Live() && t'[x].key == k;
      }
    }
  }

  /** Writing an absent key over a bucket with a smaller count, whether the bucket was fresh, a
      tombstone, or a live entry being robbed, gives a well-formed table for the map without the
      overwritten entry and with the new one. The robbed entry keeps its own path. */
  lemma Placed<K, V>(t: seq<Entry<K, V>>, c: Keys<K>, m: map<K, V>, i: nat, e: Entry<K, V>)
    requires Represents(t, c, m) && i < |t|
    requires e.Live() && e.probes <= MAX_PROBE_COUNT && c.Admits(e.key) && e.ikey == c.hash(e.key)
    requires t[i].probes < e.probes && e.key !in m
    requires Slot(e.ikey, e.probes, |t|) == i && PathHolds(t, e.ikey, e.probes - 1)
    ensures Represents(t[i := e], c, Without(m, t[i])[e.key := e.value])
    ensures t[i].Live() ==> PathHolds(t[i := e], t[i].ikey, t[i].probes)
  {
    assert EntryOk(t, i, c);
    OthersOk(t, c, i, e);
    PathRaised(t, i, e, e.ikey, e.probes - 1);
    assert PathHolds(t[i := e], e.ikey, e.probes);
    StoresWritten(t, m, i, e);
    if t[i].Live() {
      PathRaised(t, i, e, t[i].ikey, t[i].probes);
    }
  }

  /** Replacing the value of a matching entry. */
  lemma Replaced<K, V>(t: seq<Entry<K, V>>, c: Keys<K>, m: map<K, V>, i: nat, v: V)
    requires Represents(t, c, m) && i < |t| && t[i].Live()
    ensures Represents(t[i := t[i].(value := v)], c, m[t[i].key := v])
  {
    var e := t[i].(value := v);
    assert EntryOk(t, i, c);
    OthersOk(t, c, i, e);
    PathRaised(t, i, e, e.ikey, e.probes);
    StoresWritten(t, m, i, e);
    assert Without(m, t[i])[e.key := v] == m[e.key := v];
  }

  /** Turning a live bucket into a tombstone that keeps its probe count. */
  lemma Buried<K, V>(t: seq<Entry<K, V>>, c: Keys<K>, m: map<K, V>, i: nat, v: V)
    requires Represents(t, c, m) && i < |t| && t[i].Live()
    ensures Represents(t[i := Entry(c.wiped, 0, t[i].probes, true, v)], c, m - {t[i].key})
  {
    var e := Entry(c.wiped, 0, t[i].probes, true, v);
    var t' := t[i := e];
    assert EntryOk(t, i, c);
    OthersOk(t, c, i, e);
    forall k | k in m - {t[i].key} ensures HasKey(t', k) {
      assert HasKey(t, k);
      var x: nat :| x < |t| && t[x].Live() && t[x].key == k;
      assert t'[x].Live() && t'[x].key == k;
    }
  }

  // ---- Termination: counts only rise, so the total headroom of the table bounds the steals ----

  ghost function Headroom<K, V>(t: seq<Entry<K, V>>): (h: nat)
  {
    if t == [] then 0 else Room(t[0]) + Headroom(t[1..])
  }

  ghost function Room<K, V>(e: Entry<K, V>): nat
  {
    if e.probes <= MAX_PROBE_COUNT then MAX_PROBE_COUNT - e.probes else 0
  }

  lemma {:induction false} HeadroomFalls<K, V>(t: seq<Entry<K, V>>, i: nat, e: Entry<K, V>)
    requires i < |t|
    requires t[i].probes < e.probes <= MAX_PROBE_COUNT
    ensures Headroom(t[i := e]) < Headroom(t)
  {
    if i == 0 {
      assert t[i := e][1..] == t[1..];
    } else {
      assert t[i := e][1..] == t[1..][i - 1 := e];
      HeadroomFalls(t[1..], i - 1, e);
    }
  }

  // ---- The item an insertion carries along its probe path ----

  // Nothing on the path before probe `p` has room, and the item's key is absent: it was just robbed,
  // or no bucket so far matched it
  ghost predicate Carried<K, V>(t: seq<Entry<K, V>>, c: Keys<K>, m: map<K, V>, item: Entry<K, V>, robbed: bool)
  {
    && |t| > 0 && item.Live() && item.probes <= MAX_PROBE_COUNT
    && c.Admits(item.key) && item.ikey == c.hash(item.key)
    && PathHolds(t, item.ikey, item.probes - 1)
    && if robbed then item.key !in m else NotOnPath(t, item.key, item.ikey, item.probes - 1)
  }

  lemma CarriedIsAbsent<K, V>(t: seq<Entry<K, V>>, c: Keys<K>, m: map<K, V>, item: Entry<K, V>, robbed: bool)
    requires Represents(t, c, m) && Carried(t, c, m, item, robbed)
    requires t[Slot(item.ikey, item.probes, |t|)].probes < item.probes
    ensures item.key !in m
  {
    if !robbed {
      AbsentWhenShort(t, c, m, item.key, item.probes);
    }
  }

  // The next probe of an item that the current bucket has no room for
  lemma Advanced<K, V>(t: seq<Entry<K, V>>, c: Keys<K>, m: map<K, V>, item: Entry<K, V>, robbed: bool)
    requires Carried(t, c, m, item, robbed) && item.probes < MAX_PROBE_COUNT
    requires PathHolds(t, item.ikey, item.probes)
    requires !robbed ==> NotOnPath(t, item.key, item.ikey, item.probes)
    ensures Carried(t, c, m, item.(probes := item.probes + 1), robbed)
    ensures Slot(item.ikey, item.probes + 1, |t|) == Next(Slot(item.ikey, item.probes, |t|), |t|)
  {
  }

  // The bucket of the current probe sends `item'` on, which is the item itself or one it has robbed
  ghost predicate PassedOn<K, V>(c: Keys<K>, t: seq<Entry<K, V>>, m: map<K, V>, item: Entry<K, V>, robbed: bool,
                                 t': seq<Entry<K, V>>, m': map<K, V>, item': Entry<K, V>)
  {
    && |t'| == |t| > 0 && item.probes > 0 && item'.probes > 0
    && PathHolds(t', item'.ikey, item'.probes)
    && Slot(item'.ikey, item'.probes, |t|) == Slot(item.ikey, item.probes, |t|)
    && m'[item'.key := item'.value] == m[item.key := item.value] && |m'| == |m|
    && if item' == item
       then t' == t && m' == m && (!robbed ==> NotOnPath(t, item.key, item.ikey, item.probes))
       else item.key !in m && Carried(t', c, m', item', true) && Headroom(t') < Headroom(t)
  }

  /** Robbing bucket i: the table now stands for the map with the pairs exchanged, the evicted pair is
      carried on, and the headroom of the table has shrunk. */
  lemma Robbed<K, V>(t: seq<Entry<K, V>>, c: Keys<K>, m: map<K, V>, item: Entry<K, V>, i: nat, robbed: bool)
    requires Represents(t, c, m) && Carried(t, c, m, item, robbed)
    requires i == Slot(item.ikey, item.probes, |t|) && t[i].Live() && t[i].probes < item.probes
    ensures var m' := (m - {t[i].key})[item.key := item.value];
            Represents(t[i := item], c, m') && PassedOn(c, t, m, item, robbed, t[i := item], m', t[i])
  {
    assert EntryOk(t, i, c);
    CarriedIsAbsent(t, c, m, item, robbed);
    Placed(t, c, m, i, item);
    HeadroomFalls(t, i, item);
  }

  // A bucket that neither matches nor has a smaller count leaves everything as it is
  lemma Passed<K, V>(t: seq<Entry<K, V>>, c: Keys<K>, m: map<K, V>, item: Entry<K, V>, i: nat, robbed: bool)
    requires Represents(t, c, m) && Carried(t, c, m, item, robbed)
    requires i == Slot(item.ikey, item.probes, |t|) && t[i].probes >= item.probes
    requires !(t[i].ikey == item.ikey && t[i].key == item.key)
    ensures PassedOn(c, t, m, item, robbed, t, m, item)
  {
    if !robbed {
      MissExtends(t, c, item.key, item.probes);
    }
  }

  // ---- Counting: a path of live buckets is no longer than the number of pairs ----

  ghost function KeysOf<K, V>(t: seq<Entry<K, V>>): set<K>
  {
    set i: nat | i < |t| && t[i].Live() :: t[i].key
  }

  lemma {:induction false} FewKeys<K, V>(t: seq<Entry<K, V>>)
    ensures |KeysOf(t)| <= |t|
  {
    if t != [] {
      var s := t[..|t| - 1];
      FewKeys(s);
      assert KeysOf(t) <= KeysOf(s) + {t[|t| - 1].key};
      SubsetSize(KeysOf(t), KeysOf(s) + {t[|t| - 1].key});
    } else {
      assert KeysOf(t) == {};
    }
  }

  lemma {:induction false} SubsetSize<T>(a: set<T>, b: set<T>)
    requires a <= b
    ensures |a| <= |b|
  {
    assert b == a + (b - a);
  }

  lemma NoMorePairsThanBuckets<K, V>(t: seq<Entry<K, V>>, c: Keys<K>, m: map<K, V>)
    requires Represents(t, c, m)
    ensures |m| <= |t|
  {
    assert m.Keys == KeysOf(t);
    FewKeys(t);
  }

  // The keys met by the first `p` probes of a path
  ghost function KeysAlong<K, V>(t: seq<Entry<K, V>>, ikey: nat, p: nat): set<K>
    requires |t| > 0
  {
    set j: nat | 1 <= j <= p :: t[Slot(ikey, j, |t|)].key
  }

  lemma {:induction false} SlotIs(ikey: nat, j: nat, n: nat)
    requires 1 <= j <= n
    ensures Slot(ikey, j, n) == if ikey % n + j - 1 < n then ikey % n + j - 1 else ikey % n + j - 1 - n
  {
    if j > 1 {
      SlotIs(ikey, j - 1, n);
    }
  }

  // Path positions less than a table length apart are different buckets
  lemma SlotsDiffer(ikey: nat, i: nat, j: nat, n: nat)
    requires 1 <= i < j <= n
    ensures Slot(ikey, i, n) != Slot(ikey, j, n)
  {
    SlotIs(ikey, i, n);
    SlotIs(ikey, j, n);
  }

  lemma NextKeyIsNew<K, V>(t: seq<Entry<K, V>>, m: map<K, V>, ikey: nat, p: nat)
    requires Stores(t, m) && 0 < p <= |t|
    requires forall j: nat | 1 <= j <= p :: t[Slot(ikey, j, |t|)].Live()
    ensures t[Slot(ikey, p, |t|)].key !in KeysAlong(t, ikey, p - 1)
  {
    var b := Slot(ikey, p, |t|);
    forall j: nat | 1 <= j <= p - 1 ensures t[Slot(ikey, j, |t|)].key != t[b].key {
      var a := Slot(ikey, j, |t|);
      SlotsDiffer(ikey, j, p, |t|);
      assert t[a].Live() && t[b].Live();
    }
  }

  lemma KeysAlongStep<K, V>(t: seq<Entry<K, V>>, ikey: nat, p: nat)
    requires 0 < |t| && 0 < p
    ensures KeysAlong(t, ikey, p) == KeysAlong(t, ikey, p - 1) + {t[Slot(ikey, p, |t|)].key}
  {
    forall k | k in KeysAlong(t, ikey, p) ensures k in KeysAlong(t, ikey, p - 1) + {t[Slot(ikey, p, |t|)].key} {
    }
  }

  lemma {:induction false} KeysAlongDistinct<K, V>(t: seq<Entry<K, V>>, m: map<K, V>, ikey: nat, p: nat)
    requires Stores(t, m) && 0 < |t| && p <= |t|
    requires forall j: nat | 1 <= j <= p :: t[Slot(ikey, j, |t|)].Live()
    ensures |KeysAlong(t, ikey, p)| == p
    ensures KeysAlong(t, ikey, p) <= m.Keys
  {
    if p > 0 {
      KeysAlongDistinct(t, m, ikey, p - 1);
      NextKeyIsNew(t, m, ikey, p);
      KeysAlongStep(t, ikey, p);
    } else {
      assert KeysAlong(t, ikey, p) == {};
    }
  }

  /** A probe path that is live all along visits at most as many buckets as there are pairs, so in a
      table without tombstones and with a free bucket the probe number stays within the pair count. */
  lemma LivePathIsShort<K, V>(t: seq<Entry<K, V>>, c: Keys<K>, m: map<K, V>, ikey: nat, p: nat)
    requires Represents(t, c, m) && |m| < |t|
    requires forall j: nat | 1 <= j <= p :: t[Slot(ikey, j, |t|)].Live()
    ensures p <= |m|
  {
    var q := if p <= |t| then p else |t|;
    KeysAlongDistinct(t, m, ikey, q);
    SubsetSize(KeysAlong(t, ikey, q), m.Keys);
  }

  // ---- Iteration ----

  /** The pairs of the live buckets from bucket i on, in bucket order */
  ghost function LiveFrom<K, V>(t: seq<Entry<K, V>>, i: nat): (r: seq<(K, V)>)
    requires i <= |t|
    decreases |t| - i
  {
    if i == |t| then []
    else if t[i].Live() then [(t[i].key, t[i].value)] + LiveFrom(t, i + 1)
    else LiveFrom(t, i + 1)
  }

  ghost predicate DistinctKeys<K, V>(r: seq<(K, V)>) {
    forall a: nat, b: nat | a < b < |r| :: r[a].0 != r[b].0
  }

  lemma {:induction false} LiveFromHolds<K, V>(t: seq<Entry<K, V>>, i: nat)
    requires i <= |t|
    ensures forall x | x in LiveFrom(t, i) ::
              exists j: nat :: i <= j < |t| && t[j].Live() && (t[j].key, t[j].value) == x
    ensures forall j: nat | i <= j < |t| && t[j].Live() :: (t[j].key, t[j].value) in LiveFrom(t, i)
    decreases |t| - i
  {
    if i < |t| {
      LiveFromHolds(t, i + 1);
    }
  }

  lemma {:induction false} LiveFromDistinct<K, V>(t: seq<Entry<K, V>>, m: map<K, V>, i: nat)
    requires i <= |t| && Stores(t, m)
    ensures DistinctKeys(LiveFrom(t, i))
    decreases |t| - i
  {
    if i < |t| {
      LiveFromDistinct(t, m, i + 1);
      LiveFromHolds(t, i + 1);
      var r, rest := LiveFrom(t, i), LiveFrom(t, i + 1);
      if t[i].Live() {
        forall a: nat, b: nat | a < b < |r| ensures r[a].0 != r[b].0 {
          assert r[b] == rest[b - 1] && rest[b - 1] in rest;
          var j: nat :| i + 1 <= j < |t| && t[j].Live() && (t[j].key, t[j].value) == rest[b - 1];
          if a > 0 {
            assert r[a] == rest[a - 1];
          }
        }
      }
    }
  }

  /** Walking the buckets of a table meets every pair of its map exactly once. */
  lemma WalkMeetsEachPairOnce<K, V>(t: seq<Entry<K, V>>, m: map<K, V>)
    requires Stores(t, m)
    ensures var r := LiveFrom(t, 0);
            && DistinctKeys(r)
            && (forall x | x in r :: x.0 in m && m[x.0] == x.1)
            && (forall k | k in m :: (k, m[k]) in r)
  {
    LiveFromDistinct(t, m, 0);
    LiveFromHolds(t, 0);
    forall k | k in m ensures (k, m[k]) in LiveFrom(t, 0) {
      assert HasKey(t, k);
      var i: nat :| i < |t| && t[i].Live() && t[i].key == k;
      assert (t[i].key, t[i].value) in LiveFrom(t, 0);
    }
  }

  /** The match test of an insertion does not look at the deleted flag. A tombstone passes it for
      exactly the keys that are not admitted, and storing a value through such a match is lost: the
      bucket stays a tombstone and the table still stands for the same map. */
  lemma TombstoneMatch<K, V>(t: seq<Entry<K, V>>, c: Keys<K>, m: map<K, V>, i: nat, k: K, v: V)
    requires Represents(t, c, m) && i < |t| && t[i].deleted
    ensures t[i].ikey == c.hash(k) && t[i].key == k <==> !c.Admits(k)
    ensures !c.Admits(k) ==> Represents(t[i := t[i].(key := k, value := v)], c, m)
  {
    assert EntryOk(t, i, c);
    if !c.Admits(k) {
      var e := t[i].(key := k, value := v);
      OthersOk(t, c, i, e);
      forall x | x in m ensures HasKey(t[i := e], x) {
        assert HasKey(t, x);
        var j: nat :| j < |t| && t[j].Live() && t[j].key == x;
        assert t[i := e][j].Live() && t[i := e][j].key == x;
      }
    }
  }
}
