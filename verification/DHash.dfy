// src/util/dhash.c: Robin Hood hash table with linear probing, tombstones, memoised hashes, a
// 15-bit probe counter and growth through a list of primes.
module DHash {
  import opened HashProbe
  import opened HashTable
  import opened Search
  import opened Wrappers

  /** dh__hash_int: Knuth's multiplicative hash, upper 32 of 64 bits */
  function HashInt(ikey: nat): nat {
    (ikey * 0x9e3779b97f4a7c15 % 0x1_0000_0000_0000_0000) / 0x1_0000_0000
  }

  /** MAX_LOAD_FACTOR */
  function MaxLoad(buckets: nat): nat { buckets * 15 / 16 }

  const KEY_NOT_FOUND := -1
  const TOO_MANY_PROBES := -2

  class DHash<K(==), V> {
    var buckets: array<Entry<K, V>>
    var usedBuckets: nat
    var primeIx: nat
    var staticBuckets: bool
    const keys: Keys<K>
    const zeroValue: V                             // what calloc and memset leave in a value
    const replaceItem: Option<(K, V, V) -> Option<V>>   // optional callback, may refuse a replacement or alter it

    ghost var m: map<K, V>                         // the map this table stands for

    ghost predicate Valid()
      reads this, buckets
    {
      && Represents(buckets[..], keys, m)
      && usedBuckets == |m|
      && Sized()
    }

    ghost predicate Sized()
      reads this
    {
      primeIx < |PRIMES| && buckets.Length == PRIMES[primeIx]
    }

    function FreshEntry(): Entry<K, V> { Entry(keys.wiped, 0, 0, false, zeroValue) }

    /** dh_init with dynamically allocated buckets */
    constructor (initBuckets: nat, genHash: K -> nat, wiped: K, zeroValue: V,
                 replaceItem: Option<(K, V, V) -> Option<V>>)
      ensures Valid() && m == map[] && fresh(buckets)
      ensures keys.wiped == wiped && forall k :: keys.hash(k) == HashInt(genHash(k))
      ensures this.replaceItem == replaceItem && this.zeroValue == zeroValue
      ensures NoTombstones(buckets[..]) && !staticBuckets
      ensures LeastPrime(initBuckets, buckets.Length)
      ensures forall b: nat | b < buckets.Length :: buckets[b] == FreshEntry()
    {
      PrimesAscend();
      var ix := SearchNearestAbove(initBuckets, PRIMES);
      assert PRIMES[ix] > 0;
      var n: nat := PRIMES[ix];
      var c := Keys(k => HashInt(genHash(k)), wiped);
      var empty := Entry(wiped, 0, 0, false, zeroValue);
      this.keys := c;
      this.zeroValue := zeroValue;
      this.replaceItem := replaceItem;
      this.buckets := new Entry<K, V>[n](_ => empty);
      this.usedBuckets := 0;
      this.primeIx := ix;
      this.staticBuckets := false;
      this.m := map[];
    }

    /** dh_init over a caller's buffer that holds `extBuckets` buckets. The table fits the buffer
        exactly when the buffer holds at least the smallest prime. */
    constructor OnStorage(extBuckets: nat, genHash: K -> nat, wiped: K, zeroValue: V,
                          replaceItem: Option<(K, V, V) -> Option<V>>)
      ensures Valid() && m == map[] && fresh(buckets)
      ensures keys.wiped == wiped && forall k :: keys.hash(k) == HashInt(genHash(k))
      ensures this.replaceItem == replaceItem && this.zeroValue == zeroValue
      ensures NoTombstones(buckets[..]) && staticBuckets
      ensures GreatestPrime(extBuckets, buckets.Length) && (buckets.Length <= extBuckets <==> extBuckets >= 11)
    {
      PrimesAscend();
      var ix := SearchNearestBelow(extBuckets, PRIMES);
      assert PRIMES[ix] >= PRIMES[0];
      var n: nat := PRIMES[ix];
      var empty := Entry(wiped, 0, 0, false, zeroValue);
      this.keys := Keys(k => HashInt(genHash(k)), wiped);
      this.zeroValue := zeroValue;
      this.replaceItem := replaceItem;
      this.buckets := new Entry<K, V>[n](_ => empty);
      this.usedBuckets := 0;
      this.primeIx := ix;
      this.staticBuckets := true;
      this.m := map[];
    }

    /** dh__find_bucket: the bucket of a live key, or a negative error code exactly when the key is absent */
    method FindBucket(key: K) returns (b: int)
      requires Valid()
      ensures b >= 0 <==> key in m
      ensures b >= 0 ==> b < buckets.Length && buckets[b].Live() && buckets[b].key == key
      ensures b < 0 ==> b == KEY_NOT_FOUND || b == TOO_MANY_PROBES
    {
      var ikey := keys.hash(key);
      var n := buckets.Length;
      b := ikey % n;
      var probes: nat := 1;
      while true
        invariant 1 <= probes <= MAX_PROBE_COUNT
        invariant b == Slot(ikey, probes, n)
        invariant NotOnPath(buckets[..], key, ikey, probes - 1)
        decreases MAX_PROBE_COUNT - probes
      {
        var entry := buckets[b];
        if !entry.InUse() || probes > entry.probes {
          AbsentWhenShort(buckets[..], keys, m, key, probes);
          return KEY_NOT_FOUND;
        } else if !entry.deleted && entry.ikey == ikey && entry.key == key {
          return b;
        }
        MissExtends(buckets[..], keys, key, probes);
        b := Next(b, n);
        if probes < MAX_PROBE_COUNT {
          probes := probes + 1;
        } else {
          AbsentAtCap(buckets[..], keys, m, key);
          return TOO_MANY_PROBES;
        }
      }
    }

    /** dh_lookup */
    method Lookup(key: K) returns (value: Option<V>)
      requires Valid()
      ensures value == if key in m then Some(m[key]) else None
    {
      var b := FindBucket(key);
      if b >= 0 {
        value := Some(buckets[b].value);
      } else {
        value := None;
      }
    }

    /** dh_remove */
    method Remove(key: K) returns (removed: Option<V>)
      requires Valid()
      modifies this`usedBuckets, this`m, buckets
      ensures Valid()
      ensures removed == if key in old(m) then Some(old(m)[key]) else None
      ensures m == old(m) - {key}
    {
      var b := FindBucket(key);
      if b >= 0 {
        removed := Some(buckets[b].value);
        Bury(b, key);
      } else {
        removed := None;
      }
    }

    // One store to the bucket array
    method Store(b: nat, e: Entry<K, V>)
      requires b < buckets.Length
      modifies buckets
      ensures buckets[..] == old(buckets[..])[b := e]
    {
      buckets[b] := e;
    }

    // Turn a live bucket into a tombstone
    method Bury(b: nat, ghost key: K)
      requires Valid() && b < buckets.Length && buckets[b].Live() && buckets[b].key == key
      modifies this`usedBuckets, this`m, buckets
      ensures Valid() && m == old(m) - {key}
    {
      Buried(buckets[..], keys, m, b, zeroValue);
      Store(b, Entry(keys.wiped, 0, buckets[b].probes, true, zeroValue));
      usedBuckets := usedBuckets - 1;
      m := m - {key};
    }

    // Put the carried item into a fresh bucket or a tombstone
    method Settle(b: nat, item: Entry<K, V>, ghost robbed: bool)
      requires Valid() && Carried(buckets[..], keys, m, item, robbed)
      requires b == Slot(item.ikey, item.probes, buckets.Length) && !buckets[b].Live()
      requires buckets[b].probes < item.probes
      modifies this`usedBuckets, this`m, buckets
      ensures Valid()
      ensures m == old(m)[item.key := item.value] && buckets[..] == old(buckets[..])[b := item]
      ensures NoTombstones(old(buckets[..])) ==> NoTombstones(buckets[..])
    {
      CarriedIsAbsent(buckets[..], keys, m, item, robbed);
      Placed(buckets[..], keys, m, b, item);
      Store(b, item);
      usedBuckets := usedBuckets + 1;
      m := m[item.key := item.value];
    }

    // Swap the carried item with a live entry that is closer to its home
    method Rob(b: nat, item: Entry<K, V>, ghost robbed: bool) returns (evicted: Entry<K, V>)
      requires Valid() && Carried(buckets[..], keys, m, item, robbed)
      requires b == Slot(item.ikey, item.probes, buckets.Length) && buckets[b].Live() && buckets[b].probes < item.probes
      modifies this`m, buckets
      ensures Valid()
      ensures PassedOn(keys, old(buckets[..]), old(m), item, robbed, buckets[..], m, evicted)
      ensures evicted == old(buckets[b]) && buckets[..] == old(buckets[..])[b := item]
      ensures NoTombstones(old(buckets[..])) ==> NoTombstones(buckets[..])
    {
      evicted := buckets[b];
      Robbed(buckets[..], keys, m, item, b, robbed);
      Store(b, item);
      m := (m - {evicted.key})[item.key := item.value];
    }

    // A bucket that passes the match test is live and holds the caller's key, not a robbed one
    lemma MatchIsLive(b: nat, item: Entry<K, V>, robbed: bool)
      requires Valid() && Carried(buckets[..], keys, m, item, robbed)
      requires b < buckets.Length && buckets[b].InUse() && buckets[b].ikey == item.ikey && buckets[b].key == item.key
      ensures buckets[b].Live() && item.key in m && m[item.key] == buckets[b].value && !robbed
    {
      assert EntryOk(buckets[..], b, keys);
    }

    // The replace callback turns down a new value for a key that is present
    ghost predicate Refuses(was: map<K, V>, key: K, value: V) {
      key in was && replaceItem.Some? && replaceItem.value(key, was[key], value) == None
    }

    // What it makes of a new value otherwise
    ghost function Given(was: map<K, V>, key: K, value: V): V {
      if key in was && replaceItem.Some? then
        var r := replaceItem.value(key, was[key], value); if r.Some? then r.value else value
      else value
    }

    // What an insertion into a table for `was` may leave behind
    ghost predicate InsertOutcome(was: map<K, V>, now: map<K, V>, key: K, value: V, ok: bool) {
      if Refuses(was, key, value) then !ok && now == was
      else if ok then now == was[key := Given(was, key, value)]
      else key !in was && LostOne(now, was[key := value])
    }

    // Replace the value of the matching entry unless the callback objects
    method Replace(b: nat, key: K, value: V) returns (given: Option<V>)
      requires Valid() && b < buckets.Length && buckets[b].Live() && buckets[b].key == key
      requires key in m && m[key] == buckets[b].value
      modifies this`m, buckets
      ensures Valid()
      ensures InsertOutcome(old(m), m, key, value, given.Some?)
      ensures given == if Refuses(old(m), key, value) then None else Some(Given(old(m), key, value))
      ensures buckets[..] == if given.Some? then old(buckets[..])[b := old(buckets[b]).(value := given.value)]
                             else old(buckets[..])
      ensures NoTombstones(old(buckets[..])) ==> NoTombstones(buckets[..])
    {
      var entry := buckets[b];
      given := Some(value);
      if replaceItem.Some? {
        given := replaceItem.value(entry.key, entry.value, value);
        if given.None? {
          return;
        }
      }
      ghost var t := buckets[..];
      Replaced(t, keys, m, b, given.value);
      buckets[b] := entry.(key := key, value := given.value);
      assert buckets[..] == t[b := entry.(value := given.value)];
      m := m[key := given.value];
    }

    // What one bucket of the probe path does with the carried item
    method Visit(b: nat, item: Entry<K, V>, ghost robbed: bool) returns (v: Visited<K, V>)
      requires Valid() && Carried(buckets[..], keys, m, item, robbed)
      requires b == Slot(item.ikey, item.probes, buckets.Length)
      modifies this`usedBuckets, this`m, buckets
      ensures Valid()
      ensures NoTombstones(old(buckets[..])) ==> NoTombstones(buckets[..])
      ensures !v.NoRoom?
      ensures v.Stored? ==>
                && m == old(m)[item.key := v.left]
                && v.left == (if robbed then item.value else Given(old(m), item.key, item.value))
                && (robbed || !Refuses(old(m), item.key, item.value))
      ensures v.Stored? && !StepOf(old(buckets[..]), item).Matches? ==> v.left == item.value
      ensures !v.GoOn? ==> (StepOf(old(buckets[..]), item).Matches? <==> item.key in old(m))
      ensures v == Refused ==> m == old(m) && !robbed && Refuses(m, item.key, item.value)
      ensures v.GoOn? ==> SentOn(keys, old(buckets[..]), old(m), item, robbed, buckets[..], m, v.item)
      ensures StepOf(old(buckets[..]), item).Matches? ==> !robbed
      ensures !v.GoOn? ==> StepEnds(StepOf(old(buckets[..]), item), old(buckets[..]), buckets[..],
                                   if v.Stored? then v.left else item.value, v.Stored?)
    {
      var entry := buckets[b];
      if !entry.InUse() {
        CarriedIsAbsent(buckets[..], keys, m, item, robbed);
        Settle(b, item, robbed);
        return Stored(item.value);
      }
      if entry.ikey == item.ikey && entry.key == item.key {
        MatchIsLive(b, item, robbed);
        var given := Replace(b, item.key, item.value);
        return if given.Some? then Stored(given.value) else Refused;
      }
      if entry.probes < item.probes {
        CarriedIsAbsent(buckets[..], keys, m, item, robbed);
        if entry.deleted {
          Settle(b, item, robbed);
          return Stored(item.value);
        }
        var evicted := Rob(b, item, robbed);
        return GoOn(evicted);
      }
      Passed(buckets[..], keys, m, item, b, robbed);
      return GoOn(item);
    }

    /** dh__insert_ex: a probe that takes the first bucket whose count is below its own, carrying the
        robbed entry on from there. It stops in every table, because each robbery uses up headroom of
        the table and each other step headroom of the carried item. A pair that is left over at the cap
        is the one that Probed says. There is none while a bucket is fresh and fewer buckets than the cap
        have been used; there always is one when all buckets are live and the key is new. */
    method InsertEx(key: K, value: V, ikey: nat) returns (ok: bool, left: V)
      requires Valid() && keys.Admits(key) && ikey == keys.hash(key)
      modifies this`usedBuckets, this`m, buckets
      ensures Valid()
      ensures InsertOutcome(old(m), m, key, value, ok) && InsertedFrom(old(buckets[..]), old(m), key, value, ok, left)
      ensures HasFresh(old(buckets[..])) && |UsedIn(old(buckets[..]))| < MAX_PROBE_COUNT ==>
                (ok <==> !Refuses(old(m), key, value))
      ensures AllLive(old(buckets[..])) && key !in old(m) ==> !ok
      ensures NoTombstones(old(buckets[..])) ==> NoTombstones(buckets[..])
      ensures NoTombstones(old(buckets[..])) && |old(m)| < MAX_PROBE_COUNT && |old(m)| < buckets.Length ==>
                (ok <==> !Refuses(old(m), key, value))
    {
      var item := Entry(key, ikey, 1, false, value);
      ghost var start := Start(buckets[..], m, key, value, Probed(buckets[..], item));
      CrowdedInsert(start.t, item);
      ok, left := ProbeOn(item, start);
    }

    // An insertion that began with these buckets has ended as Probed says, and left this in the caller's buffer
    ghost predicate InsertedFrom(t: seq<Entry<K, V>>, was: map<K, V>, key: K, value: V, ok: bool, left: V)
      requires |t| > 0
      reads this, buckets
    {
      var end := Probed(t, Entry(key, keys.hash(key), 1, false, value));
      && EndsAs(end, buckets[..], Given(was, key, value), ok)
      && left == LeftIn(end, if ok then Given(was, key, value) else value)
      && (end.Lost? ==> m == was[key := value] - {end.item.key}) && (end.Matched? <==> key in was)
    }

    // The probe loop of an insertion
    method ProbeOn(newItem: Entry<K, V>, ghost start: Start<K, V>) returns (ok: bool, left: V)
      requires Valid() && Underway(start, keys, buckets[..], m, newItem, false) && newItem.probes == 1
      modifies this`usedBuckets, this`m, buckets
      ensures Valid() && Inserted(start, ok, left)
    {
      var n := buckets.Length;
      var item := newItem;
      var b: nat := item.ikey % n;
      ghost var robbed := false;
      while true
        invariant Valid() && Underway(start, keys, buckets[..], m, item, robbed)
        invariant b == Slot(item.ikey, item.probes, n)
        decreases Headroom(buckets[..]), MAX_PROBE_COUNT - item.probes
      {
        var v := Probe(b, item, start, robbed);
        if !v.GoOn? {
          return v.Stored?, if v == Refused then item.value else v.left;
        }
        robbed := robbed || v.item != item.(probes := item.probes + 1);
        item := v.item;
        b := Next(b, n);
      }
    }

    // One probe of an insertion, up to the cap
    method Probe(b: nat, item: Entry<K, V>, ghost start: Start<K, V>, ghost robbed: bool) returns (v: Visited<K, V>)
      requires Valid() && Underway(start, keys, buckets[..], m, item, robbed)
               && b == Slot(item.ikey, item.probes, buckets.Length)
      modifies this`usedBuckets, this`m, buckets
      ensures Valid()
      ensures v.GoOn? ==> NextUnderway(start, keys, old(buckets[..]), item, robbed, buckets[..], m, v.item)
      ensures !v.GoOn? ==> Inserted(start, v.Stored?, if v == Refused then item.value else v.left)
    {
      ghost var t, was := buckets[..], m;
      v := Visit(b, item, robbed);
      if !v.GoOn? {
        Ends(start, t, was, item, robbed, v.Stored?, if v == Refused then item.value else v.left);
        return;
      }
      var sent := v.item;
      if sent.probes >= MAX_PROBE_COUNT {
        v := NoRoom(sent.value);
        IsLeftOver(start, t, was, item, robbed, sent);
      } else {
        v := GoOn(sent.(probes := sent.probes + 1));
        GoesOn(start, keys, t, was, item, robbed, buckets[..], m, sent, v.item);
      }
    }

    lemma Ends(start: Start<K, V>, t: seq<Entry<K, V>>, was: map<K, V>, item: Entry<K, V>, robbed: bool, ok: bool,
               left: V)
      requires Underway(start, keys, t, was, item, robbed)
      requires StepEnds(StepOf(t, item), t, buckets[..], left, ok) && (StepOf(t, item).Matches? ==> !robbed)
      requires ok ==> m == was[item.key := left] && (robbed || !Refuses(was, item.key, item.value))
      requires left == if !ok || robbed then item.value else Given(was, item.key, item.value)
      requires if StepOf(t, item).Matches? then item.key in was else item.key !in was && (ok ==> left == item.value)
      requires !ok ==> m == was && !robbed && Refuses(m, item.key, item.value)
      requires NoTombstones(t) ==> NoTombstones(buckets[..])
      ensures Inserted(start, ok, left)
    {
      OnWayEnds(t, item, buckets[..], ok, left, start.t, start.end);
    }

    lemma IsLeftOver(start: Start<K, V>, t: seq<Entry<K, V>>, was: map<K, V>, item: Entry<K, V>, robbed: bool,
                     next: Entry<K, V>)
      requires Underway(start, keys, t, was, item, robbed) && SentOn(keys, t, was, item, robbed, buckets[..], m, next)
      requires Represents(buckets[..], keys, m) && next.probes >= MAX_PROBE_COUNT
      ensures Inserted(start, false, next.value)
    {
      ComesToCap(start, keys, t, was, item, robbed, buckets[..], m, next);
    }

    // What an insertion that started like this has done
    ghost predicate Inserted(a: Start<K, V>, ok: bool, left: V)
      reads this, buckets
    {
      && InsertOutcome(a.m, m, a.key, a.value, ok)
      && EndsAs(a.end, buckets[..], Given(a.m, a.key, a.value), ok)
      && left == LeftIn(a.end, if ok then Given(a.m, a.key, a.value) else a.value)
      && (a.end.Lost? ==> m == a.m[a.key := a.value] - {a.end.item.key})
      && (LossNeeds(a) || (ok <==> !Refuses(a.m, a.key, a.value)))
      && (a.end.Matched? <==> a.key in a.m)
      && (NoTombstones(a.t) ==> NoTombstones(buckets[..]))
    }

    // Where every bucket is live and the key is new, Probed says that a pair is left over
    lemma CrowdedInsert(t: seq<Entry<K, V>>, item: Entry<K, V>)
      requires Valid() && t == buckets[..] && item.Live() && item.probes == 1 && keys.Admits(item.key)
               && item.ikey == keys.hash(item.key)
      ensures AllLive(t) && item.key !in m ==> Probed(t, item).Lost?
    {
      if AllLive(t) && item.key !in m {
        FullTableLoses(t, keys, m, item);
      }
    }

    /** dh__grow. Whether the storage limit, the owner's callback and the allocator let it go ahead is
        the caller's `granted`. Fewer pairs than the probe cap always all find a bucket; with more, the
        ignored insertion results could hide a loss, but nothing is ever invented. */
    method Grow(newBuckets: nat, granted: bool) returns (ok: bool)
      requires Valid()
      modifies this
      ensures Valid() && staticBuckets == old(staticBuckets)
      ensures ok <==> granted && !staticBuckets
      ensures !ok ==> m == old(m) && buckets == old(buckets)
      ensures ok ==> fresh(buckets) && NoTombstones(buckets[..]) && SubMap(m, old(m))
      ensures ok && |old(m)| < MAX_PROBE_COUNT ==> m == old(m)
      ensures ok ==>
                LeastPrime(if newBuckets <= old(buckets.Length) then old(buckets.Length) + 1 else newBuckets,
                           buckets.Length)
    {
      if staticBuckets {
        return false;
      }
      var oldBuckets := buckets;
      var wanted := if newBuckets <= oldBuckets.Length then oldBuckets.Length + 1 else newBuckets;
      if !granted {
        return false;
      }
      ghost var t, was := oldBuckets[..], m;
      StartOver(wanted);
      CopyAll(oldBuckets, was);
      return true;
    }

    // Reinsert the live buckets of the old array
    method CopyAll(oldBuckets: array<Entry<K, V>>, ghost was: map<K, V>)
      requires Valid() && NoTombstones(buckets[..]) && m == map[]
      requires oldBuckets != buckets && Represents(oldBuckets[..], keys, was) && oldBuckets.Length <= buckets.Length
      modifies this`usedBuckets, this`m, buckets
      ensures Valid() && NoTombstones(buckets[..])
      ensures SubMap(m, was)
      ensures |was| < MAX_PROBE_COUNT ==> m == was
    {
      ghost var t := oldBuckets[..];
      NoMorePairsThanBuckets(t, keys, was);
      for b := 0 to oldBuckets.Length
        invariant Valid() && NoTombstones(buckets[..])
        invariant oldBuckets[..] == t
        invariant Copied(t[..b], was, m, |was| < MAX_PROBE_COUNT)
      {
        var entry := oldBuckets[b];
        if entry.InUse() && !entry.deleted {
          CopyEntry(entry, b, t, was);
        } else {
          CopySkips(t, was, m, b, |was| < MAX_PROBE_COUNT);
        }
      }
      assert t[..oldBuckets.Length] == t;
      if |was| < MAX_PROBE_COUNT {
        CopiedAll(t, was, m);
      }
    }

    // Reinsert one live bucket of the old array
    method CopyEntry(entry: Entry<K, V>, ghost b: nat, ghost t: seq<Entry<K, V>>, ghost was: map<K, V>)
      requires Valid() && NoTombstones(buckets[..])
      requires Represents(t, keys, was) && b < |t| && |was| <= |t| <= buckets.Length && entry == t[b] && entry.Live()
      requires Copied(t[..b], was, m, |was| < MAX_PROBE_COUNT)
      modifies this`usedBuckets, this`m, buckets
      ensures Valid() && NoTombstones(buckets[..])
      ensures Copied(t[..b + 1], was, m, |was| < MAX_PROBE_COUNT)
    {
      assert EntryOk(t, b, keys);
      CopyIsNew(t, was, m, b);
      var _, _ := InsertEx(entry.key, entry.value, entry.ikey);
      CopyGrows(t, was, old(m), m, b, |was| < MAX_PROBE_COUNT);
    }

    // A new zeroed bucket array of the least listed prime size that fits
    method StartOver(wanted: nat)
      requires Valid() && wanted > buckets.Length
      modifies this
      ensures Valid() && m == map[] && fresh(buckets) && NoTombstones(buckets[..])
      ensures staticBuckets == old(staticBuckets)
      ensures buckets.Length >= old(buckets.Length) && LeastPrime(wanted, buckets.Length)
    {
      PrimesAscend();
      var ix := SearchNearestAbove(wanted, PRIMES);
      assert PRIMES[ix] >= PRIMES[0];
      assert PRIMES[ix] >= PRIMES[primeIx];
      var n: nat := PRIMES[ix];
      var empty := FreshEntry();
      buckets := new Entry<K, V>[n](_ => empty);
      usedBuckets := 0;
      primeIx := ix;
      m := map[];
    }

    /** dh_insert: an insertion, after growth once the load is too high, and what it leaves in the caller's buffer.
        `kept` is what growth has kept of the map, and `begun` the buckets that the insertion began with. A false result
        is growth turned down or a replacement refused, both of which leave the map alone, or the one pair too many that
        the insertion of a new key has left over. */
    method Insert(key: K, value: V, granted: bool)
      returns (ok: bool, left: V, ghost kept: map<K, V>, ghost begun: seq<Entry<K, V>>)
      requires Valid() && keys.Admits(key)
      modifies this, buckets
      ensures Valid() && staticBuckets == old(staticBuckets)
      ensures if old(TurnsDown(granted)) then !ok && m == old(m) && left == value
              else
                && InsertOutcome(kept, m, key, value, ok) && Represents(begun, keys, kept)
                && InsertedFrom(begun, kept, key, value, ok, left)
      ensures buckets == old(buckets) || (granted && !staticBuckets && fresh(buckets))
      ensures SubMap(kept, old(m)) && (|old(m)| < MAX_PROBE_COUNT ==> kept == old(m))
      ensures |old(m)| < MaxLoad(old(buckets.Length)) ==>
                kept == old(m) && begun == old(buckets[..]) && buckets == old(buckets)
      ensures MaxLoad(old(buckets.Length)) <= |old(m)| < MAX_PROBE_COUNT && granted && !old(staticBuckets) ==>
                (ok <==> !Refuses(old(m), key, value))
      ensures |old(m)| < MaxLoad(old(buckets.Length)) && HasFresh(old(buckets[..]))
              && |UsedIn(old(buckets[..]))| < MAX_PROBE_COUNT ==>
                (ok <==> !Refuses(old(m), key, value))
      ensures NoTombstones(old(buckets[..])) ==> NoTombstones(buckets[..])
      ensures |old(m)| < MaxLoad(old(buckets.Length)) && NoTombstones(old(buckets[..]))
              && |old(m)| < MAX_PROBE_COUNT ==>
                (ok <==> !Refuses(old(m), key, value))
    {
      var ready := MakeRoom(granted);
      kept, begun := m, buckets[..];
      if !ready {
        return false, value, kept, begun;
      }
      ok, left := InsertEx(key, value, keys.hash(key));
    }

    // Growth, once the load is too high
    method MakeRoom(granted: bool) returns (ready: bool)
      requires Valid()
      modifies this
      ensures Valid() && staticBuckets == old(staticBuckets) && ready == !old(TurnsDown(granted))
      ensures !ready ==> m == old(m) && buckets == old(buckets)
      ensures SubMap(m, old(m)) && (|old(m)| < MAX_PROBE_COUNT ==> m == old(m))
      ensures |old(m)| < MaxLoad(old(buckets.Length)) ==> m == old(m) && buckets == old(buckets)
      ensures buckets == old(buckets) || (granted && !staticBuckets && fresh(buckets) && NoTombstones(buckets[..]))
      ensures ready && |old(m)| >= MaxLoad(old(buckets.Length)) ==>
                NoTombstones(buckets[..]) && (|m| < buckets.Length || |m| >= MAX_PROBE_COUNT)
    {
      if usedBuckets >= MaxLoad(buckets.Length) {
        NoMorePairsThanBuckets(buckets[..], keys, m);
        var grown := Grow(0, granted);
        if !grown {
          return false;
        }
        RoomAfterGrowth(old(buckets.Length), buckets.Length);
        FewerPairs(m, old(m));
      }
      return true;
    }

    // The load is too high, and growth is not possible
    /** An insertion finds too many pairs from 15/16 of the buckets on, counting its own, and is turned down then if the
        table cannot grow. */
    lemma TurnsDownIff(granted: bool)
      requires Valid()
      ensures TurnsDown(granted) <==> 16 * (|m| + 1) > 15 * buckets.Length && (staticBuckets || !granted)
    {
    }

    predicate TurnsDown(granted: bool)
      reads this
    {
      usedBuckets >= MaxLoad(buckets.Length) && !(granted && !staticBuckets)
    }
  }

  /** dh_iter_init and dh_iter_next */
  class DhIter<K(==), V> {
    const hash: DHash<K, V>
    var bucket: int

    ghost predicate Valid()
      reads this, hash
    {
      -1 <= bucket <= hash.buckets.Length
    }

    // What the iterator has still to deliver
    ghost function Remaining(): seq<(K, V)>
      requires Valid()
      reads this, hash, hash.buckets
    {
      LiveFrom(hash.buckets[..], if bucket == hash.buckets.Length then bucket else bucket + 1)
    }

    constructor (hash: DHash<K, V>)
      ensures this.hash == hash && Valid() && Remaining() == LiveFrom(hash.buckets[..], 0)
    {
      this.hash := hash;
      this.bucket := -1;
    }

    method Next() returns (item: Option<(K, V)>)
      requires Valid()
      modifies this
      ensures Valid()
      ensures old(Remaining()) == [] ==> item == None && Remaining() == []
      ensures old(Remaining()) != [] ==> item == Some(old(Remaining())[0]) && Remaining() == old(Remaining())[1..]
    {
      var n := hash.buckets.Length;
      bucket := bucket + 1;
      if bucket >= n {
        bucket := n;
        return None;
      }
      while bucket < n
        invariant 0 <= bucket <= n
        invariant LiveFrom(hash.buckets[..], bucket) == old(Remaining())
      {
        var entry := hash.buckets[bucket];
        if entry.InUse() && !entry.deleted {
          return Some((entry.key, entry.value));
        }
        bucket := bucket + 1;
      }
      return None;
    }
  }

  lemma FewerPairs<K, V>(a: map<K, V>, b: map<K, V>)
    requires SubMap(a, b)
    ensures |a| <= |b|
  {
    assert a.Keys <= b.Keys;
    SubsetSize(a.Keys, b.Keys);
  }

  lemma RoomAfterGrowth(before: nat, after: nat)
    requires LeastPrime(before + 1, after)
    ensures after > before || after > MAX_PROBE_COUNT
  {
    PrimesAscend();
    PrimesIncrease(43, 51);
  }

  /** The least listed bucket count that is at least `wanted`, or the greatest listed one */
  ghost predicate LeastPrime(wanted: int, n: int) {
    exists ix: nat :: ix < |PRIMES| && PRIMES[ix] == n
                      && (forall j: nat | j < ix :: PRIMES[j] < wanted)
                      && (n >= wanted || ix == |PRIMES| - 1)
  }

  /** The greatest listed bucket count that is at most `room`, or the least listed one */
  ghost predicate GreatestPrime(room: int, n: int) {
    exists ix: nat :: ix < |PRIMES| && PRIMES[ix] == n
                      && (forall j: nat | ix < j < |PRIMES| :: PRIMES[j] > room)
                      && (n <= room || ix == 0)
  }

  ghost predicate SubMap<K, V>(a: map<K, V>, b: map<K, V>) {
    forall k | k in a :: k in b && a[k] == b[k]
  }

  // The pairs copied so far come from the old buckets seen so far, and are all of them if `whole`
  ghost predicate Copied<K, V>(seen: seq<Entry<K, V>>, was: map<K, V>, now: map<K, V>, whole: bool) {
    && SubMap(now, was)
    && (forall k | k in now :: HasKey(seen, k))
    && (whole ==> forall i: nat | i < |seen| && seen[i].Live() :: seen[i].key in now)
  }

  lemma CopyIsNew<K, V>(t: seq<Entry<K, V>>, was: map<K, V>, now: map<K, V>, b: nat)
    requires Stores(t, was) && b < |t| && t[b].Live() && Copied(t[..b], was, now, false)
    ensures t[b].key !in now && |now| < |was|
  {
    assert !HasKey(t[..b], t[b].key);
    assert now.Keys <= was.Keys - {t[b].key};
    SubsetSize(now.Keys, was.Keys - {t[b].key});
  }

  lemma CopyGrows<K, V>(t: seq<Entry<K, V>>, was: map<K, V>, before: map<K, V>, now: map<K, V>, b: nat, whole: bool)
    requires Stores(t, was) && b < |t| && t[b].Live() && Copied(t[..b], was, before, whole)
    requires now == before[t[b].key := t[b].value] || (!whole && LostOne(now, before[t[b].key := t[b].value]))
    ensures Copied(t[..b + 1], was, now, whole)
  {
    var more := before[t[b].key := t[b].value];
    assert SubMap(now, more);
    forall k | k in now ensures HasKey(t[..b + 1], k) {
      if k == t[b].key {
        assert t[..b + 1][b].Live();
      } else {
        HasKeyGrows(t, b, k);
      }
    }
  }

  lemma CopySkips<K, V>(t: seq<Entry<K, V>>, was: map<K, V>, now: map<K, V>, b: nat, whole: bool)
    requires b < |t| && !t[b].Live() && Copied(t[..b], was, now, whole)
    ensures Copied(t[..b + 1], was, now, whole)
  {
    forall k | k in now ensures HasKey(t[..b + 1], k) {
      HasKeyGrows(t, b, k);
    }
    assert t[..b + 1] == t[..b] + [t[b]];
  }

  lemma CopiedAll<K, V>(t: seq<Entry<K, V>>, was: map<K, V>, now: map<K, V>)
    requires Stores(t, was) && Copied(t, was, now, true)
    ensures now == was
  {
    forall k | k in was ensures k in now && now[k] == was[k] {
      assert HasKey(t, k);
    }
  }

  lemma HasKeyGrows<K, V>(t: seq<Entry<K, V>>, b: nat, k: K)
    requires b < |t| && HasKey(t[..b], k)
    ensures HasKey(t[..b + 1], k)
  {
    var i: nat :| i < |t[..b]| && t[..b][i].Live() && t[..b][i].key == k;
    assert t[..b + 1][i].Live() && t[..b + 1][i].key == k;
  }

  // What a visited bucket did with the carried item
  datatype Visited<K, V> = Stored(left: V) | Refused | NoRoom(left: V) | GoOn(item: Entry<K, V>)

  // One pair of the intended map did not find a bucket before the probe counter ran out
  ghost predicate LostOne<K, V>(got: map<K, V>, want: map<K, V>) {
    exists k :: k in want && got == want - {k}
  }
}
