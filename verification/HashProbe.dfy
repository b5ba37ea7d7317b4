// The probe loop of an insertion into the buckets of src/util/dhash.c, from the first bucket to the last, and when it
// runs into the probe cap.
module HashProbe {
  import opened HashTable
  import opened Wrappers

  /** What one bucket of the path does: it takes the item, it holds the key of the item, or it passes an item on. */
  datatype Stepped<K, V> = Takes(t: seq<Entry<K, V>>) | Matches(i: nat) | Passes(t: seq<Entry<K, V>>, item: Entry<K, V>)

  ghost function StepOf<K, V>(t: seq<Entry<K, V>>, item: Entry<K, V>): Stepped<K, V>
    requires |t| > 0 && item.probes > 0
  {
    var b := Slot(item.ikey, item.probes, |t|);
    if !t[b].InUse() then Takes(t[b := item])
    else if t[b].ikey == item.ikey && t[b].key == item.key then Matches(b)
    else if t[b].probes >= item.probes then Passes(t, item)
    else if t[b].deleted then Takes(t[b := item])
    else Passes(t[b := item], t[b])
  }

  /** How an insertion ends: the table takes the item it has carried last, a bucket holds the key already, or the item
      is left over. */
  datatype Probing<K, V> =
    | Done(t: seq<Entry<K, V>>, item: Entry<K, V>)
    | Matched(t: seq<Entry<K, V>>, i: nat)
    | Lost(t: seq<Entry<K, V>>, item: Entry<K, V>)

  /** This is the table that such an ending leaves: a match has this value in place of its own, unless it is refused. */
  ghost predicate EndsAs<K, V>(r: Probing<K, V>, t: seq<Entry<K, V>>, value: V, ok: bool) {
    match r
    case Done(t', _) => ok && t == t'
    case Matched(t', i) => i < |t'| && t == if ok then t'[i := t'[i].(value := value)] else t'
    case Lost(t', _) => !ok && t == t'
  }

  /** And this is in the caller's buffer then: what was carried last, for a robbed entry is swapped into it. */
  ghost function LeftIn<K, V>(r: Probing<K, V>, value: V): V {
    match r
    case Done(_, item) => item.value
    case Matched(_, _) => value
    case Lost(_, item) => item.value
  }

  // This is what one bucket leaves when it does not pass an item on
  ghost predicate StepEnds<K, V>(s: Stepped<K, V>, was: seq<Entry<K, V>>, t: seq<Entry<K, V>>, value: V, ok: bool) {
    match s
    case Takes(t') => ok && t == t'
    case Matches(i) => i < |was| && t == if ok then was[i := was[i].(value := value)] else was
    case Passes(_, _) => false
  }

  lemma StepShrinks<K, V>(t: seq<Entry<K, V>>, item: Entry<K, V>)
    requires |t| > 0 && 0 < item.probes <= MAX_PROBE_COUNT && StepOf(t, item).Passes?
    ensures var s := StepOf(t, item);
            && |s.t| == |t| && 0 < s.item.probes <= MAX_PROBE_COUNT
            && ((s.t == t && s.item == item) || Headroom(s.t) < Headroom(t))
  {
    var b := Slot(item.ikey, item.probes, |t|);
    if t[b].probes < item.probes {
      HeadroomFalls(t, b, item);
    }
  }

  ghost function Probed<K, V>(t: seq<Entry<K, V>>, item: Entry<K, V>): (r: Probing<K, V>)
    requires |t| > 0 && 0 < item.probes <= MAX_PROBE_COUNT
    decreases Headroom(t), MAX_PROBE_COUNT - item.probes
  {
    match StepOf(t, item)
    case Takes(t') => Done(t', item)
    case Matches(i) => Matched(t, i)
    case Passes(t', item') =>
      StepShrinks(t, item);
      if item'.probes < MAX_PROBE_COUNT then Probed(t', item'.(probes := item'.probes + 1)) else Lost(t', item')
  }

  lemma ProbedOn<K, V>(t: seq<Entry<K, V>>, item: Entry<K, V>, t': seq<Entry<K, V>>, item': Entry<K, V>)
    requires |t| > 0 && 0 < item.probes <= MAX_PROBE_COUNT && StepOf(t, item) == Passes(t', item')
    ensures |t'| == |t| && 0 < item'.probes <= MAX_PROBE_COUNT
    ensures ((t' == t && item' == item) || Headroom(t') < Headroom(t))
    ensures Probed(t, item)
            == if item'.probes < MAX_PROBE_COUNT then Probed(t', item'.(probes := item'.probes + 1))
               else Lost(t', item')
  {
    StepShrinks(t, item);
  }

  // ---- When an item can be left over ----

  /** The buckets that have ever been used. */
  ghost function UsedIn<K, V>(t: seq<Entry<K, V>>): set<nat> { set b: nat | b < |t| && t[b].InUse() }

  ghost predicate HasFresh<K, V>(t: seq<Entry<K, V>>) { exists b: nat :: b < |t| && !t[b].InUse() }

  lemma StepKeepsUsed<K, V>(t: seq<Entry<K, V>>, item: Entry<K, V>)
    requires |t| > 0 && item.probes > 0 && StepOf(t, item).Passes?
    ensures UsedIn(StepOf(t, item).t) == UsedIn(t) && |StepOf(t, item).t| == |t|
    ensures HasFresh(StepOf(t, item).t) == HasFresh(t)
  {
    var t' := StepOf(t, item).t;
    assert forall b: nat | b < |t| :: t'[b].InUse() == t[b].InUse();
    if HasFresh(t) {
      var b: nat :| b < |t| && !t[b].InUse();
      assert !t'[b].InUse();
    }
  }

  // The buckets of the first p probes
  ghost function SlotsAlong(ikey: nat, p: nat, n: nat): set<nat>
    requires n > 0
  {
    set j: nat | 1 <= j <= p :: Slot(ikey, j, n)
  }

  lemma {:induction false} SlotsAlongCount(ikey: nat, p: nat, n: nat)
    requires 0 < n && p <= n
    ensures |SlotsAlong(ikey, p, n)| == p
  {
    if p > 0 {
      SlotsAlongCount(ikey, p - 1, n);
      forall j: nat | 1 <= j <= p - 1 ensures Slot(ikey, j, n) != Slot(ikey, p, n) {
        SlotsDiffer(ikey, j, p, n);
      }
      assert SlotsAlong(ikey, p, n) == SlotsAlong(ikey, p - 1, n) + {Slot(ikey, p, n)};
    } else {
      assert SlotsAlong(ikey, p, n) == {};
    }
  }

  // A path as long as the table meets every bucket
  lemma PathMeets(ikey: nat, b: nat, n: nat) returns (j: nat)
    requires b < n
    ensures 1 <= j <= n && Slot(ikey, j, n) == b
  {
    var home := ikey % n;
    j := if b >= home then b - home + 1 else b + n - home + 1;
    SlotIs(ikey, j, n);
  }

  /** A path that holds up to the cap takes as many used buckets as the cap, or all of them. */
  lemma CapNeedsUse<K, V>(t: seq<Entry<K, V>>, ikey: nat)
    requires |t| > 0 && PathHolds(t, ikey, MAX_PROBE_COUNT)
    ensures |UsedIn(t)| >= MAX_PROBE_COUNT || !HasFresh(t)
  {
    if |t| <= MAX_PROBE_COUNT {
      forall b: nat | b < |t| ensures t[b].InUse() {
        var j := PathMeets(ikey, b, |t|);
        assert t[Slot(ikey, j, |t|)].probes >= j;
      }
    } else {
      SlotsAlongCount(ikey, MAX_PROBE_COUNT, |t|);
      SubsetSize(SlotsAlong(ikey, MAX_PROBE_COUNT, |t|), UsedIn(t));
    }
  }

  /** An insertion into t0 has come to this table and item, and will end like this. */
  ghost predicate OnWay<K, V>(t: seq<Entry<K, V>>, item: Entry<K, V>, t0: seq<Entry<K, V>>, end: Probing<K, V>) {
    && |t| > 0 && 0 < item.probes <= MAX_PROBE_COUNT && Probed(t, item) == end
    && UsedIn(t) == UsedIn(t0) && HasFresh(t) == HasFresh(t0)
  }

  lemma OnWayStep<K, V>(t: seq<Entry<K, V>>, item: Entry<K, V>, t': seq<Entry<K, V>>, item': Entry<K, V>,
                        t0: seq<Entry<K, V>>, end: Probing<K, V>)
    requires OnWay(t, item, t0, end) && StepOf(t, item) == Passes(t', item') && PathHolds(t', item'.ikey, item'.probes)
    ensures 0 < item'.probes < MAX_PROBE_COUNT ==> OnWay(t', item'.(probes := item'.probes + 1), t0, end)
    ensures item'.probes >= MAX_PROBE_COUNT ==>
              end == Lost(t', item') && (|UsedIn(t0)| >= MAX_PROBE_COUNT || !HasFresh(t0))
  {
    ProbedOn(t, item, t', item');
    StepKeepsUsed(t, item);
    if item'.probes >= MAX_PROBE_COUNT {
      CapNeedsUse(t', item'.ikey);
    }
  }

  lemma OnWayEnds<K, V>(t: seq<Entry<K, V>>, item: Entry<K, V>, t': seq<Entry<K, V>>, ok: bool, value: V,
                        t0: seq<Entry<K, V>>, end: Probing<K, V>)
    requires OnWay(t, item, t0, end) && StepEnds(StepOf(t, item), t, t', value, ok)
    ensures EndsAs(end, t', value, ok) && !end.Lost? && (end.Done? ==> end.item == item)
    ensures end.Matched? <==> StepOf(t, item).Matches?
  {
  }

  // ---- What is left in the caller's buffer ----

  /** The entry that an insertion robs last. */
  ghost function LastRobbed<K, V>(t: seq<Entry<K, V>>, item: Entry<K, V>): (r: Option<Entry<K, V>>)
    requires |t| > 0 && 0 < item.probes <= MAX_PROBE_COUNT
    decreases Headroom(t), MAX_PROBE_COUNT - item.probes
  {
    match StepOf(t, item)
    case Takes(_) => None
    case Matches(_) => None
    case Passes(t', item') =>
      StepShrinks(t, item);
      var later := if item'.probes < MAX_PROBE_COUNT then LastRobbed(t', item'.(probes := item'.probes + 1)) else None;
      if later.Some? then later else if t' != t then Some(item') else None
  }

  /** Its value is in the buffer then, or the caller's own if there is none. */
  lemma {:induction false} BufferIs<K, V>(t: seq<Entry<K, V>>, item: Entry<K, V>)
    requires |t| > 0 && 0 < item.probes <= MAX_PROBE_COUNT && !Probed(t, item).Matched?
    ensures LeftIn(Probed(t, item), item.value)
            == if LastRobbed(t, item).Some? then LastRobbed(t, item).value.value else item.value
    decreases Headroom(t), MAX_PROBE_COUNT - item.probes
  {
    match StepOf(t, item)
    case Takes(_) =>
    case Matches(_) =>
    case Passes(t', item') =>
      ProbedOn(t, item, t', item');
      if t' == t {
        SameTable(t, item);
      }
      if item'.probes < MAX_PROBE_COUNT {
        BufferIs(t', item'.(probes := item'.probes + 1));
      }
  }

  // A bucket that is robbed changes, since its count does
  lemma SameTable<K, V>(t: seq<Entry<K, V>>, item: Entry<K, V>)
    requires |t| > 0 && 0 < item.probes && StepOf(t, item).Passes? && StepOf(t, item).t == t
    ensures StepOf(t, item).item == item
  {
    var b := Slot(item.ikey, item.probes, |t|);
    if t[b].probes < item.probes {
      assert t[b := item][b] == item;
    }
  }

  // ---- An insertion under way ----

  // The table, the map and the pair of an insertion, and how Probed says it ends
  datatype Start<K, V> = Start(t: seq<Entry<K, V>>, m: map<K, V>, key: K, value: V, end: Probing<K, V>)

  // The insertion has come to this table, map and carried item
  ghost predicate Underway<K, V>(a: Start<K, V>, c: Keys<K>, t: seq<Entry<K, V>>, m: map<K, V>, item: Entry<K, V>,
                                 robbed: bool) {
    && Carried(t, c, m, item, robbed) && |t| == |a.t|
    && |m| == |a.m| && m[item.key := item.value] == a.m[a.key := a.value]
    && (if robbed then a.key !in a.m else m == a.m && item.key == a.key && item.value == a.value)
    && (NoTombstones(a.t) ==> NoTombstones(t))
    && OnWay(t, item, a.t, a.end)
  }

  // A bucket has sent an item on
  ghost predicate SentOn<K, V>(c: Keys<K>, t: seq<Entry<K, V>>, m: map<K, V>, item: Entry<K, V>, robbed: bool,
                               t': seq<Entry<K, V>>, m': map<K, V>, item': Entry<K, V>) {
    && PassedOn(c, t, m, item, robbed, t', m', item')
    && StepOf(t, item) == Passes(t', item')
    && (NoTombstones(t) ==> NoTombstones(t'))
  }

  // The insertion goes on with the next probe of the item that was sent on
  ghost predicate NextUnderway<K, V>(a: Start<K, V>, c: Keys<K>, t: seq<Entry<K, V>>, item: Entry<K, V>, robbed: bool,
                                     t': seq<Entry<K, V>>, m': map<K, V>, next: Entry<K, V>) {
    && item.probes > 0 && next.probes > 0 && |t'| == |t| > 0
    && Underway(a, c, t', m', next, robbed || next != item.(probes := item.probes + 1))
    && Slot(next.ikey, next.probes, |t'|) == Next(Slot(item.ikey, item.probes, |t|), |t|)
    && (Headroom(t') < Headroom(t) || (t' == t && next.probes > item.probes))
  }

  lemma GoesOn<K, V>(a: Start<K, V>, c: Keys<K>, t: seq<Entry<K, V>>, m: map<K, V>, item: Entry<K, V>, robbed: bool,
                     t': seq<Entry<K, V>>, m': map<K, V>, sent: Entry<K, V>, next: Entry<K, V>)
    requires Underway(a, c, t, m, item, robbed) && SentOn(c, t, m, item, robbed, t', m', sent)
    requires 0 < sent.probes < MAX_PROBE_COUNT && next == sent.(probes := sent.probes + 1)
    ensures NextUnderway(a, c, t, item, robbed, t', m', next)
  {
    OnWayStep(t, item, t', sent, a.t, a.end);
    CarriedOn(a, t, m, item, robbed, m', sent);
    Advanced(t', c, m', sent, robbed || sent != item);
    assert next == item.(probes := item.probes + 1) ==> next.(probes := sent.probes) == item;
  }

  // The map keeps the same pairs with the carried one
  lemma CarriedOn<K, V>(a: Start<K, V>, t: seq<Entry<K, V>>, m: map<K, V>, item: Entry<K, V>, robbed: bool,
                        m': map<K, V>, item': Entry<K, V>)
    requires m[item.key := item.value] == a.m[a.key := a.value]
    requires m'[item'.key := item'.value] == m[item.key := item.value]
    requires if robbed then a.key !in a.m else m == a.m && item.key == a.key && item.value == a.value
    requires item' == item || item.key !in m
    requires item' == item ==> m' == m
    ensures m'[item'.key := item'.value] == a.m[a.key := a.value]
    ensures if robbed || item' != item then a.key !in a.m else m' == a.m && item'.key == a.key && item'.value == a.value
  {
  }

  /** What it takes to leave a pair over. */
  ghost predicate LossNeeds<K, V>(a: Start<K, V>) {
    && (|UsedIn(a.t)| >= MAX_PROBE_COUNT || !HasFresh(a.t))
    && (NoTombstones(a.t) ==> |a.m| >= MAX_PROBE_COUNT || |a.m| >= |a.t|)
  }

  lemma ComesToCap<K, V>(a: Start<K, V>, c: Keys<K>, t: seq<Entry<K, V>>, m: map<K, V>, item: Entry<K, V>, robbed: bool,
                         t': seq<Entry<K, V>>, m': map<K, V>, item': Entry<K, V>)
    requires Underway(a, c, t, m, item, robbed) && SentOn(c, t, m, item, robbed, t', m', item')
    requires item'.probes >= MAX_PROBE_COUNT && Represents(t', c, m')
    ensures a.key !in a.m && a.end == Lost(t', item')
    ensures item'.key in a.m[a.key := a.value] && m' == a.m[a.key := a.value] - {item'.key}
    ensures LossNeeds(a) && (NoTombstones(a.t) ==> NoTombstones(t'))
  {
    OnWayStep(t, item, t', item', a.t, a.end);
    CarriedOn(a, t, m, item, robbed, m', item');
    StepShrinks(t, item);
    assert item'.probes == MAX_PROBE_COUNT;
    if !robbed && item' == item {
      AbsentAtCap(t', c, m', item'.key);
    }
    LeftOver(m', item', a.m[a.key := a.value]);
    if NoTombstones(a.t) {
      CapMeansCrowded(t', c, m', item'.ikey);
    }
  }

  lemma LeftOver<K, V>(m: map<K, V>, item: Entry<K, V>, want: map<K, V>)
    requires item.key !in m && m[item.key := item.value] == want
    ensures item.key in want && m == want - {item.key}
  {
  }

  // Running into the cap without tombstones takes as many pairs as the cap
  lemma CapMeansCrowded<K, V>(t: seq<Entry<K, V>>, c: Keys<K>, m: map<K, V>, ikey: nat)
    requires Represents(t, c, m) && NoTombstones(t) && PathHolds(t, ikey, MAX_PROBE_COUNT)
    ensures |m| >= MAX_PROBE_COUNT || |m| >= |t|
  {
    if |m| < |t| {
      LivePathIsShort(t, c, m, ikey, MAX_PROBE_COUNT);
    }
  }

  ghost predicate AllLive<K, V>(t: seq<Entry<K, V>>) { forall b: nat | b < |t| :: t[b].Live() }

  // Nothing but live buckets, none of which holds the key of the item, and none before its bucket has room
  ghost predicate Crowded<K, V>(t: seq<Entry<K, V>>, c: Keys<K>, m: map<K, V>, item: Entry<K, V>) {
    && Represents(t, c, m) && AllLive(t) && item.Live() && item.probes <= MAX_PROBE_COUNT && item.key !in m
    && c.Admits(item.key) && item.ikey == c.hash(item.key) && PathHolds(t, item.ikey, item.probes - 1)
  }

  lemma CrowdedStep<K, V>(t: seq<Entry<K, V>>, c: Keys<K>, m: map<K, V>, item: Entry<K, V>) returns (m': map<K, V>)
    requires Crowded(t, c, m, item)
    ensures StepOf(t, item).Passes?
    ensures PathHolds(StepOf(t, item).t, StepOf(t, item).item.ikey, StepOf(t, item).item.probes)
    ensures Crowded(StepOf(t, item).t, c, m', StepOf(t, item).item)
  {
    var b := Slot(item.ikey, item.probes, |t|);
    assert t[b].Live() && t[b].key in m && EntryOk(t, b, c);
    m' := m;
    if t[b].probes < item.probes {
      Placed(t, c, m, b, item);
      m' := Without(m, t[b])[item.key := item.value];
      assert AllLive(t[b := item]);
    }
  }

  /** With nothing but live buckets, none of which holds the key, an item is always left over. */
  lemma {:induction false} FullTableLoses<K, V>(t: seq<Entry<K, V>>, c: Keys<K>, m: map<K, V>, item: Entry<K, V>)
    requires Crowded(t, c, m, item)
    ensures Probed(t, item).Lost?
    decreases Headroom(t), MAX_PROBE_COUNT - item.probes
  {
    var m' := CrowdedStep(t, c, m, item);
    var t', item' := StepOf(t, item).t, StepOf(t, item).item;
    ProbedOn(t, item, t', item');
    if item'.probes < MAX_PROBE_COUNT {
      CrowdedNext(t', c, m', item');
      FullTableLoses(t', c, m', item'.(probes := item'.probes + 1));
    }
  }

  lemma CrowdedNext<K, V>(t: seq<Entry<K, V>>, c: Keys<K>, m: map<K, V>, item: Entry<K, V>)
    requires Crowded(t, c, m, item) && PathHolds(t, item.ikey, item.probes) && item.probes < MAX_PROBE_COUNT
    ensures Crowded(t, c, m, item.(probes := item.probes + 1))
  {
  }
}
