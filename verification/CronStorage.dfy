// src/cron_events.c: do_pending_events on the storage of its list. The list is passed by its first entry, which may be
// taken off the list and freed while the call goes on; the call then reads free storage.
module CronStorage {
  import opened Cron
  import opened Wrappers

  // All of these hold an entry, and none of them is listed twice
  predicate Sound(list: seq<nat>, entries: map<nat, Entry>) {
    list == [] || (list[0] in entries && list[0] !in list[1..] && Sound(list[1..], entries))
  }

  function IndexOf(list: seq<nat>, a: nat): (i: nat)
    requires a in list
    ensures i < |list| && list[i] == a
  {
    if list[0] == a then 0 else 1 + IndexOf(list[1..], a)
  }

  /** What the pointer check of mp_free leaves in a freed entry with this link: it writes over the event IDs. Without
      the check it leaves the entry as it is. */
  type Mark = (CronDef, nat) -> CronDef

  ghost predicate OnlyIds(mark: Mark) {
    forall d: CronDef, link: nat ::
      && mark(d, link) == d.(event := mark(d, link).event, eventEnd := mark(d, link).eventEnd)
      && mark(mark(d, link), link) == mark(d, link)
  }

  // The check as it is by default, with pointers of 64 bits of which the low half comes first
  function Sentinel(d: CronDef, link: nat): CronDef {
    d.(event := ((link % 0x1_0000_0000) as bv32 ^ 0xA5A5_A5A5) as nat, eventEnd := link / 0x1_0000_0000 % 0x1_0000_0000)
  }

  lemma SentinelIsInIds()
    ensures OnlyIds(Sentinel) && OnlyIds((d, link) => d)
  {
  }

  function Marked(mark: Mark, e: Entry, link: nat): Entry { e.(def := mark(e.def, link)) }

  function Without(list: seq<nat>, a: nat): seq<nat> {
    if a in list then list[..IndexOf(list, a)] + list[IndexOf(list, a) + 1..] else list
  }

  /** The pool that entries are taken from: the addresses on the list, what every element holds, whether it is on the
      list or free, and the links of the free ones, which take the place of the link of the list. Address 0 is NULL. */
  datatype Storage = Storage(list: seq<nat>, entries: map<nat, Entry>, links: map<nat, nat>, freeList: nat,
                             sent: seq<Sent>)
  {
    // A list in this storage
    predicate Valid() { 0 !in entries && Sound(list, entries) }

    function Head(): nat { if list == [] then 0 else list[0] }

    // The first member of an entry: its successor on the list, or the next free element
    function Successor(a: nat): nat {
      if a in list then
        var i := IndexOf(list, a);
        if i + 1 < |list| then list[i + 1] else 0
      else if a in links then links[a] else 0
    }

    // ll_slist_remove, which leaves a list alone that the entry is not on, and mp_free
    function Freed(a: nat, mark: Mark): Storage
      requires a in entries
    {
      Storage(Without(list, a), entries[a := Marked(mark, entries[a], freeList)], links[a := freeList], a, sent)
    }

    // The pointer check has marked all free elements
    ghost predicate Sealed(mark: Mark) {
      forall a: nat | a in links && a !in list && a in entries :: entries[a] == Marked(mark, entries[a], links[a])
    }

    /** The entries of the list. */
    function Listed(): seq<Entry> { EntriesOf(list, entries) }
  }

  function EntriesOf(list: seq<nat>, entries: map<nat, Entry>): seq<Entry> {
    if list == [] then []
    else (if list[0] in entries then [entries[list[0]]] else []) + EntriesOf(list[1..], entries)
  }

  // What the loop body does with the entry at cur in minute m, and where it goes on
  function Visit(s: Storage, cur: nat, m: nat, f: Step, mark: Mark): (Storage, nat)
    requires cur in s.entries
  {
    var t := f(s.entries[cur], m);
    var s' := s.(entries := s.entries[cur := t.entry], sent := s.sent + t.sent);
    (if t.removed then s'.Freed(cur, mark) else s', s.Successor(cur))
  }

  // The body of the inner loop: what minute m makes of an entry, what mp_free makes of one, and what the body makes of
  // the storage
  datatype Loop = Loop(tick: Step, mark: Mark, visit: (Storage, nat, nat) -> (Storage, nat))

  ghost predicate Visits(loop: Loop, s: Storage, cur: nat, m: nat) {
    cur in s.entries ==> loop.visit(s, cur, m) == Visit(s, cur, m, loop.tick, loop.mark)
  }

  ghost predicate Regular(loop: Loop) { forall s: Storage, cur: nat, m: nat :: Visits(loop, s, cur, m) }

  // The loop of this clock
  ghost predicate LoopOf(loop: Loop, local: nat -> Tm) {
    Implements(loop.tick, local) && Regular(loop) && OnlyIds(loop.mark)
  }

  // There is one for every clock, and for every pointer check
  ghost function ThatLoop(local: nat -> Tm, mark: Mark): (loop: Loop)
    requires OnlyIds(mark)
    ensures LoopOf(loop, local) && loop.mark == mark
  {
    var f := StepOf(local);
    Loop(f, mark, (s: Storage, cur: nat, m: nat) => if cur in s.entries then Visit(s, cur, m, f, mark) else (s, cur))
  }

  /** The inner loop from the entry at cur on, as far as `limit` visits lead, and the pointer it has then. On the list
      it ends with NULL; in free storage it need not end. */
  function Walk(s: Storage, cur: nat, m: nat, loop: Loop, limit: nat): (Storage, nat)
    decreases limit
  {
    if limit == 0 || cur !in s.entries then (s, cur) else
    Walk(loop.visit(s, cur, m).0, loop.visit(s, cur, m).1, m, loop, limit - 1)
  }

  /** The outer loop: k minutes from m on, each starting from the entry that the call was given; and whether every walk
      has ended. */
  function Call(s: Storage, first: nat, m: nat, loop: Loop, k: nat, limit: nat): (Storage, bool) {
    if k == 0 then (s, true) else
    var (s', ended) := Call(s, first, m, loop, k - 1, limit);
    if !ended then (s', false) else
    (Walk(s', first, m + (k - 1), loop, limit).0, Walk(s', first, m + (k - 1), loop, limit).1 == 0)
  }

  lemma CallStep(s: Storage, first: nat, m: nat, loop: Loop, k: nat, limit: nat, s1: Storage, s2: Storage, cur: nat,
                 now: nat)
    requires k > 0 && now == m + (k - 1) && Call(s, first, m, loop, k - 1, limit) == (s1, true)
    requires s2 == Walk(s1, first, now, loop, limit).0 && cur == Walk(s1, first, now, loop, limit).1
    ensures Call(s, first, m, loop, k, limit) == (s2, cur == 0)
  {
  }

  class EventList {
    var storage: Storage
    const mark: Mark

    // ll_slist_remove and mp_free
    method Remove(cur: nat)
      requires cur in storage.entries
      modifies this
      ensures storage == old(storage).Freed(cur, mark)
    {
      if cur in storage.list {
        var i := IndexOf(storage.list, cur);
        storage := storage.(list := storage.list[..i] + storage.list[i + 1..]);
      }
      Change(cur, Marked(mark, storage.entries[cur], storage.freeList));
      storage := storage.(links := storage.links[cur := storage.freeList]);
      storage := storage.(freeList := cur);
    }

    method Send(m: nat, id: nat)
      modifies this
      ensures storage == old(storage).(sent := old(storage).sent + [Sent(m, id)])
    {
      storage := storage.(sent := storage.sent + [Sent(m, id)]);
    }

    method Change(cur: nat, e: Entry)
      modifies this
      ensures storage == old(storage).(entries := old(storage).entries[cur := e])
    {
      storage := storage.(entries := storage.entries[cur := e]);
    }

    // The body of the inner loop
    method VisitEntry(cur: nat, m: nat, now: Tm, ghost loop: Loop, ghost local: nat -> Tm) returns (next: nat)
      requires cur in storage.entries && now == local(m) && LoopOf(loop, local) && loop.mark == mark
      modifies this
      ensures storage == loop.visit(old(storage), cur, m).0 && next == loop.visit(old(storage), cur, m).1
    {
      var e, remove := storage.entries[cur], false;
      assert Visits(loop, storage, cur, m);
      assert Ticks(loop.tick, local, e, m) && storage.sent + [] == storage.sent
             && storage.entries[cur := e] == storage.entries;
      next := storage.Successor(cur);
      if TimeMatch(now, e.active) {
        if !e.started {
          Send(m, e.def.event);
          if e.def.eventMinutes > 0 {
            Change(cur, e.(active := EndMap(now, e.def.eventMinutes), started := true));
          } else if e.def.oneShot {
            remove := true;
          }
        } else {
          Send(m, e.def.eventEnd);
          var home := MapInit(e.def.spec);
          Change(cur, e.(active := home, started := false));
          if e.def.oneShot {
            remove := true;
          }
        }
      }
      if remove {
        Remove(cur);
      }
    }

    // The inner loop
    method WalkMinute(first: nat, m: nat, local: nat -> Tm, limit: nat, ghost loop: Loop) returns (cur: nat)
      requires LoopOf(loop, local) && loop.mark == mark
      modifies this
      ensures storage == Walk(old(storage), first, m, loop, limit).0
      ensures cur == Walk(old(storage), first, m, loop, limit).1
    {
      var now := local(m);
      cur := first;
      var left := limit;
      while cur in storage.entries && left > 0
        invariant Walk(storage, cur, m, loop, left) == Walk(old(storage), first, m, loop, limit)
        decreases left
      {
        cur := VisitEntry(cur, m, now, loop, local);
        left := left - 1;
      }
    }

    /** do_pending_events on the list from the entry `first` on. A walk is left after `limit` visits, for it may not end
        by itself. */
    method DoPendingEvents(first: nat, from: nat, until: nat, local: nat -> Tm, limit: nat, ghost loop: Loop)
      returns (ended: bool)
      requires LoopOf(loop, local) && loop.mark == mark
      modifies this
      ensures storage == Call(old(storage), first, from / 60 + 1, loop, Minutes(from, until), limit).0
      ensures ended == Call(old(storage), first, from / 60 + 1, loop, Minutes(from, until), limit).1
      ensures (old(storage).Valid() && first == old(storage).Head() && limit >= |old(storage).list|
               && HeadStays(old(storage).Listed(), loop.tick, from / 60 + 1, Minutes(from, until))) ==>
                && ended && storage.Valid()
                && storage.Listed() == Run(old(storage).Listed(), loop.tick, from / 60 + 1, Minutes(from, until)).0
                && storage.sent
                   == old(storage).sent
                      + Run(old(storage).Listed(), loop.tick, from / 60 + 1, Minutes(from, until)).1
    {
      var now := from + 60 - from % 60;
      ghost var m, k: nat := from / 60 + 1, 0;
      ended := true;
      while now <= until && ended
        invariant now == 60 * (m + k) && (k > 0 ==> 60 * (m + (k - 1)) <= until)
        invariant Call(old(storage), first, m, loop, k, limit) == (storage, ended)
        decreases until + 60 - now
      {
        ghost var s := storage;
        assert now / 60 == m + k;
        var cur := WalkMinute(first, now / 60, local, limit, loop);
        k := k + 1;
        ended := cur == 0;
        CallStep(old(storage), first, m, loop, k, limit, s, storage, cur, now / 60);
        now := now + 60;
      }
      assert k <= Minutes(from, until) && (ended ==> k == Minutes(from, until));
      if !ended {
        CutOff(old(storage), first, m, loop, k, Minutes(from, until), limit);
      }
      CallWhileHeadStays(old(storage), m, loop, Minutes(from, until), limit);
    }
  }

  // A walk that does not end is the last one of the call
  lemma {:induction false} CutOff(s: Storage, first: nat, m: nat, loop: Loop, k: nat, n: nat, limit: nat)
    requires k <= n && !Call(s, first, m, loop, k, limit).1
    ensures Call(s, first, m, loop, n, limit) == Call(s, first, m, loop, k, limit)
    decreases n
  {
    if k < n {
      CutOff(s, first, m, loop, k, n - 1, limit);
    }
  }

  // ---- On the list, the call does what Run says ----

  lemma {:induction false} SoundParts(pre: seq<nat>, a: nat, rest: seq<nat>, all: seq<nat>, entries: map<nat, Entry>)
    requires all == pre + [a] + rest && Sound(all, entries)
    ensures a in entries && a !in pre && a !in rest && a in all && IndexOf(all, a) == |pre|
    ensures Sound(pre + rest, entries) && all[..|pre|] == pre && all[|pre| + 1..] == rest
    decreases |pre|
  {
    if pre != [] {
      assert all[0] == pre[0] && all[1..] == pre[1..] + [a] + rest;
      SoundParts(pre[1..], a, rest, all[1..], entries);
      assert (pre + rest)[1..] == pre[1..] + rest;
      assert forall b: nat | b in (pre + rest)[1..] :: b in all[1..];
    } else {
      assert all[1..] == rest && [] + rest == rest;
    }
  }

  lemma {:induction false} SoundChanged(list: seq<nat>, entries: map<nat, Entry>, a: nat, e: Entry)
    requires Sound(list, entries)
    ensures Sound(list, entries[a := e])
    ensures a !in list ==> EntriesOf(list, entries[a := e]) == EntriesOf(list, entries)
    decreases |list|
  {
    if list != [] {
      SoundChanged(list[1..], entries, a, e);
    }
  }

  lemma {:induction false} SoundBack(pre: seq<nat>, rest: seq<nat>, entries: map<nat, Entry>)
    requires Sound(pre + rest, entries)
    ensures Sound(pre, entries) && Sound(rest, entries)
    ensures EntriesOf(pre + rest, entries) == EntriesOf(pre, entries) + EntriesOf(rest, entries)
    decreases |pre|
  {
    if pre == [] {
      assert [] + rest == rest;
    } else {
      assert (pre + rest)[1..] == pre[1..] + rest;
      SoundBack(pre[1..], rest, entries);
    }
  }

  function First(list: seq<nat>): nat { if list == [] then 0 else list[0] }

  // What a visit leaves in an element
  ghost function Stored(s: Storage, a: nat, m: nat, loop: Loop): Entry
    requires a in s.entries
  {
    var t := loop.tick(s.entries[a], m);
    if t.removed then Marked(loop.mark, t.entry, s.freeList) else t.entry
  }

  // The first visit of a walk over the rest of the list, and the part of the list in front of what it goes on with
  lemma StepOnList(s: Storage, pre: seq<nat>, rest: seq<nat>, m: nat, loop: Loop) returns (pre': seq<nat>, s': Storage)
    requires Regular(loop)
    requires s.Valid() && s.list == pre + rest && rest != []
    ensures rest[0] in s.entries && s' == loop.visit(s, rest[0], m).0 && loop.visit(s, rest[0], m).1 == First(rest[1..])
    ensures pre' == if loop.tick(s.entries[rest[0]], m).removed then pre else pre + [rest[0]]
    ensures s'.Valid() && s'.list == pre' + rest[1..] && |s'.list| <= |s.list| && rest[0] !in pre
    ensures rest[0] !in rest[1..]
    ensures s'.entries == s.entries[rest[0] := Stored(s, rest[0], m, loop)]
    ensures s'.sent == s.sent + loop.tick(s.entries[rest[0]], m).sent
  {
    var a, tail := rest[0], rest[1..];
    assert s.list == pre + [a] + tail;
    SoundParts(pre, a, tail, s.list, s.entries);
    assert Visits(loop, s, a, m);
    s' := loop.visit(s, a, m).0;
    pre' := if loop.tick(s.entries[a], m).removed then pre else pre + [a];
    SoundChanged(pre' + tail, s.entries, a, Stored(s, a, m, loop));
    assert s'.entries == s.entries[a := Stored(s, a, m, loop)];
  }

  lemma WalkFirst(s: Storage, a: nat, s1: Storage, next: nat, m: nat, loop: Loop, limit: nat)
    requires a in s.entries && limit > 0 && s1 == loop.visit(s, a, m).0 && next == loop.visit(s, a, m).1
    ensures Walk(s, a, m, loop, limit) == Walk(s1, next, m, loop, limit - 1)
  {
  }

  // A walk over the entries behind these has kept this of them, and sent this for them; base is what is in front
  ghost predicate Walked(s: Storage, pre: seq<nat>, base: seq<Entry>, s': Storage, kept: seq<Entry>, sent: seq<Sent>) {
    && s'.Valid() && pre <= s'.list && |s'.list| <= |s.list|
    && s'.Listed() == base + kept && s'.sent == s.sent + sent
  }

  lemma WalkedOn(s: Storage, pre: seq<nat>, base: seq<Entry>, a: nat, t: Ticked, s1: Storage, s': Storage,
                 kept: seq<Entry>, sent: seq<Sent>)
    requires s1.sent == s.sent + t.sent && |s1.list| <= |s.list|
    requires Walked(s1, if t.removed then pre else pre + [a], base + t.Kept(), s', kept, sent)
    ensures Walked(s, pre, base, s', t.Kept() + kept, t.sent + sent)
  {
    assert pre <= pre + [a];
    assert base + (t.Kept() + kept) == base + t.Kept() + kept && s.sent + (t.sent + sent) == s.sent + t.sent + sent;
  }

  // The visits to the rest of the list make of it what a minute makes of its entries
  ghost predicate WalkTicks(s: Storage, pre: seq<nat>, rest: seq<nat>, m: nat, loop: Loop, limit: nat) {
    var es := EntriesOf(rest, s.entries);
    && Walk(s, First(rest), m, loop, limit).1 == 0
    && Walked(s, pre, EntriesOf(pre, s.entries), Walk(s, First(rest), m, loop, limit).0, TickAll(es, loop.tick, m).0,
              TickAll(es, loop.tick, m).1)
  }

  lemma TickOne(e: Entry, es: seq<Entry>, all: seq<Entry>, f: Step, m: nat)
    requires all == [e] + es
    ensures TickAll(all, f, m) == (f(e, m).Kept() + TickAll(es, f, m).0, f(e, m).sent + TickAll(es, f, m).1)
  {
    assert all[1..] == es;
  }

  // Of the entries in front of the visited one nothing has changed, and the ones behind it are as they were
  lemma OthersUnchanged(pre: seq<nat>, a: nat, tail: seq<nat>, entries: map<nat, Entry>, e: Entry)
    requires Sound(pre + ([a] + tail), entries)
    ensures EntriesOf(pre, entries[a := e]) == EntriesOf(pre, entries)
    ensures EntriesOf(pre + [a], entries[a := e]) == EntriesOf(pre, entries) + [e]
    ensures a in entries && EntriesOf([a] + tail, entries) == [entries[a]] + EntriesOf(tail, entries)
    ensures EntriesOf(tail, entries[a := e]) == EntriesOf(tail, entries)
  {
    var all, entries' := pre + ([a] + tail), entries[a := e];
    assert all == pre + [a] + tail;
    SoundParts(pre, a, tail, all, entries);
    SoundBack(pre, [a] + tail, entries);
    assert ([a] + tail)[1..] == tail;
    SoundChanged(pre, entries, a, e);
    SoundChanged(tail, entries, a, e);
    SoundChanged(all, entries, a, e);
    SoundBack(pre + [a], tail, entries');
    SoundBack(pre, [a], entries');
    assert [a][1..] == [] && [e] + [] == [e];
  }

  lemma {:induction false} WalkList(s: Storage, pre: seq<nat>, rest: seq<nat>, m: nat, loop: Loop, limit: nat)
    requires Regular(loop)
    requires s.Valid() && s.list == pre + rest && limit >= |rest|
    ensures WalkTicks(s, pre, rest, m, loop, limit)
    decreases |rest|
  {
    if rest != [] {
      var a, tail := rest[0], rest[1..];
      assert [a] + tail == rest;
      var pre', s1 := StepOnList(s, pre, rest, m, loop);
      WalkList(s1, pre', tail, m, loop, limit - 1);
      var t, es := loop.tick(s.entries[a], m), EntriesOf(tail, s.entries);
      var s' := Walk(s1, First(tail), m, loop, limit - 1).0;
      OthersUnchanged(pre, a, tail, s.entries, Stored(s, a, m, loop));
      var base := EntriesOf(pre, s.entries);
      assert EntriesOf(pre', s1.entries) == base + t.Kept() by {
        assert base + [] == base;
      }
      WalkedOn(s, pre, base, a, t, s1, s', TickAll(es, loop.tick, m).0, TickAll(es, loop.tick, m).1);
      TickOne(s.entries[a], es, EntriesOf(rest, s.entries), loop.tick, m);
    } else {
      NothingWalked(s, pre, m, loop, limit);
    }
  }

  lemma NothingWalked(s: Storage, pre: seq<nat>, m: nat, loop: Loop, limit: nat)
    requires s.Valid() && s.list == pre
    ensures WalkTicks(s, pre, [], m, loop, limit)
  {
    assert s.sent + [] == s.sent && EntriesOf(pre, s.entries) + [] == EntriesOf(pre, s.entries);
    assert Walk(s, 0, m, loop, limit) == (s, 0);
  }

  // An entry that a walk does not remove stays the first one
  lemma HeadWalked(s: Storage, m: nat, loop: Loop, limit: nat)
    requires Regular(loop)
    requires s.Valid() && s.list != [] && limit >= |s.list| && s.list[0] in s.entries
             && !loop.tick(s.entries[s.list[0]], m).removed
    ensures var s' := Walk(s, s.list[0], m, loop, limit).0; s'.list != [] && s'.list[0] == s.list[0]
  {
    var a, tail := s.list[0], s.list[1..];
    assert [] + s.list == s.list && [] + [a] == [a];
    var pre', s1 := StepOnList(s, [], s.list, m, loop);
    WalkFirst(s, a, s1, First(tail), m, loop, limit);
    WalkList(s1, [a], tail, m, loop, limit - 1);
    PrefixStays(s1, [a], tail, m, loop, limit - 1);
  }

  lemma PrefixStays(s: Storage, pre: seq<nat>, rest: seq<nat>, m: nat, loop: Loop, limit: nat)
    requires WalkTicks(s, pre, rest, m, loop, limit)
    ensures pre <= Walk(s, First(rest), m, loop, limit).0.list
  {
    var es := EntriesOf(rest, s.entries);
    assert Walked(s, pre, EntriesOf(pre, s.entries), Walk(s, First(rest), m, loop, limit).0,
                  TickAll(es, loop.tick, m).0, TickAll(es, loop.tick, m).1);
  }

  /** The first entry is not removed before the last of these minutes. */
  predicate HeadStays(es: seq<Entry>, f: Step, m: nat, k: nat) {
    k == 0 || es == [] || Run([es[0]], f, m, k - 1).0 != []
  }

  // This storage holds what a run has made of the list
  ghost predicate Holds(s: Storage, r: (seq<Entry>, seq<Sent>), s': Storage) {
    s'.Valid() && s'.Listed() == r.0 && s'.sent == s.sent + r.1
  }

  /** The call does to the list, and sends, what Run says. */
  ghost predicate Does(s: Storage, m: nat, loop: Loop, k: nat, limit: nat)
    requires s.Valid()
  {
    var (s', ended) := Call(s, s.Head(), m, loop, k, limit);
    ended && Holds(s, Run(s.Listed(), loop.tick, m, k), s')
  }

  // The entry that the call was given still is the first one
  ghost predicate HeadIs(s: Storage, m: nat, loop: Loop, k: nat, s': Storage)
    requires s.Valid()
  {
    && |s'.list| <= |s.list|
    && (s.list != [] && Run([s.Listed()[0]], loop.tick, m, k).0 != [] ==> s'.list != [] && s'.list[0] == s.list[0])
  }

  lemma HeadStaysBefore(e: Entry, f: Step, m: nat, k: nat)
    requires k > 0 && Run([e], f, m, k).0 != []
    ensures Run([e], f, m, k - 1).0 != [] && !f(Run([e], f, m, k - 1).0[0], m + (k - 1)).removed
  {
    NextMinuteOf(e, f, m, k - 1);
  }

  // What is left of the first entry is the first of what is left
  lemma HeadOfRun(es: seq<Entry>, f: Step, m: nat, k: nat)
    requires es != [] && Run([es[0]], f, m, k).0 != []
    ensures Run(es, f, m, k).0 != [] && Run(es, f, m, k).0[0] == Run([es[0]], f, m, k).0[0]
  {
    RunSplits([es[0]], es[1..], f, m, k);
    assert [es[0]] + es[1..] == es;
  }

  lemma {:induction false} CallOnList(s: Storage, m: nat, loop: Loop, k: nat, limit: nat)
    requires Regular(loop)
    requires s.Valid() && limit >= |s.list| && HeadStays(s.Listed(), loop.tick, m, k)
    ensures Does(s, m, loop, k, limit) && HeadIs(s, m, loop, k, Call(s, s.Head(), m, loop, k, limit).0)
    decreases k
  {
    if k > 0 {
      var es := s.Listed();
      if es != [] && k > 1 {
        HeadStaysBefore(es[0], loop.tick, m, k - 1);
      }
      CallOnList(s, m, loop, k - 1, limit);
      CallMinute(s, m, loop, k, limit, Call(s, s.Head(), m, loop, k - 1, limit).0);
    } else {
      assert s.sent + [] == s.sent;
    }
  }

  lemma WalkWhole(s: Storage, m: nat, loop: Loop, limit: nat)
    requires Regular(loop)
    requires s.Valid() && limit >= |s.list|
    ensures var (s', cur) := Walk(s, s.Head(), m, loop, limit);
            && cur == 0 && s'.Valid() && |s'.list| <= |s.list|
            && s'.Listed() == TickAll(s.Listed(), loop.tick, m).0
            && s'.sent == s.sent + TickAll(s.Listed(), loop.tick, m).1
  {
    var s' := Walk(s, s.Head(), m, loop, limit).0;
    assert [] + s.list == s.list && s.Head() == First(s.list);
    WalkList(s, [], s.list, m, loop, limit);
    assert Walked(s, [], [], s', TickAll(s.Listed(), loop.tick, m).0, TickAll(s.Listed(), loop.tick, m).1);
    assert [] + TickAll(s.Listed(), loop.tick, m).0 == TickAll(s.Listed(), loop.tick, m).0;
  }

  lemma HoldsLater(s: Storage, r: (seq<Entry>, seq<Sent>), s1: Storage, m: nat, loop: Loop, limit: nat)
    requires Regular(loop)
    requires Holds(s, r, s1) && limit >= |s1.list|
    ensures Walk(s1, s1.Head(), m, loop, limit).1 == 0
            && Holds(s, Later(r, loop.tick, m), Walk(s1, s1.Head(), m, loop, limit).0)
  {
    WalkWhole(s1, m, loop, limit);
    assert s.sent + (r.1 + TickAll(r.0, loop.tick, m).1) == (s.sent + r.1) + TickAll(r.0, loop.tick, m).1;
  }

  lemma DoesOneMore(s: Storage, m: nat, loop: Loop, k: nat, limit: nat, s1: Storage)
    requires Regular(loop)
    requires s.Valid() && k > 0 && Does(s, m, loop, k - 1, limit) && s1 == Call(s, s.Head(), m, loop, k - 1, limit).0
    requires s1.Head() == s.Head() && limit >= |s1.list|
    ensures Does(s, m, loop, k, limit)
    ensures Call(s, s.Head(), m, loop, k, limit).0 == Walk(s1, s1.Head(), m + (k - 1), loop, limit).0
  {
    HoldsLater(s, Run(s.Listed(), loop.tick, m, k - 1), s1, m + (k - 1), loop, limit);
    assert Run(s.Listed(), loop.tick, m, k) == Later(Run(s.Listed(), loop.tick, m, k - 1), loop.tick, m + (k - 1));
  }

  lemma CallWhileHeadStays(s: Storage, m: nat, loop: Loop, k: nat, limit: nat)
    requires Regular(loop)
    ensures s.Valid() && limit >= |s.list| && HeadStays(s.Listed(), loop.tick, m, k) ==> Does(s, m, loop, k, limit)
  {
    if s.Valid() && limit >= |s.list| && HeadStays(s.Listed(), loop.tick, m, k) {
      CallOnList(s, m, loop, k, limit);
    }
  }

  lemma CallMinute(s: Storage, m: nat, loop: Loop, k: nat, limit: nat, s1: Storage)
    requires Regular(loop)
    requires s.Valid() && limit >= |s.list| && HeadStays(s.Listed(), loop.tick, m, k) && k > 0
    requires s1 == Call(s, s.Head(), m, loop, k - 1, limit).0
    requires Does(s, m, loop, k - 1, limit) && HeadIs(s, m, loop, k - 1, s1)
    ensures Does(s, m, loop, k, limit) && HeadIs(s, m, loop, k, Call(s, s.Head(), m, loop, k, limit).0)
  {
    var es, now := s.Listed(), m + (k - 1);
    assert s.Head() == s1.Head();
    DoesOneMore(s, m, loop, k, limit, s1);
    WalkWhole(s1, now, loop, limit);
    if es != [] && Run([es[0]], loop.tick, m, k).0 != [] {
      HeadStaysBefore(es[0], loop.tick, m, k);
      HeadOfRun(es, loop.tick, m, k - 1);
      HeadWalked(s1, now, loop, limit);
    }
  }

  // ---- Off the list, it goes through the free elements ----

  // Some free elements, the last n of which each send a message in one minute
  datatype Due = Due(n: nat, tick: Step, minute: nat) {
    predicate Sends(e: Entry) { |tick(e, minute).sent| == 1 }
  }

  // These free elements are linked one to the next
  ghost predicate FreeAhead(s: Storage, path: seq<nat>, due: Due) {
    && path != [] && path[0] != 0 && path[0] !in s.list && path[0] in s.entries && path[0] in s.links
    && (|path| <= due.n ==> due.Sends(s.entries[path[0]]))
    && (|path| > 1 ==> path[0] !in path[1..] && s.links[path[0]] == path[1] && FreeAhead(s, path[1..], due))
  }

  // The free list goes along this path
  ghost predicate FreePath(s: Storage, path: seq<nat>, due: Due) {
    FreeAhead(s, path, due) && s.freeList == path[0] && due.n <= |path|
  }

  // A visit to an element that is not on the path leaves the path alone
  lemma {:induction false} VisitBeside(s: Storage, a: nat, m: nat, loop: Loop, path: seq<nat>, due: Due)
    requires Regular(loop)
    requires a in s.entries && a !in path && FreeAhead(s, path, due)
    ensures FreeAhead(loop.visit(s, a, m).0, path, due)
    decreases |path|
  {
    assert Visits(loop, s, a, m);
    if |path| > 1 {
      VisitBeside(s, a, m, loop, path[1..], due);
    }
  }

  lemma {:induction false} ListedIsBeside(s: Storage, a: nat, path: seq<nat>, due: Due)
    requires a in s.list && FreeAhead(s, path, due)
    ensures a !in path
    decreases |path|
  {
    if |path| > 1 {
      ListedIsBeside(s, a, path[1..], due);
      assert path == [path[0]] + path[1..];
    }
  }

  lemma VisitKeepsPath(s: Storage, pre: seq<nat>, a: nat, tail: seq<nat>, m: nat, loop: Loop, path: seq<nat>, due: Due)
    requires Regular(loop)
    requires s.Valid() && s.list == pre + [a] + tail && FreePath(s, path, due)
    ensures a in s.entries
            && FreePath(loop.visit(s, a, m).0, if loop.tick(s.entries[a], m).removed then [a] + path else path, due)
  {
    SoundParts(pre, a, tail, s.list, s.entries);
    ListedIsBeside(s, a, path, due);
    VisitBeside(s, a, m, loop, path, due);
    assert Visits(loop, s, a, m) && ([a] + path)[1..] == path;
  }

  // What a walk over the list frees comes in front of the path
  lemma {:induction false} WalkKeepsPath(s: Storage, pre: seq<nat>, rest: seq<nat>, m: nat, loop: Loop, limit: nat,
                                         path: seq<nat>, due: Due) returns (freed: seq<nat>)
    requires Regular(loop)
    requires s.Valid() && s.list == pre + rest && limit >= |rest| && FreePath(s, path, due)
    ensures FreePath(Walk(s, First(rest), m, loop, limit).0, freed + path, due)
    decreases |rest|
  {
    if rest == [] {
      freed := [];
      assert [] + path == path;
    } else {
      var pre', s1 := StepOnList(s, pre, rest, m, loop);
      var freed1 := PathStep(s, pre, rest, m, loop, path, due, s1);
      freed := WalkKeepsPath(s1, pre', rest[1..], m, loop, limit - 1, freed1 + path, due);
      WalkFirst(s, rest[0], s1, First(rest[1..]), m, loop, limit);
      assert freed + (freed1 + path) == (freed + freed1) + path;
      freed := freed + freed1;
    }
  }

  lemma PathStep(s: Storage, pre: seq<nat>, rest: seq<nat>, m: nat, loop: Loop, path: seq<nat>, due: Due, s': Storage)
    returns (freed: seq<nat>)
    requires Regular(loop)
    requires s.Valid() && s.list == pre + rest && rest != [] && FreePath(s, path, due)
    requires rest[0] in s.entries && s' == loop.visit(s, rest[0], m).0
    ensures FreePath(s', freed + path, due)
  {
    freed := if loop.tick(s.entries[rest[0]], m).removed then [rest[0]] else [];
    assert s.list == pre + [rest[0]] + rest[1..] && [] + path == path;
    VisitKeepsPath(s, pre, rest[0], rest[1..], m, loop, path, due);
  }

  // A first entry that is removed is on the path then
  lemma HeadFreed(s: Storage, m: nat, loop: Loop, limit: nat, path: seq<nat>, due: Due) returns (path': seq<nat>)
    requires Regular(loop)
    requires s.Valid() && s.list != [] && limit >= |s.list| && FreePath(s, path, due)
    requires s.list[0] in s.entries && loop.tick(s.entries[s.list[0]], m).removed
    ensures FreePath(Walk(s, s.list[0], m, loop, limit).0, path', due) && due.n <= |path'|
    ensures s.list[0] in path'[..|path'| - due.n]
  {
    var a, tail := s.list[0], s.list[1..];
    assert [] + s.list == s.list && s.list == [] + [a] + tail;
    var pre', s1 := StepOnList(s, [], s.list, m, loop);
    VisitKeepsPath(s, [], a, tail, m, loop, path, due);
    var freed := WalkKeepsPath(s1, [], tail, m, loop, limit - 1, [a] + path, due);
    path' := freed + ([a] + path);
    assert path'[..|path'| - due.n][|freed|] == path'[|freed|] == a;
  }

  lemma {:induction false} WalkGrows(s: Storage, cur: nat, m: nat, loop: Loop, limit: nat)
    requires Regular(loop)
    ensures s.sent <= Walk(s, cur, m, loop, limit).0.sent
    decreases limit
  {
    if limit > 0 && cur in s.entries {
      assert Visits(loop, s, cur, m);
      WalkGrows(loop.visit(s, cur, m).0, loop.visit(s, cur, m).1, m, loop, limit - 1);
    }
  }

  // A walk along the path ends somewhere on the way, or has sent the messages of the last elements
  lemma {:induction false} WalkFree(s: Storage, path: seq<nat>, due: Due, loop: Loop, limit: nat)
    requires Regular(loop)
    requires FreeAhead(s, path, due) && loop.tick == due.tick
    ensures var (s', cur) := Walk(s, path[0], due.minute, loop, limit);
            cur != 0 || |s'.sent| >= |s.sent| + if |path| < due.n then |path| else due.n
    decreases |path|
  {
    if limit > 0 {
      assert Visits(loop, s, path[0], due.minute);
      var (s1, next) := loop.visit(s, path[0], due.minute);
      if |path| > 1 {
        VisitBeside(s, path[0], due.minute, loop, path[1..], due);
        WalkFree(s1, path[1..], due, loop, limit - 1);
      } else {
        WalkGrows(s1, next, due.minute, loop, limit - 1);
      }
    }
  }

  // While the first entry stays, the call is at the start of the list
  lemma HeadAfter(s: Storage, m: nat, loop: Loop, k: nat, limit: nat) returns (s': Storage)
    requires Regular(loop)
    requires s.Valid() && s.list != [] && limit >= |s.list| && Run([s.Listed()[0]], loop.tick, m, k).0 != []
    ensures Call(s, s.Head(), m, loop, k, limit) == (s', true) && s'.Valid() && |s'.list| <= |s.list|
    ensures s'.list != [] && s'.list[0] == s.list[0] && s'.list[0] in s'.entries
    ensures s'.entries[s'.list[0]] == Run([s.Listed()[0]], loop.tick, m, k).0[0]
  {
    if k > 0 {
      HeadStaysBefore(s.Listed()[0], loop.tick, m, k);
    }
    CallOnList(s, m, loop, k, limit);
    HeadOfRun(s.Listed(), loop.tick, m, k);
    s' := Call(s, s.Head(), m, loop, k, limit).0;
    assert s'.Listed()[0] == s'.entries[s'.list[0]];
  }

  // The free path after k minutes on the list
  lemma {:induction false} CallKeepsPath(s: Storage, m: nat, loop: Loop, k: nat, limit: nat, path: seq<nat>, due: Due)
    returns (path': seq<nat>)
    requires Regular(loop)
    requires s.Valid() && s.list != [] && limit >= |s.list| && FreePath(s, path, due)
    requires Run([s.Listed()[0]], loop.tick, m, k).0 != []
    ensures FreePath(Call(s, s.Head(), m, loop, k, limit).0, path', due)
    decreases k
  {
    if k == 0 {
      path' := path;
    } else {
      HeadStaysBefore(s.Listed()[0], loop.tick, m, k);
      var path1 := CallKeepsPath(s, m, loop, k - 1, limit, path, due);
      var s1 := HeadAfter(s, m, loop, k - 1, limit);
      assert [] + s1.list == s1.list;
      var freed := WalkKeepsPath(s1, [], s1.list, m + (k - 1), loop, limit, path1, due);
      path' := freed + path1;
    }
  }

  // The minute in which an entry is removed
  lemma {:induction false} RemovedIn(e: Entry, f: Step, m: nat, k: nat) returns (i: nat)
    requires Run([e], f, m, k).0 == []
    ensures i < k && Run([e], f, m, i).0 != [] && f(Run([e], f, m, i).0[0], m + i).removed
    decreases k
  {
    NextMinuteOf(e, f, m, k - 1);
    if Run([e], f, m, k - 1).0 == [] {
      i := RemovedIn(e, f, m, k - 1);
    } else {
      i := k - 1;
    }
  }

  lemma {:induction false} CallGrows(s: Storage, first: nat, m: nat, loop: Loop, k: nat, n: nat, limit: nat)
    requires Regular(loop)
    requires k <= n && Call(s, first, m, loop, n, limit).1
    ensures Call(s, first, m, loop, k, limit).1
    ensures Call(s, first, m, loop, k, limit).0.sent <= Call(s, first, m, loop, n, limit).0.sent
    decreases n
  {
    if k < n {
      CallGrows(s, first, m, loop, k, n - 1, limit);
      WalkGrows(Call(s, first, m, loop, n - 1, limit).0, first, m + (n - 1), loop, limit);
    }
  }

  // After the minute in which the first entry is removed, the next one goes along the free path
  lemma GoesAstray(s: Storage, m: nat, loop: Loop, k: nat, i: nat, limit: nat, path: seq<nat>, due: Due)
    requires Regular(loop)
    requires s.Valid() && s.list != [] && limit >= |s.list| && FreePath(s, path, due)
    requires i + 1 < k && Run([s.Listed()[0]], loop.tick, m, i).0 != []
             && loop.tick(Run([s.Listed()[0]], loop.tick, m, i).0[0], m + i).removed
    requires due.tick == loop.tick && due.minute == m + i + 1
    ensures Call(s, s.Head(), m, loop, k, limit).1 ==> |Call(s, s.Head(), m, loop, k, limit).0.sent| >= due.n
  {
    var first := s.Head();
    var path1 := CallKeepsPath(s, m, loop, i, limit, path, due);
    var s1 := HeadAfter(s, m, loop, i, limit);
    var path2 := HeadFreed(s1, m + i, loop, limit, path1, due);
    var s2, s3 := Call(s, first, m, loop, i + 1, limit).0, Call(s, first, m, loop, i + 2, limit).0;
    assert s2 == Walk(s1, first, m + i, loop, limit).0;
    if Call(s, first, m, loop, k, limit).1 {
      CallGrows(s, first, m, loop, i + 2, k, limit);
      StraysTo(s2, first, path2, due, loop, limit);
    }
  }

  lemma {:induction false} StraysTo(s: Storage, a: nat, path: seq<nat>, due: Due, loop: Loop, limit: nat)
    requires Regular(loop)
    requires FreeAhead(s, path, due) && due.n <= |path| && a in path[..|path| - due.n] && loop.tick == due.tick
    ensures Walk(s, a, due.minute, loop, limit).1 == 0 ==> |Walk(s, a, due.minute, loop, limit).0.sent| >= due.n
    decreases |path|
  {
    if a == path[0] {
      WalkFree(s, path, due, loop, limit);
    } else {
      var front := path[..|path| - due.n];
      assert front == [path[0]] + front[1..] && path[1..][..|path| - 1 - due.n] == front[1..];
      StraysTo(s, a, path[1..], due, loop, limit);
    }
  }

  lemma {:induction false} NewAddress(list: seq<nat>) returns (x: nat)
    ensures x > 0 && x !in list && forall i: nat | i < |list| :: list[i] < x
    decreases |list|
  {
    if list == [] {
      x := 1;
    } else {
      var others := NewAddress(list[1..]);
      x := if list[0] < others then others else list[0] + 1;
      assert forall i: nat | 0 < i < |list| :: list[i] == list[1..][i - 1];
    }
  }

  // Whatever the elements off the list hold, as far as the pointer check leaves it to them, the call does what Run says
  ghost predicate AlwaysDoes(list: seq<nat>, es: seq<Entry>, m: nat, loop: Loop, k: nat) {
    forall s: Storage, limit: nat
      | s.Valid() && s.Sealed(loop.mark) && s.list == list && s.Listed() == es && limit >= |list| ::
      Does(s, m, loop, k, limit)
  }

  // An entry that is due in the minute of this time
  ghost function DueAt(now: Tm): Entry {
    Entry(CronDef(0, 0, CronTimeSpec(MIDNIGHT, MIDNIGHT, MIDNIGHT, MIDNIGHT, MIDNIGHT), 0, false),
          CronMap({now.min}, {now.hour}, {now.mday}, {now.mon}, {now.wday}), false)
  }

  lemma DueIsSent(local: nat -> Tm, loop: Loop, m: nat, link: nat)
    requires LoopOf(loop, local)
    ensures |loop.tick(Marked(loop.mark, DueAt(local(m)), link), m).sent| == 1
  {
    assert loop.mark(DueAt(local(m)).def, link) == loop.mark(DueAt(local(m)).def, link);
    assert Ticks(loop.tick, local, Marked(loop.mark, DueAt(local(m)), link), m);
  }

  // These entries on the list, and n free elements that are due
  lemma {:induction false} StorageFor(list: seq<nat>, entries: map<nat, Entry>, local: nat -> Tm, loop: Loop, due: Due,
                                      n: nat)
    returns (s: Storage, path: seq<nat>)
    requires Sound(list, entries) && 0 !in entries && LoopOf(loop, local) && due.tick == loop.tick && n > 0
    ensures s.Valid() && s.Sealed(loop.mark) && s.list == list && s.Listed() == EntriesOf(list, entries) && s.sent == []
    ensures |path| == n && FreeAhead(s, path, due) && s.freeList == path[0]
  {
    if n == 1 {
      var x := NewAddress(list);
      var e := Marked(loop.mark, DueAt(local(due.minute)), 0);
      s, path := Storage(list, entries[x := e], map[x := 0], x, []), [x];
      DueIsSent(local, loop, due.minute, 0);
      SoundChanged(list, entries, x, e);
      MarkedAgain(loop.mark, DueAt(local(due.minute)), 0);
    } else {
      var s1, path1 := StorageFor(list, entries, local, loop, due, n - 1);
      s, path := OneMoreFree(s1, path1, local, loop, due);
    }
  }

  lemma MarkedAgain(mark: Mark, e: Entry, link: nat)
    requires OnlyIds(mark)
    ensures Marked(mark, Marked(mark, e, link), link) == Marked(mark, e, link)
  {
    assert mark(mark(e.def, link), link) == mark(e.def, link);
  }

  lemma OneMoreFree(s: Storage, path: seq<nat>, local: nat -> Tm, loop: Loop, due: Due)
    returns (s': Storage, path': seq<nat>)
    requires s.Valid() && s.Sealed(loop.mark) && FreeAhead(s, path, due) && LoopOf(loop, local) && due.tick == loop.tick
    ensures s'.Valid() && s'.Sealed(loop.mark) && s'.list == s.list && s'.Listed() == s.Listed() && s'.sent == s.sent
    ensures |path'| == |path| + 1 && FreeAhead(s', path', due) && s'.freeList == path'[0]
  {
    var x := NewAddress(s.list + path);
    var e := Marked(loop.mark, DueAt(local(due.minute)), path[0]);
    assert x !in s.list && x !in path by {
      assert forall a | a in s.list || a in path :: a in s.list + path;
    }
    s' := Storage(s.list, s.entries[x := e], s.links[x := path[0]], x, s.sent);
    path' := [x] + path;
    SoundChanged(s.list, s.entries, x, e);
    DueIsSent(local, loop, due.minute, path[0]);
    MarkedAgain(loop.mark, DueAt(local(due.minute)), path[0]);
    AddedBeside(s, s', x, path, due);
    assert path'[1..] == path;
  }

  lemma {:induction false} AddedBeside(s: Storage, s': Storage, x: nat, path: seq<nat>, due: Due)
    requires FreeAhead(s, path, due) && x !in path && s'.list == s.list
    requires x in s'.entries && x in s'.links && s'.entries == s.entries[x := s'.entries[x]]
    requires s'.links == s.links[x := s'.links[x]]
    ensures FreeAhead(s', path, due)
    decreases |path|
  {
    if |path| > 1 {
      AddedBeside(s, s', x, path[1..], due);
    }
  }

  /** The call does what Run says, whatever the elements off the list hold, exactly when the first entry is not removed
      before the last minute. */
  lemma DoesWhatRunSaysIff(s: Storage, local: nat -> Tm, m: nat, loop: Loop, k: nat)
    requires s.Valid() && LoopOf(loop, local)
    ensures AlwaysDoes(s.list, s.Listed(), m, loop, k) <==> HeadStays(s.Listed(), loop.tick, m, k)
  {
    var es := s.Listed();
    if HeadStays(es, loop.tick, m, k) {
      forall t: Storage, limit: nat
        | t.Valid() && t.Sealed(loop.mark) && t.list == s.list && t.Listed() == es && limit >= |s.list|
        ensures Does(t, m, loop, k, limit)
      {
        CallOnList(t, m, loop, k, limit);
      }
    } else {
      var i := RemovedIn(es[0], loop.tick, m, k - 1);
      var n := |Run(es, loop.tick, m, k).1| + 1;
      var due := Due(n, loop.tick, m + i + 1);
      var t, path := StorageFor(s.list, s.entries, local, loop, due, n);
      GoesAstray(t, m, loop, k, i, |s.list|, path, due);
      NotSaid(t, m, loop, k, |s.list|);
    }
  }

  lemma NotSaid(s: Storage, m: nat, loop: Loop, k: nat, limit: nat)
    requires s.Valid() && s.sent == []
    requires Call(s, s.Head(), m, loop, k, limit).1 ==>
               |Call(s, s.Head(), m, loop, k, limit).0.sent| > |Run(s.Listed(), loop.tick, m, k).1|
    ensures !Does(s, m, loop, k, limit)
  {
  }

  /** A call for a single minute always does what Run says. */
  lemma OneMinuteIsSafe(es: seq<Entry>, f: Step, m: nat)
    ensures HeadStays(es, f, m, 1)
  {
  }

  // ---- Two examples, with these times of the day ----

  function FromMidnight(m: nat): Tm { Tm(m % 60, 0, 0, 0, 0) }

  // An event that is sent once, in these minutes after midnight if it is due then
  ghost function Once(id: nat, minutes: set<nat>): Entry {
    Entry(CronDef(id, 0, CronTimeSpec(MIDNIGHT, MIDNIGHT, MIDNIGHT, MIDNIGHT, MIDNIGHT), 0, true),
          CronMap(minutes, {0}, {0}, {0}, {}), false)
  }

  // The same after the pointer check, or with another event
  ghost predicate IsOnce(e: Entry, minutes: set<nat>) {
    e.active == CronMap(minutes, {0}, {0}, {0}, {}) && !e.started && e.def.eventMinutes == 0 && e.def.oneShot
  }

  lemma OnceTicks(f: Step, e: Entry, minutes: set<nat>, m: nat)
    requires Implements(f, FromMidnight) && m < 60 && IsOnce(e, minutes)
    ensures f(e, m) == if m in minutes then Ticked(e, true, [Sent(m, e.def.event)]) else Ticked(e, false, [])
  {
    assert Ticks(f, FromMidnight, e, m);
  }

  // Two entries at addresses 10 and 20; and the same with the first one freed
  ghost function TwoListed(): Storage {
    Storage([10, 20], map[10 := Once(1, {0}), 20 := Once(2, {1})], map[], 0, [])
  }

  ghost function FirstFreed(mark: Mark): Storage {
    Storage([20], map[10 := Marked(mark, Once(1, {0}), 0), 20 := Once(2, {1})], map[10 := 0], 10, [Sent(0, 1)])
  }

  lemma NothingAdded<T>(x: seq<T>)
    ensures [] + x == x && x + [] == x
  {
  }

  // The first event is sent and its entry freed
  lemma VisitSends(loop: Loop)
    requires LoopOf(loop, FromMidnight)
    ensures loop.visit(TwoListed(), 10, 0) == (FirstFreed(loop.mark), 20)
  {
    var s := TwoListed();
    OnceTicks(loop.tick, Once(1, {0}), {0}, 0);
    assert Visits(loop, s, 10, 0);
    assert Without([10, 20], 10) == [20];
    assert s.entries[10 := Once(1, {0})] == s.entries;
    assert s.entries[10 := Marked(loop.mark, Once(1, {0}), 0)] == FirstFreed(loop.mark).entries;
    assert s.links[10 := 0] == map[10 := 0];
    NothingAdded([Sent(0, 1)]);
  }

  // Nothing is due for the second entry in minute 0, nor for the freed one in minute 1
  lemma VisitsPass(loop: Loop)
    requires LoopOf(loop, FromMidnight)
    ensures loop.visit(FirstFreed(loop.mark), 20, 0) == (FirstFreed(loop.mark), 0)
    ensures loop.visit(FirstFreed(loop.mark), 10, 1) == (FirstFreed(loop.mark), 0)
  {
    var s := FirstFreed(loop.mark);
    assert loop.mark(Once(1, {0}).def, 0) == loop.mark(Once(1, {0}).def, 0);
    OnceTicks(loop.tick, s.entries[10], {0}, 1);
    OnceTicks(loop.tick, Once(2, {1}), {1}, 0);
    assert Visits(loop, s, 20, 0) && Visits(loop, s, 10, 1);
    assert s.entries[10 := s.entries[10]] == s.entries && s.entries[20 := Once(2, {1})] == s.entries;
    NothingAdded([Sent(0, 1)]);
  }

  /** Two events, due in minutes 0 and 1. A call for both minutes frees the first entry in minute 0, goes on from it in
      minute 1, and does not come to the second one. */
  lemma SecondEventMissed(loop: Loop, limit: nat)
    requires LoopOf(loop, FromMidnight) && limit >= 2
    ensures var a, b := Once(1, {0}), Once(2, {1});
            && TwoListed().Valid() && TwoListed().Sealed(loop.mark) && TwoListed().Listed() == [a, b]
            && Run([a, b], loop.tick, 0, 2).0 == [] && Run([a, b], loop.tick, 0, 2).1 == [Sent(0, 1), Sent(1, 2)]
            && Call(TwoListed(), 10, 0, loop, 2, limit) == (FirstFreed(loop.mark), true)
            && FirstFreed(loop.mark).sent == [Sent(0, 1)]
  {
    var a, b, s, s1 := Once(1, {0}), Once(2, {1}), TwoListed(), FirstFreed(loop.mark);
    assert s.Listed() == [a, b] by {
      assert [20][1..] == [] && [10, 20][1..] == [20];
    }
    RunTwo(a, b, loop.tick);
    VisitSends(loop);
    VisitsPass(loop);
    assert Walk(s, 10, 0, loop, limit) == Walk(s1, 20, 0, loop, limit - 1);
    assert Walk(s1, 20, 0, loop, limit - 1) == Walk(s1, 0, 0, loop, limit - 2);
    assert Walk(s1, 10, 1, loop, limit) == Walk(s1, 0, 1, loop, limit - 1);
    CallTwo(s, 10, loop, limit, s1, s1);
  }

  lemma CallTwo(s: Storage, first: nat, loop: Loop, limit: nat, s1: Storage, s2: Storage)
    requires Walk(s, first, 0, loop, limit) == (s1, 0) && Walk(s1, first, 1, loop, limit) == (s2, 0)
    ensures Call(s, first, 0, loop, 2, limit) == (s2, true)
  {
    assert Call(s, first, 0, loop, 0, limit) == (s, true);
    assert Call(s, first, 0, loop, 1, limit) == (s1, true);
  }

  lemma RunTwo(a: Entry, b: Entry, f: Step)
    requires Implements(f, FromMidnight) && a == Once(1, {0}) && b == Once(2, {1})
    ensures Run([a, b], f, 0, 2).0 == [] && Run([a, b], f, 0, 2).1 == [Sent(0, 1), Sent(1, 2)]
  {
    OnceTicks(f, a, {0}, 0);
    OnceTicks(f, b, {1}, 0);
    OnceTicks(f, b, {1}, 1);
    var none: seq<Entry> := [];
    assert forall m: nat :: TickAll(none, f, m).0 == [] && TickAll(none, f, m).1 == [];
    TickOne(b, none, [b], f, 0);
    TickOne(a, [b], [a, b], f, 0);
    TickOne(b, none, [b], f, 1);
    assert Run([a, b], f, 0, 0) == ([a, b], []);
    assert Run([a, b], f, 0, 1).0 == [b] && Run([a, b], f, 0, 1).1 == [Sent(0, 1)];
    assert Run([a, b], f, 0, 2) == Later(Run([a, b], f, 0, 1), f, 1);
  }

  // ---- An element freed twice ----

  /** An element that is linked to itself and due is visited for ever, and its event sent as often. */
  lemma {:induction false} NeverEnds(s: Storage, a: nat, m: nat, loop: Loop, limit: nat, msg: Sent)
    requires Regular(loop)
    requires a != 0 && a in s.entries && a !in s.list && a in s.links && s.links[a] == a && s.freeList == a
    requires loop.tick(s.entries[a], m) == Ticked(s.entries[a], true, [msg])
    requires Marked(loop.mark, s.entries[a], a) == s.entries[a]
    ensures var (s', cur) := Walk(s, a, m, loop, limit); cur == a && |s'.sent| == |s.sent| + limit
    decreases limit
  {
    if limit > 0 {
      assert s.entries[a := s.entries[a]] == s.entries && s.links[a := a] == s.links;
      assert Visits(loop, s, a, m);
      NeverEnds(loop.visit(s, a, m).0, a, m, loop, limit - 1, msg);
    }
  }

  // One event, due in minutes 0, 1 and 2, in an entry at address 10; its entry freed in minute 0, and freed again in
  // minute 1
  ghost function OneListed(): Storage { Storage([10], map[10 := Once(1, {0, 1, 2})], map[], 0, []) }

  ghost function Freed(mark: Mark): Entry { Marked(mark, Once(1, {0, 1, 2}), 0) }

  ghost function FreedOnce(mark: Mark): Storage { Storage([], map[10 := Freed(mark)], map[10 := 0], 10, [Sent(0, 1)]) }

  ghost function FreedTwice(mark: Mark): Storage {
    Storage([], map[10 := Marked(mark, Freed(mark), 10)], map[10 := 10], 10,
            [Sent(0, 1), Sent(1, Freed(mark).def.event)])
  }

  lemma StaysOnce(mark: Mark, e: Entry, link: nat, minutes: set<nat>)
    requires OnlyIds(mark) && IsOnce(e, minutes)
    ensures IsOnce(Marked(mark, e, link), minutes)
  {
    assert mark(e.def, link) == mark(e.def, link);
  }

  lemma FreedThere(loop: Loop)
    requires LoopOf(loop, FromMidnight)
    ensures loop.visit(OneListed(), 10, 0) == (FreedOnce(loop.mark), 0)
  {
    var s, e := OneListed(), Once(1, {0, 1, 2});
    OnceTicks(loop.tick, e, {0, 1, 2}, 0);
    assert Visits(loop, s, 10, 0);
    assert Without([10], 10) == [] && s.entries[10 := e] == s.entries;
    assert s.entries[10 := Freed(loop.mark)] == map[10 := Freed(loop.mark)];
    NothingAdded([Sent(0, 1)]);
  }

  lemma FreedAgain(loop: Loop)
    requires LoopOf(loop, FromMidnight)
    ensures loop.visit(FreedOnce(loop.mark), 10, 1) == (FreedTwice(loop.mark), 0)
  {
    var s, e := FreedOnce(loop.mark), Freed(loop.mark);
    StaysOnce(loop.mark, Once(1, {0, 1, 2}), 0, {0, 1, 2});
    OnceTicks(loop.tick, e, {0, 1, 2}, 1);
    assert Visits(loop, s, 10, 1);
    assert s.entries[10 := e] == s.entries;
    assert s.entries[10 := Marked(loop.mark, e, 10)] == map[10 := Marked(loop.mark, e, 10)];
    assert map[10 := 0][10 := 10] == map[10 := 10];
    assert [Sent(0, 1)] + [Sent(1, e.def.event)] == [Sent(0, 1), Sent(1, e.def.event)];
  }

  /** A single event, due in minutes 0, 1 and 2: minute 0 frees its entry, minute 1 sends what mp_free has left of the
      ID and frees it again, which links it to itself, and minute 2 does not end. */
  lemma CallNeverEnds(loop: Loop, limit: nat)
    requires LoopOf(loop, FromMidnight) && limit >= 1
    ensures var s := OneListed();
            && s.Valid() && Run(s.Listed(), loop.tick, 0, 3).0 == []
            && Run(s.Listed(), loop.tick, 0, 3).1 == [Sent(0, 1)]
            && Call(s, 10, 0, loop, 2, limit) == (FreedTwice(loop.mark), true)
            && !Call(s, 10, 0, loop, 3, limit).1 && |Call(s, 10, 0, loop, 3, limit).0.sent| == 2 + limit
  {
    var s, s1, s2 := OneListed(), FreedOnce(loop.mark), FreedTwice(loop.mark);
    assert s.Listed() == [Once(1, {0, 1, 2})] by {
      assert [10][1..] == [];
    }
    RunOnce(Once(1, {0, 1, 2}), loop.tick);
    FreedThere(loop);
    FreedAgain(loop);
    assert Walk(s, 10, 0, loop, limit) == Walk(s1, 0, 0, loop, limit - 1);
    assert Walk(s1, 10, 1, loop, limit) == Walk(s2, 0, 1, loop, limit - 1);
    CallTwo(s, 10, loop, limit, s1, s2);
    ThirdMinute(loop, limit);
    assert Call(s, 10, 0, loop, 3, limit) == (Walk(s2, 10, 2, loop, limit).0, false);
  }

  lemma ThirdMinute(loop: Loop, limit: nat)
    requires LoopOf(loop, FromMidnight)
    ensures var (s', cur) := Walk(FreedTwice(loop.mark), 10, 2, loop, limit); cur == 10 && |s'.sent| == 2 + limit
  {
    var s := FreedTwice(loop.mark);
    StaysOnce(loop.mark, Once(1, {0, 1, 2}), 0, {0, 1, 2});
    StaysOnce(loop.mark, Freed(loop.mark), 10, {0, 1, 2});
    MarkedAgain(loop.mark, Freed(loop.mark), 10);
    OnceTicks(loop.tick, s.entries[10], {0, 1, 2}, 2);
    NeverEnds(s, 10, 2, loop, limit, Sent(2, s.entries[10].def.event));
  }

  lemma RunOnce(a: Entry, f: Step)
    requires Implements(f, FromMidnight) && a == Once(1, {0, 1, 2})
    ensures Run([a], f, 0, 3).0 == [] && Run([a], f, 0, 3).1 == [Sent(0, 1)]
  {
    OnceTicks(f, a, {0, 1, 2}, 0);
    assert Run([a], f, 0, 0).0 == [a] && Run([a], f, 0, 0).1 == [];
    NextMinuteOf(a, f, 0, 0);
    assert Run([a], f, 0, 1).0 == [] && Run([a], f, 0, 1).1 == [Sent(0, 1)];
    NextMinuteOf(a, f, 0, 1);
    NextMinuteOf(a, f, 0, 2);
  }
}
