// src/sequence_events.c: timed event sequences that are repeated, and catch up with the time that has passed.
module Sequence {
  import opened Arithmetic
  import opened Wrappers

  const TWO_32: nat := 0x1_0000_0000
  const TWO_16: nat := 0x1_0000

  // ---- Advancing through a list of delays ----

  /** Where a sequence is: the next event, the stored repeat count (0 for endless, 1 when done), the time that has
      passed since the last event, and the events passed on the way there. */
  datatype Progress = Progress(cur: nat, repeats: nat, left: nat, done: bool, emitted: seq<nat>)

  predicate SomeDelay(delays: seq<nat>) { exists p: nat :: p < |delays| && delays[p] > 0 }

  // A sequence that cannot go round for ever without time passing
  predicate Runs(delays: seq<nat>, repeats: nat) { delays != [] && (repeats > 0 || SomeDelay(delays)) }

  // Steps to event p
  function Distance(cur: nat, p: nat, n: nat): nat { if cur <= p then p - cur else if n > cur then n - cur + p else 0 }

  function NextDelay(delays: seq<nat>): (p: nat)
    requires SomeDelay(delays)
    ensures p < |delays| && delays[p] > 0
  {
    if delays[0] > 0 then 0
    else
      assert SomeDelay(delays[1..]) by {
        var p: nat :| p < |delays| && delays[p] > 0;
        assert delays[1..][p - 1] == delays[p];
      }
      1 + NextDelay(delays[1..])
  }

  // The steps that may follow without time passing
  function Patience(delays: seq<nat>, cur: nat, repeats: nat): nat
    requires Runs(delays, repeats) && cur < |delays|
  {
    if repeats > 0 then |delays| - cur else Distance(cur, NextDelay(delays), |delays|)
  }

  // Behind the event cur: the next one, and the repeats left
  function Next(delays: seq<nat>, cur: nat, repeats: nat): (nat, nat) {
    if cur + 1 < |delays| then (cur + 1, repeats) else (0, if repeats > 1 then repeats - 1 else repeats)
  }

  // The event cur is the last one of the last repetition
  predicate Ends(delays: seq<nat>, cur: nat, repeats: nat) { cur + 1 >= |delays| && 1 <= repeats <= 2 }

  /** What the time `delta` since the last event means for a sequence. */
  function Advance(delays: seq<nat>, cur: nat, repeats: nat, delta: nat): Progress
    requires Runs(delays, repeats) && cur < |delays|
    decreases delta, repeats, Patience(delays, cur, repeats)
  {
    if delta < delays[cur] then Progress(cur, repeats, delta, false, [])
    else if Ends(delays, cur, repeats) then Progress(0, 1, 0, true, [cur])
    else
      var (cur', repeats') := Next(delays, cur, repeats);
      var p := Advance(delays, cur', repeats', delta - delays[cur]);
      p.(emitted := [cur] + p.emitted)
  }

  // One event more, behind those that are out already
  lemma PassOne(delays: seq<nat>, cur: nat, repeats: nat, delta: nat, out: seq<nat>)
    requires Runs(delays, repeats) && cur < |delays| && delta >= delays[cur]
    ensures var p := Advance(delays, cur, repeats, delta);
            var (cur', repeats') := Next(delays, cur, repeats);
            if Ends(delays, cur, repeats) then p.(emitted := out + p.emitted) == Progress(0, 1, 0, true, out + [cur])
            else
              var q := Advance(delays, cur', repeats', delta - delays[cur]);
              p.(emitted := out + p.emitted) == q.(emitted := (out + [cur]) + q.emitted)
  {
    if !Ends(delays, cur, repeats) {
      var (cur', repeats') := Next(delays, cur, repeats);
      var q := Advance(delays, cur', repeats', delta - delays[cur]);
      assert out + ([cur] + q.emitted) == (out + [cur]) + q.emitted;
    }
  }

  // The way from one progress on
  ghost function Onward(delays: seq<nat>, p: Progress, more: nat): Progress
    requires Runs(delays, p.repeats) && p.cur < |delays|
  {
    if p.done then p else
    var q := Advance(delays, p.cur, p.repeats, p.left + more);
    q.(emitted := p.emitted + q.emitted)
  }

  /** Catching up in two steps passes the same events as in one, and ends at the same place. */
  lemma {:induction false} CatchUp(delays: seq<nat>, cur: nat, repeats: nat, delta: nat, more: nat)
    requires Runs(delays, repeats) && cur < |delays|
    ensures var p := Advance(delays, cur, repeats, delta);
            && p.cur < |delays| && Runs(delays, p.repeats) && p.left <= delta
            && (!p.done ==> p.left < delays[p.cur])
            && Advance(delays, cur, repeats, delta + more) == Onward(delays, p, more)
    decreases delta, repeats, Patience(delays, cur, repeats)
  {
    if delta < delays[cur] {
      var q := Advance(delays, cur, repeats, delta + more);
      assert [] + q.emitted == q.emitted;
    } else if !Ends(delays, cur, repeats) {
      var (cur', repeats') := Next(delays, cur, repeats);
      CatchUp(delays, cur', repeats', delta - delays[cur], more);
      var p := Advance(delays, cur', repeats', delta - delays[cur]);
      var q := Advance(delays, p.cur, p.repeats, p.left + more);
      assert [cur] + (p.emitted + q.emitted) == ([cur] + p.emitted) + q.emitted;
    }
  }

  // ---- How often it runs ----

  // All events from here to the end of the last repetition
  function Rest(delays: seq<nat>, cur: nat, repeats: nat): seq<nat>
    requires repeats > 0
    decreases repeats, |delays| - cur
  {
    if Ends(delays, cur, repeats) then [cur]
    else
      var (cur', repeats') := Next(delays, cur, repeats);
      [cur] + Rest(delays, cur', repeats')
  }

  function TotalDelay(delays: seq<nat>, indices: seq<nat>): nat
    requires forall i: nat | i < |indices| :: indices[i] < |delays|
  {
    if indices == [] then 0 else delays[indices[0]] + TotalDelay(delays, indices[1..])
  }

  lemma {:induction false} RestInRange(delays: seq<nat>, cur: nat, repeats: nat)
    requires repeats > 0 && cur < |delays|
    ensures forall i: nat | i < |Rest(delays, cur, repeats)| :: Rest(delays, cur, repeats)[i] < |delays|
    decreases repeats, |delays| - cur
  {
    if !Ends(delays, cur, repeats) {
      var (cur', repeats') := Next(delays, cur, repeats);
      RestInRange(delays, cur', repeats');
    }
  }

  /** A repeated sequence sends its events in order, as far as the time has come, and is done exactly when the time
      of all of them has passed. */
  lemma {:induction false} SendsTheRest(delays: seq<nat>, cur: nat, repeats: nat, delta: nat)
    requires repeats > 0 && cur < |delays|
    ensures var p, rest := Advance(delays, cur, repeats, delta), Rest(delays, cur, repeats);
            && p.emitted <= rest && (p.done <==> p.emitted == rest)
            && (forall i: nat | i < |rest| :: rest[i] < |delays|)
            && (p.done <==> delta >= TotalDelay(delays, rest))
            && (!p.done ==> delta == p.left + TotalDelay(delays, p.emitted))
    decreases repeats, |delays| - cur
  {
    var rest := Rest(delays, cur, repeats);
    RestInRange(delays, cur, repeats);
    if Ends(delays, cur, repeats) {
      assert rest[1..] == [];
    } else {
      var (cur', repeats') := Next(delays, cur, repeats);
      RestInRange(delays, cur', repeats');
      assert rest[1..] == Rest(delays, cur', repeats');
      if delta >= delays[cur] {
        SendsTheRest(delays, cur', repeats', delta - delays[cur]);
        var q := Advance(delays, cur', repeats', delta - delays[cur]);
        assert ([cur] + q.emitted)[1..] == q.emitted;
      }
    }
  }

  // The stored count that stands for this many more runs
  function RunsLeft(repeats: nat): nat { if repeats <= 2 then 1 else repeats - 1 }

  /** The stored count decides how many events are sent: all of them once for every run. */
  lemma {:induction false} RestLength(delays: seq<nat>, cur: nat, repeats: nat)
    requires repeats > 0 && cur < |delays|
    ensures |Rest(delays, cur, repeats)| == RunsLeft(repeats) * |delays| - cur
    decreases repeats, |delays| - cur
  {
    if !Ends(delays, cur, repeats) {
      var (cur', repeats') := Next(delays, cur, repeats);
      RestLength(delays, cur', repeats');
      if cur' == 0 {
        assert (RunsLeft(repeats') + 1) * |delays| == RunsLeft(repeats') * |delays| + |delays|;
      }
    }
  }

  /** They are sent in order, over and over. */
  lemma {:induction false} RestIs(delays: seq<nat>, cur: nat, repeats: nat, i: nat)
    requires repeats > 0 && cur < |delays| && i < |Rest(delays, cur, repeats)|
    ensures Rest(delays, cur, repeats)[i] == (cur + i) % |delays|
    decreases repeats, |delays| - cur
  {
    if i == 0 {
      DivModUnique(cur, |delays|, 0, cur);
    } else {
      var (cur', repeats') := Next(delays, cur, repeats);
      RestIs(delays, cur', repeats', i - 1);
      if cur' == 0 {
        OneTurn(i - 1, |delays|);
      }
    }
  }

  lemma OneTurn(x: nat, n: nat)
    requires n > 0
    ensures (n + x) % n == x % n
  {
    DivModDef(x, n);
    assert (x / n + 1) * n == x / n * n + n;
    DivModUnique(n + x, n, x / n + 1, x % n);
  }

  // What an endless sequence sends from here on, and how far it is then
  ghost predicate GoesRound(delays: seq<nat>, cur: nat, delta: nat, p: Progress)
    requires delays != []
  {
    && !p.done && p.repeats == 0
    && (forall i: nat | i < |p.emitted| :: p.emitted[i] == (cur + i) % |delays|)
    && p.cur == (cur + |p.emitted|) % |delays|
    && delta == p.left + TotalDelay(delays, p.emitted) && p.left < delays[p.cur]
  }

  /** An endless sequence is never done: it sends its events in order, over and over, as far as the time has come. */
  lemma {:induction false} EndlessGoesRound(delays: seq<nat>, cur: nat, delta: nat)
    requires Runs(delays, 0) && cur < |delays|
    ensures GoesRound(delays, cur, delta, Advance(delays, cur, 0, delta))
    decreases delta, Patience(delays, cur, 0)
  {
    DivModUnique(cur, |delays|, 0, cur);
    if delta >= delays[cur] {
      var next := if cur + 1 < |delays| then cur + 1 else 0;
      EndlessGoesRound(delays, next, delta - delays[cur]);
      OneMoreRound(delays, cur, next, delta, Advance(delays, next, 0, delta - delays[cur]));
    }
  }

  lemma OneMoreRound(delays: seq<nat>, cur: nat, next: nat, delta: nat, q: Progress)
    requires cur < |delays| && next == (if cur + 1 < |delays| then cur + 1 else 0) && delta >= delays[cur]
    requires GoesRound(delays, next, delta - delays[cur], q)
    ensures GoesRound(delays, cur, delta, q.(emitted := [cur] + q.emitted))
  {
    var n, all := |delays|, [cur] + q.emitted;
    forall i: nat | i < |all| ensures all[i] == (cur + i) % n {
      if i == 0 {
        DivModUnique(cur, n, 0, cur);
      } else {
        OneOn(cur, next, n, i);
        assert all[i] == q.emitted[i - 1];
      }
    }
    OneOn(cur, next, n, |all|);
    assert all[1..] == q.emitted;
  }

  lemma OneOn(cur: nat, next: nat, n: nat, i: nat)
    requires cur < n && next == (if cur + 1 < n then cur + 1 else 0) && i > 0
    ensures (cur + i) % n == (next + (i - 1)) % n
  {
    if next == 0 {
      OneTurn(i - 1, n);
      assert cur + i == n + (i - 1);
    } else {
      assert cur + i == next + (i - 1);
    }
  }

  /** sequence_configure and sequence_start: the count that is stored in eight bits for a requested one. */
  function StoredRepeats(requested: nat): nat { if requested == 0 then 0 else (requested + 1) % 256 }

  /** A sequence that is started with a requested number of repetitions runs that many times, for all requests but
      255, which makes it endless. */
  lemma RunsAsRequestedIff(delays: seq<nat>, requested: nat)
    requires delays != [] && 0 < requested < 256
    ensures (StoredRepeats(requested) > 0 &&
             |Rest(delays, 0, StoredRepeats(requested))| == requested * |delays|) <==> requested != 255
  {
    if requested < 255 {
      RestLength(delays, 0, StoredRepeats(requested));
    }
  }

  // ---- The update ----

  datatype SequenceEvent = SequenceEvent(event: nat, delayMs: nat, payload: nat)

  // Unsigned subtraction of time stamps
  function Elapsed(now: nat, timestamp: nat): (d: nat)
    requires now < TWO_32 && timestamp < TWO_32
    ensures d < TWO_32
  {
    if now >= timestamp then now - timestamp else now + TWO_32 - timestamp
  }

  /** The time stamp an update leaves is the time of the last event passed: the time since then, and a later update
      goes on from there. */
  lemma TimestampIsOfLastEvent(timestamp: nat, now: nat, left: nat, later: nat)
    requires now < TWO_32 && timestamp < TWO_32 && later < TWO_32
    requires left <= Elapsed(now, timestamp) <= Elapsed(later, timestamp)
    ensures var t := Elapsed(now, left);
            && Elapsed(now, t) == left
            && Elapsed(later, t) == left + (Elapsed(later, timestamp) - Elapsed(now, timestamp))
  {
  }

  /** Updating at t1 and again at t2 sends the same events as updating once at t2, and leaves the same state, as long
      as no more than the range of the clock passes between updates. */
  lemma UpdateTwice(delays: seq<nat>, cur: nat, repeats: nat, timestamp: nat, t1: nat, t2: nat)
    requires Runs(delays, repeats) && cur < |delays| && timestamp < TWO_32 && t1 < TWO_32 && t2 < TWO_32
    requires Elapsed(t1, timestamp) <= Elapsed(t2, timestamp)
    ensures var p, once := Advance(delays, cur, repeats, Elapsed(t1, timestamp)),
                           Advance(delays, cur, repeats, Elapsed(t2, timestamp));
            && p.cur < |delays| && Runs(delays, p.repeats) && p.left < TWO_32
            && (p.done ==> once == p)
            && (!p.done ==>
                  var timestamp1 := if p.emitted == [] then timestamp else Elapsed(t1, p.left);
                  var q := Advance(delays, p.cur, p.repeats, Elapsed(t2, timestamp1));
                  once == q.(emitted := p.emitted + q.emitted))
  {
    var e1, e2 := Elapsed(t1, timestamp), Elapsed(t2, timestamp);
    var p := Advance(delays, cur, repeats, e1);
    CatchUp(delays, cur, repeats, e1, e2 - e1);
    TimestampIsOfLastEvent(timestamp, t1, p.left, t2);
  }

  class Sequence {
    const events: seq<SequenceEvent>
    var curEvent: nat
    var repeats: nat
    var timestamp: nat
    var sent: seq<nat>    // indices of the events sent

    ghost function Delays(): seq<nat> { seq(|events|, i requires 0 <= i < |events| => events[i].delayMs) }

    ghost predicate Valid()
      reads `curEvent, `repeats, `timestamp
    {
      curEvent < |events| && Runs(Delays(), repeats) && timestamp < TWO_32
    }

    // What the time since the last event means
    ghost function Due(now: nat): Progress
      requires Valid() && now < TWO_32
      reads `curEvent, `repeats, `timestamp
    {
      Advance(Delays(), curEvent, repeats, Elapsed(now, timestamp))
    }

    /** sequence_configure */
    constructor (events: seq<SequenceEvent>, requested: nat)
      requires events != [] && requested < 256
      ensures this.events == events && curEvent == 0 && repeats == StoredRepeats(requested) && timestamp == 0
      ensures sent == []
    {
      this.events := events;
      repeats := if requested != 0 then (requested + 1) % 256 else requested;
      curEvent, timestamp, sent := 0, 0, [];
    }

    /** sequence_update, without a completion callback. The result is the time to the next event, 0 when done. */
    method Update(now: nat) returns (nextDelay: nat)
      requires Valid() && now < TWO_32
      modifies this
      ensures Valid() && sent == old(sent) + old(Due(now)).emitted
      ensures curEvent == old(Due(now)).cur && repeats == old(Due(now)).repeats
      ensures old(Due(now)).left < TWO_32
      ensures timestamp == if old(Due(now)).emitted == [] then old(timestamp) else Elapsed(now, old(Due(now)).left)
      ensures old(Due(now)).done ==> nextDelay == 0
      ensures !old(Due(now)).done ==> nextDelay == Delays()[curEvent] - old(Due(now)).left > 0
      ensures old(repeats) == 0 ==>
                nextDelay > 0 && GoesRound(Delays(), old(curEvent), old(Elapsed(now, timestamp)), old(Due(now)))
    {
      ghost var due := Due(now);
      var delta := Elapsed(now, timestamp);
      var keepSeq := true;
      CatchUp(Delays(), curEvent, repeats, delta, 0);
      if repeats == 0 {
        EndlessGoesRound(Delays(), curEvent, delta);
      }
      assert sent + [] == sent;
      if delta >= events[curEvent].delayMs {
        delta, keepSeq := PassEvents(delta);
        timestamp := Elapsed(now, delta);
      }
      nextDelay := if keepSeq then events[curEvent].delayMs - delta else 0;
    }

    // The loop: advance through sequence to current time position
    method PassEvents(elapsed: nat) returns (delta: nat, keepSeq: bool)
      requires Valid() && elapsed >= events[curEvent].delayMs
      modifies `curEvent, `repeats, `sent
      ensures var p := old(Advance(Delays(), curEvent, repeats, elapsed));
              && p.emitted != [] && sent == old(sent) + p.emitted && curEvent == p.cur && repeats == p.repeats
              && delta == p.left && keepSeq == !p.done
    {
      ghost var all, was, out: seq<nat> := Advance(Delays(), curEvent, repeats, elapsed), sent, [];
      delta, keepSeq := elapsed, true;
      var more := true;
      assert was + out == was;
      while more
        invariant Valid() && sent == was + out
        invariant keepSeq ==>
                    var p := Advance(Delays(), curEvent, repeats, delta); all == p.(emitted := out + p.emitted)
        invariant if more then keepSeq && delta >= events[curEvent].delayMs else out != []
        invariant !more && keepSeq ==> delta < events[curEvent].delayMs
        invariant !keepSeq ==> all == Progress(curEvent, repeats, delta, true, out)
        decreases more, delta, repeats, Patience(Delays(), curEvent, repeats)
      {
        PassOne(Delays(), curEvent, repeats, delta, out);
        assert was + (out + [curEvent]) == (was + out) + [curEvent];
        out := out + [curEvent];
        sent := sent + [curEvent];
        delta := delta - events[curEvent].delayMs;
        curEvent := curEvent + 1;
        if curEvent >= |events| {
          curEvent := 0;
          if repeats > 1 {
            repeats := repeats - 1;
          }
          if repeats == 1 {
            delta, keepSeq := 0, false;
            break;
          }
        }
        more := delta >= events[curEvent].delayMs;
      }
    }
  }

  // ---- Compiling pairs of events ----

  datatype SequenceEventPair = SequenceEventPair(eventBegin: SequenceEvent, eventEnd: SequenceEvent)

  function At(e: SequenceEvent, base: nat): SequenceEvent { e.(delayMs := (base + e.delayMs) % TWO_16) }

  // The time of the first i pairs' begins, and their events at absolute times
  function BeginTime(pairs: seq<SequenceEventPair>, i: nat): nat
    requires i <= |pairs|
  {
    if i == 0 then 0 else BeginTime(pairs, i - 1) + pairs[i - 1].eventBegin.delayMs
  }

  function AbsoluteTo(pairs: seq<SequenceEventPair>, i: nat): seq<SequenceEvent>
    requires i <= |pairs|
  {
    if i == 0 then [] else
    var p, begin := pairs[i - 1], BeginTime(pairs, i);
    AbsoluteTo(pairs, i - 1) + [p.eventBegin.(delayMs := begin)]
    + if p.eventEnd.event != 0 then [p.eventEnd.(delayMs := begin + p.eventEnd.delayMs)] else []
  }

  // The time of the last event of pair i
  function EndTime(pairs: seq<SequenceEventPair>, i: nat): nat
    requires i < |pairs|
  {
    BeginTime(pairs, i + 1) + if pairs[i].eventEnd.event != 0 then pairs[i].eventEnd.delayMs else 0
  }

  // All times fit in their 16 bits
  predicate TimesFit(pairs: seq<SequenceEventPair>) {
    forall i: nat | i < |pairs| :: EndTime(pairs, i) < TWO_16
  }

  predicate InOrder(es: seq<SequenceEvent>) {
    forall i: nat, j: nat | i < j < |es| :: es[i].delayMs <= es[j].delayMs
  }

  // qsort by delay: some permutation that is in order
  ghost predicate Sorts(qsort: seq<SequenceEvent> -> seq<SequenceEvent>) {
    forall es: seq<SequenceEvent> :: multiset(qsort(es)) == multiset(es) && InOrder(qsort(es))
  }

  // The absolute times of events with relative delays
  function TimeOf(es: seq<SequenceEvent>, i: nat): nat
    requires i < |es|
  {
    if i == 0 then es[0].delayMs else TimeOf(es, i - 1) + es[i].delayMs
  }

  // What 16 bits keep of the times
  function Cut(es: seq<SequenceEvent>): (r: seq<SequenceEvent>)
    ensures |r| == |es|
  {
    seq(|es|, i requires 0 <= i < |es| => es[i].(delayMs := es[i].delayMs % TWO_16))
  }

  lemma CutAppends(a: seq<SequenceEvent>, b: seq<SequenceEvent>)
    ensures Cut(a + b) == Cut(a) + Cut(b)
  {
  }

  lemma CutAdds(a: nat, b: nat)
    ensures (a % TWO_16 + b) % TWO_16 == (a + b) % TWO_16
  {
    DivModDef(a, TWO_16);
    DivModDef(a % TWO_16 + b, TWO_16);
    DivModUnique(a + b, TWO_16, a / TWO_16 + (a % TWO_16 + b) / TWO_16, (a % TWO_16 + b) % TWO_16);
  }

  // The events of pair i in 16 bits
  lemma CutPair(pairs: seq<SequenceEventPair>, i: nat)
    requires i < |pairs|
    ensures var p, begin := pairs[i], BeginTime(pairs, i + 1) % TWO_16;
            Cut(AbsoluteTo(pairs, i + 1))
            == Cut(AbsoluteTo(pairs, i)) + [p.eventBegin.(delayMs := begin)]
               + if p.eventEnd.event != 0 then [At(p.eventEnd, begin)] else []
  {
    var p, begin := pairs[i], BeginTime(pairs, i + 1);
    var ends := if p.eventEnd.event != 0 then [p.eventEnd.(delayMs := begin + p.eventEnd.delayMs)] else [];
    CutAppends(AbsoluteTo(pairs, i) + [p.eventBegin.(delayMs := begin)], ends);
    CutAppends(AbsoluteTo(pairs, i), [p.eventBegin.(delayMs := begin)]);
    CutAdds(begin, p.eventEnd.delayMs);
  }

  // The events of all pairs, each at its time in 16 bits
  function In16Bits(pairs: seq<SequenceEventPair>): seq<SequenceEvent> { Cut(AbsoluteTo(pairs, |pairs|)) }

  // How many events the first i pairs have
  function Events(pairs: seq<SequenceEventPair>, i: nat): nat
    requires i <= |pairs|
  {
    if i == 0 then 0 else Events(pairs, i - 1) + if pairs[i - 1].eventEnd.event != 0 then 2 else 1
  }

  lemma {:induction false} EventsAre(pairs: seq<SequenceEventPair>, i: nat)
    requires i <= |pairs|
    ensures Events(pairs, i) == |AbsoluteTo(pairs, i)|
  {
    if i > 0 {
      EventsAre(pairs, i - 1);
    }
  }

  lemma {:induction false} EventsGrow(pairs: seq<SequenceEventPair>, i: nat, j: nat)
    requires i <= j <= |pairs|
    ensures Events(pairs, i) + (j - i) <= Events(pairs, j) <= Events(pairs, i) + 2 * (j - i)
    decreases j
  {
    if i < j {
      EventsGrow(pairs, i, j - 1);
    }
  }

  // Count number of event items, in 16 bits
  method CountEvents(pairs: seq<SequenceEventPair>) returns (count: nat)
    ensures count == Events(pairs, |pairs|) % TWO_16
  {
    count := 0;
    var i: nat := 0;
    while i < |pairs|
      invariant i <= |pairs| && count == Events(pairs, i) % TWO_16
    {
      CutAdds(Events(pairs, i), 1);
      CutAdds(Events(pairs, i) + 1, 1);
      count := (count + 1) % TWO_16;
      if pairs[i].eventEnd.event != 0 {
        count := (count + 1) % TWO_16;
      }
      i := i + 1;
    }
  }

  // Populate sequence with absolute delay from start, or None when it writes behind the room that there is
  method Populate(pairs: seq<SequenceEventPair>, room: nat) returns (filled: Option<seq<SequenceEvent>>)
    ensures filled == if Events(pairs, |pairs|) <= room then Some(In16Bits(pairs)) else None
  {
    var es := [];
    var absTime: nat := 0;
    var i: nat := 0;
    while i < |pairs|
      invariant i <= |pairs| && absTime == BeginTime(pairs, i) % TWO_16 && es == Cut(AbsoluteTo(pairs, i))
      invariant |es| <= room
    {
      CutPair(pairs, i);
      CutAdds(BeginTime(pairs, i), pairs[i].eventBegin.delayMs);
      EventsAre(pairs, i);
      EventsGrow(pairs, i + 1, |pairs|);
      if |es| == room {
        return None;
      }
      absTime := (absTime + pairs[i].eventBegin.delayMs) % TWO_16;
      es := es + [pairs[i].eventBegin.(delayMs := absTime)];
      if pairs[i].eventEnd.event != 0 {
        if |es| == room {
          return None;
        }
        es := es + [At(pairs[i].eventEnd, absTime)];
      }
      i := i + 1;
    }
    EventsAre(pairs, |pairs|);
    return Some(es);
  }

  // Event k has become relative to the one before it
  ghost predicate RelativeAt(es: seq<SequenceEvent>, was: seq<SequenceEvent>, k: nat) {
    && k < |es| == |was|
    && es[k].event == was[k].event && es[k].payload == was[k].payload
    && was[k].delayMs == (if k == 0 then 0 else was[k - 1].delayMs) + es[k].delayMs
  }

  // Convert to relative delay
  method MakeRelative(es: array<SequenceEvent>)
    requires InOrder(es[..]) && forall i: nat | i < es.Length :: es[i].delayMs < TWO_16
    modifies es
    ensures forall i: nat | i < es.Length :: RelativeAt(es[..], old(es[..]), i)
  {
    ghost var was := es[..];
    var absTime: nat := 0;
    var i: nat := 0;
    while i < es.Length
      invariant i <= es.Length && absTime == if i == 0 then 0 else was[i - 1].delayMs
      invariant forall k: nat | i <= k < es.Length :: es[k] == was[k]
      invariant forall k: nat | k < i :: RelativeAt(es[..], was, k)
    {
      ghost var before := es[..];
      var nextAbsTime := es[i].delayMs;
      assert i > 0 ==> was[i - 1].delayMs <= was[i].delayMs;
      es[i] := es[i].(delayMs := (es[i].delayMs - absTime) % TWO_16);
      forall k: nat | k < i ensures RelativeAt(es[..], was, k) {
        assert RelativeAt(before, was, k);
      }
      absTime := nextAbsTime;
      i := i + 1;
    }
  }

  lemma {:induction false} TimesAddUp(es: seq<SequenceEvent>, was: seq<SequenceEvent>, i: nat)
    requires i < |es| && forall k: nat | k < |es| :: RelativeAt(es, was, k)
    ensures |es| == |was| && TimeOf(es, i) == was[i].delayMs
    decreases i
  {
    assert RelativeAt(es, was, i);
    if i > 0 {
      TimesAddUp(es, was, i - 1);
    }
  }

  // The events of a relative sequence at their absolute times
  function Timed(es: seq<SequenceEvent>, n: nat): seq<SequenceEvent>
    requires n <= |es|
  {
    if n == 0 then [] else Timed(es, n - 1) + [es[n - 1].(delayMs := TimeOf(es, n - 1))]
  }

  lemma {:induction false} TimedIs(es: seq<SequenceEvent>, was: seq<SequenceEvent>, n: nat)
    requires |es| == |was| && n <= |es| && forall k: nat | k < |es| :: RelativeAt(es, was, k)
    ensures Timed(es, n) == was[..n]
    decreases n
  {
    if n > 0 {
      TimedIs(es, was, n - 1);
      TimesAddUp(es, was, n - 1);
      assert RelativeAt(es, was, n - 1);
      assert was[..n] == was[..n - 1] + [was[n - 1]];
    }
  }

  lemma {:induction false} AbsoluteFits(pairs: seq<SequenceEventPair>, i: nat)
    requires TimesFit(pairs) && i <= |pairs|
    ensures Cut(AbsoluteTo(pairs, i)) == AbsoluteTo(pairs, i)
    decreases i
  {
    if i > 0 {
      AbsoluteFits(pairs, i - 1);
      assert EndTime(pairs, i - 1) < TWO_16;
    }
  }

  // The last event of pair j is at its end
  lemma {:induction false} EndsInAbsolute(pairs: seq<SequenceEventPair>, i: nat, j: nat) returns (e: SequenceEvent)
    requires j < i <= |pairs|
    ensures e in AbsoluteTo(pairs, i) && e.delayMs == EndTime(pairs, j)
    decreases i
  {
    if j + 1 < i {
      e := EndsInAbsolute(pairs, i - 1, j);
    } else {
      var absolute := AbsoluteTo(pairs, i);
      e := absolute[|absolute| - 1];
    }
  }

  // Cut events are the events themselves exactly when all times fit
  lemma CutIsExactIff(pairs: seq<SequenceEventPair>)
    ensures multiset(In16Bits(pairs)) == multiset(AbsoluteTo(pairs, |pairs|)) <==> TimesFit(pairs)
  {
    var absolute := AbsoluteTo(pairs, |pairs|);
    if TimesFit(pairs) {
      AbsoluteFits(pairs, |pairs|);
    } else {
      var j: nat :| j < |pairs| && EndTime(pairs, j) >= TWO_16;
      var e := EndsInAbsolute(pairs, |pairs|, j);
      assert e in multiset(absolute);
      assert e !in Cut(absolute);
    }
  }

  /** sequence_compile of up to 2^16 - 1 pairs: the events of the pairs, in the order of their times from the start, and
      each at its time in 16 bits. That is its time exactly when all times fit. The events are counted in 16 bits, so
      that from 2^16 of them on too little is allocated and then overrun. */
  method Compile(pairs: seq<SequenceEventPair>, qsort: seq<SequenceEvent> -> seq<SequenceEvent>)
    returns (result: Option<array<SequenceEvent>>)
    requires Sorts(qsort) && |pairs| < TWO_16
    ensures result.None? <==> Events(pairs, |pairs|) >= TWO_16
    ensures result.Some? ==> fresh(result.value) && IsCompiled(pairs, result.value[..])
    ensures result.Some? ==>
              (multiset(Timed(result.value[..], result.value.Length)) == multiset(AbsoluteTo(pairs, |pairs|))
               <==> TimesFit(pairs))
  {
    var eventCount := CountEvents(pairs);
    var filled := Populate(pairs, eventCount);
    if filled.None? {
      return None;
    }
    EventsAre(pairs, |pairs|);
    CutIsExactIff(pairs);
    var compiled := SortAndRelate(filled.value, qsort);
    return Some(compiled);
  }

  // Sort sequence by absolute delay, and convert to relative delay
  method SortAndRelate(es: seq<SequenceEvent>, qsort: seq<SequenceEvent> -> seq<SequenceEvent>)
    returns (compiled: array<SequenceEvent>)
    requires Sorts(qsort) && forall i: nat | i < |es| :: es[i].delayMs < TWO_16
    ensures fresh(compiled) && compiled.Length == |es|
    ensures InOrder(Timed(compiled[..], compiled.Length))
    ensures multiset(Timed(compiled[..], compiled.Length)) == multiset(es)
  {
    var sorted := qsort(es);
    assert |multiset(sorted)| == |multiset(es)|;
    forall i: nat | i < |sorted| ensures sorted[i].delayMs < TWO_16 {
      assert sorted[i] in multiset(sorted);
      assert sorted[i] in es;
    }
    compiled := new SequenceEvent[|sorted|](i requires 0 <= i < |sorted| => sorted[i]);
    assert compiled[..] == sorted;
    MakeRelative(compiled);
    TimedIs(compiled[..], sorted, compiled.Length);
    assert sorted[..|sorted|] == sorted;
  }

  ghost predicate IsCompiled(pairs: seq<SequenceEventPair>, es: seq<SequenceEvent>) {
    && |es| == Events(pairs, |pairs|)
    && InOrder(Timed(es, |es|)) && multiset(Timed(es, |es|)) == multiset(In16Bits(pairs))
  }
}
