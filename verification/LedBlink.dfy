// src/led_blink.c: blink patterns, which advance like event sequences. A pattern is an array of periods that ends
// with 0; the LED is on in the even ones.
module LedBlink {
  import opened Arithmetic
  import opened Sequence

  // The periods of a pattern of up to 15, which is what the index counts in its four bits
  predicate IsPattern(pattern: seq<nat>) {
    && 0 < |pattern| - 1 <= 15 && pattern[|pattern| - 1] == 0
    && forall i: nat | i + 1 < |pattern| :: pattern[i] > 0
  }

  function Periods(pattern: seq<nat>): seq<nat>
    requires pattern != []
  {
    pattern[..|pattern| - 1]
  }

  /** blink_set_pattern and blink_restart: the count that is stored in four bits for a requested one. */
  function StoredBlinks(requested: nat): nat { if requested == 0 then 0 else (requested + 1) % 16 }

  /** A pattern blinks as often as requested exactly when it is at most 14 times: 15 is endless, and greater counts
      lose their high bits. */
  lemma BlinksAsRequestedIff(periods: seq<nat>, requested: nat)
    requires periods != [] && 0 < requested < 256
    ensures (StoredBlinks(requested) > 0 &&
             |Rest(periods, 0, StoredBlinks(requested))| == requested * |periods|) <==> requested <= 14
  {
    var stored := StoredBlinks(requested);
    if stored > 0 {
      RestLength(periods, 0, stored);
      assert RunsLeft(stored) <= 14;
      if requested > 14 {
        assert RunsLeft(stored) < requested;
        MulMonotone(RunsLeft(stored) + 1, requested, |periods|);
        assert (RunsLeft(stored) + 1) * |periods| == RunsLeft(stored) * |periods| + |periods|;
      }
    }
  }

  class LedBlinker {
    const pattern: seq<nat>
    var timestamp: nat
    var repeats: nat
    var patIx: nat
    var led: bool     // what set_led was last called with

    ghost predicate Valid()
      reads `timestamp, `repeats, `patIx
    {
      IsPattern(pattern) && patIx < |pattern| - 1 && repeats < 16 && timestamp < TWO_32
    }

    ghost function Due(now: nat): Progress
      requires Valid() && now < TWO_32
      reads `timestamp, `repeats, `patIx
    {
      PeriodsRun(pattern, repeats);
      Advance(Periods(pattern), patIx, repeats, Elapsed(now, timestamp))
    }

    /** blink_set_pattern */
    constructor (pattern: seq<nat>, requested: nat, now: nat)
      requires IsPattern(pattern) && requested < 256 && now < TWO_32
      ensures Valid() && this.pattern == pattern && patIx == 0 && repeats == StoredBlinks(requested)
      ensures timestamp == now && led
    {
      this.pattern := pattern;
      timestamp := now;
      repeats := if requested != 0 then (requested + 1) % 16 else requested;
      patIx := 0;
      led := true;
    }

    /** blink_update, without a completion callback: the pattern is where the time says, and the LED is on in its
        even periods and off when it is done. */
    method Update(now: nat) returns (keepBlinker: bool)
      requires Valid() && now < TWO_32
      modifies this
      ensures Valid() && keepBlinker == !old(Due(now)).done
      ensures patIx == old(Due(now)).cur && repeats == old(Due(now)).repeats
      ensures old(repeats) == 0 ==>
                && keepBlinker
                && GoesRound(Periods(pattern), old(patIx), old(Elapsed(now, timestamp)), old(Due(now)))
      ensures keepBlinker ==>
                && old(Due(now)).left < TWO_32
                && timestamp
                   == (if old(Due(now)).emitted == [] then old(timestamp) else Elapsed(now, old(Due(now)).left))
      ensures keepBlinker && old(led == (patIx % 2 == 0)) ==> led == (patIx % 2 == 0)
      ensures led == if !keepBlinker then false else if old(Due(now)).emitted == [] then old(led) else patIx % 2 == 0
    {
      PeriodsRun(pattern, repeats);
      CatchUp(Periods(pattern), patIx, repeats, Elapsed(now, timestamp), 0);
      if repeats == 0 {
        EndlessGoesRound(Periods(pattern), patIx, Elapsed(now, timestamp));
      }
      var delta := Elapsed(now, timestamp);
      keepBlinker := true;
      if delta >= pattern[patIx] {
        delta, keepBlinker := PassPeriods(delta);
        if keepBlinker {
          timestamp := Elapsed(now, delta);
          led := patIx % 2 == 0;
        } else {
          led := false;
        }
      }
    }

    // The loop: advance through pattern to current time position
    method PassPeriods(elapsed: nat) returns (delta: nat, keepBlinker: bool)
      requires Valid() && elapsed >= pattern[patIx] && Runs(Periods(pattern), repeats)
      modifies `patIx, `repeats
      ensures Valid()
      ensures var p := old(Advance(Periods(pattern), patIx, repeats, elapsed));
              p.emitted != [] && patIx == p.cur && repeats == p.repeats && delta == p.left && keepBlinker == !p.done
    {
      ghost var periods := Periods(pattern);
      ghost var all, out: seq<nat> := Advance(periods, patIx, repeats, elapsed), [];
      delta, keepBlinker := elapsed, true;
      var more := true;
      while more
        invariant Valid() && Runs(periods, repeats)
        invariant keepBlinker ==>
                  var p := Advance(periods, patIx, repeats, delta); all == p.(emitted := out + p.emitted)
        invariant if more then keepBlinker && delta >= pattern[patIx] else out != []
        invariant !more && keepBlinker ==> delta < pattern[patIx]
        invariant !keepBlinker ==> all == Progress(patIx, repeats, delta, true, out)
        decreases more, delta
      {
        PassOne(periods, patIx, repeats, delta, out);
        out := out + [patIx];
        delta := delta - pattern[patIx];
        patIx := patIx + 1;
        if pattern[patIx] == 0 {
          patIx := 0;
          if repeats > 1 {
            repeats := repeats - 1;
          }
          if repeats == 1 {
            delta, keepBlinker := 0, false;
            break;
          }
        }
        more := delta >= pattern[patIx];
      }
    }
  }

  lemma PeriodsRun(pattern: seq<nat>, repeats: nat)
    requires IsPattern(pattern)
    ensures Runs(Periods(pattern), repeats)
  {
    assert Periods(pattern)[0] > 0;
  }
}
