// What an event of src/cron_events.c means, without bitmaps: when it is due, how long it lasts, and whether it comes
// again. A run of its entry sends just that.
module CronMeaning {
  import opened Cron

  // Where an event is: it waits for its schedule, it lasts until a minute, or it will not come again
  datatype Phase = Waits | Lasts(end: nat) | Over

  // What minute m, with this local time, makes of it, and what is sent
  function Minute(d: CronDef, p: Phase, m: nat, now: Tm): (Phase, seq<Sent>) {
    var next := if d.oneShot then Over else Waits;
    match p
    case Over => (Over, [])
    case Waits =>
      if !Scheduled(now, d.spec) then (Waits, [])
      else (if d.eventMinutes > 0 then Lasts(m + d.eventMinutes) else next, [Sent(m, d.event)])
    case Lasts(end) => if m < end then (p, []) else (next, [Sent(m, d.eventEnd)])
  }

  /** What an event means for the k minutes from the first one on. */
  function Meaning(d: CronDef, local: nat -> Tm, first: nat, k: nat): (Phase, seq<Sent>) {
    if k == 0 then (Waits, []) else
    var (p, sent) := Meaning(d, local, first, k - 1);
    var (p', more) := Minute(d, p, first + k - 1, local(first + k - 1));
    (p', sent + more)
  }

  // What is left of an entry before minute m is in this phase
  ghost predicate IsIn(kept: seq<Entry>, d: CronDef, local: nat -> Tm, m: nat, p: Phase) {
    match p
    case Over => kept == []
    case Waits => kept == [Waiting(d)]
    case Lasts(end) =>
      && |kept| == 1 && kept[0].def == d && kept[0].started && 0 < d.eventMinutes <= end
      && end - d.eventMinutes < m <= end && kept[0].active == EndMap(local(end - d.eventMinutes), d.eventMinutes)
  }

  // A clock with valid times, and without shifts if the event has a duration
  ghost predicate ClockFor(d: CronDef, local: nat -> Tm) {
    (forall m: nat :: local(m).Valid()) && (d.eventMinutes > 0 ==> Uniform(local))
  }

  lemma MinuteIs(e: Entry, local: nat -> Tm, f: Step, m: nat, p: Phase)
    requires Implements(f, local) && ClockFor(e.def, local) && e.def.eventMinutes <= 1440
    requires IsIn([e], e.def, local, m, p)
    ensures f(e, m).sent == Minute(e.def, p, m, local(m)).1
    ensures IsIn(f(e, m).Kept(), e.def, local, m + 1, Minute(e.def, p, m, local(m)).0)
  {
    assert Ticks(f, local, e, m) && local(m).Valid();
    match p
    case Waits =>
      assert [e][0] == Waiting(e.def);
      MatchIffScheduled(local(m), e.def.spec);
    case Lasts(end) =>
      assert [e][0] == e;
      EndsIff(e, local, end - e.def.eventMinutes, m - (end - e.def.eventMinutes));
    case Over =>
  }

  /** The entry of an event of up to a day, run from any minute on, sends what the event means, and is gone when the
      event will not come again. */
  lemma {:induction false} RunMeans(d: CronDef, local: nat -> Tm, f: Step, first: nat, k: nat)
    requires Implements(f, local) && ClockFor(d, local) && d.eventMinutes <= 1440
    ensures Run([Waiting(d)], f, first, k).1 == Meaning(d, local, first, k).1
    ensures IsIn(Run([Waiting(d)], f, first, k).0, d, local, first + k, Meaning(d, local, first, k).0)
    decreases k
  {
    if k > 0 {
      RunMeans(d, local, f, first, k - 1);
      NextMinuteOf(Waiting(d), f, first, k - 1);
      NextMeans(d, local, f, first + (k - 1), Run([Waiting(d)], f, first, k - 1), Run([Waiting(d)], f, first, k),
                Meaning(d, local, first, k - 1));
    }
  }

  // One minute more
  lemma NextMeans(d: CronDef, local: nat -> Tm, f: Step, m: nat, was: (seq<Entry>, seq<Sent>),
                  now: (seq<Entry>, seq<Sent>), meant: (Phase, seq<Sent>))
    requires Implements(f, local) && ClockFor(d, local) && d.eventMinutes <= 1440
    requires was.1 == meant.1 && IsIn(was.0, d, local, m, meant.0)
    requires now == if was.0 == [] then ([], was.1) else (f(was.0[0], m).Kept(), was.1 + f(was.0[0], m).sent)
    ensures var (p, more) := Minute(d, meant.0, m, local(m));
            now.1 == meant.1 + more && IsIn(now.0, d, local, m + 1, p)
  {
    if was.0 == [] {
      assert was.1 + [] == was.1;
    } else {
      assert was.0 == [was.0[0]];
      MinuteIs(was.0[0], local, f, m, meant.0);
    }
  }
}
