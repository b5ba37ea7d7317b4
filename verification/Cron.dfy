// src/cron_events.c: schedules as bitmaps, and the events of a span of time. A bitmap is the set of its bits; time is
// in seconds, and what localtime_r makes of it is a parameter.
module Cron {
  import opened Arithmetic
  import opened Wrappers

  const WILDCARD_START: nat := 63

  // From start on in whole steps
  predicate OnGrid(start: nat, step: nat, v: nat)
    requires step > 0
  {
    v >= start && (v - start) % step == 0
  }

  datatype CronField = CronField(rngStart: nat, rngEnd: nat, step: nat) {
    // The widths of the bit fields
    predicate Valid() { rngStart < 64 && rngEnd < 64 && step < 16 }
    predicate IsWildcard() { rngStart == WILDCARD_START }
    function Step(): (s: nat)
      ensures s > 0
    {
      if step == 0 then 1 else step
    }

    /** What the field says about a value: every step-th one of the range, or of all from 0 to 59. The start of a
        range always counts. */
    predicate Selects(v: nat) {
      if IsWildcard() then Step() == 1 || (v <= 59 && OnGrid(0, Step(), v))
      else v == rngStart || (v <= rngEnd && OnGrid(rngStart, Step(), v))
    }
  }

  datatype CronTimeSpec = CronTimeSpec(minute: CronField, hour: CronField, dayOfMonth: CronField, month: CronField,
                                       dayOfWeek: CronField)
  {
    // The ranges that the fields are documented with
    predicate Valid() {
      && minute.Valid() && hour.Valid() && dayOfMonth.Valid() && month.Valid() && dayOfWeek.Valid()
      && (dayOfMonth.IsWildcard() || dayOfMonth.rngStart <= 30)
      && (dayOfWeek.IsWildcard() || (dayOfWeek.rngStart <= 6 && dayOfWeek.rngEnd <= 6))
    }
  }

  const MIDNIGHT := CronField(0, 0, 0)
  type Schedule = s: CronTimeSpec | s.Valid() witness CronTimeSpec(MIDNIGHT, MIDNIGHT, MIDNIGHT, MIDNIGHT, MIDNIGHT)

  datatype CronMap = CronMap(minutes: set<nat>, hours: set<nat>, days: set<nat>, months: set<nat>, daysOfWeek: set<nat>)

  /** Broken down local time; days and months count from 0 here. */
  datatype Tm = Tm(min: nat, hour: nat, mday: nat, mon: nat, wday: nat) {
    predicate Valid() { min < 60 && hour < 24 && mday < 31 && mon < 12 && wday < 7 }
    function MinuteOfDay(): nat { 60 * hour + min }
  }

  lemma GridStep(start: nat, step: nat, pos: nat)
    requires step > 0 && OnGrid(start, step, pos)
    ensures OnGrid(start, step, pos + step)
    ensures forall v: nat | pos < v < pos + step :: !OnGrid(start, step, v)
  {
    var x := pos - start;
    DivModDef(x, step);
    assert (x / step + 1) * step == x / step * step + step;
    DivModUnique(x + step, step, x / step + 1, 0);
    forall v: nat | pos < v < pos + step ensures !OnGrid(start, step, v) {
      DivModUnique(v - start, step, x / step, v - pos);
    }
  }

  lemma GridStart(start: nat, step: nat)
    requires step > 0
    ensures OnGrid(start, step, start)
  {
    DivModUnique(0, step, 0, 0);
  }

  predicate IsBit(b: nat, width: nat) { b < width }

  function Bits(width: nat): set<nat> { set b: nat | b < width && IsBit(b, width) }

  function Truncated(bitmap: set<nat>, width: nat): set<nat> { set b: nat | b in bitmap && b < width }

  /** field_spec_to_bitmap */
  method FieldSpecToBitmap(field: CronField) returns (bitmap: set<nat>)
    requires field.Valid()
    ensures forall v: nat :: v in bitmap <==> v < 64 && field.Selects(v)
  {
    bitmap := {};
    var step: nat := if field.step == 0 then 1 else field.step;
    if field.rngStart == WILDCARD_START && step == 1 {
      bitmap := Bits(64);
    } else {
      var start: nat := if field.rngStart == WILDCARD_START then 0 else field.rngStart;
      var rngEnd := if field.rngStart == WILDCARD_START then 59 else field.rngEnd;
      var rngPos: nat := start;
      GridStart(start, step);
      var more := true;
      while more
        invariant OnGrid(start, step, rngPos) && rngPos <= 63 + step
        invariant more ==> rngPos == start || rngPos <= rngEnd
        invariant !more ==> start < rngPos && rngPos > rngEnd
        invariant forall v: nat :: v in bitmap <==> v < rngPos && OnGrid(start, step, v) && (v == start || v <= rngEnd)
        decreases more, 64 + step - rngPos
      {
        GridStep(start, step, rngPos);
        bitmap := bitmap + {rngPos};
        rngPos := rngPos + step;
        more := rngPos <= rngEnd;
      }
    }
  }

  /** map_init. Only one of the two day maps is left, the one for days of the week if it is sparse. */
  method MapInit(spec: Schedule) returns (m: CronMap)
    ensures m == MapOf(spec)
  {
    var minutes := FieldSpecToBitmap(spec.minute);
    var hours := FieldSpecToBitmap(spec.hour);
    var days := FieldSpecToBitmap(spec.dayOfMonth);
    var months := FieldSpecToBitmap(spec.month);
    var daysOfWeek := FieldSpecToBitmap(spec.dayOfWeek);
    m := CronMap(minutes, Truncated(hours, 32), Truncated(days, 32), Truncated(months, 16), Truncated(daysOfWeek, 16));
    SameBits(minutes, Selected(spec.minute, 64));
    if m.daysOfWeek != Bits(16) && m.daysOfWeek != {} {
      m := m.(days := {});
    } else if m.days != {} {
      m := m.(daysOfWeek := {});
    }
  }

  function Selected(field: CronField, width: nat): set<nat> { set v: nat | v < width && field.Selects(v) }

  lemma SameBits(a: set<nat>, b: set<nat>)
    requires forall v: nat :: v in a <==> v in b
    ensures a == b
  {
  }

  // The map of a schedule
  ghost function MapOf(spec: CronTimeSpec): CronMap {
    var dow, days := Selected(spec.dayOfWeek, 16), Selected(spec.dayOfMonth, 32);
    var byWeek := dow != Bits(16) && dow != {};
    CronMap(Selected(spec.minute, 64), Selected(spec.hour, 32), if byWeek then {} else days, Selected(spec.month, 16),
            if byWeek || days == {} then dow else {})
  }

  /** time_match */
  predicate TimeMatch(now: Tm, m: CronMap) {
    && now.min in m.minutes && now.hour in m.hours && now.mon in m.months
    && (now.mday in m.days || now.wday in m.daysOfWeek)
  }

  /** What a schedule means: a day of the week takes precedence over the day of the month, unless it is any day. */
  predicate Scheduled(now: Tm, spec: CronTimeSpec) {
    && spec.minute.Selects(now.min) && spec.hour.Selects(now.hour) && spec.month.Selects(now.mon)
    && if spec.dayOfWeek.IsWildcard() && spec.dayOfWeek.Step() == 1 then spec.dayOfMonth.Selects(now.mday)
       else spec.dayOfWeek.Selects(now.wday)
  }

  /** The bitmaps match exactly the scheduled times. */
  lemma MatchIffScheduled(now: Tm, spec: Schedule)
    requires now.Valid()
    ensures TimeMatch(now, MapOf(spec)) <==> Scheduled(now, spec)
  {
    var dow, days := Selected(spec.dayOfWeek, 16), Selected(spec.dayOfMonth, 32);
    var week, month := spec.dayOfWeek, spec.dayOfMonth;
    var w := if week.IsWildcard() then 0 else week.rngStart;
    var d := if month.IsWildcard() then 0 else month.rngStart;
    GridStart(w, week.Step());
    GridStart(d, month.Step());
    assert week.Selects(w) && month.Selects(d);
    assert w in dow && d in days;
    if week.IsWildcard() && week.Step() == 1 {
      AnyDay(week);
    } else {
      SomeDayIsNot(week);
    }
  }

  lemma AnyDay(week: CronField)
    requires week.IsWildcard() && week.Step() == 1
    ensures Selected(week, 16) == Bits(16)
  {
    forall v: nat | v < 16 ensures v in Selected(week, 16) {
      assert week.Selects(v);
    }
  }

  // Other than a plain wildcard, no day field selects all of 16 bits
  lemma SomeDayIsNot(week: CronField)
    requires week.Valid() && !(week.IsWildcard() && week.Step() == 1)
    requires week.IsWildcard() || (week.rngStart <= 6 && week.rngEnd <= 6)
    ensures Selected(week, 16) != Bits(16)
  {
    if week.IsWildcard() {
      GridStart(0, week.Step());
      GridStep(0, week.Step(), 0);
      assert 1 !in Selected(week, 16) && 1 in Bits(16);
    } else {
      assert 15 !in Selected(week, 16) && 15 in Bits(16);
    }
  }

  /** prioritize_day_of_week, by which a schedule is described. */
  predicate PrioritizeDayOfWeek(spec: CronTimeSpec) {
    !spec.dayOfWeek.IsWildcard() || spec.dayOfMonth.IsWildcard()
  }

  /** It names the field that map_init leaves in force exactly unless both fields are wildcards and that of the week
      is plain, or the day of the month is given and the wildcard of the week has a step. */
  lemma PrioritizeAgreesIff(spec: Schedule)
    ensures PrioritizeDayOfWeek(spec) == (MapOf(spec).days == {}) <==>
            || !spec.dayOfWeek.IsWildcard()
            || (spec.dayOfMonth.IsWildcard() != (spec.dayOfWeek.Step() == 1))
  {
    var w := if spec.dayOfWeek.IsWildcard() then 0 else spec.dayOfWeek.rngStart;
    var d := if spec.dayOfMonth.IsWildcard() then 0 else spec.dayOfMonth.rngStart;
    GridStart(w, spec.dayOfWeek.Step());
    GridStart(d, spec.dayOfMonth.Step());
    assert spec.dayOfWeek.Selects(w) && spec.dayOfMonth.Selects(d);
    assert w in Selected(spec.dayOfWeek, 16) && d in Selected(spec.dayOfMonth, 32);
    if spec.dayOfWeek.IsWildcard() && spec.dayOfWeek.Step() == 1 {
      AnyDay(spec.dayOfWeek);
    } else {
      SomeDayIsNot(spec.dayOfWeek);
    }
  }

  // ---- Events ----

  type Short = x: int | -0x8000 <= x < 0x8000

  datatype CronDef = CronDef(event: nat, eventEnd: nat, spec: Schedule, eventMinutes: Short, oneShot: bool)

  datatype Entry = Entry(def: CronDef, active: CronMap, started: bool)

  // Minutes are counted like seconds, from the epoch; local(m) below is what localtime_r makes of minute m
  datatype Sent = Sent(minute: nat, id: nat)

  // When an event ends, in the 8-bit arithmetic of the source
  function EndMinute(now: Tm, eventMinutes: nat): nat { (now.min + eventMinutes % 60) % 256 }

  function EndHour(now: Tm, eventMinutes: nat): nat {
    var hour := (now.hour + eventMinutes / 60) % 256;
    (if EndMinute(now, eventMinutes) > 59 then hour + 1 else hour) % 256 % 24
  }

  // The map that waits for the end of an event
  function EndMap(now: Tm, eventMinutes: nat): CronMap {
    var minute := EndMinute(now, eventMinutes);
    CronMap({if minute > 59 then minute - 60 else minute}, {EndHour(now, eventMinutes)}, Bits(32), Bits(16), Bits(16))
  }

  // An entry that waits for its schedule
  ghost function Waiting(def: CronDef): Entry { Entry(def, MapOf(def.spec), false) }

  // An entry whose event has started and waits for its end
  function Begun(e: Entry, now: Tm): Entry
    requires e.def.eventMinutes > 0
  {
    e.(active := EndMap(now, e.def.eventMinutes), started := true)
  }

  /** What a minute makes of an entry, whether it is taken off the list then, and what is sent for it. */
  datatype Ticked = Ticked(entry: Entry, removed: bool, sent: seq<Sent>) {
    function Kept(): seq<Entry> { if removed then [] else [entry] }
  }

  // now is the local time of minute m
  ghost function Tick(e: Entry, m: nat, now: Tm): Ticked {
    if !TimeMatch(now, e.active) then Ticked(e, false, [])
    else if e.started then Ticked(Waiting(e.def), e.def.oneShot, [Sent(m, e.def.eventEnd)])
    else if e.def.eventMinutes > 0 then Ticked(Begun(e, now), false, [Sent(m, e.def.event)])
    else Ticked(e, e.def.oneShot, [Sent(m, e.def.event)])
  }

  type Step = (Entry, nat) -> Ticked

  ghost predicate Ticks(f: Step, local: nat -> Tm, e: Entry, m: nat) { f(e, m) == Tick(e, m, local(m)) }

  // f is what the minutes of this clock do
  ghost predicate Implements(f: Step, local: nat -> Tm) { forall e: Entry, m: nat :: Ticks(f, local, e, m) }

  // There is such a function for every clock
  ghost function StepOf(local: nat -> Tm): (f: Step)
    ensures Implements(f, local)
  {
    (e: Entry, m: nat) => Tick(e, m, local(m))
  }

  /** Minute m for all entries: what is kept of them, and what is sent. */
  function TickAll(es: seq<Entry>, f: Step, m: nat): (seq<Entry>, seq<Sent>) {
    if es == [] then ([], []) else
    var (kept, sent) := TickAll(es[1..], f, m);
    (f(es[0], m).Kept() + kept, f(es[0], m).sent + sent)
  }

  /** The minutes first, first + 1, ... of the clock, k of them. */
  function Run(es: seq<Entry>, f: Step, first: nat, k: nat): (seq<Entry>, seq<Sent>) {
    if k == 0 then (es, []) else Later(Run(es, f, first, k - 1), f, first + k - 1)
  }

  function Later(r: (seq<Entry>, seq<Sent>), f: Step, m: nat): (seq<Entry>, seq<Sent>) {
    (TickAll(r.0, f, m).0, r.1 + TickAll(r.0, f, m).1)
  }

  /** A run can be taken in two parts: nothing is sent twice or left out. */
  lemma {:induction false} RunsCompose(es: seq<Entry>, f: Step, first: nat, a: nat, b: nat)
    ensures var (mid, sent) := Run(es, f, first, a);
            var (end, more) := Run(mid, f, first + a, b);
            Run(es, f, first, a + b) == (end, sent + more)
    decreases b
  {
    var (mid, sent) := Run(es, f, first, a);
    if b > 0 {
      RunsCompose(es, f, first, a, b - 1);
      var (kept, more) := Run(mid, f, first + a, b - 1);
      var (end, last) := TickAll(kept, f, first + a + b - 1);
      assert (sent + more) + last == sent + (more + last);
    } else {
      assert sent + [] == sent;
    }
  }

  // One more minute for an entry, which may be gone already
  lemma NextMinuteOf(e: Entry, f: Step, first: nat, k: nat)
    ensures |Run([e], f, first, k).0| <= 1
    ensures var (kept, sent) := Run([e], f, first, k);
            Run([e], f, first, k + 1)
            == if kept == [] then ([], sent)
               else (f(kept[0], first + k).Kept(), sent + f(kept[0], first + k).sent)
  {
    var (kept, sent) := Run([e], f, first, k);
    if k > 0 {
      NextMinuteOf(e, f, first, k - 1);
    }
    if kept == [] {
      assert sent + [] == sent;
    } else {
      var t := f(kept[0], first + k);
      assert TickAll(kept[1..], f, first + k) == ([], []);
      assert t.Kept() + [] == t.Kept() && t.sent + [] == t.sent;
    }
  }

  // Minute first + k, when the minutes before it have left one entry
  lemma LastMinute(e: Entry, e1: Entry, f: Step, first: nat, k: nat, sent: seq<Sent>)
    requires Run([e], f, first, k) == ([e1], sent)
    ensures Run([e], f, first, k + 1) == (f(e1, first + k).Kept(), sent + f(e1, first + k).sent)
  {
    NextMinuteOf(e, f, first, k);
  }

  // ---- The entries of a list do not get in each other's way ----

  lemma {:induction false} TickSplits(a: seq<Entry>, b: seq<Entry>, f: Step, m: nat)
    ensures TickAll(a + b, f, m) == (TickAll(a, f, m).0 + TickAll(b, f, m).0, TickAll(a, f, m).1 + TickAll(b, f, m).1)
    decreases |a|
  {
    if a == [] {
      assert a + b == b;
      assert [] + TickAll(b, f, m).0 == TickAll(b, f, m).0 && [] + TickAll(b, f, m).1 == TickAll(b, f, m).1;
    } else {
      TickSplits(a[1..], b, f, m);
      assert (a + b)[0] == a[0] && (a + b)[1..] == a[1..] + b;
      Regroup(f(a[0], m).Kept(), TickAll(a[1..], f, m).0, TickAll(b, f, m).0);
      Regroup(f(a[0], m).sent, TickAll(a[1..], f, m).1, TickAll(b, f, m).1);
    }
  }

  lemma Regroup<T>(a: seq<T>, b: seq<T>, c: seq<T>)
    ensures a + (b + c) == (a + b) + c
  {
  }

  // The same entries are kept and the same is sent
  ghost predicate Together(r: (seq<Entry>, seq<Sent>), a: (seq<Entry>, seq<Sent>), b: (seq<Entry>, seq<Sent>)) {
    r.0 == a.0 + b.0 && multiset(r.1) == multiset(a.1) + multiset(b.1)
  }

  lemma LaterTogether(r: (seq<Entry>, seq<Sent>), a: (seq<Entry>, seq<Sent>), b: (seq<Entry>, seq<Sent>), f: Step,
                      m: nat)
    requires Together(r, a, b)
    ensures Together(Later(r, f, m), Later(a, f, m), Later(b, f, m))
  {
    TickSplits(a.0, b.0, f, m);
  }

  /** Two parts of a list run as they would alone: the same is kept of each, and the same is sent for each. */
  lemma {:induction false} RunSplits(a: seq<Entry>, b: seq<Entry>, f: Step, first: nat, k: nat)
    ensures Together(Run(a + b, f, first, k), Run(a, f, first, k), Run(b, f, first, k))
    decreases k
  {
    if k > 0 {
      RunSplits(a, b, f, first, k - 1);
      var m := first + (k - 1);
      LaterTogether(Run(a + b, f, first, k - 1), Run(a, f, first, k - 1), Run(b, f, first, k - 1), f, m);
      assert Run(a + b, f, first, k) == Later(Run(a + b, f, first, k - 1), f, m);
      assert Run(a, f, first, k) == Later(Run(a, f, first, k - 1), f, m);
      assert Run(b, f, first, k) == Later(Run(b, f, first, k - 1), f, m);
    }
  }

  // What is kept and what is sent for every entry on its own
  function KeptAlone(es: seq<Entry>, f: Step, first: nat, k: nat): seq<Entry> {
    if es == [] then [] else Run([es[0]], f, first, k).0 + KeptAlone(es[1..], f, first, k)
  }

  function SentAlone(es: seq<Entry>, f: Step, first: nat, k: nat): multiset<Sent> {
    if es == [] then multiset{} else multiset(Run([es[0]], f, first, k).1) + SentAlone(es[1..], f, first, k)
  }

  /** What is kept of a list, and what is sent for it, is that of its entries one by one. */
  lemma {:induction false} EntriesRunAlone(es: seq<Entry>, f: Step, first: nat, k: nat)
    ensures Run(es, f, first, k).0 == KeptAlone(es, f, first, k)
    ensures multiset(Run(es, f, first, k).1) == SentAlone(es, f, first, k)
    decreases |es|
  {
    if es == [] {
      NothingRuns(es, f, first, k);
    } else {
      EntriesRunAlone(es[1..], f, first, k);
      RunSplits([es[0]], es[1..], f, first, k);
      assert [es[0]] + es[1..] == es;
    }
  }

  lemma {:induction false} NothingRuns(es: seq<Entry>, f: Step, first: nat, k: nat)
    requires es == []
    ensures Run(es, f, first, k).0 == [] && Run(es, f, first, k).1 == []
    decreases k
  {
    if k > 0 {
      NothingRuns(es, f, first, k - 1);
    }
  }

  // A minute in which nothing happens to an entry
  ghost predicate Idle(e: Entry, f: Step, m: nat) { f(e, m) == Ticked(e, false, []) }

  ghost predicate AllIdle(e: Entry, f: Step, first: nat, end: nat) {
    forall m: nat | first <= m < end :: Idle(e, f, m)
  }

  // Something happens to an entry in the first minute, and nothing to what it becomes in the following ones
  lemma {:induction false} StepThenIdle(e: Entry, e1: Entry, f: Step, m: nat, k: nat, sent: seq<Sent>)
    requires k > 0 && f(e, m) == Ticked(e1, false, sent) && AllIdle(e1, f, m + 1, m + k)
    ensures Run([e], f, m, k) == ([e1], sent)
    decreases k
  {
    if k == 1 {
      assert Run([e], f, m, 0) == ([e], []);
      LastMinute(e, e, f, m, 0, []);
      assert [] + sent == sent;
    } else {
      StepThenIdle(e, e1, f, m, k - 1, sent);
      assert Idle(e1, f, m + (k - 1));
      LastMinute(e, e1, f, m, k - 1, sent);
      assert sent + [] == sent;
    }
  }

  // Whole minutes after `from` up to `until`
  function Minutes(from: nat, until: nat): nat { if until / 60 > from / 60 then until / 60 - from / 60 else 0 }

  /** Consecutive spans of time cover every minute once. */
  lemma WindowsCompose(es: seq<Entry>, f: Step, from: nat, mid: nat, until: nat)
    requires from <= mid <= until
    ensures var (kept, sent) := Run(es, f, from / 60 + 1, Minutes(from, mid));
            var (end, more) := Run(kept, f, mid / 60 + 1, Minutes(mid, until));
            Run(es, f, from / 60 + 1, Minutes(from, until)) == (end, sent + more)
  {
    MinutesAddUp(from, mid, until);
    RunsCompose(es, f, from / 60 + 1, Minutes(from, mid), Minutes(mid, until));
  }

  lemma MinutesAddUp(from: nat, mid: nat, until: nat)
    requires from <= mid <= until
    ensures Minutes(from, until) == Minutes(from, mid) + Minutes(mid, until)
    ensures from / 60 + 1 + Minutes(from, mid) == mid / 60 + 1
  {
  }

  // ---- Start and end of an event ----

  /** A clock without shifts: every minute is the next one of the day. */
  ghost predicate Uniform(local: nat -> Tm) {
    && (forall m: nat :: local(m).Valid())
    && (forall m: nat :: NextMinute(local, m))
  }

  ghost predicate NextMinute(local: nat -> Tm, m: nat) {
    local(m + 1).MinuteOfDay() == NextOf(local(m).MinuteOfDay())
  }

  function NextOf(minute: nat): nat { if minute + 1 == 1440 then 0 else minute + 1 }

  // The minute of the day k minutes later
  function MinuteAfter(minute: nat, k: nat): nat {
    if k == 0 then minute else NextOf(MinuteAfter(minute, k - 1))
  }

  lemma {:induction false} MinuteAfterIs(minute: nat, k: nat)
    requires minute < 1440 && k <= 1440
    ensures MinuteAfter(minute, k) == if minute + k >= 1440 then minute + k - 1440 else minute + k
    decreases k
  {
    if k > 0 {
      MinuteAfterIs(minute, k - 1);
    }
  }

  lemma {:induction false} MinutesLater(local: nat -> Tm, m: nat, k: nat)
    requires Uniform(local)
    ensures local(m + k).MinuteOfDay() == MinuteAfter(local(m).MinuteOfDay(), k)
    decreases k
  {
    if k > 0 {
      MinutesLater(local, m, k - 1);
      assert NextMinute(local, m + (k - 1));
    }
  }

  // The end map waits for one minute of the day
  lemma EndIs(now: Tm, eventMinutes: nat)
    requires now.Valid() && 0 < eventMinutes <= 1440
    ensures var minute, hour := EndMinute(now, eventMinutes), EndHour(now, eventMinutes);
            && hour < 24 && minute < 120
            && 60 * hour + (if minute > 59 then minute - 60 else minute) == MinuteAfter(now.MinuteOfDay(), eventMinutes)
  {
    MinuteAfterIs(now.MinuteOfDay(), eventMinutes);
    NothingWraps(now, eventMinutes);
  }

  lemma NothingWraps(now: Tm, eventMinutes: nat)
    requires now.Valid() && eventMinutes <= 1440
    ensures EndMinute(now, eventMinutes) == now.min + eventMinutes % 60
    ensures var hour := now.hour + eventMinutes / 60 + (if now.min + eventMinutes % 60 > 59 then 1 else 0);
            EndHour(now, eventMinutes) == if hour < 24 then hour else hour - 24
  {
    var h, r := eventMinutes / 60, eventMinutes % 60;
    var hour := now.hour + h + (if now.min + r > 59 then 1 else 0);
    SmallModulus(now.min + r, 256);
    SmallModulus(now.hour + h, 256);
    SmallModulus(hour, 256);
    SmallModulus(hour, 24);
  }

  lemma SmallModulus(x: nat, n: nat)
    requires 0 < n && x < 2 * n
    ensures x % n == if x < n then x else x - n
  {
    DivModUnique(x, n, if x < n then 0 else 1, if x < n then x else x - n);
  }

  lemma EndMapMatches(now: Tm, eventMinutes: nat, later: Tm)
    requires now.Valid() && later.Valid() && 0 < eventMinutes <= 1440
    ensures TimeMatch(later, EndMap(now, eventMinutes)) <==>
            later.MinuteOfDay() == MinuteAfter(now.MinuteOfDay(), eventMinutes)
  {
    EndIs(now, eventMinutes);
  }

  // An event that started in minute m ends in the minute of the day that is eventMinutes later
  lemma EndsIff(e: Entry, local: nat -> Tm, m: nat, k: nat)
    requires Uniform(local) && 0 < e.def.eventMinutes <= 1440 && 0 < k <= 1440
    requires e.active == EndMap(local(m), e.def.eventMinutes)
    ensures TimeMatch(local(m + k), e.active) <==> k == e.def.eventMinutes
  {
    var minute := local(m).MinuteOfDay();
    assert local(m).Valid() && local(m + k).Valid();
    EndMapMatches(local(m), e.def.eventMinutes, local(m + k));
    assert local(m + k).MinuteOfDay() == MinuteAfter(minute, k) by {
      MinutesLater(local, m, k);
    }
    assert MinuteAfter(minute, k) == MinuteAfter(minute, e.def.eventMinutes) <==> k == e.def.eventMinutes by {
      MinuteAfterIs(minute, k);
      MinuteAfterIs(minute, e.def.eventMinutes);
    }
  }

  lemma StaysIdle(e: Entry, local: nat -> Tm, f: Step, m: nat, i: nat)
    requires Uniform(local) && Implements(f, local) && m < i < m + e.def.eventMinutes <= m + 1440
    requires e.active == EndMap(local(m), e.def.eventMinutes)
    ensures Idle(e, f, i)
  {
    var k: nat := i - m;
    EndsIff(e, local, m, k);
    assert Ticks(f, local, e, i);
  }

  lemma IdleBetween(e: Entry, local: nat -> Tm, f: Step, m: nat, n: nat)
    requires Uniform(local) && Implements(f, local) && n == e.def.eventMinutes && 0 < n <= 1440
    requires e.active == EndMap(local(m), n)
    ensures AllIdle(e, f, m + 1, m + n)
  {
    forall i: nat | m + 1 <= i < m + n ensures Idle(e, f, i) {
      StaysIdle(e, local, f, m, i);
    }
  }

  lemma Starts(e: Entry, local: nat -> Tm, f: Step, m: nat)
    requires Implements(f, local) && 0 < e.def.eventMinutes && !e.started && TimeMatch(local(m), e.active)
    ensures f(e, m) == Ticked(Begun(e, local(m)), false, [Sent(m, e.def.event)])
  {
    assert Ticks(f, local, e, m);
  }

  lemma Ends(e: Entry, local: nat -> Tm, f: Step, m: nat, end: nat, d: CronDef)
    requires Uniform(local) && Implements(f, local) && e.started && 0 < d.eventMinutes <= 1440 && e.def == d
    requires e.active == EndMap(local(m), d.eventMinutes) && end == m + d.eventMinutes
    ensures f(e, end) == Ticked(Waiting(d), d.oneShot, [Sent(end, d.eventEnd)])
  {
    EndsIff(e, local, m, d.eventMinutes);
    assert Ticks(f, local, e, end);
  }

  /** An event with a duration ends exactly that many minutes after it started, and nothing is sent for it in
      between. Then it waits for its schedule again, or is gone if it was to happen once. */
  lemma StartThenEnd(e: Entry, local: nat -> Tm, f: Step, m: nat)
    requires Uniform(local) && Implements(f, local)
    requires e == Waiting(e.def) && 0 < e.def.eventMinutes <= 1440 && TimeMatch(local(m), e.active)
    ensures Run([e], f, m, e.def.eventMinutes + 1)
            == (if e.def.oneShot then [] else [e],
                [Sent(m, e.def.event), Sent(m + e.def.eventMinutes, e.def.eventEnd)])
  {
    var n: nat, d, e1 := e.def.eventMinutes, e.def, Begun(e, local(m));
    var start, end := Sent(m, d.event), Sent(m + n, d.eventEnd);
    Starts(e, local, f, m);
    IdleBetween(e1, local, f, m, n);
    StepThenIdle(e, e1, f, m, n, [start]);
    Ends(e1, local, f, m, m + n, d);
    LastMinute(e, e1, f, m, n, [start]);
    assert [start] + [end] == [start, end];
  }

  // ---- Starts and ends take turns ----

  // What the i-th message for an event with a duration says, by whether the event had started before
  function TurnOf(d: CronDef, started: bool, i: nat): nat { if started == (i % 2 == 0) then d.eventEnd else d.event }

  ghost predicate TakesTurns(d: CronDef, started: bool, sent: seq<Sent>) {
    forall i: nat | i < |sent| :: sent[i].id == TurnOf(d, started, i)
  }

  // What is left of an entry is in turn with what it has sent, and an entry that is gone has sent its end
  ghost predicate InTurn(e: Entry, kept: seq<Entry>, sent: seq<Sent>) {
    && TakesTurns(e.def, e.started, sent) && |kept| <= 1
    && (kept != [] ==> kept[0].def == e.def && kept[0].started == (e.started == (|sent| % 2 == 0)))
    && (kept == [] ==> e.def.oneShot && sent != [] && sent[|sent| - 1].id == e.def.eventEnd)
  }

  /** Whatever the clock does, starts and ends of an event with a duration alternate over any run, and the state of
      the entry says which one is next. */
  lemma {:induction false} StartsAndEndsAlternate(e: Entry, local: nat -> Tm, f: Step, first: nat, k: nat)
    requires Implements(f, local) && e.def.eventMinutes > 0
    ensures InTurn(e, Run([e], f, first, k).0, Run([e], f, first, k).1)
    decreases k
  {
    if k > 0 {
      var before, now := Run([e], f, first, k - 1), Run([e], f, first, k);
      StartsAndEndsAlternate(e, local, f, first, k - 1);
      MinuteOf(e, f, first, k, before, now);
      if before.0 != [] {
        NextTurn(e, before.0[0], local, f, first + (k - 1), before.0, before.1);
      }
    }
  }

  lemma MinuteOf(e: Entry, f: Step, first: nat, k: nat, before: (seq<Entry>, seq<Sent>), now: (seq<Entry>, seq<Sent>))
    requires k > 0 && before == Run([e], f, first, k - 1) && now == Run([e], f, first, k)
    ensures before.0 == [] ==> now == before
    ensures before.0 != [] ==> now.0 == f(before.0[0], first + (k - 1)).Kept()
    ensures before.0 != [] ==> now.1 == before.1 + f(before.0[0], first + (k - 1)).sent
  {
    NextMinuteOf(e, f, first, k - 1);
  }

  lemma NextTurn(e: Entry, now: Entry, local: nat -> Tm, f: Step, m: nat, kept: seq<Entry>, sent: seq<Sent>)
    requires Implements(f, local) && e.def.eventMinutes > 0 && kept != [] && kept[0] == now && InTurn(e, kept, sent)
    ensures InTurn(e, f(now, m).Kept(), sent + f(now, m).sent)
  {
    TurnTaken(now, local, f, m);
    TurnCounts(e, now, kept, f(now, m), sent);
  }

  // In one minute an entry with a duration stays as it is, or sends what is next
  ghost predicate TakesTurn(e: Entry, t: Ticked) {
    && t.entry.def == e.def
    && (t.sent == [] ==> !t.removed && t.entry.started == e.started)
    && (t.sent != [] ==> |t.sent| == 1 && t.sent[0].id == (if e.started then e.def.eventEnd else e.def.event))
    && (t.sent != [] ==> if t.removed then e.def.oneShot && e.started else t.entry.started == !e.started)
  }

  lemma TurnTaken(e: Entry, local: nat -> Tm, f: Step, m: nat)
    requires Implements(f, local) && e.def.eventMinutes > 0
    ensures TakesTurn(e, f(e, m))
  {
    assert Ticks(f, local, e, m);
  }

  lemma TurnCounts(e: Entry, now: Entry, kept: seq<Entry>, t: Ticked, sent: seq<Sent>)
    requires kept != [] && kept[0] == now && InTurn(e, kept, sent) && TakesTurn(now, t)
    ensures InTurn(e, t.Kept(), sent + t.sent)
  {
    if t.sent == [] {
      assert sent + t.sent == sent;
    }
  }
}
