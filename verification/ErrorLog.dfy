// src/error_log.c: a circular log of fixed-size entries over erase-only flash sectors.
module ErrorLog {
  import opened Arithmetic
  import opened SectorRing

  /** One 8-byte record. An erased slot reads as all ones; an id of all ones marks a slot as unused. */
  datatype ErrorEntry = ErrorEntry(id: nat, data: nat) {
    predicate IsValid() { id != 0xFFFF_FFFF }
  }
  const ERASED := ErrorEntry(0xFFFF_FFFF, 0xFFFF_FFFF)
  const ENTRY_SIZE: nat := 8

  // ---- What the log means: full sectors from the tail on, then the partly filled head sector ----

  datatype Log = Log(full: seq<seq<ErrorEntry>>, part: seq<ErrorEntry>) {
    ghost predicate Shaped(e: nat) {
      |part| < e && forall j: nat | j < |full| :: |full[j]| == e
    }
    ghost predicate AllValid() {
      && (forall k: nat | k < |part| :: part[k].IsValid())
      && (forall j: nat, k: nat | j < |full| && k < |full[j]| :: full[j][k].IsValid())
    }
    // What slot k of the j-th sector after the tail holds
    ghost function Cell(j: nat, k: nat): ErrorEntry {
      if j < |full| && k < |full[j]| then full[j][k]
      else if j == |full| && k < |part| then part[k]
      else ERASED
    }
    // The entries an iterator at slot k of the j-th sector has still to deliver
    ghost function From(j: nat, k: nat): seq<ErrorEntry> {
      if j < |full| && k <= |full[j]| then full[j][k..] + Flatten(full[j + 1..]) + part
      else if j == |full| && k <= |part| then part[k..]
      else []
    }
    ghost function Entries(): seq<ErrorEntry> { Flatten(full) + part }
  }

  /** One write: filling the last slot of a sector costs the next sector, which is the oldest one
      once the ring is full. A single sector starts over. */
  ghost function Append(log: Log, x: ErrorEntry, s: nat, e: nat): Log {
    if |log.part| + 1 < e then Log(log.full, log.part + [x])
    else if s == 1 then Log([], [x])
    else if |log.full| + 1 < s then Log(log.full + [log.part + [x]], [])
    else Log((log.full + [log.part + [x]])[1..], [])
  }

  /** What is left when power fails after the erase and before the program. */
  ghost function EraseOnly(log: Log, s: nat, e: nat): Log
    requires s >= 1
  {
    if |log.part| + 1 < e then log
    else if s == 1 then Log([], [])
    else if |log.full| + 1 < s then log
    else Log(log.full[1..], log.part)
  }

  // ---- Runs of writes ----

  ghost function AfterWrites(xs: seq<ErrorEntry>, s: nat, e: nat): Log {
    if xs == [] then Log([], []) else Append(AfterWrites(xs[..|xs| - 1], s, e), xs[|xs| - 1], s, e)
  }

  /** How many of n written entries are retained. */
  function Kept(n: nat, s: nat, e: nat): nat
    requires s >= 1 && e >= 1 && (s == 1 ==> e >= 2)
  {
    if n < s * e then n
    else if s == 1 then 1 + (n - e) % (e - 1)
    else (s - 1) * e + n % e
  }

  lemma {:induction false} FlattenAppend<T>(a: seq<seq<T>>, x: seq<T>)
    ensures Flatten(a + [x]) == Flatten(a) + x
  {
    if a == [] {
      assert [x][1..] == [];
      assert a + [x] == [x];
    } else {
      FlattenAppend(a[1..], x);
      assert (a + [x])[1..] == a[1..] + [x];
    }
  }

  lemma {:induction false} FlattenLength<T>(a: seq<seq<T>>, e: nat)
    requires forall j: nat | j < |a| :: |a[j]| == e
    ensures |Flatten(a)| == |a| * e
  {
    if a != [] {
      FlattenLength(a[1..], e);
      assert |a| * e == (|a| - 1) * e + e;
    }
  }

  // A write keeps a suffix of what was there with the new entry at its end
  lemma AppendKeepsSuffix(log: Log, x: ErrorEntry, s: nat, e: nat)
    requires s >= 1 && log.Shaped(e) && |log.full| < s && (s == 1 ==> e >= 2)
    ensures var r := Append(log, x, s, e); r.Shaped(e) && |r.full| < s && IsSuffix(r.Entries(), log.Entries() + [x])
  {
    var r, all := Append(log, x, s, e), log.Entries() + [x];
    if |log.part| + 1 < e {
      assert r.Entries() == all;
    } else if s == 1 {
      assert r.Entries() == [x] == all[|all| - 1..];
    } else {
      var grown := log.full + [log.part + [x]];
      FlattenAppend(log.full, log.part + [x]);
      assert Flatten(grown) == all;
      assert Flatten(grown) == grown[0] + Flatten(grown[1..]);
      if |log.full| + 1 == s {
        assert r.Entries() == all[|grown[0]|..];
      } else {
        assert r.Entries() == all;
      }
    }
  }

  // Full sectors and entries in the head sector after n writes
  ghost function Fill(n: nat, s: nat, e: nat): (nat, nat) {
    if n == 0 then (0, 0) else
    var (q, r) := Fill(n - 1, s, e);
    FillNext(q, r, s, e)
  }

  ghost function FillNext(q: nat, r: nat, s: nat, e: nat): (nat, nat) {
    if r + 1 < e then (q, r + 1) else if s == 1 then (0, 1) else if q + 1 < s then (q + 1, 0) else (q, 0)
  }

  lemma AppendSizes(log: Log, x: ErrorEntry, s: nat, e: nat)
    requires s >= 1 && log.Shaped(e) && |log.full| < s
    ensures var r := Append(log, x, s, e); (|r.full|, |r.part|) == FillNext(|log.full|, |log.part|, s, e)
  {
  }

  lemma {:induction false} FillIs(n: nat, s: nat, e: nat)
    requires s >= 1 && e >= 1 && (s == 1 ==> e >= 2)
    ensures s > 1 ==> Fill(n, s, e) == (if n / e < s then n / e else s - 1, n % e)
    ensures s == 1 ==> Fill(n, s, e) == (0, if n < e then n else 1 + (n - e) % (e - 1))
  {
    if n == 0 {
      DivModUnique(0, e, 0, 0);
    } else {
      FillIs(n - 1, s, e);
      StepDivMod(n - 1, e);
      if s == 1 && n - 1 >= e {
        StepDivMod(n - 1 - e, e - 1);
      } else if s == 1 {
        DivModUnique(0, e - 1, 0, 0);
      }
    }
  }

  lemma KeptIs(n: nat, s: nat, e: nat)
    requires s >= 1 && e >= 1 && (s == 1 ==> e >= 2)
    ensures var (q, r) := Fill(n, s, e); Kept(n, s, e) == q * e + r
    ensures Kept(n, s, e) <= n
  {
    FillIs(n, s, e);
    if s > 1 {
      DivModDef(n, e);
      BlocksBelow(n / e, n % e, s, e);
    } else if n >= e {
      DivModDef(n - e, e - 1);
      MulMonotone(0, (n - e) / (e - 1), e - 1);
    }
  }

  lemma BlocksBelow(q: nat, r: nat, s: nat, e: nat)
    requires r < e && s >= 1
    ensures q < s <==> q * e + r < s * e
    ensures q >= s ==> (s - 1) * e + r <= q * e + r
  {
    assert (q + 1) * e == q * e + e && (s - 1) * e == s * e - e;
    if q < s {
      MulMonotone(q + 1, s, e);
    } else {
      MulMonotone(s, q, e);
    }
  }

  lemma {:induction false} FillAfter(xs: seq<ErrorEntry>, s: nat, e: nat)
    requires s >= 1 && e >= 1 && (s == 1 ==> e >= 2)
    ensures var r := AfterWrites(xs, s, e);
            && r.Shaped(e) && |r.full| < s && IsSuffix(r.Entries(), xs)
            && (|r.full|, |r.part|) == Fill(|xs|, s, e)
  {
    if xs != [] {
      var ys, x := xs[..|xs| - 1], xs[|xs| - 1];
      var before := AfterWrites(ys, s, e);
      FillAfter(ys, s, e);
      AppendKeepsSuffix(before, x, s, e);
      AppendSizes(before, x, s, e);
      assert xs == ys + [x];
      SuffixExtends(before.Entries(), ys, x, Append(before, x, s, e).Entries());
    }
  }

  lemma SuffixExtends<T>(a: seq<T>, b: seq<T>, x: T, c: seq<T>)
    requires IsSuffix(a, b) && IsSuffix(c, a + [x])
    ensures IsSuffix(c, b + [x])
  {
  }

  /** After any n writes to a formatted log exactly the last Kept(n) entries remain, in order. */
  lemma RetainsTheLast(xs: seq<ErrorEntry>, s: nat, e: nat)
    requires s >= 1 && e >= 1 && (s == 1 ==> e >= 2)
    ensures Kept(|xs|, s, e) <= |xs|
    ensures AfterWrites(xs, s, e).Entries() == xs[|xs| - Kept(|xs|, s, e)..]
    ensures |AfterWrites(xs, s, e).Entries()|
            == if |xs| < s * e then |xs| else if s == 1 then 1 + (|xs| - e) % (e - 1) else (s - 1) * e + |xs| % e
  {
    FillAfter(xs, s, e);
    KeptIs(|xs|, s, e);
    FlattenLength(AfterWrites(xs, s, e).full, e);
  }

  // ---- Runs with power failures ----

  /** A write that completes, or one that power failure cuts off between its erase and its program. */
  datatype Event = Written(x: ErrorEntry) | CutOff

  ghost function AfterEvents(evs: seq<Event>, s: nat, e: nat): Log
    requires s >= 1
  {
    if evs == [] then Log([], []) else
    var before := AfterEvents(evs[..|evs| - 1], s, e);
    match evs[|evs| - 1]
    case Written(x) => Append(before, x, s, e)
    case CutOff => EraseOnly(before, s, e)
  }

  ghost function Committed(evs: seq<Event>): seq<ErrorEntry> {
    if evs == [] then [] else
    var before := Committed(evs[..|evs| - 1]);
    match evs[|evs| - 1]
    case Written(x) => before + [x]
    case CutOff => before
  }

  lemma EraseKeepsSuffix(log: Log, s: nat, e: nat)
    requires s >= 1 && log.Shaped(e) && |log.full| < s && (s == 1 ==> e >= 2)
    ensures var r := EraseOnly(log, s, e); r.Shaped(e) && |r.full| < s && IsSuffix(r.Entries(), log.Entries())
  {
    if |log.part| + 1 == e && s > 1 && |log.full| + 1 == s {
      assert log.Entries() == log.full[0] + (Flatten(log.full[1..]) + log.part);
    }
  }

  // All sectors but one are full, or all but two and the head sector lacks one entry
  ghost predicate RingIsFull(log: Log, s: nat, e: nat) {
    |log.full| + 1 == s || (|log.full| + 2 == s && |log.part| + 1 == e)
  }

  /** However writes and power failures alternate, what the events retain is the end of what was committed,
      and nothing committed is gone until the ring has filled up. How far a log follows its events is what
      Execute states. */
  lemma {:induction false} RunsRetainTheEnd(evs: seq<Event>, s: nat, e: nat)
    requires s >= 1 && e >= 1 && (s == 1 ==> e >= 2)
    ensures var log := AfterEvents(evs, s, e);
            && log.Shaped(e) && |log.full| < s
            && IsSuffix(log.Entries(), Committed(evs))
            && (log.Entries() == Committed(evs) || RingIsFull(log, s, e))
  {
    if evs != [] {
      var init := evs[..|evs| - 1];
      var before, done := AfterEvents(init, s, e), Committed(init);
      RunsRetainTheEnd(init, s, e);
      match evs[|evs| - 1] {
        case Written(x) =>
          AppendKeepsSuffix(before, x, s, e);
          SuffixExtends(before.Entries(), done, x, Append(before, x, s, e).Entries());
          AppendLosesOnlyWhenFull(before, x, s, e);
        case CutOff =>
          EraseKeepsSuffix(before, s, e);
          SuffixTransitive(EraseOnly(before, s, e).Entries(), before.Entries(), done);
      }
    }
  }

  lemma AppendLosesOnlyWhenFull(log: Log, x: ErrorEntry, s: nat, e: nat)
    requires s >= 1 && log.Shaped(e) && |log.full| < s && (s == 1 ==> e >= 2)
    ensures var r := Append(log, x, s, e);
            && (r.Entries() == log.Entries() + [x] || RingIsFull(r, s, e))
            && (RingIsFull(log, s, e) ==> RingIsFull(r, s, e))
  {
    if |log.part| + 1 == e && s > 1 && |log.full| + 1 < s {
      FlattenAppend(log.full, log.part + [x]);
    }
    assert |log.part| + 1 < e ==> Append(log, x, s, e).Entries() == log.Entries() + [x];
  }

  lemma SuffixTransitive<T>(a: seq<T>, b: seq<T>, c: seq<T>)
    requires IsSuffix(a, b) && IsSuffix(b, c)
    ensures IsSuffix(a, c)
  {
  }

  // ---- Places in the ring of sectors ----

  // Programming the slot behind the last entry
  ghost function Program(log: Log, x: ErrorEntry, e: nat): Log {
    if |log.part| + 1 < e then Log(log.full, log.part + [x]) else Log(log.full + [log.part + [x]], [])
  }

  // A log that was written in turn from the first sector on has wrapped only with all but one sector
  // full, or with all but two when power failed right after an erase
  ghost predicate Rotated(t: nat, log: Log, s: nat, e: nat) {
    t == 0 || |log.full| + 1 == s || (|log.full| + 2 == s && |log.part| + 1 == e)
  }

  /** The exact condition under which a mount finds the head again: without a partly filled sector
      the erased ones must not wrap around the end of the flash. */
  predicate Mountable(t: nat, full: nat, part: nat, s: nat) {
    part > 0 || t == 0 || t + full >= s
  }

  /** The only logs in use that a mount cannot place are those of one entry per sector whose power
      failed between the erase of sector 0 and the write to the last sector. */
  lemma AlmostAlwaysMountable(t: nat, log: Log, s: nat, e: nat)
    requires Rotated(t, log, s, e) && |log.full| < s && t < s && |log.part| < e
    ensures !Mountable(t, |log.full|, |log.part|, s) <==> (e == 1 && t == 1 && |log.full| + 2 == s)
    ensures e >= 2 ==> Mountable(t, |log.full|, |log.part|, s)
  {
  }

  lemma EraseThenProgram(log: Log, x: ErrorEntry, s: nat, e: nat)
    requires s >= 1 && |log.full| < s && |log.part| < e && (s == 1 ==> e >= 2)
    ensures Append(log, x, s, e) == Program(EraseOnly(log, s, e), x, e)
  {
    if |log.part| + 1 == e && s > 1 && |log.full| + 1 == s {
      assert (log.full + [log.part + [x]])[1..] == log.full[1..] + [log.part + [x]];
    }
  }

  // The cells before and after the erase step, for every sector but the erased one
  lemma EraseCells(log: Log, t: nat, s: nat, e: nat, sector: nat, k: nat)
    requires log.Shaped(e) && |log.full| < s && t < s && sector < s && k < e && s > 1
    requires |log.part| + 1 == e
    ensures var log', next := EraseOnly(log, s, e), Ring(Ring(t, |log.full|, s), 1, s);
            var t' := if next == t then Ring(t, 1, s) else t;
            && (next == t <==> |log.full| + 1 == s)
            && log'.Cell(Rel(t', sector, s), k) == (if sector == next then ERASED else log.Cell(Rel(t, sector, s), k))
            && Ring(t', |log'.full|, s) == Ring(t, |log.full|, s)
            && Rotated(t', log', s, e) == (Rotated(t, log, s, e) || |log.full| + 1 == s)
  {
  }

  lemma ProgramCells(log: Log, x: ErrorEntry, t: nat, s: nat, e: nat, sector: nat, k: nat)
    requires log.Shaped(e) && |log.full| < s && t < s && sector < s && k < e
    requires |log.part| + 1 == e ==> |log.full| + 1 < s
    ensures var log', head := Program(log, x, e), Ring(t, |log.full|, s);
            && log'.Cell(Rel(t, sector, s), k)
               == (if sector == head && k == |log.part| then x else log.Cell(Rel(t, sector, s), k))
            && log.Cell(Rel(t, head, s), |log.part|) == ERASED
  {
  }

  // Byte offset of slot k of a sector
  function Offset(sector: nat, k: nat, sectorSize: nat): nat { sector * sectorSize + k * ENTRY_SIZE }

  // What the offset arithmetic of the source makes of an offset at or just behind a slot
  lemma Locate(sector: nat, k: nat, size: nat) returns (at: nat, i: nat)
    requires size >= ENTRY_SIZE && k <= size / ENTRY_SIZE
    ensures var o := Offset(sector, k, size); at == o / size && i == (o - at * size) / ENTRY_SIZE
    ensures if k * ENTRY_SIZE < size then at == sector && i == k
            else at == sector + 1 && i == 0 && Offset(sector, k, size) == Offset(at, 0, size)
    ensures k < size / ENTRY_SIZE ==> k * ENTRY_SIZE < size
  {
    var o := Offset(sector, k, size);
    if k * ENTRY_SIZE < size {
      DivModUnique(o, size, sector, k * ENTRY_SIZE);
      at, i := sector, k;
    } else {
      assert (sector + 1) * size == sector * size + size;
      DivModUnique(o, size, sector + 1, 0);
      at, i := sector + 1, 0;
    }
  }

  // An offset is past the end of the flash exactly when its sector is
  lemma EndOfFlash(sector: nat, i: nat, s: nat, size: nat, o: nat)
    requires size >= ENTRY_SIZE && sector == o / size
    ensures o >= s * size <==> sector >= s
  {
    DivModDef(o, size);
    assert (sector + 1) * size == sector * size + size;
    if sector >= s {
      MulMonotone(s, sector, size);
    } else {
      MulMonotone(sector + 1, s, size);
    }
  }

  lemma OneMore(all: seq<ErrorEntry>, left: seq<ErrorEntry>, next: seq<ErrorEntry>, left': seq<ErrorEntry>)
    requires left == next + left'
    ensures all + left == all + next + left'
  {
  }

  class ErrorLog {
    const sectorSize: nat
    const numSectors: nat
    const entriesPerSector: nat
    const flash: array2<ErrorEntry>     // one cell for each whole entry of each sector
    var latestOffset: nat               // newest entry
    var headOffset: nat                 // where the next entry goes
    var readOffset: nat                 // read iterator
    var tailSector: nat                 // oldest sector
    var readIterStart: bool
    ghost var log: Log

    ghost predicate Geometry() {
      && sectorSize >= ENTRY_SIZE && numSectors >= 1 && entriesPerSector == sectorSize / ENTRY_SIZE
      && (numSectors == 1 ==> entriesPerSector >= 2)
      && flash.Length0 == numSectors && flash.Length1 == entriesPerSector
    }

    // The flash holds the log from sector t on and is erased everywhere else
    ghost predicate Holds(t: nat, l: Log)
      reads flash
      requires Geometry() && t < numSectors
    {
      forall s: nat, k: nat | s < numSectors && k < entriesPerSector :: flash[s, k] == l.Cell(Rel(t, s, numSectors), k)
    }

    ghost predicate Stored(t: nat, l: Log)
      reads flash
    {
      && Geometry() && l.Shaped(entriesPerSector) && l.AllValid() && |l.full| < numSectors && t < numSectors
      && Rotated(t, l, numSectors, entriesPerSector)
      && Holds(t, l)
    }

    ghost function HeadSector(): nat
      reads this
    {
      Ring(tailSector, |log.full|, numSectors)
    }

    // The head offset is the slot behind the last entry. At a sector boundary it may still point behind
    // the sector just filled.
    ghost predicate HeadPlaced()
      reads this
    {
      || headOffset == Offset(HeadSector(), |log.part|, sectorSize)
      || (|log.part| == 0 && |log.full| > 0
          && headOffset == Offset(Ring(tailSector, |log.full| - 1, numSectors), entriesPerSector, sectorSize))
    }

    ghost predicate Valid()
      reads this, flash
    {
      Stored(tailSector, log) && HeadPlaced()
    }

    // storage.erase_sector
    method EraseSector(offset: nat, ghost sector: nat)
      requires Geometry() && sector < numSectors && offset == sector * sectorSize
      modifies flash
      ensures forall s: nat, k: nat | s < numSectors && k < entriesPerSector ::
                flash[s, k] == if s == sector then ERASED else old(flash[s, k])
    {
      var at := offset / sectorSize;
      ghost var a, _ := Locate(sector, 0, sectorSize);
      assert at == sector;
      forall k: nat | k < entriesPerSector {
        flash[at, k] := ERASED;
      }
    }

    // storage.write_block: flash can only be programmed where it is erased
    method ProgramEntry(offset: nat, x: ErrorEntry, ghost sector: nat, ghost k: nat)
      requires Geometry() && sector < numSectors && k < entriesPerSector && offset == Offset(sector, k, sectorSize)
      requires flash[sector, k] == ERASED
      modifies flash
      ensures forall s: nat, i: nat | s < numSectors && i < entriesPerSector ::
                flash[s, i] == if s == sector && i == k then x else old(flash[s, i])
    {
      ghost var a, i := Locate(sector, k, sectorSize);
      var at := offset / sectorSize;
      flash[at, (offset - at * sectorSize) / ENTRY_SIZE] := x;
    }

    // All that finding the write position relies on
    ghost predicate HeadKnown()
      reads this
    {
      Geometry() && |log.part| < entriesPerSector && |log.full| < numSectors && tailSector < numSectors && HeadPlaced()
    }

    // Normalize the head offset to the slot behind the last entry
    method FindWriteSlot() returns (writeOffset: nat, writeSector: nat, writeIndex: nat)
      requires HeadKnown()
      ensures writeSector == HeadSector() && writeIndex == |log.part|
      ensures writeOffset == Offset(writeSector, writeIndex, sectorSize)
    {
      ghost var w, i := LocateHead();
      writeOffset := headOffset;
      writeSector := writeOffset / sectorSize;
      if writeSector >= numSectors {
        writeOffset := 0;
        writeSector := 0;
      }
      writeOffset, writeSector, writeIndex := NextSlot(writeOffset, writeSector);
    }

    // Past the last slot of a sector comes the first one of the next
    method NextSlot(offset: nat, sector: nat) returns (writeOffset: nat, writeSector: nat, writeIndex: nat)
      requires Geometry() && sector < numSectors && offset >= sector * sectorSize
      ensures var i := (offset - sector * sectorSize) / ENTRY_SIZE;
              if i >= entriesPerSector then
                writeSector == Ring(sector, 1, numSectors) && writeIndex == 0 && writeOffset == writeSector * sectorSize
              else writeSector == sector && writeIndex == i && writeOffset == offset
    {
      writeOffset, writeSector := offset, sector;
      writeIndex := (writeOffset - writeSector * sectorSize) / ENTRY_SIZE;
      if writeIndex >= entriesPerSector {
        NextInRing(writeSector, numSectors);
        writeSector := (writeSector + 1) % numSectors;
        writeOffset := writeSector * sectorSize;
        writeIndex := 0;
      }
    }

    lemma LocateHead() returns (w: nat, i: nat)
      requires HeadKnown()
      ensures w == headOffset / sectorSize && i == (headOffset - w * sectorSize) / ENTRY_SIZE
      ensures || (w == HeadSector() && i == |log.part| && headOffset == Offset(w, i, sectorSize))
              || (w == numSectors && HeadSector() == 0 && |log.part| == 0)
              || (w < numSectors && i == entriesPerSector && HeadSector() == Ring(w, 1, numSectors) && |log.part| == 0)
    {
      if headOffset == Offset(HeadSector(), |log.part|, sectorSize) {
        w, i := Locate(HeadSector(), |log.part|, sectorSize);
      } else {
        w, i := Locate(Ring(tailSector, |log.full| - 1, numSectors), entriesPerSector, sectorSize);
      }
    }

    /** errlog__prep_for_write. Its result is also what a power failure before the program leaves. */
    method PrepForWrite()
      requires Valid()
      modifies this`headOffset, this`latestOffset, this`tailSector, this`log, flash
      ensures Valid() && log == EraseOnly(old(log), numSectors, entriesPerSector)
      ensures tailSector
              == if |log.full| < |old(log).full| then Ring(old(tailSector), 1, numSectors) else old(tailSector)
      ensures headOffset == Offset(HeadSector(), |log.part|, sectorSize)
      ensures |log.part| + 1 == entriesPerSector ==> |log.full| + 1 < numSectors
    {
      var writeOffset, writeSector, writeIndex := FindWriteSlot();
      headOffset := writeOffset;
      if writeIndex == entriesPerSector - 1 {
        EraseAhead(writeSector);
      }
    }

    // Erase the sector behind the head sector, which holds the oldest entries if it holds any
    method EraseBehind(nextSector: nat, ghost t': nat)
      requires Stored(tailSector, log) && |log.part| + 1 == entriesPerSector
      requires nextSector == Ring(HeadSector(), 1, numSectors)
      requires t' == if nextSector == tailSector then Ring(tailSector, 1, numSectors) else tailSector
      modifies flash
      ensures Holds(t', EraseOnly(log, numSectors, entriesPerSector))
    {
      EraseSector(nextSector * sectorSize, nextSector);
      forall s: nat, k: nat | s < numSectors && k < entriesPerSector
        ensures flash[s, k] == EraseOnly(log, numSectors, entriesPerSector).Cell(Rel(t', s, numSectors), k)
      {
        if numSectors > 1 {
          EraseCells(log, tailSector, numSectors, entriesPerSector, s, k);
        }
      }
    }

    // The next sector must be erased before the last slot of this one is filled
    method EraseAhead(writeSector: nat)
      requires Valid() && writeSector == HeadSector() && |log.part| + 1 == entriesPerSector
      requires headOffset == Offset(HeadSector(), |log.part|, sectorSize)
      modifies this`headOffset, this`latestOffset, this`tailSector, this`log, flash
      ensures Valid() && log == EraseOnly(old(log), numSectors, entriesPerSector)
      ensures tailSector
              == if |log.full| < |old(log).full| then Ring(old(tailSector), 1, numSectors) else old(tailSector)
      ensures headOffset == Offset(HeadSector(), |log.part|, sectorSize)
      ensures |log.part| + 1 == entriesPerSector ==> |log.full| + 1 < numSectors
    {
      NextInRing(writeSector, numSectors);
      NextInRing(tailSector, numSectors);
      var nextSector := (writeSector + 1) % numSectors;
      if numSectors > 1 {
        EraseCells(log, tailSector, numSectors, entriesPerSector, nextSector, 0);
      }
      EraseBehind(nextSector, if nextSector == tailSector then Ring(tailSector, 1, numSectors) else tailSector);
      if nextSector == tailSector {
        tailSector := (tailSector + 1) % numSectors;
      }
      if numSectors == 1 {
        headOffset := 0;
        latestOffset := 0;
      }
      log := EraseOnly(log, numSectors, entriesPerSector);
    }

    /** errlog_init */
    constructor (sectorSize: nat, numSectors: nat, flash: array2<ErrorEntry>)
      requires sectorSize >= ENTRY_SIZE && numSectors >= 1
      requires numSectors == 1 ==> sectorSize / ENTRY_SIZE >= 2
      requires flash.Length0 == numSectors && flash.Length1 == sectorSize / ENTRY_SIZE
      ensures Geometry() && this.sectorSize == sectorSize && this.numSectors == numSectors && this.flash == flash
    {
      this.sectorSize := sectorSize;
      this.numSectors := numSectors;
      this.entriesPerSector := sectorSize / ENTRY_SIZE;
      this.flash := flash;
      latestOffset, headOffset, readOffset, tailSector, readIterStart := 0, 0, 0, 0, false;
    }

    // errlog__verify_empty over one sector
    method VerifyEmpty(sector: nat) returns (empty: bool)
      requires Geometry() && sector < numSectors
      ensures empty <==> forall k: nat | k < entriesPerSector :: flash[sector, k] == ERASED
    {
      for k := 0 to entriesPerSector
        invariant forall i: nat | i < k :: flash[sector, i] == ERASED
      {
        if flash[sector, k] != ERASED {
          return false;
        }
      }
      return true;
    }

    /** errlog_format */
    method Format()
      requires Geometry()
      modifies this, flash
      ensures Valid() && log == Log([], []) && headOffset == 0 && tailSector == 0
    {
      for i := 0 to numSectors
        invariant forall s: nat, k: nat | s < i && k < entriesPerSector :: flash[s, k] == ERASED
      {
        var empty := VerifyEmpty(i);
        if !empty {
          EraseSector(i * sectorSize, i);
        }
      }
      latestOffset := 0;
      headOffset := 0;
      tailSector := 0;
      log := Log([], []);
      ReadInit();
    }

    /** errlog_write. `programs` is whether the flash accepts the program; if not, what remains is the
        state after the erase. */
    method Write(x: ErrorEntry, programs: bool) returns (ok: bool)
      requires Valid() && x.IsValid()
      modifies this`headOffset, this`latestOffset, this`tailSector, this`log, flash
      ensures Valid() && ok == programs
      ensures ok ==> log == Append(old(log), x, numSectors, entriesPerSector)
      ensures !ok ==> log == EraseOnly(old(log), numSectors, entriesPerSector)
      ensures tailSector == if |EraseOnly(old(log), numSectors, entriesPerSector).full| < |old(log).full|
                            then Ring(old(tailSector), 1, numSectors) else old(tailSector)
      ensures ok ==> headOffset == latestOffset + ENTRY_SIZE
    {
      PrepForWrite();
      EraseThenProgram(old(log), x, numSectors, entriesPerSector);
      if !programs {
        return false;
      }
      ProgramHead(x);
      latestOffset := headOffset;
      headOffset := headOffset + ENTRY_SIZE;
      log := Program(log, x, entriesPerSector);
      return true;
    }

    // The program step, with the head still on the slot being programmed
    method ProgramHead(x: ErrorEntry)
      requires Valid() && x.IsValid() && headOffset == Offset(HeadSector(), |log.part|, sectorSize)
      requires |log.part| + 1 == entriesPerSector ==> |log.full| + 1 < numSectors
      modifies flash
      ensures Stored(tailSector, Program(log, x, entriesPerSector))
    {
      ProgramCells(log, x, tailSector, numSectors, entriesPerSector, HeadSector(), |log.part|);
      ProgramEntry(headOffset, x, HeadSector(), |log.part|);
      forall s: nat, k: nat | s < numSectors && k < entriesPerSector
        ensures flash[s, k] == Program(log, x, entriesPerSector).Cell(Rel(tailSector, s, numSectors), k)
      {
        ProgramCells(log, x, tailSector, numSectors, entriesPerSector, s, k);
      }
    }

    // ---- Reading ----

    ghost var at: (nat, nat)            // sector counted from the tail, and slot, of the read iterator

    ghost predicate Reading()
      reads this, flash
    {
      && Valid() && at.0 <= |log.full| && at.1 < entriesPerSector && (at.0 == |log.full| ==> at.1 <= |log.part|)
      && readOffset == Offset(Ring(tailSector, at.0, numSectors), at.1, sectorSize)
      && (readIterStart <==> at == (0, 0))
    }

    // What the iterator has still to deliver
    ghost function Remaining(): seq<ErrorEntry>
      reads this
    {
      log.From(at.0, at.1)
    }

    /** errlog_read_init */
    method ReadInit()
      modifies this`readOffset, this`readIterStart, this`at
      ensures Valid() ==> Reading() && Remaining() == log.Entries()
    {
      readOffset := tailSector * sectorSize;
      readIterStart := true;
      at := (0, 0);
      FromStart(log);
    }

    // errlog__read_entry
    method ReadEntry(offset: nat, ghost sector: nat, ghost k: nat) returns (entry: ErrorEntry)
      requires Geometry() && sector < numSectors && k < entriesPerSector && offset == Offset(sector, k, sectorSize)
      ensures entry == flash[sector, k]
    {
      ghost var a, i := Locate(sector, k, sectorSize);
      var at := offset / sectorSize;
      entry := flash[at, (offset - at * sectorSize) / ENTRY_SIZE];
    }

    // Step the read offset behind the entry just read, over a sector remainder or the end of the flash
    method AdvanceRead()
      requires Valid() && at.0 <= |log.full| && at.1 < entriesPerSector && (at.0 == |log.full| ==> at.1 < |log.part|)
      requires readOffset == Offset(Ring(tailSector, at.0, numSectors), at.1, sectorSize)
      requires !readIterStart
      modifies this`readOffset, this`at
      ensures Reading()
      ensures at == if old(at).1 + 1 == entriesPerSector then (old(at).0 + 1, 0) else (old(at).0, old(at).1 + 1)
    {
      ghost var sector, k := Ring(tailSector, at.0, numSectors), at.1;
      readOffset := NormalizeRead(readOffset + ENTRY_SIZE, sector, k + 1);
      at := if k + 1 == entriesPerSector then (at.0 + 1, 0) else (at.0, k + 1);
    }

    method NormalizeRead(offset: nat, ghost sector: nat, ghost k: nat) returns (readOffset: nat)
      requires Geometry() && sector < numSectors && 0 < k <= entriesPerSector && offset == Offset(sector, k, sectorSize)
      ensures readOffset == if k == entriesPerSector then Offset(Ring(sector, 1, numSectors), 0, sectorSize) else offset
    {
      ghost var w, i := Locate(sector, k, sectorSize);
      readOffset := offset;
      EndOfFlash(w, i, numSectors, sectorSize, readOffset);
      if readOffset >= numSectors * sectorSize {
        readOffset := 0;
      } else {
        var readSector := readOffset / sectorSize;
        var readIndex := (readOffset - readSector * sectorSize) / ENTRY_SIZE;
        if readIndex >= entriesPerSector {
          NextInRing(readSector, numSectors);
          readSector := (readSector + 1) % numSectors;
          readOffset := readSector * sectorSize;
        }
      }
    }

    // An iterator under way is never back at the start of the tail: a sector is always kept free
    lemma OnlyStartIsAtTail()
      requires Reading()
      ensures readOffset != tailSector * sectorSize || readIterStart
    {
      if readOffset == tailSector * sectorSize {
        var a, i := Locate(Ring(tailSector, at.0, numSectors), at.1, sectorSize);
        var b, k := Locate(tailSector, 0, sectorSize);
      }
    }

    /** errlog_read_next */
    method ReadNext() returns (ok: bool, entry: ErrorEntry)
      requires Reading()
      modifies this`readOffset, this`readIterStart, this`at
      ensures Reading()
      ensures ok <==> old(Remaining()) != []
      ensures if ok then [entry] + Remaining() == old(Remaining()) else Remaining() == old(Remaining())
    {
      FromStep(log, at.0, at.1, entriesPerSector);
      OnlyStartIsAtTail();
      entry := ERASED;
      if readOffset != tailSector * sectorSize || readIterStart {
        entry := ReadEntry(readOffset, Ring(tailSector, at.0, numSectors), at.1);
        if !entry.IsValid() {
          return false, entry;
        }
        readIterStart := false;
        AdvanceRead();
        return true, entry;
      }
      return false, entry;
    }

    /** The read loop of errlog_print_all */
    method ReadAll() returns (entries: seq<ErrorEntry>)
      requires Valid()
      modifies this`readOffset, this`readIterStart, this`at
      ensures Valid() && entries == log.Entries()
    {
      ReadInit();
      entries := [];
      var ok, entry := ReadNext();
      while ok
        invariant Reading()
        invariant entries + (if ok then [entry] else []) + Remaining() == log.Entries()
        invariant !ok ==> Remaining() == []
        decreases |Remaining()|, ok
      {
        ghost var all, left := entries + [entry], Remaining();
        entries := entries + [entry];
        ok, entry := ReadNext();
        OneMore(all, left, if ok then [entry] else [], Remaining());
      }
    }

    // ---- Mounting: everything is rebuilt from the flash alone ----

    // find_last_entry
    method FindLastEntry(sector: nat) returns (last: int)
      requires Geometry() && sector < numSectors
      ensures -1 <= last < entriesPerSector
      ensures forall k: nat | k <= last :: flash[sector, k].IsValid()
      ensures last + 1 < entriesPerSector ==> !flash[sector, last + 1].IsValid()
    {
      var i: nat := 0;
      while i < entriesPerSector
        invariant 0 <= i <= entriesPerSector
        invariant forall k: nat | k < i :: flash[sector, k].IsValid()
      {
        var entry := ReadEntry(sector * sectorSize + i * ENTRY_SIZE, sector, i);
        if !entry.IsValid() {
          break;
        }
        i := i + 1;
      }
      return i - 1;
    }

    // find_tail_sector: the first used sector after the head, or the head itself
    method FindTailSector(ghost t: nat, ghost l: Log) returns (tail: nat)
      requires Stored(t, l) && (l.full != [] || l.part != []) && headOffset / sectorSize < numSectors
      ensures headOffset / sectorSize == Ring(t, |l.full|, numSectors) ==> tail == t
      ensures var next := Ring(headOffset / sectorSize, 1, numSectors); flash[next, 0].IsValid() ==> tail == next
    {
      var headSector: nat := headOffset / sectorSize;
      NextInRing(headSector, numSectors);
      var nextSector: nat := (headSector + 1) % numSectors;
      while nextSector != headSector
        invariant nextSector < numSectors
        invariant headSector == Ring(t, |l.full|, numSectors) ==>
                    var j := Rel(t, nextSector, numSectors); j == 0 || |l.full| < j
        invariant flash[Ring(headSector, 1, numSectors), 0].IsValid() ==> nextSector == Ring(headSector, 1, numSectors)
        decreases Rel(nextSector, headSector, numSectors)
      {
        var entry := ReadEntry(nextSector * sectorSize, nextSector, 0);
        if entry.IsValid() {
          return nextSector;
        }
        NextInRing(nextSector, numSectors);
        nextSector := (nextSector + 1) % numSectors;
      }
      return headSector;
    }

    // The head sector is partly filled: the next entry goes behind its last one
    method MountPartial(sector: nat, ghost t: nat, ghost l: Log)
      requires Stored(t, l) && |l.part| > 0 && sector == Ring(t, |l.full|, numSectors)
      modifies this`latestOffset, this`headOffset, this`tailSector, this`log
      ensures Valid() && tailSector == t && log == l
      ensures headOffset == Offset(HeadSector(), |l.part|, sectorSize) && latestOffset + ENTRY_SIZE == headOffset
    {
      var lastEntry := FindLastEntry(sector);
      assert Rel(t, sector, numSectors) == |l.full|;
      assert flash[sector, |l.part|] == ERASED;
      assert lastEntry + 1 == |l.part|;
      latestOffset := sector * sectorSize + lastEntry * ENTRY_SIZE;
      headOffset := latestOffset + ENTRY_SIZE;
      ghost var a, i := Locate(sector, |l.part|, sectorSize);
      tailSector := FindTailSector(t, l);
      log := l;
    }

    // What a mount makes of a log that is not mountable: the head is in sector 0, though the newest entry is in the
    // last sector but one
    ghost predicate Misplaced()
      reads this, flash
    {
      && Stored(1, log) && entriesPerSector == 1 && numSectors >= 3 && |log.full| + 2 == numSectors && log.part == []
      && headOffset == 0 && tailSector == 1
    }

    // No sector is partly filled: the next entry goes to the first erased sector
    method MountOnBound(firstEmptySector: nat, ghost t: nat, ghost l: Log)
      requires Stored(t, l) && |l.part| == 0 && l.full != [] && firstEmptySector < numSectors
      requires forall s: nat | s < firstEmptySector :: Rel(t, s, numSectors) < |l.full|
      requires Rel(t, firstEmptySector, numSectors) >= |l.full|
      modifies this`latestOffset, this`headOffset, this`tailSector, this`log
      ensures Mountable(t, |l.full|, 0, numSectors) ==>
                && Valid() && tailSector == t && log == l
                && headOffset == Offset(HeadSector(), 0, sectorSize)
                && latestOffset == Offset(Ring(t, |l.full| - 1, numSectors), 0, sectorSize)
      ensures !Mountable(t, |l.full|, 0, numSectors) ==> Misplaced() && log == l && t == 1
    {
      LeastErased(firstEmptySector, t, |l.full|, numSectors);
      PrevInRing(firstEmptySector, numSectors);
      var lastFullSector := (firstEmptySector + numSectors - 1) % numSectors;
      latestOffset := lastFullSector * sectorSize;
      headOffset := firstEmptySector * sectorSize;
      ghost var a, i := Locate(firstEmptySector, 0, sectorSize);
      tailSector := FindTailSector(t, l);
      log := l;
    }

    // The whole flash is one sector
    method MountSingle(ghost t: nat, ghost l: Log)
      requires Stored(t, l) && numSectors == 1
      modifies this`latestOffset, this`headOffset, this`tailSector, this`log
      ensures Valid() && tailSector == t && log == l && headOffset == Offset(HeadSector(), |l.part|, sectorSize)
      ensures |l.part| > 0 ==> latestOffset + ENTRY_SIZE == headOffset
    {
      var lastEntry := FindLastEntry(0);
      assert Rel(t, 0, numSectors) == |l.full|;
      assert flash[0, |l.part|] == ERASED;
      assert lastEntry + 1 == |l.part|;
      if lastEntry < 0 {
        latestOffset := 0;
        headOffset := 0;
        tailSector := 0;
      } else {
        latestOffset := lastEntry * ENTRY_SIZE;
        headOffset := latestOffset + ENTRY_SIZE;
        tailSector := 0;
      }
      log := l;
    }

    // The first partly filled sector if there is one, otherwise the least erased one
    method ScanSectors(ghost t: nat, ghost l: Log) returns (partial: nat, firstEmptySector: nat, emptyLog: bool)
      requires Stored(t, l)
      ensures partial == if |l.part| > 0 then Ring(t, |l.full|, numSectors) else numSectors
      ensures |l.part| == 0 ==>
                && (emptyLog <==> l.full == [])
                && firstEmptySector < numSectors && Rel(t, firstEmptySector, numSectors) >= |l.full|
                && forall s: nat | s < firstEmptySector :: Rel(t, s, numSectors) < |l.full|
    {
      partial, firstEmptySector, emptyLog := numSectors, numSectors, true;
      for i := 0 to numSectors
        invariant |l.part| > 0 ==> i <= Ring(t, |l.full|, numSectors)
        invariant emptyLog <==> forall s: nat | s < i :: Rel(t, s, numSectors) >= |l.full|
        invariant forall s: nat | s < i && s < firstEmptySector :: Rel(t, s, numSectors) < |l.full|
        invariant firstEmptySector < numSectors ==>
                  firstEmptySector < i && Rel(t, firstEmptySector, numSectors) >= |l.full|
        invariant partial == numSectors && firstEmptySector <= numSectors
      {
        ghost var j := Rel(t, i, numSectors);
        var entry := ReadEntry(i * sectorSize, i, 0);
        if entry.IsValid() {
          emptyLog := false;
          assert entriesPerSector >= 1;
          entry := ReadEntry(Offset(i, entriesPerSector - 1, sectorSize), i, entriesPerSector - 1);
          if !entry.IsValid() {
            partial := i;
            return;
          }
        } else if firstEmptySector == numSectors {
          firstEmptySector := i;
        }
      }
      assert Rel(t, t, numSectors) == 0 && Rel(t, Ring(t, |l.full|, numSectors), numSectors) == |l.full|;
    }

    /** errlog_mount. Mounting a stored log finds the tail, the write position and with them the whole
        log again exactly when it is mountable. The other logs come back with their head in sector 0. */
    method Mount(ghost t: nat, ghost l: Log)
      requires Stored(t, l)
      modifies this`latestOffset, this`headOffset, this`tailSector, this`log
      ensures Mountable(t, |l.full|, |l.part|, numSectors) ==>
                && Valid() && tailSector == t && log == l
                && headOffset == Offset(HeadSector(), |l.part|, sectorSize)
      ensures |l.part| > 0 ==> latestOffset + ENTRY_SIZE == headOffset
      // after a full sector latest_offset is that sector's start, not its last entry
      ensures |l.part| == 0 && l.full != [] && Mountable(t, |l.full|, 0, numSectors) ==>
                latestOffset == Offset(Ring(t, |l.full| - 1, numSectors), 0, sectorSize)
      ensures l.full == [] && l.part == [] ==> Valid() && log == l && tailSector == 0 && headOffset == 0
      ensures l.full != [] && !Mountable(t, |l.full|, |l.part|, numSectors) ==> Misplaced() && log == l && t == 1
    {
      if numSectors == 1 {
        MountSingle(t, l);
        return;
      }
      var partial, firstEmptySector, emptyLog := ScanSectors(t, l);
      if partial < numSectors {
        MountPartial(partial, t, l);
      } else if emptyLog {
        latestOffset := 0;
        headOffset := 0;
        tailSector := 0;
        log := l;
      } else {
        MountOnBound(firstEmptySector, t, l);
      }
    }
  }

  lemma MisplacedCells(el: ErrorLog)
    requires el.Misplaced()
    ensures el.flash[0, 0] == ERASED && el.flash[el.numSectors - 1, 0] == ERASED
    ensures forall j: nat | 1 <= j < el.numSectors - 1 :: el.flash[j, 0] == el.log.full[j - 1][0]
  {
    assert forall j: nat | j < el.numSectors :: el.flash[j, 0] == el.log.Cell(Rel(1, j, el.numSectors), 0);
  }

  /** A write after such a mount: it erases the oldest entry, moves the tail off it, and programs sector 0. An iteration
      from the tail on finds the other entries and ends with the erased last sector, before it comes to sector 0. */
  method WriteMisplaced(el: ErrorLog, x: ErrorEntry)
    requires el.Misplaced() && x.IsValid()
    modifies el`headOffset, el`latestOffset, el`tailSector, el.flash
    ensures el.tailSector == 2 && el.flash[0, 0] == x && el.flash[1, 0] == ERASED
    ensures el.flash[el.numSectors - 1, 0] == ERASED
    ensures forall j: nat | 2 <= j < el.numSectors - 1 :: el.flash[j, 0] == el.log.full[j - 1][0]
  {
    MisplacedCells(el);
    PrepMisplaced(el);
    el.ProgramEntry(el.headOffset, x, 0, 0);
    el.latestOffset := el.headOffset;
    el.headOffset := el.headOffset + ENTRY_SIZE;
  }

  method PrepMisplaced(el: ErrorLog)
    requires el.Geometry() && el.entriesPerSector == 1 && el.numSectors >= 3 && el.headOffset == 0 && el.tailSector == 1
    modifies el`headOffset, el`tailSector, el.flash
    ensures el.tailSector == 2 && el.headOffset == 0 && el.flash[1, 0] == ERASED
    ensures forall j: nat | j < el.numSectors && j != 1 :: el.flash[j, 0] == old(el.flash[j, 0])
  {
    var writeOffset, writeSector, writeIndex := el.NextSlot(el.headOffset, 0);
    el.headOffset := writeOffset;
    if writeIndex == el.entriesPerSector - 1 {
      var nextSector := (writeSector + 1) % el.numSectors;
      el.EraseSector(nextSector * el.sectorSize, nextSector);
      if nextSector == el.tailSector {
        el.tailSector := (el.tailSector + 1) % el.numSectors;
      }
    }
  }

  // ---- Runs ----

  /** What a program asks of the log: a write, which may be cut off before its program by a power failure, and a
      restart. A write that was cut off is followed by a restart as well. */
  datatype Request = Write(x: ErrorEntry, programs: bool) | Remount {
    predicate Possible() { Write? ==> x.IsValid() }
  }

  // The writes among the requests
  ghost function EventsOf(requests: seq<Request>): seq<Event> {
    if requests == [] then []
    else EventsOf(requests[..|requests| - 1]) + EventOf(requests[|requests| - 1])
  }

  function EventOf(r: Request): seq<Event> {
    match r
    case Remount => []
    case Write(x, programs) => [if programs then Written(x) else CutOff]
  }

  ghost function Step(log: Log, r: Request, s: nat, e: nat): Log
    requires s >= 1
  {
    match r
    case Remount => log
    case Write(x, programs) => if programs then Append(log, x, s, e) else EraseOnly(log, s, e)
  }

  lemma OneMoreEvent(before: seq<Event>, ev: Event, s: nat, e: nat)
    requires s >= 1
    ensures AfterEvents(before + [ev], s, e)
            == match ev
               case Written(x) => Append(AfterEvents(before, s, e), x, s, e)
               case CutOff => EraseOnly(AfterEvents(before, s, e), s, e)
  {
    assert (before + [ev])[..|before|] == before;
  }

  lemma {:induction false} OneMoreRequest(requests: seq<Request>, i: nat, s: nat, e: nat)
    requires i < |requests| && s >= 1
    ensures AfterEvents(EventsOf(requests[..i + 1]), s, e)
            == Step(AfterEvents(EventsOf(requests[..i]), s, e), requests[i], s, e)
  {
    var before := EventsOf(requests[..i]);
    assert requests[..i + 1][..i] == requests[..i];
    match requests[i] {
      case Remount => assert before + [] == before;
      case Write(x, programs) => OneMoreEvent(before, if programs then Written(x) else CutOff, s, e);
    }
  }

  /** A restart from the flash of a log. The new instance has the log again, unless the mount misplaces its head. */
  method Restart(el: ErrorLog) returns (again: ErrorLog, misplaced: bool)
    requires el.Stored(el.tailSector, el.log)
    ensures fresh(again) && again.flash == el.flash
    ensures again.numSectors == el.numSectors && again.entriesPerSector == el.entriesPerSector && again.log == el.log
    ensures if misplaced then again.Misplaced() else again.Valid()
    ensures misplaced <==> el.log.full != [] && !Mountable(el.tailSector, |el.log.full|, |el.log.part|, el.numSectors)
  {
    again := new ErrorLog(el.sectorSize, el.numSectors, el.flash);
    again.Mount(el.tailSector, el.log);
    misplaced := false;
    if el.entriesPerSector == 1 && el.numSectors >= 3 && again.tailSector == 1 {
      var last := again.ReadEntry((el.numSectors - 1) * el.sectorSize, el.numSectors - 1, 0);
      misplaced := !last.IsValid();
    }
  }

  // One request to a log whose head is in place, or a restart
  method Turn(el: ErrorLog, r: Request) returns (again: ErrorLog, misplaced: bool)
    requires r.Possible() && (el.Valid() || (el.Misplaced() && r.Remount?))
    modifies el, el.flash
    ensures (again == el || fresh(again)) && again.flash == el.flash
    ensures again.numSectors == el.numSectors && again.entriesPerSector == el.entriesPerSector
    ensures again.log == Step(old(el.log), r, el.numSectors, el.entriesPerSector)
    ensures if misplaced then again.Misplaced() else again.Valid()
    ensures misplaced ==> el.entriesPerSector == 1 && el.numSectors >= 3
  {
    match r
    case Remount =>
      again, misplaced := Restart(el);
    case Write(x, programs) =>
      var ok := el.Write(x, programs);
      again, misplaced := el, false;
      if !ok {
        again, misplaced := Restart(el);
      }
  }

  /** Requests to a formatted log, one after the other. The log is what the events make of it, so it retains the end of
      what was committed, up to a write that is to follow a mount that misplaced the head. With two entries or more in
      each sector, or with two sectors, there is no such write. */
  method Execute(el: ErrorLog, requests: seq<Request>) returns (again: ErrorLog, n: nat)
    requires el.Valid() && el.log == Log([], []) && forall i: nat | i < |requests| :: requests[i].Possible()
    modifies el, el.flash
    ensures n <= |requests| && again.log == AfterEvents(EventsOf(requests[..n]), el.numSectors, el.entriesPerSector)
    ensures IsSuffix(again.log.Entries(), Committed(EventsOf(requests[..n])))
    ensures again.log.Entries() == Committed(EventsOf(requests[..n]))
            || RingIsFull(again.log, el.numSectors, el.entriesPerSector)
    ensures if n < |requests| then again.Misplaced() && requests[n].Write? else again.Valid() || again.Misplaced()
    ensures el.entriesPerSector >= 2 || el.numSectors <= 2 ==> n == |requests| && again.Valid()
  {
    again, n := el, 0;
    var misplaced := false;
    while n < |requests| && (!misplaced || requests[n].Remount?)
      invariant n <= |requests| && (again == el || fresh(again)) && again.flash == el.flash
      invariant again.numSectors == el.numSectors && again.entriesPerSector == el.entriesPerSector
      invariant again.log == AfterEvents(EventsOf(requests[..n]), el.numSectors, el.entriesPerSector)
      invariant if misplaced then again.Misplaced() else again.Valid()
      invariant misplaced ==> el.entriesPerSector == 1 && el.numSectors >= 3
    {
      OneMoreRequest(requests, n, el.numSectors, el.entriesPerSector);
      again, misplaced := Turn(again, requests[n]);
      n := n + 1;
    }
    RunsRetainTheEnd(EventsOf(requests[..n]), el.numSectors, el.entriesPerSector);
  }

  lemma AppendThree(log: Log, x: ErrorEntry)
    requires log.part == [] && |log.full| <= 1
    ensures Append(log, x, 3, 1) == Log(log.full + [[x]], []) && EraseOnly(log, 3, 1) == log
  {
    assert [] + [x] == [x];
  }

  /** A run to such a mount: three sectors of one entry, two writes, and one that is cut off after erasing sector 0. */
  method MisplacedRun(x: ErrorEntry, y: ErrorEntry) returns (el: ErrorLog)
    requires x.IsValid() && y.IsValid()
    ensures el.numSectors == 3 && el.Misplaced() && el.log == Log([[y]], [])
  {
    var flash := new ErrorEntry[3, 1];
    el := new ErrorLog(8, 3, flash);
    el.Format();
    AppendThree(Log([], []), x);
    AppendThree(Log([[x]], []), y);
    assert [[x]] + [[y]] == [[x], [y]] && [[x], [y]][1..] == [[y]];
    var ok := el.Write(x, true);
    assert el.log == Log([[x]], []) && el.tailSector == 0;
    ok := el.Write(y, true);
    assert el.log == Log([[x], [y]], []) && el.tailSector == 0;
    ok := el.Write(y, false);
    assert el.log == Log([[y]], []) && el.tailSector == 1;
    var misplaced;
    el, misplaced := Restart(el);
  }

  /** What the events say of it and of one more write: both entries are retained. */
  lemma MisplacedExample(x: ErrorEntry, y: ErrorEntry, z: ErrorEntry)
    ensures AfterEvents([Written(x), Written(y), CutOff], 3, 1) == Log([[y]], []) && !Mountable(1, 1, 0, 3)
    ensures AfterEvents([Written(x), Written(y), CutOff, Written(z)], 3, 1) == Log([[y], [z]], [])
  {
    var none: seq<Event> := [];
    assert [Written(x)][..0] == none && [Written(x), Written(y)][..1] == [Written(x)];
    assert [Written(x), Written(y), CutOff][..2] == [Written(x), Written(y)];
    assert [Written(x), Written(y), CutOff, Written(z)][..3] == [Written(x), Written(y), CutOff];
    AppendThree(Log([], []), x);
    AppendThree(Log([[x]], []), y);
    AppendThree(Log([[y]], []), z);
    assert [[x]] + [[y]] == [[x], [y]] && [[x], [y]][1..] == [[y]] && [[y]] + [[z]] == [[y], [z]];
    assert AfterEvents(none, 3, 1) == Log([], []);
    assert AfterEvents([Written(x)], 3, 1) == Log([[x]], []);
    assert AfterEvents([Written(x), Written(y)], 3, 1) == Log([[x], [y]], []);
    assert AfterEvents([Written(x), Written(y), CutOff], 3, 1) == Log([[y]], []);
  }

  // Without a partly filled sector, the least erased sector is the head exactly when the log is mountable
  lemma LeastErased(first: nat, t: nat, full: nat, s: nat)
    requires t < s && full < s && first < s
    requires forall x: nat | x < first :: Rel(t, x, s) < full
    requires Rel(t, first, s) >= full
    ensures first == if Mountable(t, full, 0, s) then Ring(t, full, s) else 0
  {
    var head := Ring(t, full, s);
    var atHead, atZero := Rel(t, head, s), Rel(t, 0, s);
    assert atHead == full;
  }

  lemma PrevInRing(x: nat, n: nat)
    requires x < n
    ensures (x + n - 1) % n == if x == 0 then n - 1 else x - 1
  {
    if x > 0 {
      DivModUnique(x + n - 1, n, 1, x - 1);
    }
  }

  lemma FromStart(log: Log)
    ensures log.From(0, 0) == log.Entries()
  {
    if log.full != [] {
      assert log.full[0][0..] == log.full[0];
    }
  }

  // A slot read by the iterator is valid exactly when something is left, and then heads it
  lemma FromStep(log: Log, j: nat, k: nat, e: nat)
    requires log.Shaped(e) && log.AllValid() && j <= |log.full| && k < e && (j == |log.full| ==> k <= |log.part|)
    ensures log.Cell(j, k).IsValid() <==> log.From(j, k) != []
    ensures log.Cell(j, k).IsValid() ==>
              var (j', k') := if k + 1 == e then (j + 1, 0) else (j, k + 1);
              && j' <= |log.full| && (j' == |log.full| ==> k' <= |log.part|)
              && log.From(j, k) == [log.Cell(j, k)] + log.From(j', k')
  {
    if j < |log.full| {
      assert log.full[j][k..] == [log.full[j][k]] + log.full[j][k + 1..];
      if k + 1 == e {
        FromNextSector(log, j + 1);
      }
    } else if k < |log.part| {
      assert log.part[k..] == [log.part[k]] + log.part[k + 1..];
    }
  }

  lemma FromNextSector(log: Log, j: nat)
    requires j <= |log.full|
    ensures log.From(j, 0) == Flatten(log.full[j..]) + log.part
  {
    if j < |log.full| {
      assert log.full[j..][1..] == log.full[j + 1..];
      assert log.full[j][0..] == log.full[j];
    }
  }
}
