// src/log_db.c: a circular log of variable-length blocks over erase-only flash sectors. A header is taken
// to validate exactly where a block starts, which is what its CRC-8 is for.
module LogDb {
  import opened Arithmetic
  import opened SectorRing
  import opened Wrappers

  const HEADER_SIZE: nat := 6

  /** One block as it is stored: kind, generation bit, and data. */
  datatype Block = Block(kind: nat, generation: bool, data: seq<bv8>) {
    function Size(): nat { HEADER_SIZE + |data| }
  }

  /** One byte of flash: erased, the first byte of a block, or any other byte of one. */
  datatype Cell = Erased | Start(block: Block) | Body

  // ---- One sector: blocks back to back, erased behind them ----

  function Used(bs: seq<Block>): nat {
    if bs == [] then 0 else Used(bs[..|bs| - 1]) + bs[|bs| - 1].Size()
  }

  ghost function CellAt(bs: seq<Block>, o: nat): Cell {
    if bs == [] then Erased else
    var init, last := bs[..|bs| - 1], bs[|bs| - 1];
    if o < Used(init) then CellAt(init, o)
    else if o == Used(init) then Start(last)
    else if o < Used(init) + last.Size() then Body
    else Erased
  }

  // A sector with one more block
  ghost function Appended(bs: seq<Block>, b: Block, o: nat): Cell {
    if o < Used(bs) then CellAt(bs, o)
    else if o == Used(bs) then Start(b)
    else if o < Used(bs) + b.Size() then Body
    else Erased
  }

  lemma {:induction false} AppendBlock(bs: seq<Block>, b: Block)
    ensures Used(bs + [b]) == Used(bs) + b.Size()
    ensures forall o: nat :: CellAt(bs + [b], o) == Appended(bs, b, o)
  {
    assert (bs + [b])[..|bs + [b]| - 1] == bs;
  }

  lemma {:induction false} BehindIsErased(bs: seq<Block>, o: nat)
    requires o >= Used(bs)
    ensures CellAt(bs, o) == Erased
  {
  }

  lemma {:induction false} UsedGrows(bs: seq<Block>, i: nat)
    requires i < |bs|
    ensures Used(bs[..i + 1]) == Used(bs[..i]) + bs[i].Size() <= Used(bs)
  {
    assert bs[..i + 1][..i] == bs[..i];
    if i + 1 < |bs| {
      UsedGrows(bs[..|bs| - 1], i);
      assert bs[..|bs| - 1][..i + 1] == bs[..i + 1] && bs[..|bs| - 1][..i] == bs[..i];
    } else {
      assert bs[..i + 1] == bs;
    }
  }

  // Scanning from the front meets the blocks one after the other
  lemma {:induction false} BlockStarts(bs: seq<Block>, i: nat)
    requires i < |bs|
    ensures CellAt(bs, Used(bs[..i])) == Start(bs[i])
  {
    var init := bs[..|bs| - 1];
    if i < |init| {
      BlockStarts(init, i);
      UsedGrows(init, i);
      assert init[..i] == bs[..i];
    }
  }

  lemma {:induction false} ScanStep(bs: seq<Block>, i: nat)
    requires i <= |bs| && CellAt(bs, Used(bs[..i])).Start?
    ensures i < |bs| && CellAt(bs, Used(bs[..i])) == Start(bs[i])
    ensures Used(bs[..i + 1]) == Used(bs[..i]) + bs[i].Size() <= Used(bs)
  {
    if i == |bs| {
      assert bs[..i] == bs;
      BehindIsErased(bs, Used(bs));
    } else {
      BlockStarts(bs, i);
      UsedGrows(bs, i);
    }
  }

  // A scan stops behind the last block only
  lemma {:induction false} ScanEnds(bs: seq<Block>, i: nat, size: nat)
    requires i <= |bs| && Used(bs) <= size
    requires Used(bs[..i]) == size || !CellAt(bs, Used(bs[..i])).Start?
    ensures i == |bs| && bs[..i] == bs
  {
    if i < |bs| {
      BlockStarts(bs, i);
      UsedGrows(bs, i);
    }
  }

  lemma {:induction false} FilledIsLast(bs: seq<Block>, i: nat, size: nat)
    requires i < |bs| && Used(bs) <= size && Used(bs[..i + 1]) == size
    ensures i + 1 == |bs|
  {
    if i + 1 < |bs| {
      UsedGrows(bs, i + 1);
    }
  }

  // ---- The ring of sectors: used ones from the tail on, each with at least one block ----

  ghost function BlocksOf(ring: seq<seq<Block>>, t: nat, sector: nat, s: nat): seq<Block>
    requires t < s
  {
    var j := Rel(t, sector, s);
    if j < |ring| then ring[j] else []
  }

  function HeadSector(t: nat, m: nat, s: nat): int { if m == 0 then t else Ring(t, m - 1, s) }

  // Sectors up to the head carry the current generation, the ones beyond it the previous one
  ghost predicate Generations(ring: seq<seq<Block>>, t: nat, g: bool, s: nat) {
    forall j: nat, i: nat | j < |ring| && i < |ring[j]| ::
      ring[j][i].generation == ((Ring(t, j, s) <= HeadSector(t, |ring|, s)) == g)
  }

  ghost predicate Shaped(ring: seq<seq<Block>>, s: nat, size: nat) {
    |ring| <= s && forall j: nat | j < |ring| :: ring[j] != [] && Used(ring[j]) <= size
  }

  predicate Fits(ring: seq<seq<Block>>, len: nat, size: nat) {
    ring != [] && Used(ring[|ring| - 1]) + len <= size
  }

  /** What the erase step of a write leaves: the oldest sector goes when a new one is needed and none is
      free. This is also all that a power failure before the program leaves. */
  ghost function EraseOnly(ring: seq<seq<Block>>, len: nat, s: nat, size: nat): seq<seq<Block>> {
    if !Fits(ring, len, size) && |ring| == s && s > 0 then ring[1..] else ring
  }

  ghost function Place(ring: seq<seq<Block>>, b: Block, size: nat): seq<seq<Block>> {
    if Fits(ring, b.Size(), size) then ring[..|ring| - 1] + [ring[|ring| - 1] + [b]] else ring + [[b]]
  }

  /** A completed write. */
  ghost function Append(ring: seq<seq<Block>>, b: Block, s: nat, size: nat): seq<seq<Block>> {
    Place(EraseOnly(ring, b.Size(), s, size), b, size)
  }

  /** A write that completes, or one that is cut off between its erase and its program. */
  datatype Event = Event(block: Block, programs: bool)

  ghost function Step(r: seq<seq<Block>>, e: Event, s: nat, size: nat): seq<seq<Block>> {
    if e.block.Size() > size then r
    else if e.programs then Append(r, e.block, s, size)
    else EraseOnly(r, e.block.Size(), s, size)
  }

  ghost function Run(events: seq<Event>, s: nat, size: nat): seq<seq<Block>> {
    if events == [] then [] else Step(Run(events[..|events| - 1], s, size), events[|events| - 1], s, size)
  }

  // The blocks of all completed writes
  function Completed(events: seq<Event>, size: nat): seq<Block> {
    if events == [] then [] else
    var e := events[|events| - 1];
    Completed(events[..|events| - 1], size) + if e.programs && e.block.Size() <= size then [e.block] else []
  }

  // No sector was left before a block that it had no room for
  ghost predicate Packed(ring: seq<seq<Block>>, size: nat) {
    && (forall j: nat | j < |ring| :: ring[j] != [])
    && (forall j: nat | j + 1 < |ring| :: Used(ring[j]) + ring[j + 1][0].Size() > size)
  }

  lemma {:induction false} FlattenPlace(ring: seq<seq<Block>>, b: Block, size: nat)
    ensures Flatten(Place(ring, b, size)) == Flatten(ring) + [b]
  {
    var r: seq<seq<Block>> := Place(ring, b, size);
    if ring == [] {
      assert r == [[b]] && r[1..] == [];
    } else if |ring| == 1 {
      assert ring[1..] == [];
      if Fits(ring, b.Size(), size) {
        assert r == [ring[0] + [b]] && r[1..] == [];
      } else {
        assert r[0] == ring[0] && r[1..] == [[b]] && [[b]][1..] == [];
      }
    } else {
      FlattenPlace(ring[1..], b, size);
      assert ring[1..][|ring| - 2] == ring[|ring| - 1];
      assert r[0] == ring[0] && r[1..] == Place(ring[1..], b, size);
      assert ring[0] + (Flatten(ring[1..]) + [b]) == (ring[0] + Flatten(ring[1..])) + [b];
    }
  }

  lemma {:induction false} PlacePacks(ring: seq<seq<Block>>, b: Block, size: nat)
    requires Packed(ring, size)
    ensures Packed(Place(ring, b, size), size)
  {
    var r: seq<seq<Block>> := Place(ring, b, size);
    forall j: nat | j + 1 < |r| ensures Used(r[j]) + r[j + 1][0].Size() > size {
      assert j < |ring| && r[j] == ring[j];
    }
  }

  lemma {:induction false} SuffixOfSuffix<T>(front: seq<T>, a: seq<T>, b: seq<T>)
    requires IsSuffix(front + a, b)
    ensures IsSuffix(a, b)
  {
    assert a == (front + a)[|front|..] == b[|b| - |a|..];
  }

  lemma {:induction false} SuffixGrows<T>(a: seq<T>, b: seq<T>, x: T)
    requires IsSuffix(a, b)
    ensures IsSuffix(a + [x], b + [x])
  {
    assert (b + [x])[|b| - |a|..] == b[|b| - |a|..] + [x];
  }

  // All that has been kept of the completed blocks
  ghost predicate RetainsTheEnd(r: seq<seq<Block>>, completed: seq<Block>, s: nat, size: nat) {
    && IsSuffix(Flatten(r), completed) && |r| <= s && Packed(r, size)
    && (|Flatten(r)| < |completed| ==> |r| >= s - 1)
  }

  lemma {:induction false} EraseRetains(r: seq<seq<Block>>, completed: seq<Block>, len: nat, s: nat, size: nat)
    requires s >= 2 && RetainsTheEnd(r, completed, s, size)
    ensures RetainsTheEnd(EraseOnly(r, len, s, size), completed, s, size)
  {
    if |r| == s {
      assert Flatten(r) == r[0] + Flatten(r[1..]);
      SuffixOfSuffix(r[0], Flatten(r[1..]), completed);
    }
  }

  lemma {:induction false} PlaceRetains(r: seq<seq<Block>>, completed: seq<Block>, b: Block, s: nat, size: nat)
    requires s >= 2 && RetainsTheEnd(r, completed, s, size) && (Fits(r, b.Size(), size) || |r| < s)
    ensures RetainsTheEnd(Place(r, b, size), completed + [b], s, size)
  {
    FlattenPlace(r, b, size);
    PlacePacks(r, b, size);
    SuffixGrows(Flatten(r), completed, b);
  }

  lemma {:induction false} StepRetains(r: seq<seq<Block>>, completed: seq<Block>, e: Event, s: nat, size: nat)
    requires s >= 2 && RetainsTheEnd(r, completed, s, size)
    ensures var more := if e.programs && e.block.Size() <= size then [e.block] else [];
            RetainsTheEnd(Step(r, e, s, size), completed + more, s, size)
  {
    var b := e.block;
    assert completed + [] == completed;
    if b.Size() <= size {
      var r1 := EraseOnly(r, b.Size(), s, size);
      EraseRetains(r, completed, b.Size(), s, size);
      assert Fits(r1, b.Size(), size) || |r1| < s;
      if e.programs {
        PlaceRetains(r1, completed, b, s, size);
      }
    }
  }

  /** Whatever the run of writes and power failures, Run leaves the newest completed blocks, in order and without a gap.
      Blocks are lost only by whole sectors, all of them packed, and at most one of s sectors is free when any have
      been. How far a log follows Run is stated by Execute below. */
  lemma {:induction false} RunsRetainTheEnd(events: seq<Event>, s: nat, size: nat)
    requires s >= 2
    ensures RetainsTheEnd(Run(events, s, size), Completed(events, size), s, size)
    decreases |events|
  {
    if events != [] {
      var init := events[..|events| - 1];
      RunsRetainTheEnd(init, s, size);
      StepRetains(Run(init, s, size), Completed(init, size), events[|events| - 1], s, size);
    }
  }

  /** The erase step frees the oldest sector when all are in use and the newest one has no room, and nothing
      otherwise. */
  lemma ErasesOldestIff(ring: seq<seq<Block>>, len: nat, s: nat, size: nat)
    requires s > 0
    ensures EraseOnly(ring, len, s, size)
            == if |ring| == s && Used(ring[s - 1]) + len > size then ring[1..] else ring
  {
  }

  // Blocks in sectors, in order, each behind the one before it where it has room there, with no end to the sectors
  ghost function Packing(blocks: seq<Block>, size: nat): seq<seq<Block>> {
    if blocks == [] then [] else Place(Packing(blocks[..|blocks| - 1], size), blocks[|blocks| - 1], size)
  }

  // The last sectors of a packing, all or all but one of those that there are
  ghost predicate KeepsLast(r: seq<seq<Block>>, all: seq<seq<Block>>, s: nat, whole: bool) {
    IsSuffix(r, all) && |r| <= s && (r == all || |r| >= s - 1) && (whole ==> r == all || |r| == s)
  }

  lemma PlaceInLast(r: seq<seq<Block>>, all: seq<seq<Block>>, b: Block, size: nat)
    requires IsSuffix(r, all) && (r == [] ==> all == [])
    ensures IsSuffix(Place(r, b, size), Place(all, b, size))
    ensures |Place(all, b, size)| - |Place(r, b, size)| == |all| - |r|
  {
    if r != [] {
      assert all[|all| - 1] == r[|r| - 1];
      var front := all[..|all| - |r|];
      assert all == front + r && Place(all, b, size) == front + Place(r, b, size);
    }
  }

  lemma EraseKeepsLast(r: seq<seq<Block>>, all: seq<seq<Block>>, len: nat, s: nat, size: nat, whole: bool)
    requires s >= 2 && KeepsLast(r, all, s, whole)
    ensures var r1 := EraseOnly(r, len, s, size);
            && KeepsLast(r1, all, s, false) && (r1 == [] ==> all == [])
            && (r1 == r || (|r1| == s - 1 && !Fits(r1, len, size)))
  {
    if |r| == s {
      assert r == [r[0]] + r[1..];
      SuffixOfSuffix([r[0]], r[1..], all);
    }
  }

  lemma PlaceKeepsLast(r: seq<seq<Block>>, r1: seq<seq<Block>>, all: seq<seq<Block>>, b: Block, s: nat, size: nat,
                       whole: bool)
    requires s >= 2 && KeepsLast(r, all, s, whole) && KeepsLast(r1, all, s, false) && (r1 == [] ==> all == [])
    requires if r1 == r then Fits(r, b.Size(), size) || |r| < s else |r1| == s - 1 && !Fits(r1, b.Size(), size)
    ensures KeepsLast(Place(r1, b, size), Place(all, b, size), s, whole)
  {
    PlaceInLast(r1, all, b, size);
  }

  lemma StepKeepsLast(r: seq<seq<Block>>, all: seq<seq<Block>>, e: Event, s: nat, size: nat, whole: bool)
    requires s >= 2 && KeepsLast(r, all, s, whole) && e.block.Size() <= size
    ensures e.programs ==> KeepsLast(Step(r, e, s, size), Place(all, e.block, size), s, whole)
    ensures !e.programs ==> KeepsLast(Step(r, e, s, size), all, s, false)
  {
    var r1 := EraseOnly(r, e.block.Size(), s, size);
    EraseKeepsLast(r, all, e.block.Size(), s, size, whole);
    if e.programs {
      PlaceKeepsLast(r, r1, all, e.block, s, size, whole);
    }
  }

  ghost predicate Uncut(events: seq<Event>) { forall i: nat | i < |events| :: events[i].programs }

  /** Run leaves the last s sectors of the packing of all completed blocks, or all of them if they are fewer; after a
      power failure it can be one less. */
  lemma {:induction false} RunKeepsLast(events: seq<Event>, s: nat, size: nat)
    requires s >= 2
    ensures KeepsLast(Run(events, s, size), Packing(Completed(events, size), size), s, Uncut(events))
    decreases |events|
  {
    if events != [] {
      var init, e := events[..|events| - 1], events[|events| - 1];
      assert events == init + [e];
      RunKeepsLast(init, s, size);
      OneMoreKeepsLast(init, e, Run(init, s, size), Packing(Completed(init, size), size), s, size);
    }
  }

  lemma OneMoreKeepsLast(init: seq<Event>, e: Event, r: seq<seq<Block>>, all: seq<seq<Block>>, s: nat, size: nat)
    requires s >= 2 && KeepsLast(r, all, s, Uncut(init))
    requires r == Run(init, s, size) && all == Packing(Completed(init, size), size)
    ensures KeepsLast(Run(init + [e], s, size), Packing(Completed(init + [e], size), size), s, Uncut(init + [e]))
  {
    PackingGrows(init, e, size);
    assert (init + [e])[..|init|] == init;
    assert Uncut(init + [e]) ==> Uncut(init) && e.programs by {
      assert (init + [e])[|init|] == e;
      assert forall i: nat | i < |init| :: (init + [e])[i] == init[i];
    }
    if e.block.Size() <= size {
      StepKeepsLast(r, all, e, s, size, Uncut(init));
    }
  }

  lemma PackingGrows(init: seq<Event>, e: Event, size: nat)
    ensures var was, now := Packing(Completed(init, size), size), Packing(Completed(init + [e], size), size);
            now == if e.programs && e.block.Size() <= size then Place(was, e.block, size) else was
  {
    var done := Completed(init, size);
    assert (init + [e])[..|init|] == init && done + [] == done;
    assert (done + [e.block])[..|done|] == done;
  }

  // A write wraps around when it needs a new sector behind the last one
  predicate Wraps(ring: seq<seq<Block>>, t: nat, len: nat, s: nat, size: nat) {
    ring != [] && !Fits(ring, len, size) && HeadSector(t, |ring|, s) == s - 1
  }

  // Dropping the oldest of s sectors moves the tail and empties that sector; the head and the meaning of
  // the generation bits stay
  lemma {:induction false} OldestDropped(ring: seq<seq<Block>>, t: nat, g: bool, s: nat, size: nat)
    requires s >= 2 && t < s && |ring| == s && Shaped(ring, s, size) && Generations(ring, t, g, s)
    ensures var t' := Ring(t, 1, s);
            && Shaped(ring[1..], s, size) && Generations(ring[1..], t', g, s)
            && HeadSector(t', s - 1, s) == HeadSector(t, s, s)
            && Ring(HeadSector(t, s, s), 1, s) == t == Ring(t', s - 1, s)
  {
    var t', r := Ring(t, 1, s), ring[1..];
    forall j: nat | j < |r| ensures r[j] == ring[j + 1] && Ring(t', j, s) == Ring(t, j + 1, s) {
    }
  }

  lemma {:induction false} DroppedBlocks(ring: seq<seq<Block>>, t: nat, s: nat, sector: nat)
    requires s >= 2 && t < s && |ring| == s && sector < s
    ensures BlocksOf(ring[1..], Ring(t, 1, s), sector, s) == if sector == t then [] else BlocksOf(ring, t, sector, s)
  {
  }

  // A block behind the last one of the head sector
  lemma {:induction false} PlacedInHead(ring: seq<seq<Block>>, t: nat, g: bool, b: Block, s: nat, size: nat)
    requires s >= 2 && t < s && Shaped(ring, s, size) && Generations(ring, t, g, s)
    requires Fits(ring, b.Size(), size) && b.generation == g
    ensures var r := Place(ring, b, size);
            |r| == |ring| && Shaped(r, s, size) && Generations(r, t, g, s)
  {
    var r: seq<seq<Block>>, m := Place(ring, b, size), |ring|;
    AppendBlock(ring[m - 1], b);
    forall j: nat, i: nat | j < |r| && i < |r[j]|
      ensures r[j][i].generation == ((Ring(t, j, s) <= HeadSector(t, |r|, s)) == g)
    {
      if j < m - 1 {
        assert r[j] == ring[j];
      } else if i < |ring[m - 1]| {
        assert r[j][i] == ring[m - 1][i];
      }
    }
  }

  // The first block of a new head sector
  lemma {:induction false} PlacedInNew(ring: seq<seq<Block>>, t: nat, g: bool, g': bool, b: Block, s: nat, size: nat)
    requires s >= 2 && t < s && Shaped(ring, s, size) && Generations(ring, t, g, s) && |ring| < s
    requires b.Size() <= size && b.generation == g' && g' == (g != (ring != [] && HeadSector(t, |ring|, s) == s - 1))
    ensures Shaped(ring + [[b]], s, size) && Generations(ring + [[b]], t, g', s)
  {
    var r: seq<seq<Block>>, m := ring + [[b]], |ring|;
    assert Used([b]) == b.Size() by { AppendBlock([], b); assert [] + [b] == [b]; }
    forall j: nat, i: nat | j < |r| && i < |r[j]|
      ensures r[j][i].generation == ((Ring(t, j, s) <= HeadSector(t, |r|, s)) == g')
    {
      if j < m {
        assert r[j] == ring[j];
      }
    }
  }

  // Where Place puts a block of this length: the sector, and the offset in it
  function SectorFor(ring: seq<seq<Block>>, t: nat, len: nat, s: nat, size: nat): nat
    requires t < s && |ring| <= s
  {
    if Fits(ring, len, size) then Ring(t, |ring| - 1, s) else Ring(t, |ring|, s)
  }

  function PlaceFor(ring: seq<seq<Block>>, len: nat, size: nat): nat {
    if Fits(ring, len, size) then Used(ring[|ring| - 1]) else 0
  }

  // The sector in which such a write starts, before anything is erased
  function NextSector(ring: seq<seq<Block>>, t: nat, len: nat, s: nat, size: nat): nat
    requires t < s && |ring| <= s
  {
    if Fits(ring, len, size) then Ring(t, |ring| - 1, s)
    else if ring == [] then 0
    else Ring(Ring(t, |ring| - 1, s), 1, s)
  }

  // The erase step does not change where the block goes, and a wrap always erases
  lemma {:induction false} EraseThenPlace(ring: seq<seq<Block>>, t: nat, len: nat, s: nat, size: nat)
    requires s >= 2 && t < s && |ring| <= s && (ring == [] ==> t == 0)
    ensures var r := EraseOnly(ring, len, s, size);
            var t' := if |r| < |ring| then Ring(t, 1, s) else t;
            && (Fits(r, len, size) || |r| < s)
            && Wraps(r, t', len, s, size) == Wraps(ring, t, len, s, size)
            && SectorFor(r, t', len, s, size) == NextSector(ring, t, len, s, size)
            && PlaceFor(r, len, size) == PlaceFor(ring, len, size)
  {
  }

  // tail_filled lets exactly the right writes erase
  lemma {:induction false} ErasesWhenFull(ring: seq<seq<Block>>, t: nat, tailFilled: bool, len: nat, s: nat, size: nat)
    requires s >= 2 && t < s && Shaped(ring, s, size) && 0 < len <= size
    requires Guards(tailFilled, ring, size) && (ring == [] ==> t == 0)
    ensures var next := NextSector(ring, t, len, s, size);
            var erase := Wraps(ring, t, len, s, size) || (next == t && tailFilled);
            && (erase ==> ring != [] && next == Ring(HeadSector(t, |ring|, s), 1, s))
            && EraseOnly(ring, len, s, size) == if erase && |ring| == s then ring[1..] else ring
  {
  }

  lemma {:induction false} Placed(ring: seq<seq<Block>>, t: nat, g: bool, g': bool, b: Block, s: nat, size: nat,
                                  fit: nat)
    requires s >= 2 && t < s && Shaped(ring, s, size) && Generations(ring, t, g, s)
    requires 0 < b.Size() <= size && b.generation == g' && (fit == size || (fit == 0 && ring != []))
    requires (Fits(ring, b.Size(), fit) || |ring| < s) && g' == (g != Wraps(ring, t, b.Size(), s, fit))
    ensures Shaped(Place(ring, b, fit), s, size) && Generations(Place(ring, b, fit), t, g', s)
  {
    if Fits(ring, b.Size(), fit) {
      PlacedInHead(ring, t, g, b, s, size);
    } else {
      PlacedInNew(ring, t, g, g', b, s, size);
    }
  }

  ghost predicate Programmed(ring: seq<seq<Block>>, t: nat, b: Block, s: nat, size: nat, x: nat, o: nat)
    requires t < s && |ring| <= s
  {
    var at := PlaceFor(ring, b.Size(), size);
    CellAt(BlocksOf(Place(ring, b, size), t, x, s), o) ==
    if x == SectorFor(ring, t, b.Size(), s, size) && at <= o < at + b.Size() then (if o == at then Start(b) else Body)
    else CellAt(BlocksOf(ring, t, x, s), o)
  }

  lemma {:induction false} PlacedCells(ring: seq<seq<Block>>, t: nat, b: Block, s: nat, size: nat, x: nat, o: nat)
    requires s >= 2 && t < s && |ring| <= s && x < s
    requires Fits(ring, b.Size(), size) || |ring| < s
    ensures Programmed(ring, t, b, s, size, x, o)
  {
    var r: seq<seq<Block>> := Place(ring, b, size);
    var bs := BlocksOf(ring, t, x, s);
    if x == SectorFor(ring, t, b.Size(), s, size) {
      assert BlocksOf(r, t, x, s) == bs + [b] && Used(bs) == PlaceFor(ring, b.Size(), size);
      AppendBlock(bs, b);
      if o >= Used(bs) {
        BehindIsErased(bs, o);
      }
    } else {
      assert BlocksOf(r, t, x, s) == bs;
    }
  }

  lemma {:induction false} FreeToProgram(ring: seq<seq<Block>>, t: nat, len: nat, s: nat, size: nat, o: nat)
    requires s >= 2 && t < s && |ring| <= s && o >= PlaceFor(ring, len, size)
    requires Fits(ring, len, size) || |ring| < s
    ensures SectorFor(ring, t, len, s, size) < s
    ensures CellAt(BlocksOf(ring, t, SectorFor(ring, t, len, s, size), s), o) == Erased
  {
    BehindIsErased(BlocksOf(ring, t, SectorFor(ring, t, len, s, size), s), o);
  }

  lemma {:induction false} PlaceExtends(ring: seq<seq<Block>>, t: nat, b: Block, s: nat, size: nat)
    requires s >= 2 && t < s && |ring| <= s
    requires Fits(ring, b.Size(), size) || |ring| < s
    ensures Extended(ring, t, b, s, size)
  {
    forall x: nat, o: nat | x < s ensures Programmed(ring, t, b, s, size, x, o) {
      PlacedCells(ring, t, b, s, size, x, o);
    }
    FreeToProgram(ring, t, b.Size(), s, size, PlaceFor(ring, b.Size(), size));
    forall o: nat | o >= PlaceFor(ring, b.Size(), size)
      ensures CellAt(BlocksOf(ring, t, SectorFor(ring, t, b.Size(), s, size), s), o) == Erased
    {
      FreeToProgram(ring, t, b.Size(), s, size, o);
    }
  }

  ghost predicate Emptied(ring: seq<seq<Block>>, t: nat, r: seq<seq<Block>>, t': nat, sector: nat, s: nat)
    requires t < s && t' < s
  {
    forall x: nat | x < s :: BlocksOf(r, t', x, s) == if x == sector then [] else BlocksOf(ring, t, x, s)
  }

  ghost predicate Extended(ring: seq<seq<Block>>, t: nat, b: Block, s: nat, size: nat)
    requires t < s && |ring| <= s
  {
    && SectorFor(ring, t, b.Size(), s, size) < s
    && (forall x: nat, o: nat | x < s :: Programmed(ring, t, b, s, size, x, o))
    && (forall o: nat | o >= PlaceFor(ring, b.Size(), size) ::
          CellAt(BlocksOf(ring, t, SectorFor(ring, t, b.Size(), s, size), s), o) == Erased)
  }

  // The head after a write
  lemma {:induction false} HeadAfter(r: seq<seq<Block>>, t: nat, b: Block, s: nat, size: nat)
    requires s >= 2 && t < s && |r| <= s && (Fits(r, b.Size(), size) || |r| < s)
    ensures var r' := Place(r, b, size);
            && r' != [] && r'[|r'| - 1] != [] && r'[|r'| - 1][|r'[|r'| - 1]| - 1] == b
            && HeadSector(t, |r'|, s) == SectorFor(r, t, b.Size(), s, size)
            && Used(r'[|r'| - 1]) == PlaceFor(r, b.Size(), size) + b.Size()
  {
    if Fits(r, b.Size(), size) {
      AppendBlock(r[|r| - 1], b);
    } else {
      AppendBlock([], b);
      assert [] + [b] == [b];
    }
  }

  // What tail_filled has to say: with one used sector, whether it is full; with more, that they exist
  ghost predicate Guards(tailFilled: bool, ring: seq<seq<Block>>, size: nat) {
    && (|ring| >= 2 ==> tailFilled)
    && (|ring| == 1 && tailFilled ==> Used(ring[0]) == size)
    && (ring == [] ==> !tailFilled)
  }

  // The one case in which a write leaves two used sectors unguarded: with two sectors in all, mounted
  // after a power failure had erased sector 0, and a block that fills sector 0 to its last byte
  predicate Unguarded(t: nat, tailFilled: bool, b: Block, s: nat, size: nat) {
    s == 2 && t == 1 && !tailFilled && b.Size() == size
  }

  // Whether the offset behind the block is outside the tail sector; `fit` is what the head sector may fill up to
  predicate HeadLeaves(r: seq<seq<Block>>, t: nat, b: Block, s: nat, size: nat, fit: nat := size)
    requires t < s && |r| <= s
  {
    var headFull := PlaceFor(r, b.Size(), fit) + b.Size() == size;
    SectorFor(r, t, b.Size(), s, fit) + (if headFull then 1 else 0) != t
  }

  // In a new sector, whether or not the block would fit behind the newest one
  lemma GuardsInNew(r: seq<seq<Block>>, t: nat, tailFilled: bool, b: Block, s: nat, size: nat)
    requires s >= 2 && t < s && 0 < |r| < s && 0 < b.Size() <= size && (|r| >= 2 ==> tailFilled)
    ensures Place(r, b, 0) == r + [[b]] && Used([b]) == b.Size()
    ensures Guards(tailFilled || HeadLeaves(r, t, b, s, size, 0), Place(r, b, 0), size)
            <==> !Unguarded(t, tailFilled, b, s, size)
    ensures Unguarded(t, tailFilled, b, s, size) ==> |r| == 1 && !HeadLeaves(r, t, b, s, size, 0)
  {
    HeadAfter(r, t, b, s, 0);
  }

  /** A block that goes into a new sector goes where Append puts it exactly when it does not fit behind the newest
      one. */
  lemma InNewIsAppendIff(r: seq<seq<Block>>, b: Block, s: nat, size: nat)
    requires 0 < |r| < s
    ensures r + [[b]] == Append(r, b, s, size) <==> !Fits(r, b.Size(), size)
  {
    if Fits(r, b.Size(), size) {
      assert |Append(r, b, s, size)| == |r|;
    }
  }

  lemma {:induction false} GuardsAfter(ring: seq<seq<Block>>, t: nat, tailFilled: bool, b: Block, s: nat, size: nat,
                    r: seq<seq<Block>>, t': nat)
    requires s >= 2 && t < s && t' < s && Shaped(ring, s, size) && 0 < b.Size() <= size
    requires Guards(tailFilled, ring, size) && (ring == [] ==> t == 0)
    requires r == EraseOnly(ring, b.Size(), s, size) && t' == if |r| < |ring| then Ring(t, 1, s) else t
    ensures Guards(tailFilled || HeadLeaves(r, t', b, s, size), Place(r, b, size), size)
            <==> !(s == 2 && t == 1 && !tailFilled && b.Size() == size)
  {
    HeadAfter(r, t', b, s, size);
  }

  // It leaves both sectors in use, and the head at the end of sector 0
  lemma {:induction false} ExposedAfter(ring: seq<seq<Block>>, t: nat, tailFilled: bool, b: Block, s: nat, size: nat)
    requires t < s && Guards(tailFilled, ring, size) && (ring == [] ==> t == 0) && |ring| <= s
    requires Unguarded(t, tailFilled, b, s, size) && Shaped(ring, s, size)
    ensures EraseOnly(ring, b.Size(), s, size) == ring && Place(ring, b, size) == ring + [[b]] && |ring| == 1
    ensures Used([b]) == size && !HeadLeaves(ring, t, b, s, size)
  {
    assert [b][1..] == [];
  }

  // The sector behind the head is the tail exactly when all sectors are used
  lemma {:induction false} NextErased(ring: seq<seq<Block>>, t: nat, g: bool, s: nat, size: nat, sector: nat)
    requires s >= 2 && t < s && ring != [] && Shaped(ring, s, size) && Generations(ring, t, g, s)
    requires sector == Ring(HeadSector(t, |ring|, s), 1, s)
    ensures sector == t <==> |ring| == s
    ensures var t' := if sector == t then Ring(t, 1, s) else t;
            var r := if sector == t then ring[1..] else ring;
            && t' < s && sector == Ring(t', |r|, s)
            && Shaped(r, s, size) && Generations(r, t', g, s)
            && HeadSector(t', |r|, s) == HeadSector(t, |ring|, s)
            && Emptied(ring, t, r, t', sector, s)
  {
    if |ring| == s {
      OldestDropped(ring, t, g, s, size);
      forall x: nat | x < s
        ensures BlocksOf(ring[1..], Ring(t, 1, s), x, s) == if x == t then [] else BlocksOf(ring, t, x, s) {
        DroppedBlocks(ring, t, s, x);
      }
    }
  }

  // The offset at which a sector begins
  function Base(sector: nat, size: nat): nat { if sector == 0 then 0 else Base(sector - 1, size) + size }

  lemma {:induction false} BaseIsProduct(sector: nat, size: nat)
    ensures Base(sector, size) == sector * size
    decreases sector
  {
    if sector > 0 {
      BaseIsProduct(sector - 1, size);
      assert (sector - 1) * size + size == sector * size;
    }
  }

  lemma {:induction false} BaseAscends(x: nat, n: nat, size: nat)
    requires x < n
    ensures Base(x, size) + size == Base(x + 1, size) <= Base(n, size)
    decreases n
  {
    if x + 1 < n {
      BaseAscends(x, n - 1, size);
    }
  }

  // A byte offset at or just behind a byte of a sector, taken apart by the division of the source
  lemma {:induction false} Locate(sector: nat, o: nat, size: nat)
    requires size > 0 && o <= size
    ensures (Base(sector, size) + o) / size == if o < size then sector else sector + 1
    ensures (Base(sector, size) + o) % size == if o < size then o else 0
  {
    BaseIsProduct(sector, size);
    BaseIsProduct(sector + 1, size);
    if o < size {
      DivModUnique(sector * size + o, size, sector, o);
    } else {
      DivModUnique(sector * size + o, size, sector + 1, 0);
    }
  }

  // ---- Positions of the read iterator: used sector j from the tail, block i in it, sector x of the flash.
  // Behind the used sectors, x is a free sector or the tail again ----

  datatype Position = Position(j: nat, i: nat, x: nat)

  function OffsetIn(p: Position, ring: seq<seq<Block>>): nat {
    if p.j < |ring| && p.i <= |ring[p.j]| then Used(ring[p.j][..p.i]) else 0
  }

  ghost predicate At(offset: nat, p: Position, ring: seq<seq<Block>>, t: nat, s: nat, size: nat) {
    && t < s && p.x < s && OffsetIn(p, ring) < size && offset == Base(p.x, size) + OffsetIn(p, ring)
    && if p.j < |ring| then p.i <= |ring[p.j]| && p.x == Ring(t, p.j, s)
       else p.x == t || (ring != [] && Rel(t, p.x, s) >= |ring|)
  }

  // The blocks from a position on
  ghost function From(p: Position, ring: seq<seq<Block>>): seq<Block> {
    if p.j < |ring| && p.i <= |ring[p.j]| then ring[p.j][p.i..] + Flatten(ring[p.j + 1..]) else []
  }

  // Sectors still to be looked at
  function Ahead(p: Position, t: nat, m: nat, s: nat): int
    requires t < s
  {
    if p.j >= m && p.x == t then 0 else s - Rel(t, p.x, s)
  }

  ghost function NextStart(p: Position, ring: seq<seq<Block>>, s: nat): Position {
    Position(if p.j < |ring| then p.j + 1 else p.j, 0, Ring(p.x, 1, s))
  }

  // A block that fills its sector leads on to the next sector
  ghost function Behind(p: Position, ring: seq<seq<Block>>, s: nat, size: nat): Position {
    if p.j < |ring| && p.i < |ring[p.j]| && Used(ring[p.j][..p.i + 1]) < size then Position(p.j, p.i + 1, p.x)
    else NextStart(p, ring, s)
  }

  predicate AtBlock(p: Position, ring: seq<seq<Block>>) { p.j < |ring| && p.i < |ring[p.j]| }

  predicate AtGap(p: Position, ring: seq<seq<Block>>, t: nat, s: nat)
    requires t < s
  {
    if p.j < |ring| then p.i == |ring[p.j]| else Rel(t, p.x, s) >= |ring|
  }

  lemma {:induction false} NextStartAt(p: Position, ring: seq<seq<Block>>, t: nat, s: nat, size: nat)
    requires s >= 2 && size > 0 && t < s && p.x < s && 0 < |ring| <= s
    requires if p.j < |ring| then p.x == Ring(t, p.j, s) else Rel(t, p.x, s) >= |ring|
    requires forall j: nat | j < |ring| :: ring[j] != []
    ensures var p' := NextStart(p, ring, s);
            && At(Base(p'.x, size), p', ring, t, s, size) && (p'.j < |ring| ==> p'.j > 0)
            && Ahead(p', t, |ring|, s) < Ahead(p, t, |ring|, s)
            && From(p', ring) == if p.j < |ring| then Flatten(ring[p.j + 1..]) else []
  {
    var p' := NextStart(p, ring, s);
    if p'.j < |ring| {
      assert ring[p'.j][..0] == [] && ring[p'.j][0..] == ring[p'.j];
      assert ring[p.j + 1..][0] == ring[p'.j] && ring[p.j + 1..][1..] == ring[p'.j + 1..];
    }
  }

  // Nothing is lost when the iterator skips from a gap to the next sector
  lemma {:induction false} GapSkipped(p: Position, ring: seq<seq<Block>>, t: nat, s: nat, size: nat)
    requires s >= 2 && size > 0 && t < s && p.x < s && 0 < |ring| <= s && AtGap(p, ring, t, s)
    requires p.j < |ring| ==> p.x == Ring(t, p.j, s)
    requires forall j: nat | j < |ring| :: ring[j] != []
    ensures var p' := NextStart(p, ring, s);
            && At(Base(p'.x, size), p', ring, t, s, size) && (p'.j < |ring| ==> p'.j > 0)
            && (p'.j >= |ring| || p'.i < |ring[p'.j]|)
            && Ahead(p', t, |ring|, s) < Ahead(p, t, |ring|, s) && From(p', ring) == From(p, ring)
  {
    NextStartAt(p, ring, t, s, size);
  }

  // The sector that the iterator computes is the next one
  lemma {:induction false} SkippedTo(offset: nat, p: Position, ring: seq<seq<Block>>, t: nat, s: nat, size: nat)
    requires size > 0 && t < s && At(offset, p, ring, t, s, size)
    ensures (offset / size + 1) % s == NextStart(p, ring, s).x
    ensures NextStart(p, ring, s).x * size == Base(NextStart(p, ring, s).x, size)
  {
    Locate(p.x, OffsetIn(p, ring), size);
    NextInRing(p.x, s);
    BaseIsProduct(NextStart(p, ring, s).x, size);
  }

  // Back at the tail nothing is left
  lemma {:induction false} EndAtTail(offset: nat, p: Position, ring: seq<seq<Block>>, t: nat, s: nat, size: nat)
    requires |ring| <= s && At(offset, p, ring, t, s, size) && offset == Base(t, size)
             && !(p.j == 0 && p.i == 0 && ring != [])
    requires forall j: nat | j < |ring| :: ring[j] != []
    ensures From(p, ring) == [] && p.j >= |ring|
  {
    Locate(p.x, OffsetIn(p, ring), size);
    Locate(t, 0, size);
    if p.j < |ring| && p.i > 0 {
      UsedGrows(ring[p.j], p.i - 1);
    }
  }

  lemma {:induction false} PassedBlock(offset: nat, p: Position, ring: seq<seq<Block>>, t: nat, s: nat, size: nat)
    requires s >= 2 && size > 0 && Shaped(ring, s, size) && At(offset, p, ring, t, s, size)
    requires p.j < |ring| && p.i < |ring[p.j]|
    ensures var p', next := Behind(p, ring, s, size), offset + ring[p.j][p.i].Size();
            && At(if next >= Base(s, size) then 0 else next, p', ring, t, s, size)
            && (p'.j < |ring| ==> p'.j > 0 || p'.i > 0)
  {
    UsedGrows(ring[p.j], p.i);
    BaseAscends(p.x, s, size);
    if Used(ring[p.j][..p.i + 1]) == size {
      NextStartAt(p, ring, t, s, size);
      NextBase(p.x, s, size);
    }
  }

  lemma {:induction false} FromNext(p: Position, ring: seq<seq<Block>>, s: nat)
    requires p.j < |ring|
    ensures From(NextStart(p, ring, s), ring) == Flatten(ring[p.j + 1..])
  {
    if p.j + 1 < |ring| {
      assert ring[p.j + 1..][0] == ring[p.j + 1] && ring[p.j + 1..][1..] == ring[p.j + 2..];
      assert ring[p.j + 1][0..] == ring[p.j + 1];
    }
  }

  lemma {:induction false} FirstOf(bs: seq<Block>, i: nat, rest: seq<Block>)
    requires i < |bs|
    ensures bs[i..] + rest == [bs[i]] + (bs[i + 1..] + rest)
  {
    assert bs[i..] == [bs[i]] + bs[i + 1..];
  }

  // A block leaves room behind it, or is the last of a full sector
  lemma {:induction false} PassedWithin(bs: seq<Block>, i: nat, size: nat)
    requires i < |bs| && Used(bs) <= size
    ensures Used(bs[..i + 1]) <= size && (Used(bs[..i + 1]) == size ==> i + 1 == |bs| && Used(bs) == size)
  {
    UsedGrows(bs, i);
    if Used(bs[..i + 1]) == size {
      FilledIsLast(bs, i, size);
      assert bs[..i + 1] == bs;
    }
  }

  lemma {:induction false} BehindIsSettled(p: Position, ring: seq<seq<Block>>, s: nat, size: nat)
    requires p.j < |ring| && p.i < |ring[p.j]| && Used(ring[p.j]) <= size
    ensures Settled(Behind(p, ring, s, size), ring, size)
  {
    PassedWithin(ring[p.j], p.i, size);
  }

  // Nothing but the block itself is passed
  lemma LastStarts(bs: seq<Block>)
    requires bs != []
    ensures Used(bs[..|bs| - 1]) < Used(bs) && CellAt(bs, Used(bs[..|bs| - 1])) == Start(bs[|bs| - 1])
  {
    BlockStarts(bs, |bs| - 1);
    UsedGrows(bs, |bs| - 1);
    assert bs[..|bs| - 1 + 1] == bs;
  }

  lemma {:induction false} PassedFrom(p: Position, ring: seq<seq<Block>>, s: nat, size: nat)
    requires p.j < |ring| && p.i < |ring[p.j]| && Used(ring[p.j]) <= size
    ensures From(p, ring) == [ring[p.j][p.i]] + From(Behind(p, ring, s, size), ring)
  {
    var bs, rest := ring[p.j], Flatten(ring[p.j + 1..]);
    FirstOf(bs, p.i, rest);
    PassedWithin(bs, p.i, size);
    if Used(bs[..p.i + 1]) == size {
      assert bs[p.i + 1..] == [] && [] + rest == rest;
      FromNext(p, ring, s);
    } else {
      assert Behind(p, ring, s, size) == Position(p.j, p.i + 1, p.x);
      assert From(Position(p.j, p.i + 1, p.x), ring) == bs[p.i + 1..] + rest;
    }
  }

  // The head has filled its sector to the last byte and the next sector is the tail: the iterator then
  // takes the end of the tail sector for the end of the log
  ghost predicate Meets(ring: seq<seq<Block>>, t: nat, s: nat, size: nat) {
    ring != [] && |ring| == s && t > 0 && Used(ring[|ring| - 1]) == size
  }

  /** What an iteration over the headers delivers. */
  ghost function Iterated(ring: seq<seq<Block>>, t: nat, s: nat, size: nat): seq<Block> {
    if Meets(ring, t, s, size) && Used(ring[0]) < size then ring[0] else Flatten(ring)
  }

  /** The iteration delivers the whole log exactly when the head has not met the tail, or the tail sector is full. */
  lemma {:induction false} IteratesAllIff(ring: seq<seq<Block>>, t: nat, s: nat, size: nat)
    requires s >= 2 && Shaped(ring, s, size)
    ensures Iterated(ring, t, s, size) == Flatten(ring) <==>
            !(|ring| == s && t > 0 && Used(ring[s - 1]) == size && Used(ring[0]) < size)
    ensures Iterated(ring, t, s, size) != Flatten(ring) ==> Iterated(ring, t, s, size) == ring[0]
  {
    if |ring| >= 2 {
      assert Flatten(ring) == ring[0] + Flatten(ring[1..]);
      assert Flatten(ring[1..]) == ring[1] + Flatten(ring[1..][1..]);
    }
  }

  // Three writes to a log of two sectors of 10 bytes get there: the third erases sector 0 and fills it, so that
  // the head meets the tail, sector 1, in which 3 bytes are free
  lemma {:induction false} StopsShortExample()
    ensures var a, b := Block(1, false, [0]), Block(2, true, [0, 0, 0, 0]);
            var r := Run([Event(a, true), Event(a, true), Event(b, true)], 2, 10);
            r == [[a], [b]] && Meets(r, 1, 2, 10) && Iterated(r, 1, 2, 10) == [a] && Flatten(r) == [a, b]
  {
    var a, b := Block(1, false, [0]), Block(2, true, [0, 0, 0, 0]);
    var ea, eb := Event(a, true), Event(b, true);
    AppendBlock([], a);
    AppendBlock([], b);
    assert [] + [a] == [a] && [] + [b] == [b];
    assert [ea, ea, eb][..2] == [ea, ea] && [ea, ea][..1] == [ea] && [ea][..0] == [];
    assert Run([ea], 2, 10) == [[a]];
    assert Run([ea, ea], 2, 10) == [[a], [a]];
    var r: seq<seq<Block>> := [[a], [b]];
    assert r[1..] == [[b]] && r[1..][1..] == [];
  }

  // Behind a delivered block: a new sector is entered only from a full one
  ghost predicate Settled(p: Position, ring: seq<seq<Block>>, size: nat) {
    0 < p.j <= |ring| && p.i == 0 ==> Used(ring[p.j - 1]) == size
  }

  lemma {:induction false} FlattenShrinks(ring: seq<seq<Block>>, a: nat, b: nat)
    requires a <= b <= |ring|
    ensures |Flatten(ring[b..])| <= |Flatten(ring[a..])|
    decreases b - a
  {
    if a < b {
      FlattenShrinks(ring, a + 1, b);
      assert ring[a..][1..] == ring[a + 1..];
    }
  }

  // With a byte to spare in the tail sector, the iterator points there once its blocks are delivered
  lemma {:induction false} WhereTailEnds(p: Position, ring: seq<seq<Block>>, all: seq<Block>, size: nat)
    requires Shaped(ring, |ring|, size) && (p.j < |ring| ==> p.i <= |ring[p.j]|)
    requires Settled(p, ring, size) && Flatten(ring) == all + From(p, ring)
    ensures |ring| >= 2 && Used(ring[0]) < size && |all| == |ring[0]| ==> p.j == 0 && p.i == |ring[0]|
  {
    if |ring| >= 2 {
      assert ring[1..][0] == ring[1] && ring[1..][1..] == ring[2..];
      if 2 <= p.j < |ring| {
        assert ring[p.j..][0] == ring[p.j] && ring[p.j..][1..] == ring[p.j + 1..];
        FlattenShrinks(ring, 2, p.j);
      }
    }
  }

  // What has been delivered when the iterator ends; meets is HeadMeetsTail below
  lemma {:induction false} Delivered(p: Position, ring: seq<seq<Block>>, all: seq<Block>, s: nat, size: nat,
                                     meets: bool)
    requires Shaped(ring, s, size) && OffsetIn(p, ring) < size && Flatten(ring) == all + From(p, ring)
    requires meets ==> |ring| >= 2
    requires meets && Used(ring[0]) < size ==> |all| <= |ring[0]|
    requires From(p, ring) == [] || (meets && p.j == 0 && p.i == |ring[0]|)
    ensures all == if meets && Used(ring[0]) < size then ring[0] else Flatten(ring)
  {
    if ring != [] {
      assert Flatten(ring) == ring[0] + Flatten(ring[1..]);
      if From(p, ring) != [] {
        assert ring[0][..p.i] == ring[0];
        assert all == Flatten(ring)[..|ring[0]|];
      } else if |ring| >= 2 {
        assert Flatten(ring[1..]) == ring[1] + Flatten(ring[1..][1..]);
      }
    }
  }

  lemma {:induction false} Delivery(p: Position, ring: seq<seq<Block>>, all: seq<Block>, size: nat, meets: bool)
    requires Shaped(ring, |ring|, size) && Settled(p, ring, size) && (p.j < |ring| ==> p.i <= |ring[p.j]|)
    requires OffsetIn(p, ring) < size && Flatten(ring) == all + From(p, ring)
    requires meets ==> |ring| >= 2
    requires meets && Used(ring[0]) < size ==> |all| <= |ring[0]|
    ensures From(p, ring) == [] || (meets && p.j == 0 && p.i == |ring[0]|) ==>
              all == if meets && Used(ring[0]) < size then ring[0] else Flatten(ring)
    ensures !(From(p, ring) == [] || (meets && p.j == 0 && p.i == |ring[0]|)) ==>
              meets && Used(ring[0]) < size ==> |all| < |ring[0]|
  {
    if From(p, ring) == [] || (meets && p.j == 0 && p.i == |ring[0]|) {
      Delivered(p, ring, all, |ring|, size, meets);
    } else {
      WhereTailEnds(p, ring, all, size);
    }
  }

  lemma {:induction false} OneMore(all: seq<Block>, b: Block, left: seq<Block>, left': seq<Block>)
    requires left == [b] + left'
    ensures all + left == (all + [b]) + left' && |left'| < |left|
  {
  }

  lemma {:induction false} FromStart(ring: seq<seq<Block>>, t: nat)
    ensures From(Position(0, 0, t), ring) == Flatten(ring)
  {
    if ring != [] {
      assert ring[0][0..] == ring[0] && ring[0][..0] == [];
    }
  }

  lemma {:induction false} NextBase(x: nat, s: nat, size: nat)
    requires x < s && size > 0
    ensures Base(Ring(x, 1, s), size) == if Base(x, size) + size >= Base(s, size) then 0 else Base(x, size) + size
  {
    BaseAscends(x, s, size);
    if x + 1 < s {
      BaseAscends(x + 1, s, size);
    }
  }

  class LogDb {
    const sectorSize: nat
    const numSectors: nat
    const flash: array2<Cell>
    var latestOffset: nat     // newest block
    var headOffset: nat       // where the next block goes
    var readOffset: nat       // read iterator
    var tailSector: nat       // oldest sector
    var generation: bool      // generation of new blocks
    var tailFilled: bool
    var readIterStart: bool
    ghost var ring: seq<seq<Block>>
    ghost var cursor: Position    // what the read iterator points to

    ghost predicate Geometry() {
      sectorSize > 0 && numSectors >= 2 && flash.Length0 == numSectors && flash.Length1 == sectorSize
    }

    ghost predicate Holds(t: nat, r: seq<seq<Block>>)
      reads flash
      requires Geometry() && t < numSectors
    {
      forall s: nat, o: nat | s < numSectors && o < sectorSize ::
        flash[s, o] == CellAt(BlocksOf(r, t, s, numSectors), o)
    }

    // What the flash alone says: the log r from sector t on, with current generation g
    ghost predicate Stored(t: nat, r: seq<seq<Block>>, g: bool)
      reads flash
    {
      && Geometry() && t < numSectors && Shaped(r, numSectors, sectorSize) && Generations(r, t, g, numSectors)
      && Holds(t, r)
    }

    // The offset behind the newest block, and that block
    ghost predicate HeadPlaced()
      reads `ring, `headOffset, `latestOffset, `tailSector
    {
      if ring == [] then headOffset == 0 && latestOffset == 0 && tailSector == 0
      else
        var bs := ring[|ring| - 1];
        && bs != []
        && headOffset == Base(HeadSector(tailSector, |ring|, numSectors), sectorSize) + Used(bs)
        && headOffset == latestOffset + bs[|bs| - 1].Size()
    }

    // The log is as its fields say, and not waiting
    ghost predicate InPlace()
      reads `ring, `headOffset, `latestOffset, `tailSector, `generation, flash
    {
      Stored(tailSector, ring, generation) && HeadPlaced()
    }

    // The flag that keeps the only used sector from being erased, and lets a tail be overwritten
    ghost predicate TailGuarded()
      reads `ring, `tailFilled
    {
      Guards(tailFilled, ring, sectorSize)
    }

    // With two sectors: both are used, but the tail is not guarded, and the head is at its start
    ghost predicate Exposed()
      reads `ring, `tailSector, `tailFilled
    {
      numSectors == 2 && |ring| == 2 && tailSector == 1 && !tailFilled && Used(ring[1]) == sectorSize
    }

    // What a log can be like between calls
    ghost predicate Between()
      reads `ring, `headOffset, `latestOffset, `tailSector, `tailFilled, `generation, flash
    {
      Stored(tailSector, ring, generation) && HeadPlaced() && (TailGuarded() || Exposed())
    }

    ghost predicate Valid()
      reads `ring, `headOffset, `latestOffset, `tailSector, `tailFilled, `generation, flash
    {
      Stored(tailSector, ring, generation) && HeadPlaced() && TailGuarded()
    }

    // After a program that the flash has refused, in a write that needed a new sector: the head is at the start of that
    // sector, which is erased, and the generation is that of the blocks there
    ghost predicate Waiting()
      reads `ring, `headOffset, `tailSector, `tailFilled, `generation, flash
    {
      && Geometry() && tailSector < numSectors && Stored(tailSector, ring, StoredGeneration())
      && ring != [] && |ring| < numSectors && (|ring| >= 2 ==> tailFilled)
      && headOffset == Base(Ring(tailSector, |ring|, numSectors), sectorSize)
    }

    // The generation of the newest block then
    ghost function StoredGeneration(): bool
      reads `ring, `tailSector, `generation
    {
      generation != (HeadSector(tailSector, |ring|, numSectors) == numSectors - 1)
    }

    // storage.erase_sector
    method EraseSector(offset: nat, ghost sector: nat)
      requires Geometry() && sector < numSectors && offset == Base(sector, sectorSize)
      modifies flash
      ensures forall s: nat, o: nat | s < numSectors && o < sectorSize ::
                flash[s, o] == if s == sector then Erased else old(flash[s, o])
    {
      Locate(sector, 0, sectorSize);
      var at := offset / sectorSize;
      forall o: nat | o < sectorSize {
        flash[at, o] := Erased;
      }
    }

    // storage.write_block: only erased cells can be programmed, and a block stays within its sector
    method ProgramBlock(offset: nat, b: Block, ghost sector: nat, ghost o: nat)
      requires Geometry() && sector < numSectors && offset == Base(sector, sectorSize) + o && o + b.Size() <= sectorSize
      requires forall i: nat | o <= i < o + b.Size() :: flash[sector, i] == Erased
      modifies flash
      ensures forall s: nat, i: nat | s < numSectors && i < sectorSize ::
                flash[s, i] == if s == sector && i == o then Start(b)
                               else if s == sector && o < i < o + b.Size() then Body
                               else old(flash[s, i])
    {
      Locate(sector, o, sectorSize);
      var at, first := offset / sectorSize, offset % sectorSize;
      forall i: nat | first < i < first + b.Size() {
        flash[at, i] := Body;
      }
      flash[at, first] := Start(b);
    }

    // storage.read_block of a header, with its validation
    method ReadHeader(offset: nat, ghost sector: nat, ghost o: nat) returns (cell: Cell)
      requires Geometry() && sector < numSectors && o < sectorSize && offset == Base(sector, sectorSize) + o
      ensures cell == flash[sector, o]
    {
      Locate(sector, o, sectorSize);
      cell := flash[offset / sectorSize, offset % sectorSize];
    }

    /** logdb_init */
    constructor (sectorSize: nat, numSectors: nat, flash: array2<Cell>)
      requires sectorSize > 0 && numSectors >= 2 && flash.Length0 == numSectors && flash.Length1 == sectorSize
      ensures Geometry() && this.sectorSize == sectorSize && this.numSectors == numSectors && this.flash == flash
      ensures !tailFilled
    {
      this.sectorSize := sectorSize;
      this.numSectors := numSectors;
      this.flash := flash;
      latestOffset, headOffset, readOffset, tailSector := 0, 0, 0, 0;
      generation, tailFilled, readIterStart := false, false, false;
    }

    // ---- Writing ----

    // Where a block of this length goes: the offset arithmetic of logdb__prep_for_write
    method FindPlace(len: nat) returns (offset: nat, sector: nat, wraps: bool)
      requires (InPlace() || Waiting()) && 0 < len <= sectorSize
      ensures InPlace() ==>
                && sector == NextSector(ring, tailSector, len, numSectors, sectorSize)
                && offset == Base(sector, sectorSize) + PlaceFor(ring, len, sectorSize)
                && wraps == Wraps(ring, tailSector, len, numSectors, sectorSize)
      ensures !InPlace() ==>
                sector == Ring(tailSector, |ring|, numSectors) && offset == headOffset && !wraps
    {
      if InPlace() {
        WhereBlockEnds(len);
      } else {
        Locate(Ring(tailSector, |ring|, numSectors), 0, sectorSize);
        Locate(Ring(tailSector, |ring|, numSectors), len - 1, sectorSize);
      }
      wraps := false;
      offset := headOffset;
      sector := offset / sectorSize;
      var endOffset := offset + len - 1;
      var endSector := endOffset / sectorSize;
      if endSector != sector {
        offset := endSector * sectorSize;
        sector := offset / sectorSize;
      }
      if sector >= numSectors {
        offset, sector, wraps := 0, 0, true;
      }
    }

    lemma {:induction false} WhereBlockEnds(len: nat)
      requires Stored(tailSector, ring, generation) && HeadPlaced() && 0 < len <= sectorSize
      ensures var head := HeadSector(tailSector, |ring|, numSectors);
              var used := if ring == [] then 0 else Used(ring[|ring| - 1]);
              && headOffset == Base(head, sectorSize) + used && used <= sectorSize && (ring == [] ==> head == 0)
              && headOffset / sectorSize == (if used < sectorSize then head else head + 1)
              && (headOffset + len - 1) / sectorSize == (if used + len <= sectorSize then head else head + 1)
              && (head + 1) * sectorSize / sectorSize == head + 1
              && (head + 1) * sectorSize == Base(head + 1, sectorSize)
    {
      var head := HeadSector(tailSector, |ring|, numSectors);
      var used := if ring == [] then 0 else Used(ring[|ring| - 1]);
      Locate(head, used, sectorSize);
      BaseIsProduct(head + 1, sectorSize);
      Locate(head + 1, 0, sectorSize);
      if used + len <= sectorSize {
        Locate(head, used + len - 1, sectorSize);
      } else {
        Locate(head + 1, used + len - 1 - sectorSize, sectorSize);
      }
    }

    // Bump tail to next sector
    method BumpTail()
      requires Geometry() && tailSector < numSectors
      modifies this`tailSector, this`readOffset, this`readIterStart, this`cursor
      ensures tailSector == Ring(old(tailSector), 1, numSectors)
    {
      NextInRing(tailSector, numSectors);
      tailSector := (tailSector + 1) % numSectors;
      ReadInit();
    }

    // Erasing takes all blocks of a sector from the log
    method EraseBlocks(sector: nat, ghost t: nat, ghost r: seq<seq<Block>>, ghost t': nat, ghost r': seq<seq<Block>>)
      requires Geometry() && sector < numSectors && t < numSectors && t' < numSectors && Holds(t, r)
      requires Emptied(r, t, r', t', sector, numSectors)
      modifies flash
      ensures Holds(t', r')
    {
      BaseIsProduct(sector, sectorSize);
      EraseSector(sector * sectorSize, sector);
    }

    // Erase the sector after the head, and move the tail off it
    method EraseNext(sector: nat, ghost g: bool)
      requires Stored(tailSector, ring, g) && ring != []
      requires sector == Ring(HeadSector(tailSector, |ring|, numSectors), 1, numSectors)
      modifies this`tailSector, this`readOffset, this`readIterStart, this`cursor, this`ring, flash
      ensures Stored(tailSector, ring, g)
      ensures ring == if |old(ring)| == numSectors then old(ring)[1..] else old(ring)
      ensures tailSector == if |ring| < |old(ring)| then Ring(old(tailSector), 1, numSectors) else old(tailSector)
    {
      NextErased(ring, tailSector, g, numSectors, sectorSize, sector);
      ghost var t := if sector == tailSector then Ring(tailSector, 1, numSectors) else tailSector;
      ghost var r := if sector == tailSector then ring[1..] else ring;
      EraseBlocks(sector, tailSector, ring, t, r);
      if tailSector == sector {
        BumpTail();
      }
      ring := r;
    }

    // A place is found and free for a block of this length; g is the generation of the log so far, and fit is what the
    // head sector may fill up to, which is nothing when the log has been waiting
    ghost predicate Ready(len: nat, g: bool, fit: nat)
      reads `ring, `tailSector, `generation, `headOffset
    {
      && tailSector < numSectors && |ring| <= numSectors && (fit == sectorSize || (fit == 0 && ring != []))
      && (Fits(ring, len, fit) || |ring| < numSectors)
      && generation == (g != Wraps(ring, tailSector, len, numSectors, fit))
      && headOffset == Base(SectorFor(ring, tailSector, len, numSectors, fit), sectorSize) + PlaceFor(ring, len, fit)
    }

    method MakeRoom(sector: nat, erase: bool, ghost g: bool)
      requires Stored(tailSector, ring, g)
      requires erase ==> ring != [] && sector == Ring(HeadSector(tailSector, |ring|, numSectors), 1, numSectors)
      modifies this`tailSector, this`readOffset, this`readIterStart, this`cursor, this`ring, flash
      ensures Stored(tailSector, ring, g)
      ensures ring == if erase && |old(ring)| == numSectors then old(ring)[1..] else old(ring)
      ensures tailSector == if |ring| < |old(ring)| then Ring(old(tailSector), 1, numSectors) else old(tailSector)
    {
      if erase {
        EraseNext(sector, g);
      }
    }

    // Whether a write of this length erases the sector it starts in
    ghost predicate Erases(len: nat)
      requires tailSector < numSectors && |ring| <= numSectors
      reads `ring, `tailSector, `tailFilled
    {
      || Wraps(ring, tailSector, len, numSectors, sectorSize)
      || (NextSector(ring, tailSector, len, numSectors, sectorSize) == tailSector && tailFilled)
    }

    /** logdb__prep_for_write. What it leaves in flash is what a power failure before the program leaves. A log that
        is waiting stays as it is. */
    method PrepForWrite(len: nat)
      requires (Between() || Waiting()) && 0 < len <= sectorSize
      modifies this`headOffset, this`tailSector, this`generation, this`readOffset, this`readIterStart, this`cursor,
               this`ring, flash
      ensures old(InPlace()) ==>
                && Stored(tailSector, ring, old(generation))
                && ring == (if old(Erases(len)) && |old(ring)| == numSectors then old(ring)[1..] else old(ring))
                && tailSector
                   == (if |ring| < |old(ring)| then Ring(old(tailSector), 1, numSectors) else old(tailSector))
                && generation == (old(generation) != Wraps(old(ring), old(tailSector), len, numSectors, sectorSize))
                && headOffset == Base(NextSector(old(ring), old(tailSector), len, numSectors, sectorSize), sectorSize)
                                 + PlaceFor(old(ring), len, sectorSize)
      ensures !old(InPlace()) ==>
                && Stored(tailSector, ring, old(StoredGeneration())) && ring == old(ring)
                && tailSector == old(tailSector)
                && generation == old(generation) && headOffset == old(headOffset)
    {
      ghost var g := if InPlace() then generation else StoredGeneration();
      if InPlace() {
        PlaceKnown(len);
      }
      var writeOffset, writeSector, wraps := FindPlace(len);
      headOffset, generation := writeOffset, generation != wraps;
      MakeRoom(writeSector, wraps || (writeSector == tailSector && tailFilled), g);
    }

    // A write erases the sector behind the head, when it erases one
    lemma {:induction false} PlaceKnown(len: nat)
      requires InPlace() && (Between() || Waiting()) && 0 < len <= sectorSize
      ensures Erases(len) ==>
                ring != [] && NextSector(ring, tailSector, len, numSectors, sectorSize)
                              == Ring(HeadSector(tailSector, |ring|, numSectors), 1, numSectors)
    {
      if TailGuarded() {
        ErasesWhenFull(ring, tailSector, tailFilled, len, numSectors, sectorSize);
      }
    }

    // The erase step of a write to a guarded log
    twostate predicate Prepared(len: nat)
      reads this, flash
    {
      && Stored(tailSector, ring, old(generation)) && ring == EraseOnly(old(ring), len, numSectors, sectorSize)
      && tailSector == if |ring| < |old(ring)| then Ring(old(tailSector), 1, numSectors) else old(tailSector)
    }

    // A log that is waiting and as its fields say has a full head sector, and is guarded
    lemma WaitingIsNotInPlace()
      requires Waiting() && !Valid()
      ensures !InPlace()
    {
      if InPlace() {
        BaseAscends(HeadSector(tailSector, |ring|, numSectors), numSectors, sectorSize);
      }
    }

    // What prep_for_write leaves of a guarded log
    method PrepGuarded(len: nat)
      requires Valid() && 0 < len <= sectorSize
      modifies this`headOffset, this`tailSector, this`generation, this`readOffset, this`readIterStart, this`cursor,
               this`ring, flash
      ensures Prepared(len) && Moved(len) && Ready(len, old(generation), sectorSize)
    {
      EraseThenPlace(ring, tailSector, len, numSectors, sectorSize);
      ErasesWhenFull(ring, tailSector, tailFilled, len, numSectors, sectorSize);
      PrepForWrite(len);
    }

    // Where prep_for_write leaves the head, and with which generation
    twostate predicate Moved(len: nat)
      requires old(tailSector) < numSectors && |old(ring)| <= numSectors
      reads this
    {
      && headOffset == Base(NextSector(old(ring), old(tailSector), len, numSectors, sectorSize), sectorSize)
                       + PlaceFor(old(ring), len, sectorSize)
      && generation == (old(generation) != Wraps(old(ring), old(tailSector), len, numSectors, sectorSize))
      && latestOffset == old(latestOffset) && tailFilled == old(tailFilled)
    }

    /** A write to a log whose tail is exposed: nothing is erased, and the block is to be programmed from the start of
        the tail sector on, over the blocks there. */
    method PrepExposed(len: nat)
      requires Between() && !TailGuarded() && 0 < len <= sectorSize
      modifies this`headOffset, this`tailSector, this`generation, this`readOffset, this`readIterStart, this`cursor,
               this`ring, flash
      ensures Stored(tailSector, ring, generation) && ring == old(ring) && tailSector == old(tailSector)
      ensures headOffset == Base(tailSector, sectorSize) && flash[tailSector, 0] == Start(ring[0][0])
    {
      PrepForWrite(len);
      assert BlocksOf(ring, tailSector, tailSector, numSectors) == ring[0];
      BlockStarts(ring[0], 0);
    }

    /** logdb_read_init */
    method ReadInit()
      modifies this`readOffset, this`readIterStart, this`cursor
      ensures readOffset == Base(tailSector, sectorSize) && readIterStart && cursor == Position(0, 0, tailSector)
    {
      BaseIsProduct(tailSector, sectorSize);
      readOffset := tailSector * sectorSize;
      readIterStart := true;
      cursor := Position(0, 0, tailSector);
    }

    // Programming adds a block to the log
    method ProgramNext(b: Block, ghost t: nat, ghost r: seq<seq<Block>>, ghost fit: nat)
      requires Geometry() && t < numSectors && |r| <= numSectors && Holds(t, r)
      requires Extended(r, t, b, numSectors, fit) && PlaceFor(r, b.Size(), fit) + b.Size() <= sectorSize
      requires headOffset == Base(SectorFor(r, t, b.Size(), numSectors, fit), sectorSize) + PlaceFor(r, b.Size(), fit)
      modifies flash
      ensures Holds(t, Place(r, b, fit))
    {
      ghost var sector, o := SectorFor(r, t, b.Size(), numSectors, fit), PlaceFor(r, b.Size(), fit);
      ProgramBlock(headOffset, b, sector, o);
      forall x: nat, i: nat | x < numSectors && i < sectorSize
        ensures flash[x, i] == CellAt(BlocksOf(Place(r, b, fit), t, x, numSectors), i)
      {
        assert Programmed(r, t, b, numSectors, fit, x, i);
      }
    }

    // The program step of a write: the block goes behind the last one of the head sector, or starts a new one
    method ProgramHead(b: Block, ghost g: bool, ghost fit: nat) returns (ghost sector: nat, ghost o: nat)
      requires Stored(tailSector, ring, g) && b.generation == generation && b.Size() <= sectorSize
      requires Ready(b.Size(), g, fit)
      modifies this`ring, flash
      ensures Stored(tailSector, ring, generation) && ring == Place(old(ring), b, fit) && NewestAt(b, sector, o)
      ensures headOffset == Base(sector, sectorSize) + o
      ensures HeadLeaves(old(ring), tailSector, b, numSectors, sectorSize, fit)
              <==> sector + (if o + b.Size() == sectorSize then 1 else 0) != tailSector
    {
      sector := SectorFor(ring, tailSector, b.Size(), numSectors, fit);
      o := PlaceFor(ring, b.Size(), fit);
      Placed(ring, tailSector, g, generation, b, numSectors, sectorSize, fit);
      PlaceExtends(ring, tailSector, b, numSectors, fit);
      HeadAfter(ring, tailSector, b, numSectors, fit);
      ProgramNext(b, tailSector, ring, fit);
      ring := Place(ring, b, fit);
    }

    // The newest block is at the end of this sector
    ghost predicate NewestAt(b: Block, sector: nat, o: nat)
      reads `ring, `tailSector
    {
      && tailSector < numSectors && ring != [] && ring[|ring| - 1] != []
      && ring[|ring| - 1][|ring[|ring| - 1]| - 1] == b && Used(ring[|ring| - 1]) == o + b.Size()
      && HeadSector(tailSector, |ring|, numSectors) == sector && sector < numSectors && o + b.Size() <= sectorSize
    }

    // What a completed program leaves to note: the newest block, and that the tail sector is behind
    method NoteBlock(b: Block, ghost sector: nat, ghost o: nat)
      requires Geometry() && sector < numSectors && headOffset == Base(sector, sectorSize) + o
      requires o + b.Size() <= sectorSize
      modifies this`headOffset, this`latestOffset, this`tailFilled
      ensures latestOffset == old(headOffset) && headOffset == Base(sector, sectorSize) + (o + b.Size())
      ensures tailFilled ==
              (old(tailFilled) || sector + (if o + b.Size() == sectorSize then 1 else 0) != tailSector)
    {
      Locate(sector, o + b.Size(), sectorSize);
      latestOffset := headOffset;
      headOffset := headOffset + b.Size();
      if headOffset / sectorSize != tailSector {
        tailFilled := true;
      }
    }

    // The second half of a write
    method Commit(b: Block, ghost g: bool, ghost fit: nat)
      requires Stored(tailSector, ring, g) && b.generation == generation && b.Size() <= sectorSize
      requires Ready(b.Size(), g, fit)
      modifies this`headOffset, this`latestOffset, this`tailFilled, this`ring, flash
      ensures Stored(tailSector, ring, generation) && ring == Place(old(ring), b, fit) && HeadPlaced()
      ensures tailFilled == (old(tailFilled) || HeadLeaves(old(ring), tailSector, b, numSectors, sectorSize, fit))
    {
      ghost var sector, o := ProgramHead(b, g, fit);
      NoteNewest(b, sector, o);
    }

    method NoteNewest(b: Block, ghost sector: nat, ghost o: nat)
      requires Stored(tailSector, ring, generation) && NewestAt(b, sector, o)
      requires headOffset == Base(sector, sectorSize) + o
      modifies this`headOffset, this`latestOffset, this`tailFilled
      ensures Stored(tailSector, ring, generation) && HeadPlaced()
      ensures tailFilled ==
              (old(tailFilled) || sector + (if o + b.Size() == sectorSize then 1 else 0) != tailSector)
    {
      NoteBlock(b, sector, o);
      HeadNoted(b, sector, o);
    }

    lemma HeadNoted(b: Block, sector: nat, o: nat)
      requires NewestAt(b, sector, o) && latestOffset == Base(sector, sectorSize) + o
      requires headOffset == Base(sector, sectorSize) + (o + b.Size())
      ensures HeadPlaced()
    {
    }

    // What the program of a prepared write will leave of the guard of the tail
    ghost predicate WillGuard(b: Block, guarded: bool, fit: nat)
      requires tailSector < numSectors && |ring| <= numSectors
      reads `ring, `tailSector, `tailFilled
    {
      && guarded == Guards(tailFilled || HeadLeaves(ring, tailSector, b, numSectors, sectorSize, fit),
                           Place(ring, b, fit), sectorSize)
      && (!guarded ==>
            && numSectors == 2 && tailSector == 1 && !tailFilled
            && !HeadLeaves(ring, tailSector, b, numSectors, sectorSize, fit)
            && |ring| == 1 && Place(ring, b, fit) == ring + [[b]] && Used([b]) == sectorSize)
    }

    // The program of a prepared write
    method FinishWrite(b: Block, ghost g: bool, ghost guarded: bool, ghost fit: nat)
      requires Stored(tailSector, ring, g) && b.generation == generation && b.Size() <= sectorSize
      requires Ready(b.Size(), g, fit) && WillGuard(b, guarded, fit)
      modifies this`headOffset, this`latestOffset, this`tailFilled, this`ring, flash
      ensures ring == Place(old(ring), b, fit) && TailGuarded() == guarded && Between()
    {
      Commit(b, g, fit);
    }

    // What a write leaves of the guard
    lemma {:induction false} GuardKnown(b: Block)
      requires Valid() && 0 < b.Size() <= sectorSize
      ensures var r := EraseOnly(ring, b.Size(), numSectors, sectorSize);
              var t := if |r| < |ring| then Ring(tailSector, 1, numSectors) else tailSector;
              && Guards(tailFilled || HeadLeaves(r, t, b, numSectors, sectorSize), Place(r, b, sectorSize), sectorSize)
                 == !Unguarded(tailSector, tailFilled, b, numSectors, sectorSize)
              && (Unguarded(tailSector, tailFilled, b, numSectors, sectorSize) ==>
                    && r == ring && t == 1 && !HeadLeaves(r, t, b, numSectors, sectorSize)
                    && |r| == 1 && Place(r, b, sectorSize) == r + [[b]] && Used([b]) == sectorSize)
    {
      var r := EraseOnly(ring, b.Size(), numSectors, sectorSize);
      var t := if |r| < |ring| then Ring(tailSector, 1, numSectors) else tailSector;
      GuardsAfter(ring, tailSector, tailFilled, b, numSectors, sectorSize, r, t);
      if Unguarded(tailSector, tailFilled, b, numSectors, sectorSize) {
        ExposedAfter(ring, tailSector, tailFilled, b, numSectors, sectorSize);
      }
    }

    // A completed write to a guarded log
    twostate predicate Wrote(b: Block)
      reads this, flash
    {
      && Between() && ring == Append(old(ring), b, numSectors, sectorSize) && old(tailSector) < numSectors
      && (TailGuarded() <==> !Unguarded(old(tailSector), old(tailFilled), b, numSectors, sectorSize))
      && b.generation == (old(generation) != Wraps(old(ring), old(tailSector), b.Size(), numSectors, sectorSize))
      && tailSector == (if |EraseOnly(old(ring), b.Size(), numSectors, sectorSize)| < |old(ring)|
                        then Ring(old(tailSector), 1, numSectors) else old(tailSector))
    }

    /** logdb_write_block. `programs` is whether the flash accepts the program; if not, what remains in flash is the
        state after the erase. */
    method WriteBlock(kind: nat, data: seq<bv8>, programs: bool) returns (ok: bool)
      requires Valid()
      modifies this`headOffset, this`latestOffset, this`tailSector, this`generation, this`tailFilled
      modifies this`readOffset, this`readIterStart, this`cursor, this`ring, flash
      ensures HEADER_SIZE + |data| > sectorSize ==> !ok && Valid() && ring == old(ring)
      ensures HEADER_SIZE + |data| <= sectorSize ==> ok == programs
      ensures !ok && HEADER_SIZE + |data| <= sectorSize ==>
                Prepared(HEADER_SIZE + |data|) && Moved(HEADER_SIZE + |data|)
      ensures ok ==> Wrote(Block(kind, generation, data))
    {
      var len := HEADER_SIZE + |data|;
      if len > sectorSize {
        return false;
      }
      ghost var b := Block(kind, generation != Wraps(ring, tailSector, len, numSectors, sectorSize), data);
      GuardKnown(b);
      ghost var g, guarded := generation, !Unguarded(tailSector, tailFilled, b, numSectors, sectorSize);
      PrepGuarded(len);
      if !programs {
        return false;
      }
      FinishWrite(Block(kind, generation, data), g, guarded, sectorSize);
      return true;
    }

    /** What a refused program leaves: the log as it was when the block would have gone behind the newest one, otherwise
        one that is waiting. */
    twostate lemma RefusedIs(len: nat)
      requires old(Valid()) && 0 < len <= sectorSize && Prepared(len) && Moved(len)
      ensures if old(ring) == [] || Fits(old(ring), len, sectorSize) then Valid() else Waiting()
    {
      EraseThenPlace(old(ring), old(tailSector), len, numSectors, sectorSize);
    }

    // A completed write to a log that was waiting: the block is in the new sector
    twostate predicate WroteOn(b: Block)
      reads this, flash
    {
      && Between() && ring == old(ring) + [[b]] && tailSector == old(tailSector) && b.generation == old(generation)
      && (TailGuarded() <==> !Unguarded(old(tailSector), old(tailFilled), b, numSectors, sectorSize))
    }

    /** logdb_write_block once more, on a log that is waiting: the block goes into the new sector, also when it would
        have fitted behind the newest one. */
    method WriteWaiting(kind: nat, data: seq<bv8>, programs: bool) returns (ok: bool)
      requires Waiting() && !Valid()
      modifies this`headOffset, this`latestOffset, this`tailSector, this`generation, this`tailFilled
      modifies this`readOffset, this`readIterStart, this`cursor, this`ring, flash
      ensures ok <==> HEADER_SIZE + |data| <= sectorSize && programs
      ensures !ok ==> Waiting() && ring == old(ring) && tailSector == old(tailSector) && generation == old(generation)
      ensures ok ==> WroteOn(Block(kind, generation, data))
    {
      var len := HEADER_SIZE + |data|;
      if len > sectorSize {
        return false;
      }
      ghost var b, g := Block(kind, generation, data), StoredGeneration();
      ghost var guarded := !Unguarded(tailSector, tailFilled, b, numSectors, sectorSize);
      GuardsInNew(ring, tailSector, tailFilled, b, numSectors, sectorSize);
      WaitingIsNotInPlace();
      PrepForWrite(len);
      if !programs {
        return false;
      }
      FinishWrite(Block(kind, generation, data), g, guarded, 0);
      return true;
    }

    // ---- Formatting and mounting ----

    // logdb__verify_empty
    method VerifyEmpty(offset: nat, len: nat, ghost sector: nat, ghost o: nat) returns (empty: bool)
      requires Geometry() && sector < numSectors && o + len <= sectorSize && offset == Base(sector, sectorSize) + o
      ensures empty <==> forall i: nat | o <= i < o + len :: flash[sector, i] == Erased
    {
      var i: nat := 0;
      while i < len
        invariant i <= len && forall k: nat | o <= k < o + i :: flash[sector, k] == Erased
      {
        var cell := ReadHeader(offset + i, sector, o + i);
        if cell != Erased {
          return false;
        }
        i := i + 1;
      }
      return true;
    }

    /** logdb_format */
    method Format()
      requires Geometry()
      modifies this, flash
      ensures Valid() && ring == [] && !generation
      ensures readOffset == 0 && readIterStart && cursor == Position(0, 0, 0)
    {
      var i: nat := 0;
      while i < numSectors
        invariant i <= numSectors && Geometry()
        invariant forall s: nat, o: nat | s < i && o < sectorSize :: flash[s, o] == Erased
      {
        BaseIsProduct(i, sectorSize);
        var empty := VerifyEmpty(i * sectorSize, sectorSize, i, 0);
        if !empty {
          EraseSector(i * sectorSize, i);
        }
        i := i + 1;
      }
      latestOffset, headOffset, tailSector := 0, 0, 0;
      generation, tailFilled := false, false;
      ring := [];
      ReadInit();
    }

    // The first byte of a sector says whether the sector is used, and in which generation
    lemma {:induction false} FirstCell(t: nat, r: seq<seq<Block>>, g: bool, x: nat)
      requires Stored(t, r, g) && x < numSectors
      ensures var j := Rel(t, x, numSectors);
              flash[x, 0] == if j < |r| then Start(r[j][0]) else Erased
      ensures var j := Rel(t, x, numSectors);
              j < |r| ==> r[j] != [] && r[j][0].generation == ((x <= HeadSector(t, |r|, numSectors)) == g)
    {
      var j := Rel(t, x, numSectors);
      if j < |r| {
        BlockStarts(r[j], 0);
        assert r[j][..0] == [];
        assert Ring(t, j, numSectors) == x;
      }
    }

    // The lowest used sector: the tail, or sector 0 when the log has wrapped
    function LowestUsed(t: nat, m: nat): nat { if t + m > numSectors then 0 else t }

    method FindUsed(ghost t: nat, ghost r: seq<seq<Block>>, ghost g: bool) returns (first: nat, newest: bool)
      requires Stored(t, r, g)
      ensures r == [] ==> first == numSectors
      ensures r != [] ==> first == LowestUsed(t, |r|) && newest == g
    {
      first, newest := numSectors, false;
      var i: nat := 0;
      while i < numSectors
        invariant i <= numSectors && first == numSectors
        invariant forall x: nat | x < i :: Rel(t, x, numSectors) >= |r|
      {
        BaseIsProduct(i, sectorSize);
        var header := ReadHeader(i * sectorSize, i, 0);
        FirstCell(t, r, g, i);
        if header.Start? {
          first, newest := i, header.block.generation;
          break;
        }
        i := i + 1;
      }
      assert r != [] ==> Rel(t, LowestUsed(t, |r|), numSectors) < |r|;
    }

    // Find wrap point
    method FindWrap(first: nat, ghost t: nat, ghost r: seq<seq<Block>>, ghost g: bool) returns (head: nat, tail: nat)
      requires Stored(t, r, g) && r != [] && first == LowestUsed(t, |r|) && generation == g
      ensures head == HeadSector(t, |r|, numSectors) && tail == t
    {
      head, tail := first, first;
      ghost var last := HeadSector(t, |r|, numSectors);
      var i := first + 1;
      while i < numSectors
        invariant first < i <= numSectors && tail == first
        invariant t + |r| > numSectors ==> i <= t
        invariant head == if i <= last then i - 1 else last
      {
        BaseIsProduct(i, sectorSize);
        var header := ReadHeader(i * sectorSize, i, 0);
        FirstCell(t, r, g, i);
        if header.Start? {
          if header.block.generation != generation {
            tail := i;
            break;
          } else {
            head := i;
          }
        }
        i := i + 1;
      }
    }

    // Scan through head sector to find last block
    method FindHead(head: nat, ghost bs: seq<Block>) returns (offset: nat, blockLen: nat)
      requires Geometry() && head < numSectors && bs != [] && Used(bs) <= sectorSize
      requires forall o: nat | o < sectorSize :: flash[head, o] == CellAt(bs, o)
      ensures offset == Base(head, sectorSize) + Used(bs) && blockLen == bs[|bs| - 1].Size()
    {
      BaseIsProduct(head, sectorSize);
      offset := head * sectorSize;
      blockLen := 0;
      ghost var i: nat := 0;
      var header := ReadHeader(offset, head, 0);
      assert bs[..0] == [];
      while header.Start?
        invariant i <= |bs| && offset == Base(head, sectorSize) + Used(bs[..i]) && Used(bs[..i]) < sectorSize
        invariant header == CellAt(bs, Used(bs[..i])) && (i > 0 ==> blockLen == bs[i - 1].Size())
        decreases |bs| - i
      {
        ScanStep(bs, i);
        blockLen := header.block.Size();
        offset := offset + blockLen;
        i := i + 1;
        Locate(head, Used(bs[..i]), sectorSize);
        if offset / sectorSize > head {
          break;
        }
        header := ReadHeader(offset, head, Used(bs[..i]));
      }
      ScanEnds(bs, i, sectorSize);
    }

    lemma {:induction false} HeadCells(t: nat, r: seq<seq<Block>>, g: bool)
      requires Stored(t, r, g) && r != []
      ensures forall o: nat | o < sectorSize :: flash[HeadSector(t, |r|, numSectors), o] == CellAt(r[|r| - 1], o)
    {
      assert BlocksOf(r, t, HeadSector(t, |r|, numSectors), numSectors) == r[|r| - 1];
    }

    // The head is behind the last block, and the remainder of the sector is unprogrammed
    method ScanHead(head: nat, ghost bs: seq<Block>) returns (ok: bool)
      requires Geometry() && head < numSectors && bs != [] && Used(bs) <= sectorSize
      requires forall o: nat | o < sectorSize :: flash[head, o] == CellAt(bs, o)
      modifies this`headOffset, this`latestOffset
      ensures ok && headOffset == Base(head, sectorSize) + Used(bs)
      ensures headOffset == latestOffset + bs[|bs| - 1].Size()
    {
      var blockLen;
      headOffset, blockLen := FindHead(head, bs);
      UsedGrows(bs, |bs| - 1);
      latestOffset := headOffset - blockLen;
      BaseIsProduct(head + 1, sectorSize);
      forall i: nat | Used(bs) <= i ensures CellAt(bs, i) == Erased {
        BehindIsErased(bs, i);
      }
      ok := VerifyEmpty(headOffset, (head + 1) * sectorSize - headOffset, head, Used(bs));
    }

    // The mount of a log with a block in it; first is the lowest used sector
    method MountFound(first: nat, newest: bool, ghost t: nat, ghost r: seq<seq<Block>>,
                      ghost g: bool) returns (ok: bool)
      requires Stored(t, r, g) && !tailFilled && r != [] && first == LowestUsed(t, |r|) && newest == g
      modifies this
      ensures ok && ring == r && tailSector == t && generation == g && tailFilled == (|r| >= 2)
      ensures HeadPlaced() && readOffset == Base(t, sectorSize) && readIterStart && cursor == Position(0, 0, t)
    {
      HeadCells(t, r, g);
      generation := newest;
      var head;
      head, tailSector := FindWrap(first, t, r, g);
      if head != tailSector {
        tailFilled := true;
      }
      ring := r;
      ReadInit();
      ok := ScanHead(head, r[|r| - 1]);
    }

    /** logdb_mount */
    method Mount(ghost t: nat, ghost r: seq<seq<Block>>, ghost g: bool) returns (ok: bool)
      requires Stored(t, r, g) && !tailFilled
      modifies this, flash
      ensures ok && Valid() && ring == r
      ensures r != [] ==> tailSector == t && generation == g && tailFilled == (|r| >= 2)
      ensures readOffset == Base(tailSector, sectorSize) && readIterStart && cursor == Position(0, 0, tailSector)
    {
      var first, newest := FindUsed(t, r, g);
      if first == numSectors {
        Format();
        ok := true;
      } else {
        ok := MountFound(first, newest, t, r, g);
      }
    }

    // ---- Reading ----

    // The iterator points to cursor; only the start of an iteration is at the tail with readIterStart set
    ghost predicate Reading()
      reads `ring, `tailSector, `readOffset, `readIterStart, `cursor
    {
      && At(readOffset, cursor, ring, tailSector, numSectors, sectorSize)
      && (cursor.j < |ring| && cursor.j == 0 && cursor.i == 0 ==> readIterStart)
      && (cursor.j >= |ring| && cursor.x == tailSector && ring != [] ==> !readIterStart)
    }

    // The blocks still to be delivered
    ghost function Left(): seq<Block>
      reads `ring, `cursor
    {
      From(cursor, ring)
    }

    ghost predicate HeadMeetsTail()
      reads `ring, `tailSector
    {
      Meets(ring, tailSector, numSectors, sectorSize)
    }

    ghost predicate StopsShort()
      reads `ring, `tailSector, `cursor
    {
      HeadMeetsTail() && cursor.j == 0 && cursor.i == |ring[0]|
    }

    // What the next header read sees
    lemma {:induction false} CellAtCursor()
      requires Stored(tailSector, ring, generation)
      requires At(readOffset, cursor, ring, tailSector, numSectors, sectorSize)
      ensures cursor.j < |ring| ==>
                flash[cursor.x, OffsetIn(cursor, ring)]
                == if cursor.i < |ring[cursor.j]| then Start(ring[cursor.j][cursor.i]) else Erased
      ensures Rel(tailSector, cursor.x, numSectors) >= |ring| ==>
                cursor.j >= |ring| && flash[cursor.x, OffsetIn(cursor, ring)] == Erased
    {
      if cursor.j < |ring| {
        var bs := ring[cursor.j];
        assert BlocksOf(ring, tailSector, cursor.x, numSectors) == bs;
        if cursor.i < |bs| {
          BlockStarts(bs, cursor.i);
        } else {
          assert bs[..cursor.i] == bs;
          BehindIsErased(bs, Used(bs));
        }
      }
    }

    method ReadAtCursor() returns (cell: Cell)
      requires Stored(tailSector, ring, generation)
      requires At(readOffset, cursor, ring, tailSector, numSectors, sectorSize)
      ensures cell.Start? ==> StartsAt(readOffset, cell.block)
      ensures cursor.j < |ring| ==>
                cell == if cursor.i < |ring[cursor.j]| then Start(ring[cursor.j][cursor.i]) else Erased
      ensures Rel(tailSector, cursor.x, numSectors) >= |ring| ==> cursor.j >= |ring| && cell == Erased
    {
      CellAtCursor();
      cell := ReadHeader(readOffset, cursor.x, OffsetIn(cursor, ring));
    }

    // The iterator passes a block
    method PassBlock(b: Block)
      requires Geometry() && Shaped(ring, numSectors, sectorSize)
      requires At(readOffset, cursor, ring, tailSector, numSectors, sectorSize) && !readIterStart
      requires AtBlock(cursor, ring) && b == ring[cursor.j][cursor.i]
      modifies this`readOffset, this`cursor
      ensures Settled(cursor, ring, sectorSize)
      ensures Reading() && old(Left()) == [b] + Left()
    {
      PassedBlock(readOffset, cursor, ring, tailSector, numSectors, sectorSize);
      PassedFrom(cursor, ring, numSectors, sectorSize);
      BehindIsSettled(cursor, ring, numSectors, sectorSize);
      BaseIsProduct(numSectors, sectorSize);
      cursor := Behind(cursor, ring, numSectors, sectorSize);
      readOffset := readOffset + b.Size();
      if readOffset >= numSectors * sectorSize {
        readOffset := 0;
      }
    }

    // The sector the head offset is in, as the iterator computes it
    lemma {:induction false} HeadOffsetSector()
      requires Geometry() && Shaped(ring, numSectors, sectorSize) && tailSector < numSectors && HeadPlaced()
      ensures ring == [] ==> headOffset / sectorSize == 0
      ensures ring != [] ==>
                headOffset / sectorSize == HeadSector(tailSector, |ring|, numSectors)
                                           + (if Used(ring[|ring| - 1]) == sectorSize then 1 else 0)
    {
      if ring == [] {
        Locate(0, 0, sectorSize);
      } else {
        Locate(HeadSector(tailSector, |ring|, numSectors), Used(ring[|ring| - 1]), sectorSize);
      }
    }

    // At a gap, the iterator takes the sector for the head sector
    method AtHeadSector() returns (yes: bool)
      requires Geometry() && Shaped(ring, numSectors, sectorSize) && HeadPlaced()
      requires At(readOffset, cursor, ring, tailSector, numSectors, sectorSize)
      requires AtGap(cursor, ring, tailSector, numSectors)
      ensures yes ==> Left() == [] || StopsShort()
      ensures !yes ==> ring != [] && !StopsShort() && (cursor.j < |ring| ==> cursor.j + 1 < |ring|)
    {
      Locate(cursor.x, OffsetIn(cursor, ring), sectorSize);
      HeadOffsetSector();
      var headSector, readSector := headOffset / sectorSize, readOffset / sectorSize;
      yes := readSector == headSector;
      if cursor.j < |ring| {
        assert ring[cursor.j][..cursor.i] == ring[cursor.j];
      }
    }

    // To the start of the next sector
    method SkipSector()
      requires Geometry() && Shaped(ring, numSectors, sectorSize)
      requires At(readOffset, cursor, ring, tailSector, numSectors, sectorSize) && !readIterStart
      requires ring != [] && AtGap(cursor, ring, tailSector, numSectors)
      modifies this`readOffset, this`cursor
      ensures Reading() && Left() == old(Left()) && !StopsShort()
      ensures Ahead(cursor, tailSector, |ring|, numSectors) < old(Ahead(cursor, tailSector, |ring|, numSectors))
    {
      SkippedTo(readOffset, cursor, ring, tailSector, numSectors, sectorSize);
      GapSkipped(cursor, ring, tailSector, numSectors, sectorSize);
      cursor := NextStart(cursor, ring, numSectors);
      var readSector := (readOffset / sectorSize + 1) % numSectors;
      readOffset := readSector * sectorSize;
    }

    ghost predicate StartsAt(offset: nat, b: Block)
      reads flash
    {
      Geometry() && exists s: nat, o: nat | s < numSectors && o < sectorSize ::
                      offset == Base(s, sectorSize) + o && flash[s, o] == Start(b)
    }

    // One turn of the iterator: a block, the end, or on to the next sector
    method ReadTurn() returns (cell: Cell, end: bool)
      requires Stored(tailSector, ring, generation) && HeadPlaced()
      requires Reading() && (readOffset != Base(tailSector, sectorSize) || readIterStart)
      modifies this`readOffset, this`readIterStart, this`cursor
      ensures Reading()
      ensures cell.Start? ==> Settled(cursor, ring, sectorSize)
      ensures cell.Start? ==> old(Left()) == [cell.block] + Left() && StartsAt(old(readOffset), cell.block)
      ensures !cell.Start? ==> Left() == old(Left())
      ensures !cell.Start? && end ==> Left() == [] || old(StopsShort())
      ensures cell.Start? || !end ==> !old(StopsShort())
      ensures !cell.Start? && !end ==>
                && !StopsShort()
                && Ahead(cursor, tailSector, |ring|, numSectors) < old(Ahead(cursor, tailSector, |ring|, numSectors))
    {
      end := false;
      readIterStart := false;
      cell := ReadAtCursor();
      if cell.Start? {
        PassBlock(cell.block);
      } else {
        end := AtHeadSector();
        if !end {
          SkipSector();
        }
      }
    }

    /** logdb_read_next_header: the next block in the order of writing. */
    method ReadNextHeader() returns (header: Option<Block>, blockStart: nat)
      requires Stored(tailSector, ring, generation) && HeadPlaced() && Reading()
      modifies this`readOffset, this`readIterStart, this`cursor
      ensures Reading()
      ensures header.Some? ==> Settled(cursor, ring, sectorSize)
      ensures old(Left()) == [] || old(StopsShort()) ==> header == None && Left() == old(Left())
      ensures old(Left()) != [] && !old(StopsShort()) ==>
                header.Some? && old(Left()) == [header.value] + Left() && StartsAt(blockStart, header.value)
    {
      ghost var left, stops := Left(), StopsShort();
      blockStart := 0;
      BaseIsProduct(tailSector, sectorSize);
      while readOffset != tailSector * sectorSize || readIterStart
        invariant Reading() && Left() == left && StopsShort() == stops
        decreases Ahead(cursor, tailSector, |ring|, numSectors), readIterStart
      {
        blockStart := readOffset;
        var cell, end := ReadTurn();
        if cell.Start? {
          return Some(cell.block), blockStart;
        }
        if end {
          return None, blockStart;
        }
      }
      EndAtTail(readOffset, cursor, ring, tailSector, numSectors, sectorSize);
      return None, blockStart;
    }

    // What an iteration delivers: the blocks of the tail sector only, when the head has just met the tail and
    // the tail sector has a byte to spare
    ghost function Delivers(): seq<Block>
      reads `ring, `tailSector
    {
      Iterated(ring, tailSector, numSectors, sectorSize)
    }

    // So much is delivered and the iterator points behind it
    ghost predicate DeliveredSoFar(all: seq<Block>)
      reads `ring, `tailSector, `readOffset, `readIterStart, `cursor
    {
      && Reading() && Settled(cursor, ring, sectorSize) && Flatten(ring) == all + Left()
      && (HeadMeetsTail() && Used(ring[0]) < sectorSize ==> |all| <= |ring[0]|)
    }

    method StartReading()
      requires Stored(tailSector, ring, generation)
      modifies this`readOffset, this`readIterStart, this`cursor
      ensures DeliveredSoFar([])
    {
      FromStart(ring, tailSector);
      ReadInit();
    }

    method DeliverNext(ghost all: seq<Block>) returns (header: Option<Block>, blockStart: nat)
      requires Stored(tailSector, ring, generation) && HeadPlaced() && DeliveredSoFar(all)
      modifies this`readOffset, this`readIterStart, this`cursor
      ensures header.Some? ==> StartsAt(blockStart, header.value)
      ensures header.None? ==> all == Delivers()
      ensures header.Some? ==> DeliveredSoFar(all + [header.value]) && |Left()| < old(|Left()|)
    {
      Delivery(cursor, ring, all, sectorSize, HeadMeetsTail());
      ghost var left := Left();
      header, blockStart := ReadNextHeader();
      if header.Some? {
        OneMore(all, header.value, left, Left());
      }
    }

    // The iterator changes nothing of the log
    twostate lemma ReadingKeeps()
      requires old(Valid()) && unchanged(flash)
      requires unchanged(`ring) && unchanged(`headOffset) && unchanged(`latestOffset)
      requires unchanged(`tailSector) && unchanged(`generation) && unchanged(`tailFilled)
      ensures Valid()
    {
    }

    // Reading is under way, or it is over and this is all
    ghost predicate Progress(all: seq<Block>, more: bool)
      reads `ring, `headOffset, `latestOffset, `tailSector, `tailFilled, `generation, flash
      reads `readOffset, `readIterStart, `cursor
    {
      Valid() && if more then DeliveredSoFar(all) else all == Delivers()
    }

    method ReadMore(before: seq<Block>) returns (all: seq<Block>, more: bool)
      requires Progress(before, true)
      modifies this`readOffset, this`readIterStart, this`cursor
      ensures Progress(all, more) && (more ==> |Left()| < old(|Left()|))
    {
      var header, _ := DeliverNext(before);
      ReadingKeeps();
      more := header.Some?;
      all := if more then before + [header.value] else before;
    }

    /** A whole iteration. It delivers the log in the order of writing, unless the head has just met the tail:
        then it ends with the blocks of the tail sector, when that sector has a byte to spare. */
    method ReadAllHeaders() returns (all: seq<Block>)
      requires Valid()
      modifies this`readOffset, this`readIterStart, this`cursor
      ensures all == Iterated(ring, tailSector, numSectors, sectorSize)
    {
      StartReading();
      ReadingKeeps();
      all := [];
      var more := true;
      while more
        invariant Progress(all, more)
        decreases more, |Left()|
      {
        all, more := ReadMore(all);
      }
    }

    // An offset within the flash
    ghost predicate Within(offset: nat) { exists s: nat, o: nat :: IsAt(offset, s, o) }

    predicate IsAt(offset: nat, s: nat, o: nat) {
      s < numSectors && o < sectorSize && offset == Base(s, sectorSize) + o
    }

    // What is there
    ghost predicate ReadsAs(offset: nat, cell: Cell)
      requires Geometry()
      reads flash
    {
      forall s: nat, o: nat | IsAt(offset, s, o) :: flash[s, o] == cell
    }

    /** logdb_read_raw of a block header, wherever it is read from */
    method ReadRaw(offset: nat) returns (cell: Cell)
      requires Geometry() && Within(offset)
      ensures ReadsAs(offset, cell)
      ensures forall b: Block | StartsAt(offset, b) :: cell == Start(b)
    {
      ghost var s: nat, o: nat :| IsAt(offset, s, o);
      cell := ReadHeader(offset, s, o);
      forall s': nat, o': nat | IsAt(offset, s', o')
        ensures flash[s', o'] == cell
      {
        Locate(s, o, sectorSize);
        Locate(s', o', sectorSize);
      }
    }

    // The newest block is in the head sector, at latest_offset
    lemma {:induction false} NewestStarts()
      requires Stored(tailSector, ring, generation) && HeadPlaced() && ring != []
      ensures var bs := ring[|ring| - 1];
              var head, o := HeadSector(tailSector, |ring|, numSectors), Used(bs[..|bs| - 1]);
              && bs != [] && 0 <= head < numSectors && o < sectorSize && latestOffset == Base(head, sectorSize) + o
              && flash[head, o] == Start(bs[|bs| - 1]) && StartsAt(latestOffset, bs[|bs| - 1])
    {
      HeadCells(tailSector, ring, generation);
      LastStarts(ring[|ring| - 1]);
    }

    /** logdb_read_last */
    method ReadLast() returns (block: Option<Block>)
      requires Stored(tailSector, ring, generation) && HeadPlaced()
      ensures ring == [] ==> block == None
      ensures ring != [] ==> var bs := ring[|ring| - 1]; bs != [] && block == Some(bs[|bs| - 1])
    {
      ghost var bs := if ring == [] then [] else ring[|ring| - 1];
      ghost var head := HeadSector(tailSector, |ring|, numSectors);
      ghost var o := if ring == [] then 0 else Used(bs[..|bs| - 1]);
      if ring != [] {
        NewestStarts();
      }
      var cell := ReadHeader(latestOffset, head, o);
      block := if cell.Start? then Some(cell.block) else None;
    }
  }

  /** A restart from the flash of a log, at any time: after a write, or after a power failure between the erase
      and the program of one. The new instance takes over where the old one was. */
  method Restart(db: LogDb, ghost g: bool) returns (again: LogDb)
    requires db.Stored(db.tailSector, db.ring, g)
    modifies db.flash
    ensures fresh(again) && again.flash == db.flash && again.Valid() && again.ring == db.ring
    ensures again.numSectors == db.numSectors && again.sectorSize == db.sectorSize
    ensures db.ring != [] ==> again.tailSector == db.tailSector && again.generation == g
    ensures db.ring != [] ==> again.tailFilled == (|db.ring| >= 2)
    ensures db.ring != [] && db.HeadPlaced() ==>
              again.headOffset == db.headOffset && again.latestOffset == db.latestOffset
  {
    again := new LogDb(db.sectorSize, db.numSectors, db.flash);
    var ok := again.Mount(db.tailSector, db.ring, g);
  }

  // ---- Runs ----

  /** What a program asks of the log: a write, which may be cut off before its program by a power failure, and a
      restart. A write that was cut off is followed by a restart as well. */
  datatype Request = Write(kind: nat, data: seq<bv8>, programs: bool) | Remount {
    function Len(): nat { if Write? then HEADER_SIZE + |data| else 0 }
  }

  // The writes among the requests are these events; the generation of their blocks is up to the log
  ghost predicate Logged(requests: seq<Request>, events: seq<Event>) {
    if requests == [] then events == []
    else match requests[|requests| - 1]
      case Remount => Logged(requests[..|requests| - 1], events)
      case Write(kind, data, programs) =>
        && events != [] && IsEventOf(events[|events| - 1], kind, data, programs)
        && Logged(requests[..|requests| - 1], events[..|events| - 1])
  }

  predicate IsEventOf(e: Event, kind: nat, data: seq<bv8>, programs: bool) {
    e.block.kind == kind && e.block.data == data && e.programs == programs
  }

  // One request to a log that is guarded or is to be restarted
  method Turn(db: LogDb, r: Request) returns (again: LogDb, exposed: bool, ghost es: seq<Event>)
    requires db.Between() && (db.TailGuarded() || r.Remount?)
    modifies db, db.flash
    ensures (again == db || fresh(again)) && again.flash == db.flash && again.Between()
    ensures again.numSectors == db.numSectors && again.sectorSize == db.sectorSize
    ensures r.Remount? ==> es == [] && again.ring == old(db.ring) && again.TailGuarded()
    ensures r.Write? ==> |es| == 1 && IsEventOf(es[0], r.kind, r.data, r.programs)
    ensures r.Write? ==> again.ring == Step(old(db.ring), es[0], db.numSectors, db.sectorSize)
    ensures exposed <==> !again.TailGuarded()
    ensures exposed <==>
              && r.Write? && r.programs && r.Len() <= db.sectorSize
              && Unguarded(old(db.tailSector), old(db.tailFilled), es[0].block, db.numSectors, db.sectorSize)
  {
    match r
    case Remount =>
      again := Restart(db, db.generation);
      es := [];
      exposed := false;
    case Write(kind, data, programs) =>
      ghost var g := db.generation;
      exposed := programs && r.Len() == db.sectorSize && db.numSectors == 2 && db.tailSector == 1 && !db.tailFilled;
      var ok := db.WriteBlock(kind, data, programs);
      es := [Event(Block(kind, db.generation, data), programs)];
      again := db;
      if !ok && r.Len() <= db.sectorSize {
        again := Restart(db, g);
      }
  }

  // One more request, in the log and in the run
  lemma {:induction false} LoggedOneMore(requests: seq<Request>, i: nat, events: seq<Event>, es: seq<Event>,
                                         s: nat, size: nat)
    requires i < |requests| && Logged(requests[..i], events)
    requires requests[i].Remount? ==> es == []
    requires requests[i].Write? ==>
              |es| == 1 && IsEventOf(es[0], requests[i].kind, requests[i].data, requests[i].programs)
    ensures Logged(requests[..i + 1], events + es)
    ensures Run(events + es, s, size)
            == if es == [] then Run(events, s, size) else Step(Run(events, s, size), es[0], s, size)
  {
    assert requests[..i + 1][..i] == requests[..i];
    if es == [] {
      assert events + es == events;
    } else {
      assert (events + es)[..|events|] == events;
    }
  }

  /** Requests to a formatted log, one after the other. The log is what Run says, so it retains the newest blocks, up to
      a write that is to follow one that left the tail unguarded, without a restart in between. With three sectors or
      more there is no such write. */
  method Execute(db: LogDb, requests: seq<Request>) returns (again: LogDb, n: nat, ghost events: seq<Event>)
    requires db.Valid() && db.ring == []
    modifies db, db.flash
    ensures n <= |requests| && Logged(requests[..n], events)
    ensures again.Between() && again.numSectors == db.numSectors && again.sectorSize == db.sectorSize
    ensures again.ring == Run(events, db.numSectors, db.sectorSize)
    ensures RetainsTheEnd(again.ring, Completed(events, db.sectorSize), db.numSectors, db.sectorSize)
    ensures n < |requests| ==> requests[n].Write? && !again.TailGuarded()
    ensures db.numSectors >= 3 ==> n == |requests|
  {
    again, n, events := db, 0, [];
    var exposed := false;
    while n < |requests| && (!exposed || requests[n].Remount?)
      invariant n <= |requests| && Logged(requests[..n], events) && (again == db || fresh(again))
      invariant again.flash == db.flash
      invariant again.Between() && again.numSectors == db.numSectors && again.sectorSize == db.sectorSize
      invariant again.ring == Run(events, db.numSectors, db.sectorSize)
      invariant (exposed <==> !again.TailGuarded()) && (exposed ==> db.numSectors == 2)
    {
      ghost var es;
      again, exposed, es := Turn(again, requests[n]);
      LoggedOneMore(requests, n, events, es, db.numSectors, db.sectorSize);
      events := events + es;
      n := n + 1;
    }
    RunsRetainTheEnd(events, db.numSectors, db.sectorSize);
  }

  // The logs of a run on two sectors of 10 bytes
  lemma {:induction false} ExposedRings(a: Block, b: Block)
    requires a.Size() == 7 && b.Size() == 10
    ensures Append([], a, 2, 10) == [[a]] && Append([[a]], a, 2, 10) == [[a], [a]]
    ensures EraseOnly([[a], [a]], 7, 2, 10) == [[a]]
    ensures Append([[a]], b, 2, 10) == [[a], [b]]
  {
    assert [a][1..] == [];
    var none: seq<seq<Block>> := [];
    assert none + [[a]] == [[a]];
  }

  // Two blocks
  method TwoBlocks() returns (db: LogDb)
    ensures fresh(db) && fresh(db.flash) && db.numSectors == 2 && db.sectorSize == 10 && !db.generation
    ensures db.Valid() && db.ring == [[Block(1, false, [0])], [Block(1, false, [0])]] && db.tailSector == 0
  {
    var flash := new Cell[2, 10];
    db := new LogDb(10, 2, flash);
    db.Format();
    ghost var a := Block(1, false, [0]);
    ExposedRings(a, Block(2, true, [0, 0, 0, 0]));
    var ok := db.WriteBlock(1, [0], true);
    assert db.ring == [[a]] && db.tailSector == 0;
    ok := db.WriteBlock(1, [0], true);
  }

  // A write that is cut off after erasing sector 0
  method CutOffRun() returns (db: LogDb)
    ensures fresh(db) && fresh(db.flash) && db.numSectors == 2 && db.sectorSize == 10 && !db.generation
    ensures !db.tailFilled
    ensures db.Valid() && db.ring == [[Block(1, false, [0])]] && db.tailSector == 1
  {
    db := TwoBlocks();
    ExposedRings(Block(1, false, [0]), Block(2, true, [0, 0, 0, 0]));
    var ok := db.WriteBlock(1, [0], false);
    db := Restart(db, false);
  }

  /** Such a run, and a block that fills sector 0: it leaves the tail without its guard. The next write is to be
      programmed over the block in sector 1. */
  method ExposedRun() returns (db: LogDb)
    ensures db.numSectors == 2 && db.sectorSize == 10 && db.Between() && !db.TailGuarded()
    ensures db.ring == [[Block(1, false, [0])], [Block(2, true, [0, 0, 0, 0])]]
  {
    db := CutOffRun();
    ExposedRings(Block(1, false, [0]), Block(2, true, [0, 0, 0, 0]));
    var ok := db.WriteBlock(2, [0, 0, 0, 0], true);
  }

  /** What Run says of it: the last block is a case of Unguarded, and one more write evicts the block that it is
      programmed over. */
  lemma {:induction false} UnguardedExample(e: Block)
    requires e.Size() == 7
    ensures var a, b := Block(1, false, [0]), Block(2, true, [0, 0, 0, 0]);
            var events := [Event(a, true), Event(a, true), Event(a, false), Event(b, true)];
            && Unguarded(1, false, b, 2, 10) && Run(events, 2, 10) == [[a], [b]]
            && Run(events + [Event(e, true)], 2, 10) == [[b], [e]]
  {
    var a, b := Block(1, false, [0]), Block(2, true, [0, 0, 0, 0]);
    var x, y, z, w := Event(a, true), Event(a, false), Event(b, true), Event(e, true);
    var none: seq<Event> := [];
    ExposedRings(a, b);
    assert Run(none, 2, 10) == [] && [x][..0] == none;
    assert Run([x], 2, 10) == [[a]] && [x, x][..1] == [x];
    assert Run([x, x], 2, 10) == [[a], [a]] && [x, x, y][..2] == [x, x];
    assert Run([x, x, y], 2, 10) == [[a]] && [x, x, y, z][..3] == [x, x, y];
    assert ([x, x, y, z] + [w])[..4] == [x, x, y, z];
    UsedOne(b);
    assert [[a], [b]][1..] == [[b]] && [[b]] + [[e]] == [[b], [e]];
  }

  lemma UsedOne(b: Block)
    ensures Used([b]) == b.Size()
  {
    assert [b][1..] == [];
  }
}
