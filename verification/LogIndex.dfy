// src/log_index.c: where the newest block of each kind starts. The hash of the index is taken at its
// interface, a map.
module LogIndex {
  import opened Wrappers
  import opened LogDb
  import opened SectorRing

  /** The newest block of a kind, found by scanning the log from its start. */
  function Newest(blocks: seq<Block>, kind: nat): Option<Block> {
    if blocks == [] then None
    else if blocks[|blocks| - 1].kind == kind then Some(blocks[|blocks| - 1])
    else Newest(blocks[..|blocks| - 1], kind)
  }

  lemma {:induction false} NewestIsLast(blocks: seq<Block>, kind: nat)
    ensures Newest(blocks, kind).None? <==> forall i: nat | i < |blocks| :: blocks[i].kind != kind
    ensures Newest(blocks, kind).Some? ==>
              exists i: nat :: i < |blocks| && Newest(blocks, kind) == Some(blocks[i]) && blocks[i].kind == kind
                               && forall k: nat | i < k < |blocks| :: blocks[k].kind != kind
  {
    if blocks != [] {
      var init := blocks[..|blocks| - 1];
      NewestIsLast(init, kind);
      assert blocks == init + [blocks[|blocks| - 1]];
      if blocks[|blocks| - 1].kind != kind && Newest(init, kind).Some? {
        var i: nat :| i < |init| && Newest(init, kind) == Some(init[i]) && init[i].kind == kind
                      && forall k: nat | i < k < |init| :: init[k].kind != kind;
        assert blocks[i] == init[i];
        assert forall k: nat | i < k < |init| :: blocks[k] == init[k];
      }
    }
  }

  // A write evicts the tail sector
  ghost predicate Evicts(ring: seq<seq<Block>>, len: nat, s: nat, size: nat) {
    |EraseOnly(ring, len, s, size)| < |ring|
  }

  // What a write makes of the start of a block: it stays, unless it was in an evicted sector
  lemma {:induction false} StartAfter(ring: seq<seq<Block>>, t: nat, t': nat, b: Block, s: nat, size: nat, x: nat,
                                      o: nat, c: Block)
    requires s >= 2 && t < s && x < s && Shaped(ring, s, size) && 0 < b.Size() <= size
    requires t' == if Evicts(ring, b.Size(), s, size) then Ring(t, 1, s) else t
    requires CellAt(BlocksOf(ring, t, x, s), o) == Start(c) && c.kind != b.kind
    ensures CellAt(BlocksOf(Append(ring, b, s, size), t', x, s), o) == Start(c)
            <==> !(Evicts(ring, b.Size(), s, size) && x == t)
  {
    var r := EraseOnly(ring, b.Size(), s, size);
    if Evicts(ring, b.Size(), s, size) {
      DroppedBlocks(ring, t, s, x);
    }
    PlacedCells(r, t', b, s, size, x, o);
    if x == SectorFor(r, t', b.Size(), s, size) && o >= PlaceFor(r, b.Size(), size) {
      FreeToProgram(r, t', b.Size(), s, size, o);
    }
  }

  // A block starts at this offset of a log
  ghost predicate StartsIn(ring: seq<seq<Block>>, t: nat, s: nat, size: nat, offset: nat, c: Block)
    requires t < s
  {
    exists x: nat, o: nat | x < s && o < size ::
      offset == Base(x, size) + o && CellAt(BlocksOf(ring, t, x, s), o) == Start(c)
  }

  lemma WhereStarts(db: LogDb, offset: nat, c: Block)
    requires db.Stored(db.tailSector, db.ring, db.generation)
    ensures db.StartsAt(offset, c) <==> StartsIn(db.ring, db.tailSector, db.numSectors, db.sectorSize, offset, c)
  {
    assert forall x: nat, o: nat | x < db.numSectors && o < db.sectorSize ::
        db.flash[x, o] == CellAt(BlocksOf(db.ring, db.tailSector, x, db.numSectors), o);
  }

  predicate InSector(offset: nat, sector: nat, size: nat) { Base(sector, size) <= offset < Base(sector + 1, size) }

  // The block that starts at an offset, after a write
  lemma StartsAfter(ring: seq<seq<Block>>, t: nat, t': nat, b: Block, s: nat, size: nat, offset: nat, c: Block)
    requires s >= 2 && t < s && Shaped(ring, s, size) && 0 < b.Size() <= size && c.kind != b.kind
    requires t' == if Evicts(ring, b.Size(), s, size) then Ring(t, 1, s) else t
    requires StartsIn(ring, t, s, size, offset, c)
    ensures StartsIn(Append(ring, b, s, size), t', s, size, offset, c) <==>
            !(Evicts(ring, b.Size(), s, size) && InSector(offset, t, size))
  {
    var x: nat, o: nat :|
      x < s && o < size && offset == Base(x, size) + o && CellAt(BlocksOf(ring, t, x, s), o) == Start(c);
    StartAfter(ring, t, t', b, s, size, x, o, c);
    SameSector(x, o, t, offset, size);
    StartsThere(Append(ring, b, s, size), t', s, size, offset, c, x, o);
  }

  // An offset is in one place only
  lemma StartsThere(ring: seq<seq<Block>>, t: nat, s: nat, size: nat, offset: nat, c: Block, x: nat, o: nat)
    requires t < s && x < s && o < size && offset == Base(x, size) + o
    ensures StartsIn(ring, t, s, size, offset, c) <==> CellAt(BlocksOf(ring, t, x, s), o) == Start(c)
  {
    if StartsIn(ring, t, s, size, offset, c) {
      var x': nat, o': nat :| x' < s && o' < size && offset == Base(x', size) + o'
                              && CellAt(BlocksOf(ring, t, x', s), o') == Start(c);
      Locate(x, o, size);
      Locate(x', o', size);
    }
  }

  lemma SameSector(x: nat, o: nat, t: nat, offset: nat, size: nat)
    requires o < size && offset == Base(x, size) + o
    ensures InSector(offset, t, size) <==> x == t
  {
    Locate(x, o, size);
    if InSector(offset, t, size) {
      Locate(t, offset - Base(t, size), size);
    }
  }

  lemma NewestOfMore(blocks: seq<Block>, b: Block, kind: nat)
    ensures Newest(blocks + [b], kind) == if b.kind == kind then Some(b) else Newest(blocks, kind)
  {
    assert (blocks + [b])[..|blocks|] == blocks;
  }

  class LogIndex {
    var items: map<nat, nat>    // kind to block_start

    constructor ()
      ensures items == map[]
    {
      items := map[];
    }

    // The index tells where the newest of these blocks of every kind starts
    ghost predicate Indexes(db: LogDb, blocks: seq<Block>)
      reads this, db.flash
    {
      forall kind: nat ::
        && (kind in items <==> Newest(blocks, kind).Some?)
        && (kind in items ==> db.StartsAt(items[kind], Newest(blocks, kind).value))
    }

    /** logdb_index_update */
    method Update(db: LogDb, block: Block, blockStart: nat, ghost blocks: seq<Block>)
      requires Indexes(db, blocks) && db.StartsAt(blockStart, block)
      modifies this
      ensures Indexes(db, blocks + [block])
    {
      assert (blocks + [block])[..|blocks|] == blocks;
      items := items[block.kind := blockStart];
    }

    method AddNext(db: LogDb, ghost blocks: seq<Block>) returns (more: bool, ghost blocks': seq<Block>)
      requires db.Valid() && db.DeliveredSoFar(blocks) && Indexes(db, blocks)
      modifies this, db`readOffset, db`readIterStart, db`cursor
      ensures Indexes(db, blocks')
      ensures more ==> db.DeliveredSoFar(blocks') && |db.Left()| < old(|db.Left()|)
      ensures !more ==> blocks' == db.Delivers()
    {
      var header, blockStart := db.DeliverNext(blocks);
      more, blocks' := header.Some?, blocks;
      if more {
        Update(db, header.value, blockStart, blocks);
        blocks' := blocks + [header.value];
      }
    }

    method AddAll(db: LogDb)
      requires db.Valid() && db.DeliveredSoFar([]) && Indexes(db, [])
      modifies this, db`readOffset, db`readIterStart, db`cursor
      ensures Indexes(db, db.Delivers())
    {
      ghost var blocks: seq<Block> := [];
      var more := true;
      while more
        invariant Indexes(db, blocks)
        invariant if more then db.DeliveredSoFar(blocks) else blocks == db.Delivers()
        decreases more, |db.Left()|
      {
        more, blocks := AddNext(db, blocks);
      }
    }

    /** logdb_index_create: from what an iteration over the log delivers */
    method Create(db: LogDb)
      requires db.Valid()
      modifies this, db`readOffset, db`readIterStart, db`cursor
      ensures Indexes(db, db.Delivers())
    {
      items := map[];
      db.StartReading();
      AddAll(db);
    }

    /** logdb_index_read: the newest block of a kind if the index tells it, and otherwise whatever starts where the
        entry points to. */
    method Read(db: LogDb, kind: nat, ghost blocks: seq<Block>) returns (block: Option<Block>)
      requires db.Geometry() && (kind in items ==> db.Within(items[kind]))
      ensures kind !in items ==> block == None
      ensures kind in items ==> Delivers(db, items[kind], block)
      ensures Indexes(db, blocks) ==> block == Newest(blocks, kind)
    {
      if kind !in items {
        return None;
      }
      var cell := db.ReadRaw(items[kind]);
      return if cell.Start? then Some(cell.block) else None;
    }

    /** A write to the log and the update of the index that goes with it. The entry of every other kind stays right
        exactly when the write does not evict the sector it points into; without an eviction the whole index is
        right. */
    method WriteAndUpdate(db: LogDb, kind: nat, data: seq<bv8>)
      requires db.Valid() && Indexes(db, Flatten(db.ring)) && HEADER_SIZE + |data| <= db.sectorSize
      modifies this, db, db.flash
      ensures items == old(items)[kind := db.latestOffset]
      ensures db.StartsAt(db.latestOffset, Block(kind, db.generation, data))
      ensures EntriesStay(old(items), kind, db, HEADER_SIZE + |data|, old(db.ring), old(db.tailSector))
      ensures !Evicts(old(db.ring), HEADER_SIZE + |data|, db.numSectors, db.sectorSize) ==>
                Indexes(db, Flatten(db.ring))
      ensures StaleDeliver(old(items), kind, db, Block(kind, db.generation, data), old(db.ring), old(db.tailSector))
      ensures NewestStay(db.ring, old(db.ring), Block(kind, db.generation, data), db.numSectors, db.sectorSize)
    {
      ghost var ring, t, was := db.ring, db.tailSector, items;
      IndexTells(this, db);
      WriteBeside(db, kind, data, items);
      items := items[kind := db.latestOffset];
      StaysWhole(db, ring, t, was, Block(kind, db.generation, data));
    }

    lemma StaysWhole(db: LogDb, ring: seq<seq<Block>>, t: nat, was: map<nat, nat>, b: Block)
      requires db.Geometry() && db.ring == Append(ring, b, db.numSectors, db.sectorSize)
      requires items == was[b.kind := db.latestOffset] && db.StartsAt(db.latestOffset, b)
      requires EntriesStay(was, b.kind, db, b.Size(), ring, t)
      requires forall k: nat :: Newest(Flatten(ring), k).Some? ==> k in was
      ensures !Evicts(ring, b.Size(), db.numSectors, db.sectorSize) ==> Indexes(db, Flatten(db.ring))
    {
      IndexAfter(db, ring, b);
    }
  }

  // The entries of all kinds but this one are right if they do not point into the evicted sector, and only then
  ghost predicate EntriesStay(items: map<nat, nat>, kind: nat, db: LogDb, len: nat, ring: seq<seq<Block>>, t: nat)
    reads db.flash
  {
    forall k: nat | k in items && k != kind ::
      && Newest(Flatten(ring), k).Some?
      && (db.StartsAt(items[k], Newest(Flatten(ring), k).value) <==>
            !(Evicts(ring, len, db.numSectors, db.sectorSize) && InSector(items[k], t, db.sectorSize)))
  }

  // A read at this offset delivers the block that starts there, if one does
  ghost predicate Delivers(db: LogDb, at: nat, block: Option<Block>)
    requires db.Geometry()
    reads db.flash
  {
    if block.Some? then db.ReadsAs(at, Start(block.value))
    else exists cell: Cell :: !cell.Start? && db.ReadsAs(at, cell)
  }

  // What an entry delivers that points into the evicted sector: the new block if it points to the start of the sector,
  // although that is of another kind, and nothing otherwise
  ghost predicate StaleDeliver(items: map<nat, nat>, kind: nat, db: LogDb, b: Block, ring: seq<seq<Block>>, t: nat)
    requires db.Geometry()
    reads db.flash
  {
    Evicts(ring, b.Size(), db.numSectors, db.sectorSize) ==>
      forall k: nat | k in items && k != kind && InSector(items[k], t, db.sectorSize) ::
        && db.Within(items[k])
        && Delivers(db, items[k], if items[k] == Base(t, db.sectorSize) then Some(b) else None)
  }

  lemma StaleAfter(items: map<nat, nat>, db: LogDb, ring: seq<seq<Block>>, t: nat, b: Block)
    requires db.Stored(db.tailSector, db.ring, db.generation) && 0 < b.Size() <= db.sectorSize
    requires t < db.numSectors && Shaped(ring, db.numSectors, db.sectorSize)
    requires db.ring == Append(ring, b, db.numSectors, db.sectorSize)
    requires db.tailSector
             == if Evicts(ring, b.Size(), db.numSectors, db.sectorSize) then Ring(t, 1, db.numSectors) else t
    ensures StaleDeliver(items, b.kind, db, b, ring, t)
  {
    var s, size := db.numSectors, db.sectorSize;
    if Evicts(ring, b.Size(), s, size) {
      InEvictedSector(ring, t, db.tailSector, b, s, size);
      forall k: nat | k in items && k != b.kind && InSector(items[k], t, size)
        ensures db.Within(items[k]) && Delivers(db, items[k], if items[k] == Base(t, size) then Some(b) else None)
      {
        var o: nat := items[k] - Base(t, size);
        BaseAscends(t, s, size);
        assert items[k] == Base(t, size) + o;
        var cell := CellAt(BlocksOf(db.ring, db.tailSector, t, s), o);
        OnlyThere(db, items[k], t, o, cell);
        assert cell.Start? <==> o == 0;
      }
    }
  }

  // The evicted sector holds the new block and nothing else
  lemma InEvictedSector(ring: seq<seq<Block>>, t: nat, t': nat, b: Block, s: nat, size: nat)
    requires s >= 2 && t < s && |ring| <= s && 0 < b.Size() && Evicts(ring, b.Size(), s, size) && t' == Ring(t, 1, s)
    ensures BlocksOf(Append(ring, b, s, size), t', t, s) == [b]
    ensures CellAt([b], 0) == Start(b) && forall o: nat | o > 0 :: !CellAt([b], o).Start?
  {
    var none: seq<Block> := [];
    AppendBlock(none, b);
    assert none + [b] == [b] && Used(none) == 0;
    forall o: nat ensures CellAt([b], o).Start? <==> o == 0 {
      assert CellAt([b], o) == Appended(none, b, o);
    }
  }

  lemma OnlyThere(db: LogDb, offset: nat, s: nat, o: nat, cell: Cell)
    requires db.Geometry() && s < db.numSectors && o < db.sectorSize && offset == Base(s, db.sectorSize) + o
    requires db.flash[s, o] == cell
    ensures db.Within(offset) && db.ReadsAs(offset, cell)
  {
    assert db.IsAt(offset, s, o);
    forall s': nat, o': nat | db.IsAt(offset, s', o')
      ensures db.flash[s', o'] == cell
    {
      Locate(s, o, db.sectorSize);
      Locate(s', o', db.sectorSize);
    }
  }

  // The newest block of every other kind is what it was, unless all of them were in the evicted sector
  ghost predicate NewestStay(now: seq<seq<Block>>, ring: seq<seq<Block>>, b: Block, s: nat, size: nat) {
    forall k: nat | k != b.kind ::
      Newest(Flatten(now), k)
      == if Evicts(ring, b.Size(), s, size) && Newest(Flatten(ring[1..]), k) == None then None
         else Newest(Flatten(ring), k)
  }

  lemma NewestAfter(ring: seq<seq<Block>>, b: Block, s: nat, size: nat)
    ensures NewestStay(Append(ring, b, s, size), ring, b, s, size)
    ensures Newest(Flatten(Append(ring, b, s, size)), b.kind) == Some(b)
  {
    var r := EraseOnly(ring, b.Size(), s, size);
    FlattenPlace(r, b, size);
    NewestOfMore(Flatten(r), b, b.kind);
    forall k: nat | k != b.kind
      ensures Newest(Flatten(Append(ring, b, s, size)), k)
              == if Evicts(ring, b.Size(), s, size) && Newest(Flatten(ring[1..]), k) == None then None
                 else Newest(Flatten(ring), k)
    {
      NewestOfMore(Flatten(r), b, k);
      if Evicts(ring, b.Size(), s, size) {
        NewestOfTwo(ring[0], Flatten(ring[1..]), k);
      }
    }
  }

  lemma {:induction false} NewestOfTwo(a: seq<Block>, b: seq<Block>, kind: nat)
    ensures Newest(a + b, kind) == if Newest(b, kind).Some? then Newest(b, kind) else Newest(a, kind)
    decreases |b|
  {
    if b == [] {
      assert a + b == a;
    } else {
      var init, x := b[..|b| - 1], b[|b| - 1];
      assert a + b == (a + init) + [x] && b == init + [x];
      NewestOfMore(a + init, x, kind);
      NewestOfMore(init, x, kind);
      NewestOfTwo(a, init, kind);
    }
  }

  // A write, and what has become of the entries of an index that has been right
  method WriteBeside(db: LogDb, kind: nat, data: seq<bv8>, ghost items: map<nat, nat>)
    requires db.Valid() && HEADER_SIZE + |data| <= db.sectorSize
    requires Tells(items, db.ring, db.tailSector, db.numSectors, db.sectorSize)
    modifies db, db.flash
    ensures db.Stored(db.tailSector, db.ring, db.generation)
    ensures db.ring == Append(old(db.ring), Block(kind, db.generation, data), db.numSectors, db.sectorSize)
    ensures db.StartsAt(db.latestOffset, Block(kind, db.generation, data))
    ensures EntriesStay(items, kind, db, HEADER_SIZE + |data|, old(db.ring), old(db.tailSector))
    ensures StaleDeliver(items, kind, db, Block(kind, db.generation, data), old(db.ring), old(db.tailSector))
    ensures NewestStay(db.ring, old(db.ring), Block(kind, db.generation, data), db.numSectors, db.sectorSize)
  {
    ghost var ring, t := db.ring, db.tailSector;
    WriteOut(db, kind, data);
    ghost var b := Block(kind, db.generation, data);
    NewestWritten(db, ring, b);
    EntriesAfter(items, db, ring, t, b);
    StaleAfter(items, db, ring, t, b);
    NewestAfter(ring, b, db.numSectors, db.sectorSize);
  }

  method WriteOut(db: LogDb, kind: nat, data: seq<bv8>)
    requires db.Valid() && HEADER_SIZE + |data| <= db.sectorSize
    modifies db, db.flash
    ensures db.Stored(db.tailSector, db.ring, db.generation) && db.HeadPlaced()
    ensures db.ring == Append(old(db.ring), Block(kind, db.generation, data), db.numSectors, db.sectorSize)
    ensures db.tailSector == if Evicts(old(db.ring), HEADER_SIZE + |data|, db.numSectors, db.sectorSize)
                             then Ring(old(db.tailSector), 1, db.numSectors) else old(db.tailSector)
  {
    var ok := db.WriteBlock(kind, data, true);
  }

  lemma NewestWritten(db: LogDb, ring: seq<seq<Block>>, b: Block)
    requires db.Stored(db.tailSector, db.ring, db.generation) && db.HeadPlaced() && 0 < b.Size() <= db.sectorSize
    requires |ring| <= db.numSectors && db.ring == Append(ring, b, db.numSectors, db.sectorSize)
    ensures db.StartsAt(db.latestOffset, b)
  {
    HeadAfter(EraseOnly(ring, b.Size(), db.numSectors, db.sectorSize), db.tailSector, b, db.numSectors, db.sectorSize);
    db.NewestStarts();
  }

  // Every entry tells where the newest block of its kind starts
  ghost predicate Tells(items: map<nat, nat>, ring: seq<seq<Block>>, t: nat, s: nat, size: nat)
    requires t < s
  {
    && (forall k: nat | k in items :: EntryTells(items[k], k, ring, t, s, size))
    && (forall k: nat :: Newest(Flatten(ring), k).Some? ==> k in items)
  }

  ghost predicate EntryTells(at: nat, k: nat, ring: seq<seq<Block>>, t: nat, s: nat, size: nat)
    requires t < s
  {
    Newest(Flatten(ring), k).Some? && StartsIn(ring, t, s, size, at, Newest(Flatten(ring), k).value)
  }

  lemma IndexTells(index: LogIndex, db: LogDb)
    requires db.Valid() && index.Indexes(db, Flatten(db.ring))
    ensures Tells(index.items, db.ring, db.tailSector, db.numSectors, db.sectorSize)
  {
    forall k: nat | k in index.items
      ensures EntryTells(index.items[k], k, db.ring, db.tailSector, db.numSectors, db.sectorSize)
    {
      WhereStarts(db, index.items[k], Newest(Flatten(db.ring), k).value);
    }
  }

  lemma EntriesAfter(items: map<nat, nat>, db: LogDb, ring: seq<seq<Block>>, t: nat, b: Block)
    requires db.Stored(db.tailSector, db.ring, db.generation) && 0 < b.Size() <= db.sectorSize
    requires t < db.numSectors && Shaped(ring, db.numSectors, db.sectorSize)
    requires Tells(items, ring, t, db.numSectors, db.sectorSize)
    requires db.ring == Append(ring, b, db.numSectors, db.sectorSize)
    requires db.tailSector
             == if Evicts(ring, b.Size(), db.numSectors, db.sectorSize) then Ring(t, 1, db.numSectors) else t
    ensures EntriesStay(items, b.kind, db, b.Size(), ring, t)
  {
    forall k: nat | k in items && k != b.kind
      ensures Newest(Flatten(ring), k).Some?
      ensures db.StartsAt(items[k], Newest(Flatten(ring), k).value) <==>
              !(Evicts(ring, b.Size(), db.numSectors, db.sectorSize) && InSector(items[k], t, db.sectorSize))
    {
      assert EntryTells(items[k], k, ring, t, db.numSectors, db.sectorSize);
      var c := Newest(Flatten(ring), k).value;
      NewestHasKind(Flatten(ring), k);
      StartsAfter(ring, t, db.tailSector, b, db.numSectors, db.sectorSize, items[k], c);
      WhereStarts(db, items[k], c);
    }
  }

  // The newest blocks of a log in which nothing was evicted
  lemma IndexAfter(db: LogDb, ring: seq<seq<Block>>, b: Block)
    requires db.ring == Append(ring, b, db.numSectors, db.sectorSize)
    ensures !Evicts(ring, b.Size(), db.numSectors, db.sectorSize) ==>
              forall k: nat :: Newest(Flatten(db.ring), k) == if k == b.kind then Some(b) else Newest(Flatten(ring), k)
  {
    if !Evicts(ring, b.Size(), db.numSectors, db.sectorSize) {
      FlattenPlace(ring, b, db.sectorSize);
      forall k: nat
        ensures Newest(Flatten(ring) + [b], k) == if k == b.kind then Some(b) else Newest(Flatten(ring), k) {
        NewestOfMore(Flatten(ring), b, k);
      }
    }
  }

  lemma NewestHasKind(blocks: seq<Block>, kind: nat)
    ensures Newest(blocks, kind).Some? ==> Newest(blocks, kind).value.kind == kind
  {
    NewestIsLast(blocks, kind);
  }
}
