// Runs of src/prop_db.c after which a new persistent property is in the database, and nothing has told of it.
module PropFlag {
  import D = DHash
  import HP = HashProbe
  import HT = HashTable
  import opened Arithmetic
  import opened PropDb
  import opened PropSerialize
  import opened Search
  import opened Wrappers

  // Two properties that belong into buckets 0 and 1 of 11, and a persistent one that belongs into bucket 0
  const PROP_A: nat := 0x0101_0128
  const PROP_B: nat := 0x0101_010E
  const PROP_C: nat := 0x0101_012A
  const A := Entry(PROP_A, UInt(1), false, false, false)
  const B := Entry(PROP_B, UInt(1), false, false, false)
  const C := Entry(PROP_C, UInt(1), true, false, false)

  const HASH_A: nat := 593332289
  const HASH_B: nat := 297479018
  const HASH_C: nat := 1607236532

  lemma HashAIs()
    ensures D.HashInt(PROP_A) == HASH_A && HASH_A % 11 == 0
  {
    DivModUnique(PROP_A * 0x9e3779b97f4a7c15, 0x1_0000_0000_0000_0000, 10409576, 2548342780123707464);
    DivModUnique(2548342780123707464, 0x1_0000_0000, HASH_A, 3207886920);
    DivModUnique(HASH_A, 11, 53939299, 0);
  }

  lemma HashBIs()
    ensures D.HashInt(PROP_B) == HASH_B && HASH_B % 11 == 1
  {
    DivModUnique(PROP_B * 0x9e3779b97f4a7c15, 0x1_0000_0000_0000_0000, 10409560, 1277662657073372710);
    DivModUnique(1277662657073372710, 0x1_0000_0000, HASH_B, 3517177382);
    DivModUnique(HASH_B, 11, 27043547, 1);
  }

  lemma HashCIs()
    ensures D.HashInt(PROP_C) == HASH_C && HASH_C % 11 == 0
  {
    DivModUnique(PROP_C * 0x9e3779b97f4a7c15, 0x1_0000_0000_0000_0000, 10409577, 6903028345060552818);
    DivModUnique(6903028345060552818, 0x1_0000_0000, HASH_C, 3184095346);
    DivModUnique(HASH_C, 11, 146112412, 0);
  }

  lemma IdsAreValid()
    ensures IsValidId(PROP_A) && IsValidId(PROP_B) && IsValidId(PROP_C)
  {
  }

  lemma ElevenIsPrime(n: nat)
    requires D.LeastPrime(11, n)
    ensures n == 11
  {
    PrimesAscend();
  }

  type Bucket = HT.Entry<nat, Entry>

  ghost function In(e: Entry, hash: nat, probes: nat): Bucket { HT.Entry.Entry(e.prop, hash, probes, false, e) }

  ghost function Fresh(): (t: seq<Bucket>)
    ensures |t| == 11 && forall b: nat | b < 11 :: t[b] == FreshBucket()
  {
    seq(11, _ => FreshBucket())
  }

  ghost function WithA(): seq<Bucket> { Fresh()[0 := In(A, HASH_A, 1)] }
  ghost function WithB(): seq<Bucket> { WithA()[1 := In(B, HASH_B, 1)] }
  ghost function WithC(): seq<Bucket> { WithB()[1 := In(C, HASH_C, 2)] }

  lemma ATaken()
    ensures HP.Probed(Fresh(), Carried(A)) == HP.Done(WithA(), In(A, HASH_A, 1))
  {
    HashAIs();
    assert HT.Slot(HASH_A, 1, 11) == 0;
  }

  lemma BTaken()
    ensures HP.Probed(WithA(), Carried(B)) == HP.Done(WithB(), In(B, HASH_B, 1))
  {
    HashBIs();
    assert HT.Slot(HASH_B, 1, 11) == 1;
  }

  /** The third one passes bucket 0 and robs bucket 1, whose entry goes into bucket 2. */
  lemma CRobs()
    ensures HP.Probed(WithB(), Carried(C)) == HP.Done(WithC()[2 := In(B, HASH_B, 2)], In(B, HASH_B, 2))
    ensures HP.LastRobbed(WithB(), Carried(C)) == Some(In(B, HASH_B, 1))
  {
    HashBIs();
    HashCIs();
    var c1, c2, b1, b2 := In(C, HASH_C, 1), In(C, HASH_C, 2), In(B, HASH_B, 1), In(B, HASH_B, 2);
    assert HT.Slot(HASH_C, 1, 11) == 0 && HT.Slot(HASH_C, 2, 11) == 1;
    assert HT.Slot(HASH_B, 1, 11) == 1 && HT.Slot(HASH_B, 2, 11) == 2;
    HP.ProbedOn(WithB(), c1, WithB(), c1);
    HP.ProbedOn(WithB(), c2, WithC(), b1);
    assert HP.StepOf(WithC(), b2) == HP.Takes(WithC()[2 := b2]);
  }

  const TWO: map<nat, Entry> := map[PROP_A := A, PROP_B := B]
  const THREE: map<nat, Entry> := map[PROP_A := A, PROP_B := B, PROP_C := C]

  lemma ASets(way: Way, was: map<nat, Entry>, now: map<nat, Entry>, keys: HT.Keys<nat>, ended: seq<Bucket>,
              status: bool, left: Entry)
    requires IsSet(way, was, now, keys, ended, A, status, left)
    requires was == map[] && way == Inserted(was, Fresh())
    ensures now == map[PROP_A := A] && ended == WithA() && left == A
  {
    ATaken();
  }

  lemma BSets(way: Way, was: map<nat, Entry>, now: map<nat, Entry>, keys: HT.Keys<nat>, ended: seq<Bucket>,
              status: bool, left: Entry)
    requires IsSet(way, was, now, keys, ended, B, status, left)
    requires was == map[PROP_A := A] && way == Inserted(was, WithA())
    ensures now == TWO && ended == WithB() && left == B
  {
    BTaken();
  }

  lemma CLeavesB()
    ensures Left(WithB(), TWO, C) == B && Marks(TWO, C)
  {
    CRobs();
  }

  lemma CSets(way: Way, was: map<nat, Entry>, now: map<nat, Entry>, keys: HT.Keys<nat>, ended: seq<Bucket>,
              status: bool, left: Entry)
    requires IsSet(way, was, now, keys, ended, C, status, left)
    requires was == TWO && way == Inserted(was, WithB())
    ensures now == THREE && left == B
  {
    CLeavesB();
    CRobs();
  }

  /** prop_set of the two, on 11 buckets */
  method SetTwo(granted: bool) returns (db: PropDb)
    ensures fresh(db) && fresh(db.hash) && fresh(db.hash.buckets) && db.Valid() && db.hasHub
    ensures db.hash.m == TWO && db.hash.buckets[..] == WithB()
    ensures db.transactions == 0 && db.updates == 0 && !db.persistUpdated
  {
    db := new PropDb(11, true);
    ElevenIsPrime(db.hash.buckets.Length);
    assert db.hash.buckets[..] == Fresh();
    IdsAreValid();
    var status, left, way := db.PropSet(A, granted);
    ASets(way, map[], db.hash.m, db.hash.keys, db.hash.buckets[..], status, left);
    status, left, way := db.PropSet(B, granted);
    BSets(way, map[PROP_A := A], db.hash.m, db.hash.keys, db.hash.buckets[..], status, left);
  }

  method SetOne(db: PropDb, granted: bool)
    requires db.Valid() && db.hasHub && db.hash.m == TWO && db.hash.buckets[..] == WithB()
    requires db.transactions == 0 && db.updates == 0 && !db.persistUpdated
    modifies db, db.hash, db.hash.buckets
    ensures db.Valid() && db.hash.m == THREE && db.transactions == 0 && db.updates == 0 && !db.persistUpdated
  {
    IdsAreValid();
    var status, left, way := db.PropSet(C, granted);
    CSets(way, TWO, db.hash.m, db.hash.keys, db.hash.buckets[..], status, left);
  }

  /** prop_set of a new persistent property that no message tells of */
  method SetUnsaid(granted: bool) returns (db: PropDb)
    ensures fresh(db) && db.Valid() && db.hasHub && Marks(TWO, C) && db.hash.m == THREE
    ensures db.transactions == 0 && db.updates == 0 && !db.persistUpdated
  {
    db := SetTwo(granted);
    SetOne(db, granted);
    CLeavesB();
  }

  // The block of this one property
  lemma OneStored()
    ensures Encodable([C]) && Stored([C]) == [C] && C.Decoded() == C && Restored(TWO, [C]) == THREE
  {
    IdsAreValid();
    ValidIdsAreLarge(PROP_C);
    assert StoredTo([C], 1) == StoredTo([C], 0) + [C];
    assert RestoredTo(TWO, [C], 1) == SetIn(RestoredTo(TWO, [C], 0), C);
  }

  lemma OneLinkUnsaid(start: DbState, keys: HT.Keys<nat>, steps: seq<SetStep>)
    requires Links(start, keys, [C], steps) && |steps| == 1 && start.m == TWO && start.t == WithB()
    ensures !Marked(steps, 1)
  {
    OneStored();
    IdsAreValid();
    CLeavesB();
    assert Linked(start, steps, keys, [C], 0);
  }

  lemma RoomForOne(isStatic: bool, granted: bool)
    ensures Room(WithB(), |TWO|, isStatic, 1, granted)
  {
  }

  method BlockOfOne() returns (block: array<byte>)
    ensures fresh(block) && Encodable([C]) && block[..block.Length] == Bytes([C])
  {
    OneStored();
    var n;
    block, n := Serialize([C]);
    assert block[..block.Length] == block[..];
  }

  method RestoreOne(db: PropDb, block: array<byte>, granted: bool)
    requires db.Valid() && db.hasHub && db.hash.m == TWO && db.hash.buckets[..] == WithB()
    requires Encodable([C]) && block[..block.Length] == Bytes([C])
    requires db.transactions == 0 && db.updates == 0 && !db.persistUpdated
    modifies db, db.hash, db.hash.buckets
    ensures db.Valid() && db.hash.m == THREE && db.transactions == 0 && db.updates == 0 && !db.persistUpdated
  {
    RoomForOne(db.hash.staticBuckets, granted);
    ghost var start := db.State(1, granted);
    var _, steps := db.Deserialize(block, block.Length, [C], granted);
    OneLinkUnsaid(start, db.hash.keys, steps);
    OneStored();
  }

  /** prop_db_deserialize of a block that holds the same property, and that no message tells of */
  method RestoredUnsaid(granted: bool) returns (db: PropDb)
    ensures fresh(db) && db.Valid() && db.hasHub && Marks(TWO, C) && db.hash.m == THREE
    ensures db.transactions == 0 && db.updates == 0 && !db.persistUpdated
  {
    var block := BlockOfOne();
    db := SetTwo(granted);
    RestoreOne(db, block, granted);
    CLeavesB();
  }
}
