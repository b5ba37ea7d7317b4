// src/prop_db.c: the property database in its hash, as one block of bytes, and back.
module PropDb {
  import D = DHash
  import HP = HashProbe
  import HT = HashTable
  import opened Arithmetic
  import opened PropSerialize
  import opened Wrappers

  datatype Entry = Entry(prop: nat, value: Value, persist: bool, readonly: bool, protect: bool) {
    predicate IsStored() { persist && !readonly }
    // What decoding its bytes gives: stored properties are persistent, and blobs are protected
    function Decoded(): Entry { Entry(prop, value, true, false, value.Blob?) }
  }

  predicate Encodable(entries: seq<Entry>) {
    forall i: nat | i < |entries| :: IsPropId(entries[i].prop) && Storable(entries[i].value)
  }

  // The entries among the first i that are stored
  function StoredTo(entries: seq<Entry>, i: nat): seq<Entry>
    requires i <= |entries|
  {
    if i == 0 then [] else StoredTo(entries, i - 1) + if entries[i - 1].IsStored() then [entries[i - 1]] else []
  }

  function Stored(entries: seq<Entry>): seq<Entry> { StoredTo(entries, |entries|) }

  // The encodings of all entries
  function Parts(entries: seq<Entry>): (parts: seq<seq<byte>>)
    requires Encodable(entries)
    ensures |parts| == |entries|
  {
    seq(|entries|, i requires 0 <= i < |entries| && Encodable(entries) => Encoded(entries[i].prop, entries[i].value))
  }

  // The first i of these one after the other
  function FlatTo(parts: seq<seq<byte>>, i: nat): seq<byte>
    requires i <= |parts|
  {
    if i == 0 then [] else FlatTo(parts, i - 1) + parts[i - 1]
  }

  function Flat(parts: seq<seq<byte>>): seq<byte> { FlatTo(parts, |parts|) }

  function Bytes(entries: seq<Entry>): seq<byte>
    requires Encodable(entries)
  {
    Flat(Parts(entries))
  }

  lemma {:induction false} FlatOfPrefix(parts: seq<seq<byte>>, part: seq<byte>, i: nat)
    requires i <= |parts|
    ensures FlatTo(parts + [part], i) == FlatTo(parts, i)
    decreases i
  {
    if i > 0 {
      FlatOfPrefix(parts, part, i - 1);
    }
  }

  lemma {:induction false} FlatGrows(parts: seq<seq<byte>>, i: nat, j: nat)
    requires i <= j <= |parts|
    ensures FlatTo(parts, i) <= FlatTo(parts, j)
    decreases j
  {
    if i < j {
      FlatGrows(parts, i, j - 1);
    }
  }

  // Every part is where the ones before it end
  lemma PartIn(parts: seq<seq<byte>>, i: nat)
    requires i < |parts|
    ensures Holds(Flat(parts), |FlatTo(parts, i)|, parts[i])
    ensures |FlatTo(parts, i + 1)| == |FlatTo(parts, i)| + |parts[i]|
  {
    FlatGrows(parts, i + 1, |parts|);
    var upTo, pos := FlatTo(parts, i + 1), |FlatTo(parts, i)|;
    assert Flat(parts)[pos..|upTo|] == upTo[pos..];
  }

  lemma {:induction false} StoredAreValid(entries: seq<Entry>, i: nat)
    requires Encodable(entries) && i <= |entries|
    ensures Encodable(StoredTo(entries, i))
    decreases i
  {
    if i > 0 {
      StoredAreValid(entries, i - 1);
    }
  }

  // One more entry, in both passes
  lemma OneMore(entries: seq<Entry>, i: nat)
    requires Encodable(entries) && i < |entries|
    ensures Encodable(StoredTo(entries, i)) && Encodable(StoredTo(entries, i + 1))
    ensures Parts(StoredTo(entries, i + 1))
            == Parts(StoredTo(entries, i))
               + (if entries[i].IsStored() then [Encoded(entries[i].prop, entries[i].value)] else [])
  {
    StoredAreValid(entries, i);
    StoredAreValid(entries, i + 1);
  }

  lemma OneMorePart(parts: seq<seq<byte>>, part: seq<byte>)
    ensures Flat(parts + [part]) == Flat(parts) + part
    ensures parts + [] == parts
  {
    FlatOfPrefix(parts, part, |parts|);
  }

  // The bytes of the first i entries, and how they become those of one more
  lemma OneMoreEntry(entries: seq<Entry>, i: nat)
    requires Encodable(entries) && i < |entries|
    ensures Encodable(StoredTo(entries, i)) && Encodable(StoredTo(entries, i + 1))
    ensures Bytes(StoredTo(entries, i + 1))
            == if entries[i].IsStored() then Bytes(StoredTo(entries, i)) + Encoded(entries[i].prop, entries[i].value)
               else Bytes(StoredTo(entries, i))
  {
    OneMore(entries, i);
    OneMorePart(Parts(StoredTo(entries, i)), Encoded(entries[i].prop, entries[i].value));
  }

  // What the first pass adds up
  function Counted(entries: seq<Entry>, i: nat): nat
    requires Encodable(entries) && i <= |entries|
  {
    if i == 0 then 0
    else Counted(entries, i - 1) + if entries[i - 1].IsStored() then PropEncodedBytes(entries[i - 1].value) else 0
  }

  lemma {:induction false} CountedGrows(entries: seq<Entry>, i: nat, j: nat)
    requires Encodable(entries) && i <= j <= |entries|
    ensures Counted(entries, i) <= Counted(entries, j)
    decreases j
  {
    if i < j {
      CountedGrows(entries, i, j - 1);
    }
  }

  // The bytes of the first i entries are as many as were counted
  ghost predicate CountedRight(entries: seq<Entry>, i: nat)
    requires Encodable(entries) && i <= |entries|
  {
    Encodable(StoredTo(entries, i)) && Counted(entries, i) == |Bytes(StoredTo(entries, i))|
  }

  lemma OneMoreCounted(entries: seq<Entry>, i: nat)
    requires Encodable(entries) && i < |entries| && CountedRight(entries, i)
    ensures CountedRight(entries, i + 1)
  {
    OneMoreEntry(entries, i);
    if entries[i].IsStored() {
      EncodedBytesIsLength(entries[i].prop, entries[i].value);
    }
  }

  /** The precomputed length is the length of what the second pass writes. */
  lemma {:induction false} CountedIsLength(entries: seq<Entry>, i: nat)
    requires Encodable(entries) && i <= |entries|
    ensures CountedRight(entries, i)
    decreases i
  {
    if i > 0 {
      CountedIsLength(entries, i - 1);
      OneMoreCounted(entries, i - 1);
    }
  }

  // The first pass
  method CountBytes(entries: seq<Entry>) returns (dataLen: nat)
    requires Encodable(entries)
    ensures dataLen == Counted(entries, |entries|)
  {
    dataLen := 0;
    var i: nat := 0;
    while i < |entries|
      invariant i <= |entries| && dataLen == Counted(entries, i)
    {
      var e := entries[i];
      if e.IsStored() {
        dataLen := dataLen + PropEncodedBytes(e.value);
      }
      i := i + 1;
    }
  }

  // The 16 bits of a length in the header of a block
  function HeaderLen(n: nat): (r: nat)
    ensures r == n <==> n < 0x1_0000
  {
    n % 0x1_0000
  }

  /** prop_db_serialize: the block holds exactly the bytes that were counted beforehand, all of them written. Its header
      tells 16 bits of their number, which is the number exactly when that is below 2^16. */
  method Serialize(entries: seq<Entry>) returns (block: array<byte>, headerLen: nat)
    requires Encodable(entries)
    ensures fresh(block) && Encodable(Stored(entries)) && block[..] == Bytes(Stored(entries))
    ensures headerLen == HeaderLen(block.Length)
  {
    var dataLen := CountBytes(entries);
    headerLen := HeaderLen(dataLen);
    block := new byte[dataLen];
    var pos: nat, i: nat := 0, 0;
    while i < |entries|
      invariant i <= |entries| && fresh(block) && block.Length == dataLen && Encodable(StoredTo(entries, i))
      invariant pos == Counted(entries, i) <= dataLen && block[..pos] == Bytes(StoredTo(entries, i))
    {
      CountedGrows(entries, i + 1, |entries|);
      pos := SerializeEntry(entries, i, block, pos);
      i := i + 1;
    }
  }

  // One entry of the second pass
  method SerializeEntry(entries: seq<Entry>, i: nat, block: array<byte>, pos: nat) returns (pos': nat)
    requires Encodable(entries) && i < |entries| && Encodable(StoredTo(entries, i))
    requires Counted(entries, i + 1) <= block.Length
    requires pos == Counted(entries, i) <= block.Length && block[..pos] == Bytes(StoredTo(entries, i))
    modifies block
    ensures Encodable(StoredTo(entries, i + 1))
    ensures pos' == Counted(entries, i + 1) && block[..pos'] == Bytes(StoredTo(entries, i + 1))
  {
    CountedIsLength(entries, i + 1);
    OneMoreEntry(entries, i);
    pos' := pos;
    if entries[i].IsStored() {
      EncodedBytesIsLength(entries[i].prop, entries[i].value);
      pos' := Append(entries[i], block, pos);
    }
  }

  method Append(e: Entry, block: array<byte>, pos: nat) returns (pos': nat)
    requires IsPropId(e.prop) && Storable(e.value) && pos + |Encoded(e.prop, e.value)| <= block.Length
    modifies block
    ensures pos' == pos + |Encoded(e.prop, e.value)| && block[..pos'] == old(block[..pos]) + Encoded(e.prop, e.value)
  {
    ghost var was := block[..];
    var numBytes := PropEncode(e.prop, e.value, block, pos, block.Length - pos);
    pos' := pos + numBytes;
    assert block[..pos'] == block[..][..pos'];
  }

  method DecodeNext(data: array<byte>, pos: nat, ghost entries: seq<Entry>, ghost i: nat)
    returns (entry: Entry, numBytes: nat)
    requires Encodable(entries) && i < |entries| && Holds(data[..], pos, Parts(entries)[i])
    ensures entry == entries[i].Decoded() && numBytes == |Parts(entries)[i]|
  {
    var prop, value;
    prop, value, numBytes := PropDecode(data, pos, entries[i].prop, entries[i].value);
    entry := Entry(prop, value, true, false, value.Blob?);
  }

  lemma PartsAreSome(entries: seq<Entry>)
    requires Encodable(entries)
    ensures forall i: nat | i < |entries| :: Parts(entries)[i] != []
  {
  }

  lemma AllRead(parts: seq<seq<byte>>, i: nat)
    requires i <= |parts| && |FlatTo(parts, i)| >= |Flat(parts)| && forall k: nat | k < |parts| :: parts[k] != []
    ensures i == |parts|
  {
    if i < |parts| {
      FlatGrows(parts, i + 1, |parts|);
    }
  }

  lemma ReadIsAll(entries: seq<Entry>, i: nat)
    requires Encodable(entries) && i <= |entries| && |FlatTo(Parts(entries), i)| >= |Bytes(entries)|
    ensures i == |entries|
  {
    PartsAreSome(entries);
    AllRead(Parts(entries), i);
  }

  // ---- Property IDs: four fields of a byte, the first one on top ----

  function Field(prop: nat, level: nat): nat {
    (if level == 1 then prop / 0x100_0000
     else if level == 2 then prop / 0x1_0000
     else if level == 3 then prop / 0x100
     else prop) % 0x100
  }

  // Fields range from 1 to 126. A field with the top bit is an array, and the one behind it an index from 0 to 254.
  predicate FieldsOk(prop: nat, level: nat, index: bool)
    decreases 5 - level
  {
    level > 4
    || (if index then Field(prop, level) != 0xFF && FieldsOk(prop, level + 1, false)
        else if Field(prop, level) >= 0x80 then
          Field(prop, level) != 0xFF && Field(prop, level) != 0x80 && FieldsOk(prop, level + 1, true)
        else Field(prop, level) != 0 && Field(prop, level) != 0x7F && FieldsOk(prop, level + 1, false))
  }

  predicate IsValidId(prop: nat) { prop < TWO_32 && FieldsOk(prop, 1, false) }

  // A field that is not an index: 1 to 126, or the same with the top bit for an array
  predicate IsName(field: nat) { 1 <= field <= 0x7E || 0x81 <= field <= 0xFE }

  /** The valid IDs field by field: the one behind an array is its index, all others are names. */
  lemma ValidIff(a: nat, b: nat, c: nat, d: nat)
    requires a < 0x100 && b < 0x100 && c < 0x100 && d < 0x100
    ensures var ofA := a > 0x80;
            var ofB := !ofA && b > 0x80;
            var ofC := !ofB && c > 0x80;
            IsValidId(a * 0x100_0000 + b * 0x1_0000 + c * 0x100 + d)
            <==> && IsName(a) && (if ofA then b <= 0xFE else IsName(b))
                 && (if ofB then c <= 0xFE else IsName(c)) && (if ofC then d <= 0xFE else IsName(d))
  {
    FieldsAre(a, b, c, d);
    var prop := a * 0x100_0000 + b * 0x1_0000 + c * 0x100 + d;
    LastOkIff(prop, d, false);
    LastOkIff(prop, d, true);
    assert FieldsOk(prop, 3, false) <==> IsName(c) && FieldsOk(prop, 4, c > 0x80);
    assert FieldsOk(prop, 3, true) <==> c <= 0xFE && FieldsOk(prop, 4, false);
    assert FieldsOk(prop, 2, false) <==> IsName(b) && FieldsOk(prop, 3, b > 0x80);
    assert FieldsOk(prop, 2, true) <==> b <= 0xFE && FieldsOk(prop, 3, false);
  }

  lemma LastOkIff(prop: nat, d: nat, index: bool)
    requires Field(prop, 4) == d < 0x100
    ensures FieldsOk(prop, 4, index) <==> if index then d <= 0xFE else IsName(d)
  {
  }

  lemma FieldsAre(a: nat, b: nat, c: nat, d: nat)
    requires a < 0x100 && b < 0x100 && c < 0x100 && d < 0x100
    ensures var prop := a * 0x100_0000 + b * 0x1_0000 + c * 0x100 + d;
            && prop < TWO_32
            && Field(prop, 1) == a && Field(prop, 2) == b && Field(prop, 3) == c && Field(prop, 4) == d
  {
    DivModUnique(a * 0x100_0000 + b * 0x1_0000 + c * 0x100 + d, 0x100_0000, a, b * 0x1_0000 + c * 0x100 + d);
    DivModUnique(a * 0x100_0000 + b * 0x1_0000 + c * 0x100 + d, 0x1_0000, a * 0x100 + b, c * 0x100 + d);
    DivModUnique(a * 0x100_0000 + b * 0x1_0000 + c * 0x100 + d, 0x100, a * 0x1_0000 + b * 0x100 + c, d);
    DivModUnique(a * 0x1_0000 + b * 0x100 + c, 0x100, a * 0x100 + b, c);
  }

  lemma ValidIdsAreLarge(prop: nat)
    requires IsValidId(prop)
    ensures IsPropId(prop)
  {
    assert Field(prop, 1) != 0;
  }

  /** prop_is_valid, without masks */
  method PropIsValid(prop: nat) returns (valid: bool)
    ensures valid == FieldsOk(prop, 1, false)
  {
    var prevArray := false;
    for level := 1 to 5
      invariant FieldsOk(prop, level, prevArray) == FieldsOk(prop, 1, false)
    {
      var field := Field(prop, level);
      if prevArray {
        if field == 0xFF {
          return false;
        }
        prevArray := false;
      } else if field >= 0x80 {
        if field == 0xFF || field - 0x80 == 0 {
          return false;
        }
        prevArray := true;
      } else {
        if field == 0 || field == 0x7F {
          return false;
        }
        prevArray := false;
      }
    }
    return true;
  }

  // ---- The database ----

  // What prop_item_replace lets through
  function Merged(was: Entry, e: Entry): Entry {
    if was.readonly then was
    else e.(readonly := was.readonly, persist := was.persist, protect := was.protect || e.protect)
  }

  /** What a database is after prop_set. */
  function SetIn(props: map<nat, Entry>, e: Entry): map<nat, Entry> {
    if !IsValidId(e.prop) then props
    else props[e.prop := if e.prop in props then Merged(props[e.prop], e) else e]
  }

  /** Setting a property that is there keeps whether it is read-only and whether it is persistent, and never takes its
      protection away; its value is the new one unless it is read-only. Setting a new one adds it as it is, if its ID is
      valid. No other property changes. */
  lemma AttributesStay(props: map<nat, Entry>, e: Entry, k: nat)
    ensures k in props ==>
              && k in SetIn(props, e) && SetIn(props, e)[k].readonly == props[k].readonly
              && SetIn(props, e)[k].persist == props[k].persist
    ensures k in props && (k != e.prop || props[k].readonly || !IsValidId(k)) ==> SetIn(props, e)[k] == props[k]
    ensures k in props && k == e.prop && !props[k].readonly && IsValidId(k) ==>
              && SetIn(props, e)[k].value == e.value
              && SetIn(props, e)[k].protect == (props[k].protect || e.protect)
    ensures k !in props ==>
              && (k in SetIn(props, e) <==> k == e.prop && IsValidId(k))
              && (k in SetIn(props, e) ==> SetIn(props, e)[k] == e)
  {
  }

  // Whether an entry that is set makes something persistent that the log does not have: what prop_set means to tell
  predicate Marks(props: map<nat, Entry>, e: Entry) {
    if e.prop in props && !props[e.prop].readonly then props[e.prop].persist else e.persist
  }

  // What a database is after the first i entries have been read back
  function RestoredTo(props: map<nat, Entry>, entries: seq<Entry>, i: nat): map<nat, Entry>
    requires i <= |entries|
  {
    if i == 0 then props else SetIn(RestoredTo(props, entries, i - 1), entries[i - 1].Decoded())
  }

  function Restored(props: map<nat, Entry>, entries: seq<Entry>): map<nat, Entry> {
    RestoredTo(props, entries, |entries|)
  }

  // The callback of the hash
  function PropItemReplace(prop: nat, was: Entry, e: Entry): Option<Entry> {
    if was.readonly then None else Some(Merged(was, e))
  }

  // ---- What prop_set looks at after the insertion ----

  ghost function Carried(e: Entry): HT.Entry<nat, Entry> { HT.Entry.Entry(e.prop, D.HashInt(e.prop), 1, false, e) }

  /** What an insertion leaves in the entry that prop_set has passed on, when it begins with these buckets. */
  ghost function Buffer(t: seq<HT.Entry<nat, Entry>>, props: map<nat, Entry>, e: Entry): Entry
    requires |t| > 0
  {
    HP.LeftIn(HP.Probed(t, Carried(e)), Given(props, e))
  }

  ghost predicate RobsNone(t: seq<HT.Entry<nat, Entry>>, e: Entry)
    requires |t| > 0
  {
    HP.LastRobbed(t, Carried(e)) == None
  }

  /** It says whether the log needs an update exactly when the property was there before, when the insertion robs no
      bucket, or when the entry that it robs last happens to say the same. */
  lemma FlagIsRightIff(t: seq<HT.Entry<nat, Entry>>, props: map<nat, Entry>, e: Entry)
    requires |t| > 0 && (HP.Probed(t, Carried(e)).Matched? <==> e.prop in props)
    ensures Left(t, props, e).persist == Marks(props, e) <==>
              || e.prop in props || RobsNone(t, e)
              || HP.LastRobbed(t, Carried(e)).value.value.persist == e.persist
  {
    if e.prop !in props {
      HP.BufferIs(t, Carried(e));
    }
  }

  // With a read-only property the callback refuses before it has changed anything
  ghost function Left(t: seq<HT.Entry<nat, Entry>>, props: map<nat, Entry>, e: Entry): Entry
    requires |t| > 0
  {
    if e.prop in props && props[e.prop].readonly then e else Buffer(t, props, e)
  }

  ghost predicate Props(props: map<nat, Entry>) {
    forall k | k in props :: IsValidId(k) && props[k].prop == k && Storable(props[k].value)
  }

  lemma PropsStay(was: map<nat, Entry>, kept: map<nat, Entry>, now: map<nat, Entry>, e: Entry, status: bool)
    requires Props(was) && D.SubMap(kept, was) && SetOutcome(kept, now, e, status) && IsValidId(e.prop)
    requires Storable(e.value)
    ensures Props(now)
  {
  }

  lemma AllSet(kept: map<nat, Entry>, now: map<nat, Entry>, e: Entry, status: bool)
    requires SetOutcome(kept, now, e, status) && (status <==> !(e.prop in kept && kept[e.prop].readonly))
    requires IsValidId(e.prop)
    ensures now == SetIn(kept, e)
  {
    if !status {
      assert kept[e.prop := kept[e.prop]] == kept;
    }
  }

  // What setting an entry leaves of the map: the outcomes of dh_insert
  ghost predicate SetOutcome(was: map<nat, Entry>, now: map<nat, Entry>, e: Entry, status: bool) {
    if e.prop in was && was[e.prop].readonly then !status && now == was
    else if status then now == SetIn(was, e)
    else e.prop !in was && D.LostOne(now, was[e.prop := e])
  }

  // How an entry is set: not at all for an ID that is not valid, not at all when growth is turned down, or by an
  // insertion into buckets that stand for `kept`
  datatype Way =
    | Rejected
    | TurnedDown
    | Inserted(kept: map<nat, Entry>, begun: seq<HT.Entry<nat, Entry>>)

  // The outcome of prop_set
  ghost predicate IsSet(way: Way, was: map<nat, Entry>, now: map<nat, Entry>, keys: HT.Keys<nat>,
                        ended: seq<HT.Entry<nat, Entry>>, e: Entry, status: bool, left: Entry) {
    match way
    case Rejected => !IsValidId(e.prop) && !status && now == was
    case TurnedDown => IsValidId(e.prop) && !status && now == was && left == e
    case Inserted(kept, begun) =>
      && IsValidId(e.prop) && HT.Represents(begun, keys, kept) && D.SubMap(kept, was)
      && (|was| < HT.MAX_PROBE_COUNT ==> kept == was)
      && SetOutcome(kept, now, e, status) && left == Left(begun, kept, e)
      && (HP.Probed(begun, Carried(e)).Matched? <==> e.prop in kept)
      && HP.EndsAs(HP.Probed(begun, Carried(e)), ended, Given(kept, e), status)
  }

  // What the callback makes of an entry
  function Given(props: map<nat, Entry>, e: Entry): Entry { if e.prop in props then Merged(props[e.prop], e) else e }

  // The database, and whether there is room for what is still to come
  datatype DbState = DbState(m: map<nat, Entry>, t: seq<HT.Entry<nat, Entry>>, marked: bool, roomy: bool)

  // How one of several entries was set
  datatype SetStep = SetStep(was: DbState, way: Way, left: Entry, now: DbState) {
    // It has left an entry that says that the log needs an update
    predicate Marks() { way != Rejected && left.persist }
  }

  ghost predicate IsStep(s: SetStep, keys: HT.Keys<nat>, e: Entry) {
    match s.way
    case Rejected => !IsValidId(e.prop)
    case TurnedDown => IsValidId(e.prop) && s.left == e
    case Inserted(kept, begun) =>
      && IsValidId(e.prop) && HT.Represents(begun, keys, kept) && s.left == Left(begun, kept, e)
      && (HP.Probed(begun, Carried(e)).Matched? <==> e.prop in kept)
  }

  // What it has done to the database. Below the load limit the insertion begins with the buckets that were there.
  ghost predicate OneSet(s: SetStep, keys: HT.Keys<nat>, e: Entry) {
    && IsStep(s, keys, e) && s.now.marked == (s.was.marked || s.Marks())
    && (s.was.roomy ==> s.now.m == SetIn(s.was.m, e) && s.now.roomy)
    && (s.was.roomy && IsValidId(e.prop) ==> InsertedIn(s.way, s.was.m))
    && (IsValidId(e.prop) && |s.was.m| < D.MaxLoad(|s.was.t|) ==> s.way == Inserted(s.was.m, s.was.t))
  }

  ghost predicate InsertedIn(way: Way, m: map<nat, Entry>) { way.Inserted? && way.kept == m }

  function NowOf(start: DbState, steps: seq<SetStep>, i: nat): DbState
    requires i <= |steps|
  {
    if i == 0 then start else steps[i - 1].now
  }

  // Entry i was set, in what the ones before it had made of the database
  ghost predicate Linked(start: DbState, steps: seq<SetStep>, keys: HT.Keys<nat>, entries: seq<Entry>, i: nat)
    requires i < |steps| <= |entries|
  {
    steps[i].was == NowOf(start, steps, i) && OneSet(steps[i], keys, entries[i].Decoded())
  }

  ghost predicate Links(start: DbState, keys: HT.Keys<nat>, entries: seq<Entry>, steps: seq<SetStep>) {
    |steps| <= |entries| && forall i: nat | i < |steps| :: Linked(start, steps, keys, entries, i)
  }

  lemma OneMoreLink(start: DbState, keys: HT.Keys<nat>, entries: seq<Entry>, steps: seq<SetStep>, s: SetStep)
    requires |steps| < |entries| && Links(start, keys, entries, steps)
    requires s.was == NowOf(start, steps, |steps|) && OneSet(s, keys, entries[|steps|].Decoded())
    ensures Links(start, keys, entries, steps + [s])
  {
    forall i: nat | i < |steps| ensures Linked(start, steps + [s], keys, entries, i) {
      assert Linked(start, steps, keys, entries, i);
    }
  }

  ghost predicate Marked(steps: seq<SetStep>, i: nat)
    requires i <= |steps|
  {
    exists j: nat :: j < i && steps[j].Marks()
  }

  // What the first i of them have made of the database
  lemma {:induction false} LinkedTo(start: DbState, keys: HT.Keys<nat>, entries: seq<Entry>, steps: seq<SetStep>,
                                    i: nat)
    requires Links(start, keys, entries, steps) && i <= |steps|
    ensures var s := NowOf(start, steps, i);
            && s.marked == (start.marked || Marked(steps, i))
            && (start.roomy ==> s.m == RestoredTo(start.m, entries, i) && s.roomy)
  {
    if i > 0 {
      LinkedTo(start, keys, entries, steps, i - 1);
      assert Linked(start, steps, keys, entries, i - 1);
      assert Marked(steps, i) <==> Marked(steps, i - 1) || steps[i - 1].Marks();
    }
  }

  // There is room for n more entries beside so many
  ghost predicate Room(t: seq<HT.Entry<nat, Entry>>, size: nat, isStatic: bool, n: nat, granted: bool) {
    && HT.NoTombstones(t) && size + n <= HT.MAX_PROBE_COUNT
    && ((granted && !isStatic) || size + n <= D.MaxLoad(|t|))
  }

  // One of them takes no more than its own
  lemma RoomStays(t: seq<HT.Entry<nat, Entry>>, was: map<nat, Entry>, isStatic: bool, n: nat, granted: bool, e: Entry,
                  t': seq<HT.Entry<nat, Entry>>)
    requires n > 0 && Room(t, |was|, isStatic, n, granted) && HT.NoTombstones(t')
    requires (!granted || isStatic ==> |t'| == |t|)
    ensures Room(t, |was|, isStatic, 1, granted) && Room(t', |SetIn(was, e)|, isStatic, n - 1, granted)
  {
    if IsValidId(e.prop) {
      var v := if e.prop in was then Merged(was[e.prop], e) else e;
      assert SetIn(was, e).Keys == was.Keys + {e.prop};
      HT.SubsetSize(SetIn(was, e).Keys, was.Keys + {e.prop});
    }
  }

  const NO_ENTRY: Entry := Entry(0, UInt(0), false, false, false)

  function FreshBucket(): HT.Entry<nat, Entry> { HT.Entry.Entry(0, 0, 0, false, NO_ENTRY) }

  class PropDb {
    const hash: D.DHash<nat, Entry>
    var transactions: nat      // calls under way that change the database
    var persistUpdated: bool
    const hasHub: bool
    var updates: nat           // P_EVENT_STORAGE_PROP_UPDATE messages sent so far

    // prop_set lets no other IDs in
    ghost predicate Valid()
      reads hash, hash.buckets
    {
      match hash.replaceItem
      case None => false
      case Some(_) => hash.Valid() && Configured() && Props(hash.m)
    }

    ghost predicate Configured() {
      && hash.keys.wiped == 0 && (forall k: nat :: hash.keys.hash(k) == D.HashInt(k))
      && hash.replaceItem.Some?
      && forall k: nat, was: Entry, e: Entry :: hash.replaceItem.value(k, was, e) == PropItemReplace(k, was, e)
    }

    /** prop_db_init */
    constructor (initCapacity: nat, hasHub: bool)
      ensures Valid() && hash.m == map[] && transactions == 0 && !persistUpdated && updates == 0
      ensures this.hasHub == hasHub
      ensures fresh(hash) && fresh(hash.buckets) && D.LeastPrime(initCapacity, hash.buckets.Length)
      ensures HT.NoTombstones(hash.buckets[..]) && !hash.staticBuckets
      ensures forall b: nat | b < hash.buckets.Length :: hash.buckets[b] == FreshBucket()
    {
      var h := new D.DHash<nat, Entry>(initCapacity, k => k, 0, NO_ENTRY, Some(PropItemReplace));
      this.hash := h;
      this.hasHub := hasHub;
      transactions, persistUpdated, updates := 0, false, 0;
    }

    method TransactBegin()
      modifies this`transactions
      ensures transactions == old(transactions) + 1
    {
      transactions := transactions + 1;
    }

    // The messages so far and the flag, at the end of the outermost transaction that has changed something persistent
    predicate Told(sent: nat, marked: bool)
      reads this
    {
      var tells := transactions == 0 && marked && hasHub;
      updates == (if tells then sent + 1 else sent) && persistUpdated == (marked && !tells)
    }

    /** One message is sent when the outermost transaction ends with something to tell, and none before; without a hub
        to send it to, what is to be told is kept. */
    lemma ToldIff(sent: nat, marked: bool)
      requires Told(sent, marked)
      ensures transactions == 0 && marked && hasHub ==> updates == sent + 1 && !persistUpdated
      ensures transactions > 0 || !marked || !hasHub ==> updates == sent && persistUpdated == marked
    {
    }

    method TransactEnd()
      requires transactions > 0
      modifies this`transactions, this`persistUpdated, this`updates
      ensures transactions == old(transactions) - 1 && Told(old(updates), old(persistUpdated))
    {
      transactions := transactions - 1;
      if transactions == 0 && persistUpdated {
        if hasHub {
          updates := updates + 1;
          persistUpdated := false;
        }
      }
    }

    // The insertion of prop_set
    method InsertProp(e: Entry, granted: bool, ghost n: nat) returns (status: bool, value: Entry, ghost way: Way)
      requires Valid() && Storable(e.value) && IsValidId(e.prop)
      modifies hash, hash.buckets
      ensures unchanged(this)
      ensures Valid() && (hash.buckets == old(hash.buckets) || fresh(hash.buckets))
      ensures IsSet(way, old(hash.m), hash.m, hash.keys, hash.buckets[..], e, status, value)
      ensures way == TurnedDown <==> old(hash.TurnsDown(granted))
      ensures |old(hash.m)| < D.MaxLoad(old(hash.buckets.Length)) ==>
                way == Inserted(old(hash.m), old(hash.buckets[..]))
      ensures n > 0 && old(Roomy(n, granted)) ==>
                InsertedIn(way, old(hash.m)) && hash.m == SetIn(old(hash.m), e) && Roomy(n - 1, granted)
    {
      ghost var turnedDown, was := hash.TurnsDown(granted), hash.m;
      ghost var t, roomy := hash.buckets[..], n > 0 && Roomy(n, granted);
      ghost var kept, begun;
      IsAdmitted(e.prop);
      status, value, kept, begun := hash.Insert(e.prop, e, granted);
      way := if turnedDown then TurnedDown else Inserted(kept, begun);
      if !turnedDown {
        InsertionIs(was, kept, begun, e, status, value, roomy);
      }
      if roomy {
        RoomStays(t, was, hash.staticBuckets, n, granted, e, hash.buckets[..]);
      }
    }

    lemma IsAdmitted(prop: nat)
      requires Configured() && IsValidId(prop)
      ensures hash.keys.Admits(prop)
    {
      ValidIdsAreLarge(prop);
    }

    // An insertion into these buckets has ended
    lemma InsertionIs(was: map<nat, Entry>, kept: map<nat, Entry>, begun: seq<HT.Entry<nat, Entry>>, e: Entry,
                      status: bool, left: Entry, all: bool)
      requires hash.Valid() && Configured() && Props(was) && IsValidId(e.prop) && Storable(e.value)
      requires HT.Represents(begun, hash.keys, kept) && D.SubMap(kept, was)
      requires (|was| < HT.MAX_PROBE_COUNT ==> kept == was)
      requires hash.InsertOutcome(kept, hash.m, e.prop, e, status)
      requires hash.InsertedFrom(begun, kept, e.prop, e, status, left)
      requires all ==> (status <==> !hash.Refuses(kept, e.prop, e))
      ensures Valid() && IsSet(Inserted(kept, begun), was, hash.m, hash.keys, hash.buckets[..], e, status, left)
      ensures all ==> hash.m == SetIn(kept, e)
    {
      OutcomeIs(kept, hash.m, e, status);
      LeftIs(begun, kept, hash.m, e, status, left);
      PropsStay(was, kept, hash.m, e, status);
      if all {
        RefusedIs(kept, e);
        AllSet(kept, hash.m, e, status);
      }
    }

    lemma RefusedIs(kept: map<nat, Entry>, e: Entry)
      requires Configured()
      ensures hash.Refuses(kept, e.prop, e) <==> e.prop in kept && kept[e.prop].readonly
    {
      if e.prop in kept {
        assert hash.replaceItem.value(e.prop, kept[e.prop], e) == PropItemReplace(e.prop, kept[e.prop], e);
      }
    }

    // The callback is what is meant here
    lemma OutcomeIs(kept: map<nat, Entry>, now: map<nat, Entry>, e: Entry, status: bool)
      requires Configured() && hash.InsertOutcome(kept, now, e.prop, e, status) && IsValidId(e.prop)
      ensures SetOutcome(kept, now, e, status)
    {
      if e.prop in kept {
        assert hash.replaceItem.value(e.prop, kept[e.prop], e) == PropItemReplace(e.prop, kept[e.prop], e);
      }
    }

    lemma LeftIs(begun: seq<HT.Entry<nat, Entry>>, kept: map<nat, Entry>, now: map<nat, Entry>, e: Entry, status: bool,
                 left: Entry)
      requires Configured() && hash.InsertOutcome(kept, now, e.prop, e, status) && |begun| > 0
      requires hash.InsertedFrom(begun, kept, e.prop, e, status, left)
      ensures left == Left(begun, kept, e) && (HP.Probed(begun, Carried(e)).Matched? <==> e.prop in kept)
      ensures HP.EndsAs(HP.Probed(begun, Carried(e)), hash.buckets[..], Given(kept, e), status)
    {
      if e.prop in kept {
        assert hash.replaceItem.value(e.prop, kept[e.prop], e) == PropItemReplace(e.prop, kept[e.prop], e);
      }
    }

    /** prop_set with a value. Whether it tells of a change is up to what the insertion has left in the entry that it
        was given. When there is room for n entries, there is room for the others afterwards. */
    method PropSet(e: Entry, granted: bool, ghost n: nat := 1) returns (status: bool, left: Entry, ghost way: Way)
      requires Valid() && Storable(e.value) && e.prop < TWO_32
      modifies this, hash, hash.buckets
      ensures Valid() && transactions == old(transactions) && (hash.buckets == old(hash.buckets) || fresh(hash.buckets))
      ensures IsSet(way, old(hash.m), hash.m, hash.keys, hash.buckets[..], e, status, left)
      ensures way == Rejected ==>
                && hash.buckets[..] == old(hash.buckets[..])
                && persistUpdated == old(persistUpdated) && updates == old(updates)
      ensures way != Rejected ==> Told(old(updates), old(persistUpdated) || left.persist)
      ensures way == TurnedDown <==> IsValidId(e.prop) && old(hash.TurnsDown(granted))
      ensures IsValidId(e.prop) && |old(hash.m)| < D.MaxLoad(old(hash.buckets.Length)) ==>
                way == Inserted(old(hash.m), old(hash.buckets[..]))
      ensures n > 0 && old(Roomy(n, granted)) ==> hash.m == SetIn(old(hash.m), e) && Roomy(n - 1, granted)
      ensures n > 0 && old(Roomy(n, granted)) && IsValidId(e.prop) ==> InsertedIn(way, old(hash.m))
    {
      var valid := PropIsValid(e.prop);
      if !valid {
        return false, e, Rejected;
      }
      status, left, way := SetValid(e, granted, n);
    }

    // For a valid ID
    method SetValid(e: Entry, granted: bool, ghost n: nat) returns (status: bool, left: Entry, ghost way: Way)
      requires Valid() && Storable(e.value) && IsValidId(e.prop)
      modifies this, hash, hash.buckets
      ensures Valid() && transactions == old(transactions) && (hash.buckets == old(hash.buckets) || fresh(hash.buckets))
      ensures IsSet(way, old(hash.m), hash.m, hash.keys, hash.buckets[..], e, status, left)
      ensures Told(old(updates), old(persistUpdated) || left.persist)
      ensures way == TurnedDown <==> old(hash.TurnsDown(granted))
      ensures |old(hash.m)| < D.MaxLoad(old(hash.buckets.Length)) ==>
                way == Inserted(old(hash.m), old(hash.buckets[..]))
      ensures n > 0 && old(Roomy(n, granted)) ==>
                InsertedIn(way, old(hash.m)) && hash.m == SetIn(old(hash.m), e) && Roomy(n - 1, granted)
    {
      ghost var sent, marked := updates, persistUpdated;
      TransactBegin();
      status, left, way := InsertProp(e, granted, n);
      NoteChange(left.persist, sent, marked);
    }

    method NoteChange(persist: bool, ghost sent: nat, ghost marked: bool)
      requires transactions > 0 && sent == updates && marked == persistUpdated
      modifies this`transactions, this`persistUpdated, this`updates
      ensures transactions == old(transactions) - 1 && Told(sent, marked || persist)
    {
      if persist {
        persistUpdated := true;
      }
      TransactEnd();
    }

    /** prop_db_deserialize of the bytes of some entries: sets each of them, in what the ones before it have made of the
        database, and tells at the end of what the insertions have left. With room for all of them the database is what
        setting one after the other makes of it. */
    method Deserialize(data: array<byte>, dataLen: nat, ghost entries: seq<Entry>, granted: bool)
      returns (count: nat, ghost steps: seq<SetStep>)
      requires Valid() && Encodable(entries) && dataLen <= data.Length && data[..dataLen] == Bytes(entries)
      modifies this, hash, hash.buckets
      ensures Valid() && count == |entries| == |steps| && transactions == old(transactions)
      ensures old(Roomy(|entries|, granted)) ==> hash.m == Restored(old(hash.m), entries)
      ensures Links(old(State(|entries|, granted)), hash.keys, entries, steps)
      ensures Told(old(updates), old(persistUpdated) || Marked(steps, |steps|))
    {
      ghost var start := State(|entries|, granted);
      TransactBegin();
      count, steps := RestoreAll(data, dataLen, entries, granted, start);
      LinkedTo(start, hash.keys, entries, steps, |entries|);
      TransactEnd();
    }

    // Its loop
    method RestoreAll(data: array<byte>, dataLen: nat, ghost entries: seq<Entry>, granted: bool, ghost start: DbState)
      returns (count: nat, ghost steps: seq<SetStep>)
      requires Valid() && Encodable(entries) && dataLen <= data.Length && data[..dataLen] == Bytes(entries)
      requires transactions > 0 && start == State(|entries|, granted)
      modifies this, hash, hash.buckets
      ensures Valid() && count == |entries| == |steps| && transactions == old(transactions) && updates == old(updates)
      ensures Come(start, entries, steps, granted)
    {
      count, steps := 0, [];
      var pos: nat := 0;
      while pos < dataLen
        invariant count == |steps| <= |entries| && pos == |FlatTo(Parts(entries), count)|
        invariant Valid() && (hash.buckets == old(hash.buckets) || fresh(hash.buckets))
        invariant Come(start, entries, steps, granted)
        invariant transactions == old(transactions) && updates == old(updates)
        decreases |entries| - count
      {
        pos, steps := RestoreNext(data, dataLen, pos, entries, granted, start, steps);
        count := count + 1;
      }
      ReadIsAll(entries, count);
    }

    // The first entries have been set, and there is room for the others
    ghost predicate Come(start: DbState, entries: seq<Entry>, steps: seq<SetStep>, granted: bool)
      reads this, hash, hash.buckets
    {
      Links(start, hash.keys, entries, steps) && State(|entries| - |steps|, granted) == NowOf(start, steps, |steps|)
    }

    // One turn of its loop
    method RestoreNext(data: array<byte>, dataLen: nat, pos: nat, ghost entries: seq<Entry>, granted: bool,
                       ghost start: DbState, ghost steps: seq<SetStep>)
      returns (pos': nat, ghost steps': seq<SetStep>)
      requires Valid() && Encodable(entries) && dataLen <= data.Length && data[..dataLen] == Bytes(entries)
      requires |steps| < |entries| && transactions > 0 && pos == |FlatTo(Parts(entries), |steps|)|
      requires Come(start, entries, steps, granted)
      modifies this, hash, hash.buckets
      ensures Valid() && transactions == old(transactions) && updates == old(updates)
      ensures hash.buckets == old(hash.buckets) || fresh(hash.buckets)
      ensures |steps'| == |steps| + 1 && pos' == |FlatTo(Parts(entries), |steps'|)|
      ensures Come(start, entries, steps', granted)
    {
      ghost var i := |steps|;
      PartIn(Parts(entries), i);
      HeldIn(data[..], dataLen, pos, Parts(entries)[i]);
      var entry, numBytes := DecodeNext(data, pos, entries, i);
      pos' := pos + numBytes;
      steps' := LinkNext(entry, entries, granted, start, steps);
    }

    // The next entry is set
    method LinkNext(e: Entry, ghost entries: seq<Entry>, granted: bool, ghost start: DbState, ghost steps: seq<SetStep>)
      returns (ghost steps': seq<SetStep>)
      requires Valid() && transactions > 0 && |steps| < |entries| && e == entries[|steps|].Decoded()
      requires Storable(e.value) && e.prop < TWO_32 && Come(start, entries, steps, granted)
      modifies this, hash, hash.buckets
      ensures Valid() && transactions == old(transactions) && updates == old(updates)
      ensures hash.buckets == old(hash.buckets) || fresh(hash.buckets)
      ensures |steps'| == |steps| + 1 && Come(start, entries, steps', granted)
    {
      ghost var step;
      step := RestoreOne(e, |entries| - |steps|, granted);
      OneMoreLink(start, hash.keys, entries, steps, step);
      steps' := steps + [step];
    }

    // Setting one entry, with room for it and the ones behind it
    method RestoreOne(e: Entry, ghost n: nat, granted: bool) returns (ghost step: SetStep)
      requires Valid() && Storable(e.value) && e.prop < TWO_32 && transactions > 0 && n > 0
      modifies this, hash, hash.buckets
      ensures Valid() && transactions == old(transactions) && updates == old(updates)
      ensures hash.buckets == old(hash.buckets) || fresh(hash.buckets)
      ensures step.was == old(State(n, granted)) && step.now == State(n - 1, granted) && OneSet(step, hash.keys, e)
    {
      ghost var was := State(n, granted);
      var _, left, way := PropSet(e, granted, n);
      step := SetStep(was, way, left, State(n - 1, granted));
    }

    // The database, with room for n more entries or not
    ghost function State(n: nat, granted: bool): DbState
      reads this, hash, hash.buckets
    {
      DbState(hash.m, hash.buckets[..], persistUpdated, Roomy(n, granted))
    }

    lemma HeldIn(data: seq<byte>, n: nat, pos: nat, part: seq<byte>)
      requires n <= |data| && Holds(data[..n], pos, part)
      ensures Holds(data, pos, part)
    {
    }

    // There is room for n more entries
    ghost predicate Roomy(n: nat, granted: bool)
      reads hash, hash.buckets
    {
      Room(hash.buckets[..], |hash.m|, hash.staticBuckets, n, granted)
    }
  }

  // ---- What comes back ----

  // The iterator delivers each entry of the database once
  ghost predicate Lists(entries: seq<Entry>, props: map<nat, Entry>) {
    && (forall i: nat | i < |entries| :: entries[i].prop in props && props[entries[i].prop] == entries[i])
    && (forall k | k in props :: exists i: nat :: i < |entries| && entries[i].prop == k)
    && Distinct(entries)
  }

  ghost predicate Distinct(entries: seq<Entry>) {
    forall i: nat, j: nat | i < j < |entries| :: entries[i].prop != entries[j].prop
  }

  function At(props: map<nat, Entry>, k: nat): Option<Entry> { if k in props then Some(props[k]) else None }

  lemma {:induction false} RestoredOfPrefix(props: map<nat, Entry>, entries: seq<Entry>, e: Entry, i: nat)
    requires i <= |entries|
    ensures RestoredTo(props, entries + [e], i) == RestoredTo(props, entries, i)
  {
    if i > 0 {
      RestoredOfPrefix(props, entries, e, i - 1);
    }
  }

  // One of the first i entries is stored for this property
  ghost predicate StoredFor(entries: seq<Entry>, i: nat, k: nat)
    requires i <= |entries|
  {
    exists j: nat :: j < i && entries[j].prop == k && entries[j].IsStored()
  }

  // What a property is in a database that the first i entries were read back into
  lemma {:induction false} OneMoreRestored(props: map<nat, Entry>, entries: seq<Entry>, i: nat)
    requires 0 < i <= |entries|
    ensures Restored(props, StoredTo(entries, i))
            == if entries[i - 1].IsStored() then
                 SetIn(Restored(props, StoredTo(entries, i - 1)), entries[i - 1].Decoded())
               else Restored(props, StoredTo(entries, i - 1))
  {
    var before := StoredTo(entries, i - 1);
    if entries[i - 1].IsStored() {
      RestoredOfPrefix(props, before, entries[i - 1], |before|);
    } else {
      assert StoredTo(entries, i) == before;
    }
  }

  lemma {:induction false} OthersStay(props: map<nat, Entry>, entries: seq<Entry>, i: nat, k: nat)
    requires i <= |entries| && !StoredFor(entries, i, k)
    ensures At(Restored(props, StoredTo(entries, i)), k) == At(props, k)
  {
    if i > 0 {
      assert entries[i - 1].prop == k ==> !entries[i - 1].IsStored();
      OthersStay(props, entries, i - 1, k);
      OneMoreRestored(props, entries, i);
    }
  }

  lemma {:induction false} StoredIsSet(props: map<nat, Entry>, entries: seq<Entry>, i: nat, j: nat)
    requires j < i <= |entries| && Distinct(entries) && entries[j].IsStored()
    ensures At(Restored(props, StoredTo(entries, i)), entries[j].prop)
            == At(SetIn(props, entries[j].Decoded()), entries[j].prop)
  {
    OneMoreRestored(props, entries, i);
    if j + 1 < i {
      StoredIsSet(props, entries, i - 1, j);
      assert entries[i - 1].prop != entries[j].prop;
    } else {
      OthersStay(props, entries, j, entries[j].prop);
    }
  }

  /** Reading a saved database back into any other one sets exactly the persistent properties that are not read-only,
      each once, and leaves all others alone. */
  lemma SavedAreSet(saved: map<nat, Entry>, entries: seq<Entry>, props: map<nat, Entry>, k: nat)
    requires Lists(entries, saved)
    ensures At(Restored(props, Stored(entries)), k)
            == if k in saved && saved[k].persist && !saved[k].readonly then
                 At(SetIn(props, Entry(k, saved[k].value, true, false, saved[k].value.Blob?)), k)
               else At(props, k)
  {
    if k in saved && saved[k].IsStored() {
      var j: nat :| j < |entries| && entries[j].prop == k;
      StoredIsSet(props, entries, |entries|, j);
    } else {
      OthersStay(props, entries, |entries|, k);
    }
  }

  /** An empty database becomes what was saved, */
  lemma SavedComeBack(saved: map<nat, Entry>, entries: seq<Entry>)
    requires Lists(entries, saved) && forall k | k in saved :: IsValidId(k)
    ensures Restored(map[], Stored(entries))
            == map k | k in saved && saved[k].persist && !saved[k].readonly ::
                 Entry(k, saved[k].value, true, false, saved[k].value.Blob?)
  {
    var r := Restored(map[], Stored(entries));
    var wanted := map k | k in saved && saved[k].persist && !saved[k].readonly ::
                    Entry(k, saved[k].value, true, false, saved[k].value.Blob?);
    forall k ensures At(r, k) == At(wanted, k) {
      SavedAreSet(saved, entries, map[], k);
      AttributesStay(map[], Entry(k, if k in saved then saved[k].value else UInt(0), true, false,
                                  k in saved && saved[k].value.Blob?), k);
    }
    SameMaps(r, wanted);
  }

  lemma SameMaps(a: map<nat, Entry>, b: map<nat, Entry>)
    requires forall k :: At(a, k) == At(b, k)
    ensures a == b
  {
    forall k ensures k in a <==> k in b {
      assert At(a, k) == At(b, k);
    }
    forall k | k in a ensures a[k] == b[k] {
      assert At(a, k) == At(b, k);
    }
  }

  /** and the database it was saved from stays as it is, but for blobs, which become protected. */
  lemma SavingChangesNothing(saved: map<nat, Entry>, entries: seq<Entry>)
    requires Lists(entries, saved) && forall k | k in saved :: IsValidId(k)
    ensures Restored(saved, Stored(entries))
            == map k | k in saved ::
                 if saved[k].persist && !saved[k].readonly && saved[k].value.Blob? then saved[k].(protect := true)
                 else saved[k]
  {
    var r := Restored(saved, Stored(entries));
    forall k ensures At(r, k)
        == if k in saved && saved[k].persist && !saved[k].readonly && saved[k].value.Blob? then
             Some(saved[k].(protect := true))
           else At(saved, k)
    {
      SavedAreSet(saved, entries, saved, k);
    }
    assert forall k :: k in r <==> At(r, k).Some?;
  }

  // ---- Both together ----

  // The values that the iterator delivers
  function Values(items: seq<(nat, Entry)>): (r: seq<Entry>)
    ensures |r| == |items|
  {
    seq(|items|, i requires 0 <= i < |items| => items[i].1)
  }

  // They list the database
  lemma ValuesList(t: seq<HT.Entry<nat, Entry>>, props: map<nat, Entry>)
    requires HT.Stores(t, props) && forall k | k in props :: props[k].prop == k
    ensures Lists(Values(HT.LiveFrom(t, 0)), props)
  {
    var items := HT.LiveFrom(t, 0);
    HT.WalkMeetsEachPairOnce(t, props);
    forall i: nat | i < |items| ensures items[i].0 in props && props[items[i].0] == items[i].1 {
      assert items[i] in items;
    }
    forall k | k in props ensures exists i: nat :: i < |Values(items)| && Values(items)[i].prop == k {
      assert (k, props[k]) in items;
      var i: nat :| i < |items| && items[i] == (k, props[k]);
      assert Values(items)[i].prop == k;
    }
  }

  // Some of the items have been seen, and their values collected
  ghost predicate Collected(seen: seq<(nat, Entry)>, left: seq<(nat, Entry)>, all: seq<(nat, Entry)>,
                            entries: seq<Entry>) {
    seen + left == all && entries == Values(seen)
  }

  lemma OneMoreCollected(seen: seq<(nat, Entry)>, left: seq<(nat, Entry)>, all: seq<(nat, Entry)>, entries: seq<Entry>)
    requires left != [] && Collected(seen, left, all, entries)
    ensures Collected(seen + [left[0]], left[1..], all, entries + [left[0].1])
  {
    assert seen + left == (seen + [left[0]]) + left[1..];
  }

  // dh_iter_next over the whole hash
  method Collect(db: PropDb) returns (entries: seq<Entry>)
    requires db.Valid()
    ensures Lists(entries, db.hash.m)
  {
    entries := [];
    var it := new D.DhIter<nat, Entry>(db.hash);
    ghost var all, seen: seq<(nat, Entry)> := it.Remaining(), [];
    assert Collected(seen, it.Remaining(), all, entries);
    var more := true;
    while more
      invariant fresh(it) && it.hash == db.hash && it.Valid()
      invariant Collected(seen, it.Remaining(), all, entries) && (!more ==> it.Remaining() == [])
      decreases more, |it.Remaining()|
    {
      ghost var left := it.Remaining();
      var item := it.Next();
      more := item.Some?;
      if item.Some? {
        OneMoreCollected(seen, left, all, entries);
        seen := seen + [item.value];
        entries := entries + [item.value.1];
      }
    }
    assert seen + [] == seen;
    ValuesList(db.hash.buckets[..], db.hash.m);
  }

  /** prop_db_serialize and prop_db_deserialize: what one database holds arrives in another one that has room for it, as
      long as it takes less than 2^16 bytes. A longer block is cut off, and nothing is read back here. */
  method SaveAndRestore(from: PropDb, to: PropDb, granted: bool) returns (whole: bool, entries: seq<Entry>)
    requires from != to && from.hash != to.hash && from.hash.buckets != to.hash.buckets && from.Valid() && to.Valid()
    modifies to, to.hash, to.hash.buckets
    ensures Lists(entries, old(from.hash.m)) && Encodable(entries) && Encodable(Stored(entries))
    ensures whole <==> |Bytes(Stored(entries))| < 0x1_0000
    ensures whole && old(to.Roomy(|Stored(entries)|, granted)) ==>
              to.Valid() && to.hash.m == Restored(old(to.hash.m), Stored(entries))
  {
    entries := Collect(from);
    forall i: nat | i < |entries| ensures IsPropId(entries[i].prop) && Storable(entries[i].value) {
      ValidIdsAreLarge(entries[i].prop);
    }
    var block, headerLen := Serialize(entries);
    whole := headerLen == block.Length;
    if whole {
      assert block[..headerLen] == block[..];
      var _, _ := to.Deserialize(block, headerLen, Stored(entries), granted);
    }
  }
}
