// src/util/mempool.c: pools of equal elements whose free ones are linked through their own storage. A pool set
// keeps its pools sorted by element size. Addresses are numbers; 0 is NULL.
module MemPool {
  import opened Arithmetic

  /** What the storage of an element holds: the link to the next free element, or data of its user. */
  datatype Chunk = Link(next: nat) | Data(bytes: seq<bv8>)

  const REF_COUNT_SIZE: nat := 4    // sizeof(mpRefCount)

  class Memory {
    var chunks: map<nat, Chunk>
  }

  // ---- The elements of a pool ----

  function ElementAt(begin: nat, k: nat, size: nat): nat {
    if k == 0 then begin else ElementAt(begin, k - 1, size) + size
  }

  ghost function Elements(begin: nat, count: nat, size: nat): set<nat> {
    if count == 0 then {} else Elements(begin, count - 1, size) + {ElementAt(begin, count - 1, size)}
  }

  lemma {:induction false} ElementsInRange(begin: nat, count: nat, size: nat, a: nat)
    requires a in Elements(begin, count, size)
    ensures begin <= a && a + size <= ElementAt(begin, count, size)
    decreases count
  {
    if a in Elements(begin, count - 1, size) {
      ElementsInRange(begin, count - 1, size, a);
    } else {
      ElementsAscend(begin, count - 1, size);
    }
  }

  lemma {:induction false} ElementsAscend(begin: nat, k: nat, size: nat)
    ensures begin <= ElementAt(begin, k, size)
    decreases k
  {
    if k > 0 {
      ElementsAscend(begin, k - 1, size);
    }
  }

  lemma {:induction false} HowManyElements(begin: nat, count: nat, size: nat)
    requires size > 0
    ensures |Elements(begin, count, size)| == count
    decreases count
  {
    if count > 0 {
      HowManyElements(begin, count - 1, size);
      if ElementAt(begin, count - 1, size) in Elements(begin, count - 1, size) {
        ElementsInRange(begin, count - 1, size, ElementAt(begin, count - 1, size));
      }
    }
  }

  // Elements of one pool do not overlap
  lemma {:induction false} ElementsApart(begin: nat, count: nat, size: nat, a: nat, b: nat)
    requires a in Elements(begin, count, size) && b in Elements(begin, count, size)
    ensures a == b || a + size <= b || b + size <= a
    decreases count
  {
    var last := ElementAt(begin, count - 1, size);
    if a in Elements(begin, count - 1, size) {
      ElementsInRange(begin, count - 1, size, a);
    }
    if b in Elements(begin, count - 1, size) {
      ElementsInRange(begin, count - 1, size, b);
    }
    if a in Elements(begin, count - 1, size) && b in Elements(begin, count - 1, size) {
      ElementsApart(begin, count - 1, size, a, b);
    }
  }

  // An element is a whole number of element sizes from the start, so it never looks reference counted
  lemma {:induction false} NotCounted(begin: nat, count: nat, size: nat, a: nat)
    requires size > REF_COUNT_SIZE && a in Elements(begin, count, size)
    ensures a >= begin && (a - begin) % size == 0
    decreases count
  {
    if a in Elements(begin, count - 1, size) {
      NotCounted(begin, count - 1, size, a);
    } else {
      OffsetIsMultiple(begin, count - 1, size);
      DivModUnique(a - begin, size, count - 1, 0);
    }
  }

  lemma {:induction false} OffsetIsMultiple(begin: nat, k: nat, size: nat)
    ensures ElementAt(begin, k, size) == begin + k * size
    decreases k
  {
    if k > 0 {
      OffsetIsMultiple(begin, k - 1, size);
      assert (k - 1) * size + size == k * size;
    }
  }

  // ---- Linked free lists ----

  // Following the links from head meets exactly these addresses and then NULL
  ghost predicate Chain(c: map<nat, Chunk>, head: nat, list: seq<nat>)
    decreases |list|
  {
    if list == [] then head == 0
    else head != 0 && head == list[0] && head in c && c[head].Link? && Chain(c, c[head].next, list[1..])
  }

  lemma {:induction false} ChainHasNoNull(c: map<nat, Chunk>, head: nat, list: seq<nat>)
    requires Chain(c, head, list)
    ensures 0 !in list
    decreases |list|
  {
    if list != [] {
      ChainHasNoNull(c, c[head].next, list[1..]);
      assert list == [list[0]] + list[1..];
    }
  }

  predicate NoDuplicates(list: seq<nat>) {
    forall i: nat, j: nat | i < j < |list| :: list[i] != list[j]
  }

  lemma {:induction false} ChainKept(c: map<nat, Chunk>, c': map<nat, Chunk>, head: nat, list: seq<nat>)
    requires Chain(c, head, list)
    requires forall i: nat | i < |list| :: list[i] in c ==> list[i] in c' && c'[list[i]] == c[list[i]]
    ensures Chain(c', head, list)
    decreases |list|
  {
    if list != [] {
      assert list[0] in c;
      forall i: nat | i < |list[1..]|
        ensures list[1..][i] in c ==> list[1..][i] in c' && c'[list[1..][i]] == c[list[1..][i]] {
        assert list[1..][i] == list[i + 1];
      }
      ChainKept(c, c', c[head].next, list[1..]);
    }
  }

  lemma {:induction false} ChainIsUnique(c: map<nat, Chunk>, head: nat, a: seq<nat>, b: seq<nat>)
    requires Chain(c, head, a) && Chain(c, head, b)
    ensures a == b
    decreases |a|
  {
    if a != [] && b != [] {
      ChainIsUnique(c, c[head].next, a[1..], b[1..]);
      assert a == [a[0]] + a[1..] && b == [b[0]] + b[1..];
    }
  }

  /** Freeing an element that is free already closes the list into a ring: from then on no finite list of
      addresses is what the links say. */
  lemma DoubleFreeIsARing(c: map<nat, Chunk>, head: nat, list: seq<nat>, a: nat, l: seq<nat>)
    requires Chain(c, head, list) && a in list
    ensures !Chain(c[a := Link(head)], a, l)
    decreases |l|
  {
    var c' := c[a := Link(head)];
    ChainHasNoNull(c, head, list);
    if l != [] && Chain(c', a, l) {
      var rest := Reaches(c, c', head, list, a, l[1..]);
      DoubleFreeIsARing(c, head, list, a, rest);
    }
  }

  // A chain that starts at the head of the old list passes the element freed twice
  lemma {:induction false} Reaches(c: map<nat, Chunk>, c': map<nat, Chunk>, head: nat, list: seq<nat>, a: nat,
                                   l: seq<nat>)
    returns (rest: seq<nat>)
    requires Chain(c, head, list) && a in list && Chain(c', head, l)
    requires forall x: nat | x in c && x != a :: x in c' && c'[x] == c[x]
    ensures |rest| <= |l| && Chain(c', a, rest)
    decreases |list|
  {
    ChainHasNoNull(c, head, list);
    if head == a {
      rest := l;
    } else {
      assert list == [list[0]] + list[1..];
      rest := Reaches(c, c', c[head].next, list[1..], a, l[1..]);
    }
  }

  // ---- The free list of a new pool: all elements in order ----

  ghost function InOrder(begin: nat, k: nat, count: nat, size: nat): seq<nat>
    decreases count - k
  {
    if k >= count then [] else [ElementAt(begin, k, size)] + InOrder(begin, k + 1, count, size)
  }

  // Element i is linked to the one behind it, the last one to NULL
  ghost predicate Linked(c: map<nat, Chunk>, begin: nat, i: nat, count: nat, size: nat) {
    var a := ElementAt(begin, i, size);
    a in c && c[a] == Link(if i + 1 < count then ElementAt(begin, i + 1, size) else 0)
  }

  lemma {:induction false} InOrderIs(begin: nat, k: nat, count: nat, size: nat)
    requires k <= count
    ensures |InOrder(begin, k, count, size)| == count - k
    ensures forall i: nat | i < count - k :: InOrder(begin, k, count, size)[i] == ElementAt(begin, k + i, size)
    decreases count - k
  {
    if k < count {
      InOrderIs(begin, k + 1, count, size);
    }
  }

  lemma {:induction false} InOrderChain(c: map<nat, Chunk>, begin: nat, k: nat, count: nat, size: nat)
    requires begin > 0 && k <= count && forall i: nat | k <= i < count :: Linked(c, begin, i, count, size)
    ensures Chain(c, if k < count then ElementAt(begin, k, size) else 0, InOrder(begin, k, count, size))
    decreases count - k
  {
    if k < count {
      assert Linked(c, begin, k, count, size);
      ElementsAscend(begin, k, size);
      InOrderChain(c, begin, k + 1, count, size);
      assert InOrder(begin, k, count, size)[1..] == InOrder(begin, k + 1, count, size);
    }
  }

  lemma {:induction false} LaterIsBehind(begin: nat, i: nat, j: nat, size: nat)
    requires i < j
    ensures ElementAt(begin, i, size) + size <= ElementAt(begin, j, size)
    decreases j
  {
    if i + 1 < j {
      LaterIsBehind(begin, i, j - 1, size);
    }
  }

  lemma {:induction false} InElements(begin: nat, i: nat, count: nat, size: nat)
    requires i < count
    ensures ElementAt(begin, i, size) in Elements(begin, count, size)
    decreases count
  {
    if i + 1 < count {
      InElements(begin, i, count - 1, size);
    }
  }

  lemma {:induction false} IndexOf(begin: nat, count: nat, size: nat, a: nat) returns (i: nat)
    requires a in Elements(begin, count, size)
    ensures i < count && a == ElementAt(begin, i, size)
    decreases count
  {
    if a == ElementAt(begin, count - 1, size) {
      i := count - 1;
    } else {
      i := IndexOf(begin, count - 1, size, a);
    }
  }

  lemma MoreLinked(c: map<nat, Chunk>, begin: nat, k: nat, count: nat, size: nat, next: nat)
    requires size > 0 && forall i: nat | i < k :: Linked(c, begin, i, count, size)
    requires next == if k + 1 < count then ElementAt(begin, k + 1, size) else 0
    ensures var c' := c[ElementAt(begin, k, size) := Link(next)];
            forall i: nat | i < k + 1 :: Linked(c', begin, i, count, size)
  {
    var c' := c[ElementAt(begin, k, size) := Link(next)];
    forall i: nat | i < k + 1 ensures Linked(c', begin, i, count, size) {
      if i < k {
        LaterIsBehind(begin, i, k, size);
        assert Linked(c, begin, i, count, size);
      }
    }
  }

  // A fully linked pool is a free list of all its elements
  lemma FullyLinked(c: map<nat, Chunk>, begin: nat, count: nat, size: nat)
    requires begin > 0 && count > 0 && size > 0 && forall i: nat | i < count :: Linked(c, begin, i, count, size)
    ensures var free := InOrder(begin, 0, count, size);
            && FreeListOk(c, begin, free, Elements(begin, count, size)) && |free| == count
            && Members(free) == Elements(begin, count, size)
  {
    var free, all := InOrder(begin, 0, count, size), Elements(begin, count, size);
    InOrderIs(begin, 0, count, size);
    InOrderChain(c, begin, 0, count, size);
    forall i: nat, j: nat | i < j < |free| ensures free[i] != free[j] {
      LaterIsBehind(begin, i, j, size);
    }
    forall i: nat | i < |free| ensures free[i] in all {
      InElements(begin, i, count, size);
    }
    forall a: nat | a in all ensures a in c && a in Members(free) {
      var i := IndexOf(begin, count, size, a);
      assert Linked(c, begin, i, count, size) && free[i] == a;
    }
  }

  // ---- One pool ----

  // The free list is intact, and what is not on it is in use
  ghost predicate FreeListOk(c: map<nat, Chunk>, head: nat, free: seq<nat>, elements: set<nat>) {
    && Chain(c, head, free) && NoDuplicates(free)
    && (forall i: nat | i < |free| :: free[i] in elements)
    && (forall a: nat | a in elements :: a in c)
  }

  ghost function Members(list: seq<nat>): set<nat> { set i: nat | i < |list| :: list[i] }

  lemma {:induction false} MembersCount(list: seq<nat>)
    requires NoDuplicates(list)
    ensures |Members(list)| == |list|
  {
    if list == [] {
      assert Members(list) == {};
    } else {
      var init, last := list[..|list| - 1], list[|list| - 1];
      MembersCount(init);
      assert last !in Members(init);
      assert Members(list) == Members(init) + {last} by {
        forall a: nat | a in Members(list) ensures a in Members(init) + {last} {
          var i: nat :| i < |list| && list[i] == a;
          assert i < |init| ==> init[i] == a;
        }
        forall a: nat | a in Members(init) + {last} ensures a in Members(list) {
          if a == last {
            assert list[|list| - 1] == a;
          } else {
            var i: nat :| i < |init| && init[i] == a;
            assert list[i] == a;
          }
        }
      }
    }
  }

  lemma TakeFirst(c: map<nat, Chunk>, head: nat, free: seq<nat>, elements: set<nat>)
    requires FreeListOk(c, head, free, elements) && free != []
    ensures head in c && c[head].Link? && head == free[0] && head in elements && head !in Members(free[1..])
    ensures FreeListOk(c, c[head].next, free[1..], elements)
  {
    forall i: nat, j: nat | i < j < |free[1..]| ensures free[1..][i] != free[1..][j] {
      assert free[1..][i] == free[i + 1] && free[1..][j] == free[j + 1];
    }
    forall i: nat | i < |free[1..]| ensures free[1..][i] in elements && free[1..][i] != head {
      assert free[1..][i] == free[i + 1];
    }
  }

  lemma PutFirst(c: map<nat, Chunk>, head: nat, free: seq<nat>, elements: set<nat>, a: nat)
    requires FreeListOk(c, head, free, elements) && a in elements && a !in Members(free) && a != 0
    ensures FreeListOk(c[a := Link(head)], a, [a] + free, elements)
  {
    var c' := c[a := Link(head)];
    forall i: nat | i < |free| ensures free[i] != a && free[i] in elements {
      assert free[i] in Members(free);
    }
    ChainKept(c, c', head, free);
    assert ([a] + free)[1..] == free;
  }

  // Writing to an element in use, or outside the pool, leaves the free list alone
  lemma WriteElsewhere(c: map<nat, Chunk>, head: nat, free: seq<nat>, elements: set<nat>, a: nat, x: Chunk)
    requires FreeListOk(c, head, free, elements) && a !in Members(free)
    ensures FreeListOk(c[a := x], head, free, elements)
  {
    forall i: nat | i < |free| ensures free[i] != a {
      assert free[i] in Members(free);
    }
    ChainKept(c, c[a := x], head, free);
  }

  class Pool {
    const begin: nat          // pool_begin
    const end: nat            // pool_end
    const elementSize: nat
    ghost const count: nat
    var freeList: nat
    var freeElems: nat
    var minFreeElems: nat
    var disabled: bool
    ghost var free: seq<nat>  // what the free list says

    ghost predicate LaidOut() {
      begin > 0 && count > 0 && elementSize > REF_COUNT_SIZE && end == ElementAt(begin, count, elementSize)
    }

    ghost function All(): set<nat> { Elements(begin, count, elementSize) }

    // The elements in use
    ghost function Live(): set<nat>
      reads `free
    {
      All() - Members(free)
    }

    ghost predicate Valid(c: map<nat, Chunk>)
      reads `freeList, `free, `freeElems, `minFreeElems
    {
      && LaidOut() && FreeListOk(c, freeList, free, All())
      && freeElems == |free| && minFreeElems <= freeElems
    }

    /** mp__init_pool */
    constructor (mem: Memory, begin: nat, elements: nat, elementSize: nat)
      requires begin > 0 && elements > 0 && elementSize > REF_COUNT_SIZE
      modifies mem
      ensures Valid(mem.chunks) && Live() == {} && freeElems == elements
      ensures this.begin == begin && count == elements && this.elementSize == elementSize && !disabled
      ensures forall a: nat | a in old(mem.chunks) && a !in All() ::
                a in mem.chunks && mem.chunks[a] == old(mem.chunks)[a]
    {
      this.begin := begin;
      this.end := begin + elements * elementSize;
      this.elementSize := elementSize;
      count := elements;
      freeElems, minFreeElems, disabled := elements, elements, false;
      freeList := begin;
      free := InOrder(begin, 0, elements, elementSize);
      new;
      OffsetIsMultiple(begin, elements, elementSize);
      Populate(mem);
      FullyLinked(mem.chunks, begin, count, elementSize);
    }

    // Populate free list
    method Populate(mem: Memory)
      requires LaidOut()
      modifies mem
      ensures forall i: nat | i < count :: Linked(mem.chunks, begin, i, count, elementSize)
      ensures forall a: nat | a in old(mem.chunks) && a !in All() ::
                a in mem.chunks && mem.chunks[a] == old(mem.chunks)[a]
    {
      var cur: nat := begin;
      ghost var k: nat := 0;
      while true
        invariant k < count && cur == ElementAt(begin, k, elementSize)
        invariant forall i: nat | i < k :: Linked(mem.chunks, begin, i, count, elementSize)
        invariant forall a: nat | a in old(mem.chunks) && a !in All() ::
                    a in mem.chunks && mem.chunks[a] == old(mem.chunks)[a]
        decreases count - k
      {
        ghost var before := mem.chunks;
        InElements(begin, k, count, elementSize);
        if k + 1 < count {
          LaterIsBehind(begin, k + 1, count, elementSize);
        }
        mem.chunks := mem.chunks[cur := Link(cur + elementSize)];
        if cur + elementSize >= end {
          mem.chunks := mem.chunks[cur := Link(0)];
          assert mem.chunks == before[cur := Link(0)];
          MoreLinked(before, begin, k, count, elementSize, 0);
          break;
        }
        MoreLinked(before, begin, k, count, elementSize, cur + elementSize);
        cur := cur + elementSize;
        k := k + 1;
      }
    }
  }

  // ---- Pool sets ----

  ghost predicate Sorted(pools: seq<Pool>) {
    forall i: nat, j: nat | i < j < |pools| :: pools[i].elementSize <= pools[j].elementSize
  }

  ghost predicate Beside(p: Pool, q: Pool) { p.end <= q.begin || q.end <= p.begin }

  // The pools occupy different parts of the memory
  ghost predicate Apart(pools: seq<Pool>) {
    forall i: nat, j: nat | i < j < |pools| :: Beside(pools[i], pools[j])
  }

  function Inserted(pools: seq<Pool>, pool: Pool, cur: nat): seq<Pool>
    requires cur <= |pools|
  {
    pools[..cur] + [pool] + pools[cur..]
  }

  lemma InsertedAt(pools: seq<Pool>, pool: Pool, cur: nat, i: nat)
    requires cur <= |pools| && i <= |pools|
    ensures Inserted(pools, pool, cur)[i] == if i < cur then pools[i] else if i == cur then pool else pools[i - 1]
  {
  }

  lemma InsertKeepsOrder(pools: seq<Pool>, pool: Pool, cur: nat)
    requires Sorted(pools) && Apart(pools) && cur <= |pools|
    requires forall i: nat | i < cur :: pools[i].elementSize <= pool.elementSize
    requires cur < |pools| ==> pool.elementSize <= pools[cur].elementSize
    requires forall i: nat | i < |pools| :: Beside(pools[i], pool)
    ensures Sorted(Inserted(pools, pool, cur)) && Apart(Inserted(pools, pool, cur))
  {
    var ps := Inserted(pools, pool, cur);
    forall i: nat, j: nat | i < j < |ps| ensures ps[i].elementSize <= ps[j].elementSize && Beside(ps[i], ps[j]) {
      InsertedAt(pools, pool, cur, i);
      InsertedAt(pools, pool, cur, j);
    }
  }

  class PoolSet {
    const mem: Memory
    var pools: seq<Pool>    // sorted from smallest to largest element size

    ghost predicate Valid()
      reads `pools, mem, pools
    {
      Sorted(pools) && Apart(pools) && forall i: nat | i < |pools| :: pools[i].Valid(mem.chunks)
    }

    /** mp_init_pool_set */
    constructor (mem: Memory)
      ensures Valid() && pools == [] && this.mem == mem
    {
      this.mem := mem;
      pools := [];
    }

    /** mp_add_pool: behind the pools with elements of at most the same size. */
    method AddPool(pool: Pool) returns (ghost cur: nat)
      requires Valid() && pool.Valid(mem.chunks)
      requires forall i: nat | i < |pools| :: Beside(pools[i], pool)
      modifies this`pools
      ensures Valid() && cur <= |old(pools)| && pools == Inserted(old(pools), pool, cur)
      ensures forall i: nat | i < old(|pools|) :: i < cur <==> old(pools[i].elementSize) <= pool.elementSize
    {
      var at: nat := 0;
      while at < |pools| && pools[at].elementSize <= pool.elementSize
        invariant at <= |pools|
        invariant forall i: nat | i < at :: pools[i].elementSize <= pool.elementSize
      {
        at := at + 1;
      }
      cur := at;
      InsertKeepsOrder(pools, pool, at);
      forall i: nat | i <= |pools|
        ensures Inserted(pools, pool, at)[i] == if i < at then pools[i] else if i == at then pool else pools[i - 1]
      {
        InsertedAt(pools, pool, at, i);
      }
      pools := pools[..at] + [pool] + pools[at..];
    }

    // A pool that mp_alloc may take an element of this size from
    predicate Eligible(i: nat, size: nat)
      reads `pools, pools
      requires i < |pools|
    {
      pools[i].freeList != 0 && pools[i].elementSize >= size && !pools[i].disabled
    }

    predicate Available(i: nat)
      reads `pools, pools
      requires i < |pools|
    {
      pools[i].freeList != 0 && !pools[i].disabled
    }

    // One element has left the free list of one pool, nothing else has changed
    twostate predicate Took(i: nat, elem: nat)
      reads `pools, pools
    {
      && pools == old(pools) && i < |pools| && elem != 0
      && old(pools[i].free) == [elem] + pools[i].free && elem in pools[i].Live()
      && (forall j: nat | j < |pools| && j != i :: pools[j].free == old(pools[j].free))
    }

    // mp__take_pool_element
    method TakeElement(pool: Pool, ghost c: map<nat, Chunk>) returns (elem: nat, allocSize: nat)
      requires pool.Valid(c) && c == mem.chunks && pool.freeList != 0
      modifies pool`freeList, pool`freeElems, pool`minFreeElems, pool`free
      ensures pool.Valid(c)
      ensures old(pool.free) == [elem] + pool.free && elem != 0 && allocSize == pool.elementSize
      ensures elem in pool.Live()
    {
      TakeFirst(c, pool.freeList, pool.free, pool.All());
      elem := pool.freeList;
      pool.freeList := mem.chunks[elem].next;
      pool.freeElems := pool.freeElems - 1;
      if pool.freeElems < pool.minFreeElems {
        pool.minFreeElems := pool.freeElems;
      }
      pool.free := pool.free[1..];
      allocSize := pool.elementSize;
    }

    lemma PoolsDiffer()
      requires Valid()
      ensures forall i: nat, j: nat | i < j < |pools| :: pools[i] != pools[j]
    {
      forall i: nat, j: nat | i < j < |pools| ensures pools[i] != pools[j] {
        LaterIsBehind(pools[i].begin, 0, pools[i].count, pools[i].elementSize);
        assert Beside(pools[i], pools[j]);
      }
    }

    method TakeFrom(i: nat) returns (elem: nat, allocSize: nat)
      requires Valid() && i < |pools| && pools[i].freeList != 0
      modifies pools`freeList, pools`freeElems, pools`minFreeElems, pools`free
      ensures Valid() && Took(i, elem) && allocSize == pools[i].elementSize
    {
      PoolsDiffer();
      elem, allocSize := TakeElement(pools[i], mem.chunks);
    }

    lemma HasElements()
      requires Valid()
      ensures forall i: nat | i < |pools| :: pools[i].freeList == 0 <==> pools[i].free == []
    {
      forall i: nat | i < |pools| ensures pools[i].freeList == 0 <==> pools[i].free == [] {
        assert pools[i].Valid(mem.chunks);
      }
    }

    // Pools with smaller elements come first
    lemma SmallerBefore(i: nat)
      requires Valid() && i < |pools|
      ensures forall j: nat | j < |pools| && pools[j].elementSize < pools[i].elementSize :: j < i
      ensures forall j: nat | j < |pools| && pools[j].elementSize > pools[i].elementSize :: j > i
    {
    }

    /** mp_alloc: an element of the smallest size that fits in a pool that is not disabled, or NULL when all of these
        are empty. */
    method Alloc(size: nat) returns (elem: nat, allocSize: nat, ghost from: nat)
      requires Valid()
      modifies pools`freeList, pools`freeElems, pools`minFreeElems, pools`free
      ensures Valid() && pools == old(pools)
      ensures elem == 0 <==>
              forall i: nat | i < |pools| ::
                old(pools[i].free == [] || pools[i].disabled) || pools[i].elementSize < size
      ensures elem == 0 ==> allocSize == 0 && forall i: nat | i < |pools| :: unchanged(pools[i])
      ensures elem != 0 ==> Took(from, elem) && size <= allocSize && allocSize == pools[from].elementSize
      ensures elem != 0 ==> !old(pools[from].disabled)
      ensures elem != 0 ==>
                forall i: nat | i < |pools| && size <= pools[i].elementSize < allocSize ::
                  old(pools[i].free == [] || pools[i].disabled)
    {
      HasElements();
      elem, allocSize, from := 0, 0, 0;
      var cur: nat := 0;
      while cur < |pools|
        invariant cur <= |pools|
        invariant forall i: nat | i < cur ::
                    pools[i].free == [] || pools[i].disabled || pools[i].elementSize < size
      {
        if Eligible(cur, size) {
          from := cur;
          SmallerBefore(cur);
          elem, allocSize := TakeFrom(cur);
          return;
        }
        cur := cur + 1;
      }
    }

    // The pool that is left in the loop of mp_alloc_best_effort: the first one with elements of this size at least, or
    // the last one, of those that have elements and are not disabled
    method BestPool(size: nat) returns (allocPool: nat)
      requires Valid()
      ensures allocPool <= |pools|
      ensures allocPool < |pools| ==> pools[allocPool].free != [] && !pools[allocPool].disabled
      ensures allocPool < |pools| && pools[allocPool].elementSize >= size ==>
                forall i: nat | i < allocPool && size <= pools[i].elementSize ::
                  pools[i].free == [] || pools[i].disabled
      ensures allocPool == |pools| || pools[allocPool].elementSize < size ==>
                forall i: nat | i < |pools| && (allocPool < i || allocPool == |pools|) ::
                  pools[i].free == [] || pools[i].disabled
    {
      HasElements();
      allocPool := |pools|;
      var cur: nat := 0;
      while cur < |pools|
        invariant cur <= |pools|
        invariant forall i: nat | i < cur && pools[i].elementSize >= size :: pools[i].free == [] || pools[i].disabled
        invariant allocPool < |pools| ==> allocPool < cur && pools[allocPool].free != [] && !pools[allocPool].disabled
        invariant allocPool <= |pools|
        invariant forall i: nat | (allocPool < i || allocPool == |pools|) && i < cur ::
                    pools[i].free == [] || pools[i].disabled
      {
        if Available(cur) {
          allocPool := cur;
          if pools[cur].elementSize >= size {
            break;
          }
        }
        cur := cur + 1;
      }
    }

    /** mp_alloc_best_effort: the smallest size that fits, otherwise the largest there is. */
    method AllocBestEffort(size: nat) returns (elem: nat, allocSize: nat, ghost from: nat)
      requires Valid()
      modifies pools`freeList, pools`freeElems, pools`minFreeElems, pools`free
      ensures Valid() && pools == old(pools)
      ensures elem == 0 <==> forall i: nat | i < |pools| :: old(pools[i].free == [] || pools[i].disabled)
      ensures elem == 0 ==> allocSize == 0 && forall i: nat | i < |pools| :: unchanged(pools[i])
      ensures elem != 0 ==> Took(from, elem) && allocSize == pools[from].elementSize && !old(pools[from].disabled)
      ensures elem != 0 && allocSize >= size ==>
                forall i: nat | i < |pools| && size <= pools[i].elementSize < allocSize ::
                  old(pools[i].free == [] || pools[i].disabled)
      ensures elem != 0 && allocSize < size ==>
                forall i: nat | i < |pools| && pools[i].elementSize > allocSize ::
                  old(pools[i].free == [] || pools[i].disabled)
    {
      elem, allocSize, from := 0, 0, 0;
      var allocPool := BestPool(size);
      if allocPool < |pools| {
        from := allocPool;
        HasElements();
        SmallerBefore(allocPool);
        elem, allocSize := TakeFrom(allocPool);
      }
    }

    predicate Within(i: nat, a: nat)
      reads `pools
      requires i < |pools|
    {
      pools[i].begin <= a < pools[i].end
    }

    // mp__find_pool
    method FindPool(a: nat) returns (i: nat)
      requires Valid()
      ensures i <= |pools| && (i < |pools| ==> pools[i].begin <= a < pools[i].end)
      ensures forall k: nat | k < |pools| && k != i :: !(pools[k].begin <= a < pools[k].end)
    {
      i := 0;
      while i < |pools| && !Within(i, a)
        invariant i <= |pools| && forall k: nat | k < i :: !(pools[k].begin <= a < pools[k].end)
      {
        i := i + 1;
      }
      if i < |pools| {
        forall k: nat | i < k < |pools| ensures !(pools[k].begin <= a < pools[k].end) {
          assert Beside(pools[i], pools[k]);
        }
      }
    }

    // One element is back on the free list of one pool, nothing else has changed
    twostate predicate Gave(i: nat, elem: nat)
      reads `pools, pools
    {
      && pools == old(pools) && i < |pools|
      && pools[i].free == [elem] + old(pools[i].free)
      && (forall j: nat | j < |pools| && j != i :: pools[j].free == old(pools[j].free))
    }

    // An element that can be handed back: one in use, or an address that belongs to no pool
    ghost predicate Returnable(a: nat)
      reads `pools, pools
    {
      forall i: nat | i < |pools| && Within(i, a) :: a in pools[i].Live()
    }

    method GiveTo(i: nat, element: nat)
      requires Valid() && i < |pools| && element in pools[i].Live()
      modifies pools`freeList, pools`freeElems, pools`minFreeElems, pools`free, mem
      ensures Valid() && Gave(i, element)
      ensures mem.chunks == old(mem.chunks)[element := Link(old(pools[i].freeList))]
    {
      var pool := pools[i];
      PoolsDiffer();
      NotCounted(pool.begin, pool.count, pool.elementSize, element);
      assert (element - pool.begin) % pool.elementSize != REF_COUNT_SIZE;   // mp__is_ref_counted
      ElementsInRange(pool.begin, pool.count, pool.elementSize, element);
      PutFirst(mem.chunks, pool.freeList, pool.free, pool.All(), element);
      OthersKept(i, element, Link(pool.freeList));
      mem.chunks := mem.chunks[element := Link(pool.freeList)];
      pool.freeList := element;
      pool.freeElems := pool.freeElems + 1;
      pool.free := [element] + pool.free;
    }

    // A write to an element does not reach the free lists of the other pools
    lemma OthersKept(i: nat, a: nat, x: Chunk)
      requires Valid() && i < |pools| && a in pools[i].All()
      ensures forall j: nat | j < |pools| && j != i :: pools[j].Valid(mem.chunks[a := x])
    {
      forall j: nat | j < |pools| && j != i ensures pools[j].Valid(mem.chunks[a := x]) {
        var p, q := pools[i], pools[j];
        assert Beside(pools[if i < j then i else j], pools[if i < j then j else i]);
        ElementsInRange(p.begin, p.count, p.elementSize, a);
        if a in Members(q.free) {
          ElementsInRange(q.begin, q.count, q.elementSize, a);
        }
        WriteElsewhere(mem.chunks, q.freeList, q.free, q.All(), a, x);
      }
    }

    lemma NullIsNowhere()
      requires Valid()
      ensures forall i: nat | i < |pools| :: pools[i].begin > 0
    {
      forall i: nat | i < |pools| ensures pools[i].begin > 0 {
        assert pools[i].Valid(mem.chunks);
      }
    }

    /** mp_free. A pointer that belongs to no pool is refused. */
    method Free(element: nat) returns (ok: bool, ghost to: nat)
      requires Valid() && Returnable(element)
      modifies pools`freeList, pools`freeElems, pools`minFreeElems, pools`free, mem
      ensures Valid() && pools == old(pools)
      ensures ok ==> Gave(to, element) && old(element in pools[to].Live())
      ensures !ok ==> forall i: nat | i < |pools| :: !(pools[i].begin <= element < pools[i].end)
      ensures ok ==> mem.chunks == old(mem.chunks)[element := Link(old(pools[to].freeList))]
      ensures !ok ==> unchanged(mem) && forall i: nat | i < |pools| :: unchanged(pools[i])
    {
      to := 0;
      if element == 0 {
        NullIsNowhere();
        return false, to;
      }
      var i := FindPool(element);
      ok := i < |pools|;
      if ok {
        to := i;
        GiveTo(i, element);
      }
    }

    /** The user of an element writes to it. */
    method WriteData(ghost i: nat, element: nat, bytes: seq<bv8>)
      requires Valid() && i < |pools| && element in pools[i].Live()
      modifies mem
      ensures Valid() && mem.chunks == old(mem.chunks)[element := Data(bytes)]
    {
      ghost var pool := pools[i];
      WriteElsewhere(mem.chunks, pool.freeList, pool.free, pool.All(), element, Data(bytes));
      OthersKept(i, element, Data(bytes));
      mem.chunks := mem.chunks[element := Data(bytes)];
    }

    // memcpy(new_element, element, pool->element_size)
    method CopyElement(ghost i: nat, to: nat, element: nat)
      requires Valid() && i < |pools| && to in pools[i].Live() && element in mem.chunks
      modifies mem
      ensures Valid() && mem.chunks == old(mem.chunks)[to := old(mem.chunks)[element]]
    {
      ghost var pool := pools[i];
      WriteElsewhere(mem.chunks, pool.freeList, pool.free, pool.All(), to, mem.chunks[element]);
      OthersKept(i, to, mem.chunks[element]);
      mem.chunks := mem.chunks[to := mem.chunks[element]];
    }

    // The element has moved from pool i to pool k with its content
    twostate predicate Moved(i: nat, element: nat, k: nat, elem: nat)
      reads `pools, pools, mem
    {
      && pools == old(pools) && i < |pools| && k < |pools| && i != k && elem != 0
      && old(pools[k].free) == [elem] + pools[k].free
      && pools[i].free == [element] + old(pools[i].free)
      && (forall j: nat | j < |pools| && j != i && j != k :: pools[j].free == old(pools[j].free))
      && elem in mem.chunks && element in old(mem.chunks) && mem.chunks[elem] == old(mem.chunks)[element]
    }

    // A taken element is in use from then on
    twostate lemma TookIsLive(i: nat, elem: nat)
      requires old(Valid()) && Valid() && Took(i, elem)
      ensures old(pools[i].Live()) == pools[i].Live() - {elem}
    {
      var was, now := old(pools[i].free), pools[i].free;
      assert was[0] == elem && now == was[1..];
      assert elem in Members(was);
      assert elem !in Members(now);
      forall a: nat | a in Members(now) ensures a in Members(was) {
        var j: nat :| j < |now| && now[j] == a;
        assert was[j + 1] == a;
      }
      forall a: nat | a in Members(was) && a != elem ensures a in Members(now) {
        var j: nat :| j < |was| && was[j] == a;
        assert now[j - 1] == a;
      }
    }

    /** mp_realloc of a plain element. When no larger element is to be had the old one stays as it is. */
    method Realloc(element: nat, size: nat) returns (result: nat, ghost i: nat, ghost k: nat)
      requires Valid() && Returnable(element)
      modifies pools`freeList, pools`freeElems, pools`minFreeElems, pools`free, mem
      ensures Valid() && pools == old(pools) && i <= |pools|
      ensures i < |pools| ==> old(element in pools[i].Live())
      ensures i == |pools| ==> forall j: nat | j < |pools| :: !(pools[j].begin <= element < pools[j].end)
      ensures i == |pools| ==> result == 0 && unchanged(mem) && forall j: nat | j < |pools| :: unchanged(pools[j])
      ensures i < |pools| && size == 0 ==> result == 0 && Gave(i, element)
      ensures i < |pools| && 0 < size <= pools[i].elementSize ==> result == element && AsBefore()
      ensures i < |pools| && size > pools[i].elementSize ==>
                (result == 0 <==>
                 forall j: nat | j < |pools| ::
                   old(pools[j].free == [] || pools[j].disabled) || pools[j].elementSize < size)
      ensures i < |pools| && size > pools[i].elementSize && result == 0 ==> AsBefore()
      ensures i < |pools| && size > pools[i].elementSize && result != 0 ==>
                && Moved(i, element, k, result) && size <= pools[k].elementSize && !old(pools[k].disabled)
                && forall j: nat | j < |pools| && size <= pools[j].elementSize < pools[k].elementSize ::
                     old(pools[j].free == [] || pools[j].disabled)
    {
      result, i, k := 0, |pools|, 0;
      if element == 0 {
        NullIsNowhere();
        return;
      }
      var at: nat := 0;   // the search of mp__find_pool
      while at < |pools| && !Within(at, element)
        invariant at <= |pools| && forall j: nat | j < at :: !(pools[j].begin <= element < pools[j].end)
      {
        at := at + 1;
      }
      i := at;
      if at < |pools| {
        if size == 0 {
          GiveTo(at, element);
        } else {
          result, k := Resize(at, element, size);
        }
      }
    }

    // No element has left a free list or come back to one, and no memory has been written
    twostate predicate AsBefore()
      reads `pools, pools, mem
    {
      && pools == old(pools) && mem.chunks == old(mem.chunks)
      && forall j: nat | j < |pools| :: pools[j].free == old(pools[j].free)
    }

    method Resize(at: nat, element: nat, size: nat) returns (result: nat, ghost k: nat)
      requires Valid() && at < |pools| && element in pools[at].Live()
      modifies pools`freeList, pools`freeElems, pools`minFreeElems, pools`free, mem
      ensures Valid() && pools == old(pools)
      ensures size <= pools[at].elementSize ==> result == element && AsBefore()
      ensures size > pools[at].elementSize ==>
                (result == 0 <==>
                 forall j: nat | j < |pools| ::
                   old(pools[j].free == [] || pools[j].disabled) || pools[j].elementSize < size)
      ensures size > pools[at].elementSize && result == 0 ==> AsBefore()
      ensures size > pools[at].elementSize && result != 0 ==>
                && Moved(at, element, k, result) && size <= pools[k].elementSize && !old(pools[k].disabled)
                && forall j: nat | j < |pools| && size <= pools[j].elementSize < pools[k].elementSize ::
                     old(pools[j].free == [] || pools[j].disabled)
    {
      result, k := element, at;
      if pools[at].elementSize < size {
        result, k := Enlarge(at, element, size);
      }
    }

    // The element is replaced by a larger one if there is one
    method Enlarge(at: nat, element: nat, size: nat) returns (result: nat, ghost k: nat)
      requires Valid() && at < |pools| && element in pools[at].Live() && pools[at].elementSize < size
      modifies pools`freeList, pools`freeElems, pools`minFreeElems, pools`free, mem
      ensures Valid() && pools == old(pools)
      ensures result == 0 <==>
              forall j: nat | j < |pools| ::
                old(pools[j].free == [] || pools[j].disabled) || pools[j].elementSize < size
      ensures result == 0 ==> AsBefore()
      ensures result != 0 ==>
                && Moved(at, element, k, result) && size <= pools[k].elementSize && !old(pools[k].disabled)
                && forall j: nat | j < |pools| && size <= pools[j].elementSize < pools[k].elementSize ::
                     old(pools[j].free == [] || pools[j].disabled)
    {
      var allocSize;
      result, allocSize, k := Alloc(size);
      if result != 0 {
        Transfer(at, element, k, result);
      }
    }

    // Copy to the new element and free the old one
    method Transfer(at: nat, element: nat, ghost k: nat, result: nat)
      requires Valid() && at < |pools| && k < |pools| && at != k
      requires element in pools[at].Live() && result in pools[k].Live()
      modifies pools`freeList, pools`freeElems, pools`minFreeElems, pools`free, mem
      ensures Valid() && Gave(at, element)
      ensures result in mem.chunks && element in old(mem.chunks) && mem.chunks[result] == old(mem.chunks)[element]
    {
      assert result != element by { LiveApart(at, element, k, result); }
      CopyElement(k, result, element);
      GiveTo(at, element);
    }

    /** Elements in use never overlap, in whichever pools they are. */
    lemma LiveApart(i: nat, a: nat, j: nat, b: nat)
      requires Valid() && i < |pools| && j < |pools| && a in pools[i].Live() && b in pools[j].Live()
      requires i != j || a != b
      ensures a + pools[i].elementSize <= b || b + pools[j].elementSize <= a
    {
      var p, q := pools[i], pools[j];
      ElementsInRange(p.begin, p.count, p.elementSize, a);
      ElementsInRange(q.begin, q.count, q.elementSize, b);
      if i == j {
        ElementsApart(p.begin, p.count, p.elementSize, a, b);
      } else {
        assert Beside(pools[if i < j then i else j], pools[if i < j then j else i]);
      }
    }

    /** Every element is free or in use, and free_elems counts the free ones. */
    lemma Partition(i: nat)
      requires Valid() && i < |pools|
      ensures Members(pools[i].free) !! pools[i].Live()
      ensures Members(pools[i].free) + pools[i].Live() == pools[i].All()
      ensures pools[i].freeElems == |Members(pools[i].free)| == pools[i].count - |pools[i].Live()|
    {
      var p := pools[i];
      MembersCount(p.free);
      HowManyElements(p.begin, p.count, p.elementSize);
      assert |Members(p.free) + p.Live()| == |Members(p.free)| + |p.Live()|;
    }
  }
}
