// template/cstone/bipbuf.c.m4: a bipartite FIFO. Region A is [aStart, aEnd) of the buffer, region B is [0, bEnd)
// and follows A in the queue. A reservation [resStart, resEnd) is the end of one of them and not yet in the queue.
module BipBuf {

  function Prefix<T>(s: seq<T>, n: nat): seq<T> { if n < |s| then s[..n] else s }

  // The two regions of a buffer in the order of the queue
  function Regions<T>(buf: seq<T>, aStart: nat, aEnd: nat, bEnd: nat): seq<T>
    requires aStart <= aEnd <= |buf| && bEnd <= |buf|
  {
    buf[aStart..aEnd] + buf[..bEnd]
  }

  lemma GrownA<T>(buf: seq<T>, aStart: nat, aEnd: nat, n: nat, end: nat)
    requires aStart <= aEnd <= end <= |buf| && n <= end - aEnd
    ensures Regions(buf, aStart, aEnd + n, 0) == Regions(buf, aStart, aEnd, 0) + buf[aEnd..end][..n]
  {
    assert buf[aStart..aEnd + n] == buf[aStart..aEnd] + buf[aEnd..end][..n];
  }

  lemma GrownB<T>(buf: seq<T>, aStart: nat, aEnd: nat, bEnd: nat, n: nat, end: nat)
    requires aStart <= aEnd <= |buf| && bEnd <= end <= |buf| && n <= end - bEnd
    ensures Regions(buf, aStart, aEnd, bEnd + n) == Regions(buf, aStart, aEnd, bEnd) + buf[bEnd..end][..n]
  {
    assert buf[..bEnd + n] == buf[..bEnd] + buf[bEnd..end][..n];
  }

  lemma Shrunk<T>(buf: seq<T>, aStart: nat, aEnd: nat, bEnd: nat, n: nat)
    requires aStart + n <= aEnd <= |buf| && bEnd <= |buf|
    ensures Regions(buf, aStart, aEnd, bEnd)[n..] == Regions(buf, aStart + n, aEnd, bEnd)
    ensures Regions(buf, aStart, aEnd, bEnd)[..n] == buf[aStart..aStart + n]
    ensures aStart + n == aEnd ==> Regions(buf, aStart + n, aEnd, bEnd) == Regions(buf, 0, bEnd, 0)
  {
  }

  lemma Unchanged<T>(buf: seq<T>, buf': seq<T>, aStart: nat, aEnd: nat, bEnd: nat)
    requires |buf'| == |buf| && aStart <= aEnd <= |buf| && bEnd <= |buf|
    requires forall i: nat | aStart <= i < aEnd || i < bEnd :: buf'[i] == buf[i]
    ensures Regions(buf', aStart, aEnd, bEnd) == Regions(buf, aStart, aEnd, bEnd)
  {
    assert buf'[aStart..aEnd] == buf[aStart..aEnd] && buf'[..bEnd] == buf[..bEnd];
  }

  class BipFifo<T> {
    const buf: array<T>
    var aStart: nat
    var aEnd: nat
    var bEnd: nat
    var resStart: nat
    var resEnd: nat

    predicate Reserving()
      reads this
    {
      resEnd > resStart
    }

    // The test by which commit tells the region of the reservation
    predicate ReservedInB()
      reads this
    {
      Reserving() && resEnd == bEnd
    }

    // Ends of the committed parts of the regions
    function CommittedA(): nat
      reads this
    {
      if Reserving() && !ReservedInB() then resStart else aEnd
    }

    function CommittedB(): nat
      reads this
    {
      if ReservedInB() then resStart else bEnd
    }

    // Region B is only used in front of a region A that holds something and does not start the buffer
    ghost predicate Valid()
      reads this
    {
      && resStart <= resEnd
      && bEnd <= aStart <= CommittedA() <= aEnd <= buf.Length
      && (bEnd > 0 ==> aStart < CommittedA())
      && (CommittedA() == aStart ==> aStart == 0)
      && (Reserving() ==> if ReservedInB() then resStart < bEnd else resEnd == aEnd && bEnd == 0)
    }

    // Where the elements of the queue are in the buffer, oldest first
    ghost function Place(i: nat): nat
      reads this
    {
      if aStart + i < CommittedA() then aStart + i else i - (CommittedA() - aStart)
    }

    ghost function Contents(): seq<T>
      requires Valid()
      reads this, buf
    {
      Regions(buf[..], aStart, CommittedA(), CommittedB())
    }

    ghost function Reservation(): seq<T>
      requires Valid()
      reads this, buf
    {
      if Reserving() then buf[..][resStart..resEnd] else []
    }

    /** Every element of the queue is where Place says. */
    lemma Places(i: nat)
      requires Valid() && i < |Contents()|
      ensures Place(i) < buf.Length && Contents()[i] == buf[Place(i)]
      ensures Reserving() ==> !(resStart <= Place(i) < resEnd)
    {
    }

    /** Different elements of the queue are in different places. */
    lemma PlacesDiffer(i: nat, j: nat)
      requires Valid() && i < j < |Contents()|
      ensures Place(i) != Place(j)
    {
    }

    /** bipfifo_init */
    constructor (buf: array<T>)
      ensures Valid() && Contents() == [] && !Reserving() && this.buf == buf
    {
      this.buf := buf;
      aStart, aEnd, bEnd, resStart, resEnd := 0, 0, 0, 0, 0;
    }

    /** bipfifo_used_elems: a reservation counts as used. */
    function UsedElems(): (n: int)
      requires Valid()
      reads this, buf
      ensures n == |Contents()| + |Reservation()|
    {
      aEnd - aStart + bEnd
    }

    /** bipfifo_popable_elems */
    function PopableElems(): (n: int)
      requires Valid()
      reads this, buf
      ensures !Reserving() ==> n <= |Contents()| && (n == 0 <==> Contents() == [])
    {
      aEnd - aStart
    }

    /** Without a reservation these are as many of the oldest elements as are in places in a row. */
    lemma PopableIsLongest()
      requires Valid() && !Reserving()
      ensures PopableElems() <= |Contents()| && forall i: nat | i < PopableElems() :: Place(i) == Place(0) + i
      ensures PopableElems() < |Contents()| ==> Place(PopableElems()) != Place(0) + PopableElems()
    {
    }

    /** bipfifo_pushable_elems */
    function PushableElems(): (n: int)
      requires Valid()
      reads this, buf
      ensures 0 <= n <= buf.Length - UsedElems()
    {
      if bEnd > 0 then aStart - bEnd
      else
        var beforeGap, afterGap := aStart, buf.Length - aEnd;
        if beforeGap > afterGap then beforeGap else afterGap
    }

    // n places in a row that hold no element of the queue, right behind the newest one, or at the start of the buffer
    // while the queue has not gone round to there
    ghost predicate RoomAt(p: nat, n: nat)
      requires Valid()
      reads this, buf
    {
      && p + n <= buf.Length
      && (forall i: nat | i < |Contents()| :: !(p <= Place(i) < p + n))
      && if Contents() == [] then p == 0
         else
           var newest := Place(|Contents()| - 1);
           p == newest + 1 || (p == 0 && Place(0) <= newest)
    }

    /** Elements are pushable exactly when there is room for them in one piece. */
    lemma PushableIff(n: nat)
      requires Valid() && !Reserving()
      ensures n <= PushableElems() <==> exists p: nat :: RoomAt(p, n)
    {
      var k := |Contents()|;
      if n <= PushableElems() {
        assert RoomAt(if k == 0 || (bEnd == 0 && n <= aStart) then 0 else Place(k - 1) + 1, n);
      }
      if p: nat :| RoomAt(p, n) {
        if k > 0 && n > 0 {
          assert !(p <= Place(0) < p + n) && Place(0) == aStart;
          assert !(p <= Place(k - 1) < p + n);
        }
      }
    }

    /** bipfifo_is_empty, the test of pop: exact without a reservation. */
    predicate IsEmpty()
      requires Valid()
      reads this, buf
      ensures !Reserving() ==> (IsEmpty() <==> Contents() == [])
    {
      aStart == aEnd
    }

    /** bipfifo_flush */
    method Flush()
      modifies this
      ensures Valid() && Contents() == [] && !Reserving()
    {
      aStart, aEnd, bEnd, resStart, resEnd := 0, 0, 0, 0, 0;
    }

    function ReservedElems(): int
      reads this
    {
      resEnd - resStart
    }

    /** bipfifo_reserve. It succeeds exactly when nothing is reserved and the elements are pushable, and the
        queue does not change. */
    method Reserve(n: nat) returns (ok: bool, at: nat)
      requires Valid()
      modifies this
      ensures Valid() && Contents() == old(Contents())
      ensures forall i: nat | i < |Contents()| :: Place(i) == old(Place(i))
      ensures ok <==> old(!Reserving() && (n <= aStart - bEnd || (bEnd == 0 && n <= buf.Length - aEnd)))
      ensures ok ==> at == resStart && at + n <= buf.Length && |Reservation()| == n
      ensures !ok ==> Reservation() == old(Reservation()) && resStart == old(resStart)
    {
      at := 0;
      if ReservedElems() > 0 {
        return false, at;
      }
      if bEnd > 0 || buf.Length - aEnd < aStart - bEnd {
        if aStart - bEnd < n {
          return false, at;
        }
        resStart, resEnd := bEnd, bEnd + n;
        bEnd := resEnd;
      } else {
        if buf.Length - aEnd < n {
          return false, at;
        }
        resStart, resEnd := aEnd, aEnd + n;
        aEnd := resEnd;
      }
      return true, resStart;
    }

    /** Writing through the pointer that reserve returned. */
    method WriteReserved(k: nat, x: T)
      requires Valid() && k < |Reservation()|
      modifies buf
      ensures Contents() == old(Contents()) && Reservation() == old(Reservation())[k := x]
      ensures buf[..] == old(buf[..])[resStart + k := x]
    {
      ghost var was := buf[..];
      buf[resStart + k] := x;
      Unchanged(was, buf[..], aStart, CommittedA(), CommittedB());
    }

    /** bipfifo_commit: the first n reserved elements join the queue, the rest of the reservation is given up. */
    method Commit(n: nat)
      requires Valid()
      modifies this
      ensures Valid() && !Reserving()
      ensures Contents() == old(Contents()) + Prefix(old(Reservation()), n)
      ensures forall i: nat | i < old(|Contents()|) :: Place(i) == old(Place(i))
    {
      var resElems := ReservedElems();
      if resElems == 0 {
        return;
      }
      EndReservation(if n > resElems then resElems else n);
      resStart, resEnd := 0, 0;
    }

    method EndReservation(n: nat)
      requires Valid() && Reserving() && n <= |Reservation()|
      modifies this`aEnd, this`bEnd
      ensures Ended(n)
      ensures Regions(buf[..], aStart, aEnd, bEnd) == old(Contents()) + old(Reservation())[..n]
    {
      if resEnd == bEnd {
        GrownB(buf[..], aStart, aEnd, resStart, n, resEnd);
        bEnd := resStart + n;
      } else {
        GrownA(buf[..], aStart, resStart, n, resEnd);
        aEnd := resStart + n;
      }
    }

    twostate predicate Ended(n: nat)
      reads this
    {
      if old(ReservedInB()) then aEnd == old(aEnd) && bEnd == resStart + n
      else aEnd == resStart + n && bEnd == old(bEnd)
    }

    // The memcpy of push
    method CopyToReservation(data: seq<T>, at: nat)
      requires Valid() && at == resStart && at + |data| <= buf.Length && |Reservation()| == |data|
      modifies buf
      ensures Contents() == old(Contents()) && Reservation() == data
    {
      ghost var was := buf[..];
      forall i: nat | i < |data| {
        buf[at + i] := data[i];
      }
      Unchanged(was, buf[..], aStart, CommittedA(), CommittedB());
      assert forall i: nat | i < |data| :: buf[..][at..at + |data|][i] == data[i];
      assert buf[..][at..at + |data|] == data;
    }

    /** bipfifo_push */
    method Push(data: seq<T>) returns (ok: bool)
      requires Valid()
      modifies this, buf
      ensures Valid()
      ensures ok <==> old(!Reserving() && (|data| <= aStart - bEnd || (bEnd == 0 && |data| <= buf.Length - aEnd)))
      ensures Contents() == if ok then old(Contents()) + data else old(Contents())
      ensures forall i: nat | i < old(|Contents()|) :: Place(i) == old(Place(i))
    {
      var at;
      ok, at := Reserve(|data|);
      if ok {
        CopyToReservation(data, at);
        Commit(|data|);
      }
    }

    // Whether pop and peek deliver n elements: with a reservation in region A one element has to remain, with one
    // in region B nothing can be popped
    predicate Delivers(n: nat)
      requires Valid()
      reads this, buf
    {
      n > 0 && !IsEmpty() && (Reserving() ==> aStart + n < resStart)
    }

    // More than the popable elements, but not more than the buffer has behind the start of region A. Without a
    // reservation nothing tells pop and peek that there are not as many.
    predicate Overdraws(n: nat)
      requires Valid()
      reads this, buf
    {
      !Reserving() && aStart < aEnd < aStart + n <= buf.Length
    }

    /** Without a reservation, that is whenever the queue is not empty. With one in region A an element has to remain,
        and with one in region B nothing is delivered. */
    lemma DeliversIff(n: nat)
      requires Valid() && n > 0
      ensures !Reserving() ==> (Delivers(n) <==> Contents() != [])
      ensures Reserving() ==> (Delivers(n) <==> !ReservedInB() && n < |Contents()|)
    {
    }

    /** What pop and peek deliver: nothing, or n elements from the start of region A, which are the oldest ones of the
        queue exactly when it is not overdrawn. No call for at most the popable elements overdraws it. */
    lemma DeliversOldest(n: nat)
      requires Valid() && Delivers(n) && aStart + n <= buf.Length
      ensures aStart + n <= CommittedA() <==> !Overdraws(n)
      ensures n <= PopableElems() ==> !Overdraws(n)
      ensures !Overdraws(n) ==> n <= |Contents()| && buf[aStart..aStart + n] == Contents()[..n]
    {
      if aStart + n <= CommittedA() {
        Shrunk(buf[..], aStart, CommittedA(), CommittedB(), n);
      }
    }

    /** bipfifo_pop. The elements stay in the buffer at the returned place. The queue is lost exactly when it is
        overdrawn: region A then starts behind its end. */
    method Pop(n: nat) returns (popped: nat, at: nat)
      requires Valid()
      modifies this
      ensures Valid() <==> !old(Overdraws(n))
      ensures popped == if old(Delivers(n)) && old(aStart) + n <= buf.Length then n else 0
      ensures !old(Overdraws(n)) ==> Popped(popped, at)
      ensures old(Overdraws(n)) ==>
                popped == n && at == old(aStart) && aStart == at + n > aEnd == old(aEnd) && bEnd == old(bEnd)
    {
      at := 0;
      if n == 0 {
        return 0, at;
      }
      if IsEmpty() || aStart + n > buf.Length {
        return 0, at;
      }
      if ReservedElems() > 0 && aStart + n >= resStart {
        return 0, at;
      }
      at := aStart;
      DropFront(n);
      popped := n;
    }

    // The first n elements, found at this place, have left the queue, and no other has moved
    twostate predicate Popped(n: nat, at: nat)
      requires old(Valid())
      reads this, buf
    {
      && Valid() && Reservation() == old(Reservation())
      && n <= |old(Contents())| && Contents() == old(Contents())[n..]
      && (n > 0 ==> at + n <= buf.Length && buf[at..at + n] == old(Contents())[..n])
      && forall i: nat | i < |Contents()| :: Place(i) == old(Place(i + n))
    }

    // Region A loses its first elements, and region B takes its place when nothing is left of it
    method DropFront(n: nat)
      requires Valid() && Delivers(n) && aStart + n <= buf.Length
      modifies this
      ensures !old(Overdraws(n)) ==> Popped(n, old(aStart))
      ensures old(Overdraws(n)) ==> aStart == old(aStart) + n > aEnd == old(aEnd) && bEnd == old(bEnd)
    {
      DeliversOldest(n);
      aStart := aStart + n;
      if aStart == aEnd {
        if bEnd > 0 {
          aStart, aEnd, bEnd := 0, bEnd, 0;
        } else {
          aStart, aEnd := 0, 0;
        }
      }
      if !old(Overdraws(n)) {
        StartMoved(n);
        PlacesMoved(n);
      }
    }

    // Where the regions are when the first n elements have left
    twostate predicate Moved(n: nat)
      reads this
    {
      && resStart == old(resStart) && resEnd == old(resEnd)
      && if old(aStart) + n == old(aEnd) then aStart == 0 && aEnd == old(bEnd) && bEnd == 0
         else aStart == old(aStart) + n && aEnd == old(aEnd) && bEnd == old(bEnd)
    }

    twostate lemma StartMoved(n: nat)
      requires old(Valid()) && old(Delivers(n)) && old(aStart) + n <= old(CommittedA()) && Moved(n)
      requires buf[..] == old(buf[..])
      ensures Valid() && Reservation() == old(Reservation()) && Contents() == old(Contents())[n..]
    {
      Shrunk(buf[..], old(aStart), old(CommittedA()), old(CommittedB()), n);
    }

    twostate lemma PlacesMoved(n: nat)
      requires old(Valid()) && old(Delivers(n)) && old(aStart) + n <= old(CommittedA()) && Moved(n) && Valid()
      ensures forall i: nat | i < |Contents()| :: Place(i) == old(Place(i + n))
    {
    }

    /** bipfifo_peek */
    method Peek(n: nat) returns (seen: nat, at: nat)
      requires Valid()
      ensures seen == if Delivers(n) && aStart + n <= buf.Length then n else 0
      ensures seen > 0 ==> at == aStart
      ensures seen > 0 && !Overdraws(n) ==> seen <= |Contents()| && buf[at..at + seen] == Contents()[..seen]
    {
      at := 0;
      if n == 0 {
        return 0, at;
      }
      if IsEmpty() || aStart + n > buf.Length {
        return 0, at;
      }
      if ReservedElems() > 0 && aStart + n >= resStart {
        return 0, at;
      }
      DeliversOldest(n);
      return n, aStart;
    }

    // ---- Chunk iterators. A chunk is known by where it starts; -1 is the NULL that starts and ends them ----

    /** bipfifo_next_chunk */
    method NextChunk(cur: int) returns (next: int, n: int)
      requires Valid()
      ensures cur == -1 ==> next == aStart && n == aEnd - aStart
      ensures cur == aStart && bEnd > 0 ==> next == 0 != aStart && n == bEnd
      ensures cur != -1 && !(cur == aStart && bEnd > 0) ==> next == -1 && n == 0
    {
      if cur == -1 {
        return aStart, aEnd - aStart;
      } else if bEnd > 0 && cur == aStart {
        return 0, bEnd;
      }
      return -1, 0;
    }

    /** bipfifo_prev_chunk */
    method PrevChunk(cur: int) returns (next: int, n: int)
      requires Valid()
      ensures cur == -1 && bEnd > 0 ==> next == 0 && n == bEnd
      ensures (cur == -1 && bEnd == 0) || (cur == 0 && bEnd > 0) ==> next == aStart && n == aEnd - aStart
      ensures cur != -1 && !(cur == 0 && bEnd > 0) ==> next == -1 && n == 0
    {
      if cur == -1 {
        if bEnd > 0 {
          return 0, bEnd;
        } else {
          return aStart, aEnd - aStart;
        }
      } else if bEnd > 0 && cur == 0 {
        return aStart, aEnd - aStart;
      }
      return -1, 0;
    }

    /** Iterating forward delivers the queue in order. */
    method ReadForward() returns (all: seq<T>)
      requires Valid() && !Reserving()
      ensures all == Contents()
    {
      all := [];
      var cur, n := NextChunk(-1);
      while cur != -1
        invariant || (cur == aStart && n == aEnd - aStart && all == [])
                  || (cur == 0 && bEnd > 0 && n == bEnd && all == buf[aStart..aEnd])
                  || (cur == -1 && all == Contents())
        decreases if cur == -1 then 0 else if cur == aStart then 2 else 1
      {
        all := all + buf[cur..cur + n];
        cur, n := NextChunk(cur);
      }
    }

    /** Iterating backward delivers the same chunks from the end. */
    method ReadBackward() returns (all: seq<T>)
      requires Valid() && !Reserving()
      ensures all == Contents()
    {
      all := [];
      var cur, n := PrevChunk(-1);
      while cur != -1
        invariant || (cur == 0 && bEnd > 0 && n == bEnd && all == [])
                  || (cur == aStart && n == aEnd - aStart && all == buf[..bEnd] && (bEnd > 0 ==> aStart > 0))
                  || (cur == -1 && all == Contents())
        decreases if cur == -1 then 0 else if cur == 0 && bEnd > 0 then 2 else 1
      {
        all := buf[cur..cur + n] + all;
        cur, n := PrevChunk(cur);
      }
    }
  }
}
