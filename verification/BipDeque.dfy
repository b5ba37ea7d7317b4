// include/cstone/BipBuf.hpp: the bipartite deque.
module BipDeque {
  import opened BipBuf

  lemma GrownFront<T>(buf: seq<T>, aStart: nat, aEnd: nat, bEnd: nat, data: seq<T>)
    requires |data| <= aStart <= aEnd <= |buf| && bEnd <= |buf| && buf[aStart - |data|..aStart] == data
    ensures Regions(buf, aStart - |data|, aEnd, bEnd) == data + Regions(buf, aStart, aEnd, bEnd)
  {
    assert buf[aStart - |data|..aEnd] == data + buf[aStart..aEnd];
  }

  lemma NewFront<T>(buf: seq<T>, aEnd: nat, data: seq<T>)
    requires aEnd + |data| <= |buf| && buf[|buf| - |data|..] == data
    ensures Regions(buf, |buf| - |data|, |buf|, aEnd) == data + Regions(buf, 0, aEnd, 0)
  {
  }

  // The last n elements, taken from region B if there is one
  lemma ShrunkBack<T>(buf: seq<T>, aStart: nat, aEnd: nat, bEnd: nat, n: nat)
    requires aStart <= aEnd <= |buf| && bEnd <= |buf|
    requires if bEnd > 0 then n <= bEnd else n <= aEnd - aStart
    ensures bEnd > 0 ==> Regions(buf, aStart, aEnd, bEnd) == Regions(buf, aStart, aEnd, bEnd - n) + buf[bEnd - n..bEnd]
    ensures bEnd == 0 ==> Regions(buf, aStart, aEnd, 0) == Regions(buf, aStart, aEnd - n, 0) + buf[aEnd - n..aEnd]
  {
    if bEnd > 0 {
      assert buf[..bEnd] == buf[..bEnd - n] + buf[bEnd - n..bEnd];
    } else {
      assert buf[aStart..aEnd] == buf[aStart..aEnd - n] + buf[aEnd - n..aEnd];
    }
  }

  class BipDeque<T> {
    const buf: array<T>
    var aStart: nat
    var aEnd: nat
    var bEnd: nat

    // The regions are in place. That is all that the contents need.
    ghost predicate InPlace()
      reads this
    {
      bEnd <= aStart <= aEnd <= buf.Length
    }

    // An empty region A means an empty deque, which starts over at the start of the buffer
    ghost predicate Valid()
      reads this
    {
      InPlace() && (aStart == aEnd ==> aStart == 0)
    }

    ghost function Contents(): seq<T>
      requires InPlace()
      reads this, buf
    {
      Regions(buf[..], aStart, aEnd, bEnd)
    }

    // Where the elements are in the buffer, the front one first
    ghost function Place(i: nat): int
      reads this
    {
      if aStart + i < aEnd then aStart + i else i - (aEnd - aStart)
    }

    /** Every element is where Place says, and different ones are in different places. */
    lemma Places(i: nat)
      requires Valid() && i < |Contents()|
      ensures 0 <= Place(i) < buf.Length && Contents()[i] == buf[Place(i)]
      ensures forall j: nat | i < j < |Contents()| :: Place(j) != Place(i)
    {
    }

    constructor (buf: array<T>)
      ensures Valid() && Contents() == [] && this.buf == buf
    {
      this.buf := buf;
      aStart, aEnd, bEnd := 0, 0, 0;
    }

    function TotalUsedElems(): (n: int)
      requires Valid()
      reads this, buf
      ensures n == |Contents()|
    {
      aEnd - aStart + bEnd
    }

    function UsedFrontElems(): (n: int)
      requires Valid()
      reads this, buf
      ensures 0 <= n <= |Contents()| && (n == 0 <==> Contents() == [])
    {
      aEnd - aStart
    }

    function UsedBackElems(): (n: int)
      requires Valid()
      reads this, buf
      ensures 0 <= n <= |Contents()| && (n == 0 <==> Contents() == [])
    {
      if bEnd > 0 then bEnd else aEnd - aStart
    }

    /** used_front_elems are as many elements from the front as are in places in a row, */
    lemma FrontIsLongest()
      requires Valid()
      ensures forall i: nat | i < UsedFrontElems() :: Place(i) == Place(0) + i
      ensures UsedFrontElems() < |Contents()| ==> Place(UsedFrontElems()) != Place(0) + UsedFrontElems()
    {
    }

    /** and used_back_elems as many from the back. */
    lemma BackIsLongest()
      requires Valid()
      ensures var k, n := |Contents()|, UsedBackElems();
              && (forall i: nat | k - n <= i < k :: Place(i) == Place(k - 1) - (k - 1 - i))
              && (n < k ==> Place(k - 1 - n) != Place(k - 1) - n)
    {
    }

    function FreeElems(): (n: int)
      requires InPlace()
      reads this, buf
      ensures 0 <= n <= buf.Length - |Contents()|
    {
      if bEnd > 0 then aStart - bEnd
      else
        var beforeGap, afterGap := aStart, buf.Length - aEnd;
        if beforeGap > afterGap then beforeGap else afterGap
    }

    predicate IsEmpty()
      reads this
    {
      aStart == aEnd
    }

    /** is_empty is exact as long as the deque is valid. */
    lemma EmptyIff()
      requires Valid()
      ensures IsEmpty() <==> Contents() == []
    {
    }

    /** flush */
    method Flush()
      modifies this
      ensures Valid() && Contents() == []
    {
      aStart, aEnd, bEnd := 0, 0, 0;
    }

    // What push_front has room for
    function FrontSpace(): int
      requires Valid()
      reads this
    {
      if aStart == 0 then buf.Length - aEnd else aStart - bEnd
    }

    // n places in a row that hold no element
    ghost predicate Gap(p: nat, n: nat)
      requires Valid()
      reads this, buf
    {
      p + n <= buf.Length && forall i: nat | i < |Contents()| :: !(p <= Place(i) < p + n)
    }

    // These are right behind the last element, or at the start of the buffer while the deque has not gone round to
    // there
    ghost predicate BackGap(p: nat, n: nat)
      requires Valid()
      reads this, buf
    {
      Gap(p, n) && if Contents() == [] then p == 0
                   else
                     var last := Place(|Contents()| - 1);
                     p == last + 1 || (p == 0 && Place(0) <= last)
    }

    // These are right in front of the first element, or end the buffer while that element starts it
    ghost predicate FrontGap(p: nat, n: nat)
      requires Valid()
      reads this, buf
    {
      Gap(p, n) && if Contents() == [] then p + n == buf.Length
                   else p + n == Place(0) || (Place(0) == 0 && p + n == buf.Length)
    }

    /** free_elems is the space for push_back, */
    lemma BackGapIff(n: nat)
      requires Valid()
      ensures n <= FreeElems() <==> exists p: nat :: BackGap(p, n)
    {
      var k := |Contents()|;
      if n <= FreeElems() {
        assert BackGap(if k == 0 || (bEnd == 0 && n <= aStart) then 0 else Place(k - 1) + 1, n);
      }
      if p: nat :| BackGap(p, n) {
        if k > 0 && n > 0 {
          assert !(p <= Place(0) < p + n) && Place(0) == aStart;
          assert !(p <= Place(k - 1) < p + n);
        }
      }
    }

    /** and this is the space for push_front. */
    lemma FrontGapIff(n: nat)
      requires Valid() && n > 0
      ensures n <= FrontSpace() <==> exists p: nat :: FrontGap(p, n)
    {
      var k := |Contents()|;
      if n <= FrontSpace() {
        assert FrontGap(if aStart == 0 then buf.Length - n else aStart - n, n);
      }
      if p: nat :| FrontGap(p, n) {
        if k > 0 {
          assert !(p <= Place(0) < p + n) && Place(0) == aStart;
          assert !(p <= Place(k - 1) < p + n);
        }
      }
    }

    /** free_elems is documented as the space for both pushes. For push_front it is so exactly when region A starts
        the buffer, or there is a region B, or the gap in front of A is no smaller than the one behind it. */
    lemma FrontSpaceIsFreeIff()
      requires Valid()
      ensures FrontSpace() <= FreeElems()
      ensures FrontSpace() == FreeElems() <==> aStart == 0 || bEnd > 0 || aStart >= buf.Length - aEnd
    {
    }

    // memcpy
    method CopyIn(data: seq<T>, at: nat)
      requires at + |data| <= buf.Length
      modifies buf
      ensures buf[at..at + |data|] == data
      ensures forall i: nat | i < buf.Length && !(at <= i < at + |data|) :: buf[i] == old(buf[i])
    {
      forall i: nat | i < |data| {
        buf[at + i] := data[i];
      }
    }

    // The end of region B, or of region A in front of nothing
    method AppendB(data: seq<T>)
      requires InPlace() && |data| <= aStart - bEnd
      modifies this`bEnd, buf
      ensures bEnd == old(bEnd) + |data| && InPlace() && Contents() == old(Contents()) + data
    {
      ghost var was := buf[..];
      CopyIn(data, bEnd);
      GrownB(buf[..], aStart, aEnd, bEnd, |data|, bEnd + |data|);
      Unchanged(was, buf[..], aStart, aEnd, bEnd);
      bEnd := bEnd + |data|;
    }

    method AppendA(data: seq<T>)
      requires InPlace() && bEnd == 0 && |data| <= buf.Length - aEnd
      modifies this`aEnd, buf
      ensures aEnd == old(aEnd) + |data| && InPlace() && Contents() == old(Contents()) + data
    {
      ghost var was := buf[..];
      CopyIn(data, aEnd);
      GrownA(buf[..], aStart, aEnd, |data|, aEnd + |data|);
      Unchanged(was, buf[..], aStart, aEnd, 0);
      aEnd := aEnd + |data|;
    }

    /** push_back */
    method PushBack(data: seq<T>) returns (ok: bool)
      requires InPlace()
      modifies this`aEnd, this`bEnd, buf
      ensures InPlace() && (ok <==> |data| <= old(FreeElems())) && (old(Valid()) ==> Valid())
      ensures Contents() == if ok then old(Contents()) + data else old(Contents())
      ensures old(IsEmpty()) && aStart == buf.Length ==> IsEmpty()
    {
      if bEnd > 0 || buf.Length - aEnd < aStart - bEnd {
        if aStart - bEnd < |data| {
          return false;
        }
        AppendB(data);
      } else {
        if buf.Length - aEnd < |data| {
          return false;
        }
        AppendA(data);
      }
      return true;
    }

    // Region A becomes region B behind a new region A at the end of the buffer
    method NewRegionA(data: seq<T>)
      requires InPlace() && aStart == 0 && |data| <= buf.Length - aEnd
      modifies this, buf
      ensures aStart == buf.Length - |data| && aEnd == buf.Length && bEnd == old(aEnd)
      ensures InPlace() && Contents() == data + old(Contents())
    {
      ghost var was := buf[..];
      CopyIn(data, buf.Length - |data|);
      NewFront(buf[..], aEnd, data);
      Unchanged(was, buf[..], 0, aEnd, 0);
      bEnd, aStart, aEnd := aEnd, buf.Length - |data|, buf.Length;
    }

    method PrependA(data: seq<T>)
      requires InPlace() && |data| <= aStart - bEnd
      modifies this`aStart, buf
      ensures aStart == old(aStart) - |data| && InPlace() && Contents() == data + old(Contents())
    {
      ghost var was := buf[..];
      CopyIn(data, aStart - |data|);
      GrownFront(buf[..], aStart, aEnd, bEnd, data);
      Unchanged(was, buf[..], aStart, aEnd, bEnd);
      aStart := aStart - |data|;
    }

    /** push_front. Pushing no element at all onto a region A that starts the buffer leaves that region empty in
        front of a region B: the deque is then no longer valid, and is_empty says true whatever it contains. */
    method PushFront(data: seq<T>) returns (ok: bool)
      requires Valid()
      modifies this, buf
      ensures InPlace() && (ok <==> |data| <= old(FrontSpace()))
      ensures Contents() == if ok then data + old(Contents()) else old(Contents())
      ensures Valid() <==> |data| > 0 || old(aStart) > 0 || buf.Length == 0
      ensures !Valid() ==> IsEmpty() && aStart == buf.Length > 0
    {
      if aStart == 0 {
        if buf.Length - aEnd < |data| {
          return false;
        }
        NewRegionA(data);
      } else {
        if aStart - bEnd < |data| {
          return false;
        }
        PrependA(data);
      }
      return true;
    }

    /** Such a deque takes data and does not give it back at its front. */
    method EmptyPushFrontHidesData(data: seq<T>) returns (popped: nat)
      requires Valid() && Contents() == [] && 0 < |data| <= buf.Length
      modifies this, buf
      ensures InPlace() && Contents() == data && popped == 0
    {
      EmptyIff();
      var front := PushFront([]);
      var back := PushBack(data);
      var at;
      popped, at := PopFront(1);
    }

    // More than region A holds, but not more than the buffer has behind its start
    predicate Overdraws(n: nat)
      reads this, buf
    {
      aStart < aEnd < aStart + n <= buf.Length
    }

    /** pop_front. The deque is lost exactly when it is overdrawn: region A then starts behind its end. */
    method PopFront(n: nat) returns (popped: nat, at: nat)
      requires InPlace()
      modifies this
      ensures (InPlace() <==> !old(Overdraws(n))) && (old(Valid()) && !old(Overdraws(n)) ==> Valid())
      ensures popped == if old(IsEmpty()) || old(aStart) + n > buf.Length then 0 else n
      ensures !old(Overdraws(n)) ==> popped <= |old(Contents())| && Contents() == old(Contents())[popped..]
      ensures popped > 0 ==> at == old(aStart)
      ensures popped > 0 && !old(Overdraws(n)) ==> buf[at..at + popped] == old(Contents())[..popped]
      ensures old(Overdraws(n)) ==> aStart == at + n > aEnd == old(aEnd) && bEnd == old(bEnd)
    {
      at := 0;
      if n == 0 {
        return 0, at;
      }
      if IsEmpty() || aStart + n > buf.Length {
        return 0, at;
      }
      if aStart + n <= aEnd {
        Shrunk(buf[..], aStart, aEnd, bEnd, n);
      }
      at := aStart;
      aStart := aStart + n;
      if IsEmpty() {
        if bEnd > 0 {
          aStart, aEnd, bEnd := 0, bEnd, 0;
        } else {
          aStart, aEnd := 0, 0;
        }
      }
      popped := n;
    }

    /** peek_front */
    method PeekFront(n: nat) returns (seen: nat, at: nat)
      requires InPlace()
      ensures seen == if IsEmpty() || aStart + n > buf.Length then 0 else n
      ensures seen > 0 ==> at == aStart
      ensures seen > 0 && !Overdraws(n) ==> seen <= |Contents()| && buf[at..at + seen] == Contents()[..seen]
    {
      at := 0;
      if n == 0 {
        return 0, at;
      }
      if IsEmpty() || aStart + n > buf.Length {
        return 0, at;
      }
      if aStart + n <= aEnd {
        Shrunk(buf[..], aStart, aEnd, bEnd, n);
      }
      return n, aStart;
    }

    /** pop_back: as much as the last region holds. */
    method PopBack(n: nat) returns (ok: bool, at: nat)
      requires Valid()
      modifies this
      ensures Valid() && (ok <==> n <= old(UsedBackElems()))
      ensures if ok then at + n <= buf.Length && old(Contents()) == Contents() + buf[at..at + n]
              else Contents() == old(Contents())
    {
      at := 0;
      if bEnd > 0 {
        if n > bEnd {
          return false, at;
        }
        ShrunkBack(buf[..], aStart, aEnd, bEnd, n);
        bEnd := bEnd - n;
        return true, bEnd;
      } else {
        if n > aEnd - aStart {
          return false, at;
        }
        ShrunkBack(buf[..], aStart, aEnd, 0, n);
        aEnd := aEnd - n;
        at := aEnd;
        if aEnd == aStart {
          aStart, aEnd := 0, 0;
        }
        return true, at;
      }
    }

    /** peek_back */
    method PeekBack(n: nat) returns (ok: bool, at: nat)
      requires Valid()
      ensures ok <==> n <= UsedBackElems()
      ensures ok ==> at + n <= buf.Length && n <= |Contents()| && buf[at..at + n] == Contents()[|Contents()| - n..]
    {
      at := 0;
      if bEnd > 0 {
        if n > bEnd {
          return false, at;
        }
        ShrunkBack(buf[..], aStart, aEnd, bEnd, n);
        return true, bEnd - n;
      } else {
        if n > aEnd - aStart {
          return false, at;
        }
        ShrunkBack(buf[..], aStart, aEnd, 0, n);
        return true, aEnd - n;
      }
    }
  }
}
