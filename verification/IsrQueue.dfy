// src/isr_queue.c used by one thread: a ring over a fixed buffer whose slot before the tail always
// stays unused.
module IsrQueue {
  import opened RingIndex

  /** The newest k elements of a sequence. */
  function Newest<T>(s: seq<T>, k: nat): seq<T> { if |s| <= k then s else s[|s| - k..] }

  lemma Rejoined<T>(was: seq<T>, elements: seq<T>, p: nat)
    requires p <= |elements|
    ensures (was + elements[..p]) + elements[p..] == was + elements
    ensures p == |elements| ==> was + elements[..p] == was + elements
  {
    assert elements[..p] + elements[p..] == elements;
  }

  lemma NewestStep<T>(was: seq<T>, elements: seq<T>, i: nat, k: nat)
    requires i < |elements| && |was| == k
    ensures Newest(was + elements[..i + 1], k) == (Newest(was + elements[..i], k) + [elements[i]])[1..]
  {
    assert was + elements[..i + 1] == was + elements[..i] + [elements[i]];
  }

  lemma Moved<T>(done: seq<T>, chunk: seq<T>, before: seq<T>, after: seq<T>)
    requires chunk + after == before
    ensures done + before == (done + chunk) + after
  {
  }

  // Writing behind the head and moving it extends the contents
  lemma Extended<T>(buf: seq<T>, buf': seq<T>, head: nat, tail: nat, next: nat, xs: seq<T>)
    requires |buf'| == |buf| && head < |buf| && tail < |buf| && next < |buf| && head + |xs| <= |buf|
    requires Count(next, tail, |buf|) == Count(head, tail, |buf|) + |xs|
    requires forall k: nat | k < |buf| :: buf'[k] == if head <= k < head + |xs| then xs[k - head] else buf[k]
    ensures Between(buf', next, tail) == Between(buf, head, tail) + xs
  {
    var c := Count(head, tail, |buf|);
    forall i: nat | i < c + |xs| ensures Between(buf', next, tail)[i] == (Between(buf, head, tail) + xs)[i] {
      var p := Pos(tail, i, |buf|);
      assert i < c ==> !(head <= p < head + |xs|);
      assert i >= c ==> p == head + (i - c);
    }
  }

  lemma Dropped<T>(buf: seq<T>, head: nat, tail: nat, next: nat, k: nat)
    requires head < |buf| && tail < |buf| && k <= Count(head, tail, |buf|)
    requires next == if tail + k >= |buf| then tail + k - |buf| else tail + k
    ensures next < |buf| && Between(buf, head, next) == Between(buf, head, tail)[k..]
  {
    var rest := Between(buf, head, next);
    forall i: nat | i < |rest| ensures rest[i] == Between(buf, head, tail)[k..][i] {
      assert Pos(next, i, |buf|) == Pos(tail, k + i, |buf|);
    }
  }

  lemma FirstChunk<T>(buf: seq<T>, head: nat, tail: nat, k: nat)
    requires head < |buf| && tail < |buf| && k <= Count(head, tail, |buf|) && tail + k <= |buf|
    ensures Between(buf, head, tail)[..k] == buf[tail..tail + k]
  {
  }

  class IsrQueue<T> {
    const queue: array<T>
    var head: nat           // always an unused slot
    var tail: nat
    const overwrite: bool   // overwrite old data when full

    predicate Valid()
      reads this
    {
      head < queue.Length && tail < queue.Length
    }

    ghost function Contents(): seq<T>
      requires Valid()
      reads this, queue
    {
      Between(queue[..], head, tail)
    }

    function Capacity(): int { queue.Length - 1 }

    /** isr_queue_init */
    constructor (buf: array<T>, overwrite: bool)
      requires buf.Length > 0
      ensures Valid() && Contents() == [] && queue == buf && this.overwrite == overwrite
    {
      queue := buf;
      head, tail := 0, 0;
      this.overwrite := overwrite;
    }

    /** isr_queue_count */
    method CountElements() returns (n: nat)
      requires Valid()
      ensures n == |Contents()|
    {
      return if head >= tail then head - tail else queue.Length - (tail - head);
    }

    /** isr_queue_push_one */
    method PushOne(x: T) returns (pushed: nat)
      requires Valid()
      modifies this, queue
      ensures Valid()
      ensures pushed == if |old(Contents())| < Capacity() || overwrite then 1 else 0
      ensures Contents() == if |old(Contents())| < Capacity() then old(Contents()) + [x]
                            else if overwrite then (old(Contents()) + [x])[1..]
                            else old(Contents())
    {
      ghost var buf, full := queue[..], Count(head, tail, queue.Length) == Capacity();
      var next := Inc(head, queue.Length);
      if next != tail {
        queue[head] := x;
        Extended(buf, queue[..], head, tail, next, [x]);
        head := next;
        return 1;
      } else if overwrite {
        queue[head] := x;
        OverwrittenOldest(buf, queue[..], head, tail, x);
        head := next;
        tail := Inc(tail, queue.Length);
        return 1;
      }
      return 0;
    }

    /** isr_queue_pop_one */
    method PopOne() returns (ok: bool, x: T)
      requires Valid() && queue.Length > 0
      modifies this`tail
      ensures Valid()
      ensures ok <==> old(Contents()) != []
      ensures if ok then [x] + Contents() == old(Contents()) else Contents() == old(Contents())
    {
      x := queue[tail];
      if tail != head {
        ghost var next := Inc(tail, queue.Length);
        Dropped(queue[..], head, tail, next, 1);
        tail := Inc(tail, queue.Length);
        return true, x;
      }
      return false, x;
    }

    /** isr_queue_push. With the tail at slot 0 it returns only if the elements fit. */
    method Push(elements: seq<T>) returns (pushed: nat)
      requires Valid()
      requires tail != 0 || |Contents()| + |elements| <= Capacity()
      modifies this, queue
      ensures Valid() && pushed <= |elements|
      ensures overwrite ==> pushed == |elements| && Contents() == Newest(old(Contents()) + elements, Capacity())
      ensures !overwrite ==> Contents() == old(Contents()) + elements[..pushed]
      ensures !overwrite ==> pushed == |elements| || |Contents()| == Capacity()
    {
      pushed := PushFree(elements);
      Rejoined(old(Contents()), elements, pushed);
      if overwrite && pushed < |elements| {
        PushOver(elements[pushed..]);
        pushed := |elements|;
      }
    }

    // The loop of isr_queue_push: contiguous chunks as long as there is room
    method PushFree(elements: seq<T>) returns (pushed: nat)
      requires Valid()
      requires tail != 0 || |Contents()| + |elements| <= Capacity()
      modifies this`head, queue
      ensures Valid() && pushed <= |elements|
      ensures Contents() == old(Contents()) + elements[..pushed] && |Contents()| <= Capacity()
      ensures pushed == |elements| || |Contents()| == Capacity()
    {
      ghost var was := Contents();
      pushed := 0;
      var remaining: nat := |elements|;
      while remaining > 0
        invariant Valid() && pushed + remaining == |elements|
        invariant tail != 0 || |Contents()| + remaining <= Capacity()
        invariant Contents() == was + elements[..pushed]
        decreases remaining
      {
        var copySize := if head >= tail then queue.Length - head else tail - 1 - head;
        if remaining < copySize {
          copySize := remaining;
        }
        if copySize == 0 {
          break;
        }
        PushChunk(elements[pushed..pushed + copySize]);
        assert elements[..pushed] + elements[pushed..pushed + copySize] == elements[..pushed + copySize];
        pushed := pushed + copySize;
        remaining := remaining - copySize;
      }
    }

    // The element-wise overwriting at the end of isr_queue_push, once the ring is full
    method PushOver(elements: seq<T>)
      requires Valid() && overwrite && |Contents()| == Capacity()
      modifies this, queue
      ensures Valid() && Contents() == Newest(old(Contents()) + elements, Capacity())
    {
      var k: nat := 0;
      ghost var was := Contents();
      assert was + elements[..0] == was;
      while k < |elements|
        invariant k <= |elements| && Valid() && |Contents()| == Capacity()
        invariant Contents() == Newest(was + elements[..k], Capacity())
      {
        var one := PushOne(elements[k]);
        NewestStep(was, elements, k, Capacity());
        k := k + 1;
      }
      assert elements[..|elements|] == elements;
    }

    // One round of the push loop that does not run into an unmovable tail
    method PushChunk(chunk: seq<T>)
      requires Valid() && 0 < |chunk|
      requires |chunk| <= if head >= tail then queue.Length - head else tail - 1 - head
      requires tail != 0 || |Contents()| + |chunk| <= Capacity()
      modifies this`head, queue
      ensures Valid() && Contents() == old(Contents()) + chunk
    {
      ghost var buf := queue[..];
      var h := head;
      forall i: nat | i < |chunk| {
        queue[h + i] := chunk[i];
      }
      var next := head + |chunk|;
      if next >= queue.Length {
        next := 0;
      }
      Extended(buf, queue[..], head, tail, next, chunk);
      head := next;
    }

    /** isr_queue_pop */
    method Pop(size: nat) returns (elements: seq<T>)
      requires Valid()
      modifies this`tail
      ensures Valid()
      ensures |elements| == if size < |old(Contents())| then size else |old(Contents())|
      ensures elements + Contents() == old(Contents())
    {
      var available := CountElements();
      var left: nat := if size > available then available else size;
      ghost var all, rest, total := Contents(), Contents(), left;
      elements := [];
      while left > 0
        invariant Valid() && |elements| + left == total && left <= |rest|
        invariant rest == Contents() && elements + rest == all
      {
        var chunkSize: nat := if head >= tail then head - tail else queue.Length - tail;
        if chunkSize > left {
          chunkSize := left;
        }
        var chunk := PopChunk(chunkSize);
        Moved(elements, chunk, rest, Contents());
        rest := Contents();
        elements := elements + chunk;
        left := left - chunkSize;
      }
    }

    // One round of the pop loop
    method PopChunk(chunkSize: nat) returns (chunk: seq<T>)
      requires Valid() && 0 < chunkSize <= |Contents()| && tail + chunkSize <= queue.Length
      modifies this`tail
      ensures Valid() && |chunk| == chunkSize && chunk + Contents() == old(Contents())
    {
      FirstChunk(queue[..], head, tail, chunkSize);
      chunk := queue[tail..tail + chunkSize];
      AdvanceTail(chunkSize);
    }

    // Move the tail over a chunk
    method AdvanceTail(chunkSize: nat)
      requires Valid() && 0 < chunkSize <= |Contents()| && tail + chunkSize <= queue.Length
      modifies this`tail
      ensures Valid() && Contents() == old(Contents())[chunkSize..]
    {
      var next := tail + chunkSize;
      if next >= queue.Length {
        next := 0;
      }
      Dropped(queue[..], head, tail, next, chunkSize);
      tail := next;
    }

    /** isr_queue_discard */
    method Discard(num: nat) returns (popped: nat)
      requires Valid()
      modifies this`tail
      ensures Valid()
      ensures popped == if num < |old(Contents())| then num else |old(Contents())|
      ensures Contents() == old(Contents())[popped..]
    {
      var available := CountElements();
      var left: nat := if num > available then available else num;
      ghost var all, total := Contents(), left;
      popped := 0;
      while left > 0
        invariant Valid() && popped + left == total && Contents() == all[popped..]
      {
        var chunkSize: nat := if head >= tail then head - tail else queue.Length - tail;
        if chunkSize > left {
          chunkSize := left;
        }
        AdvanceTail(chunkSize);
        assert all[popped..][chunkSize..] == all[popped + chunkSize..];
        popped := popped + chunkSize;
        left := left - chunkSize;
      }
    }

    /** isr_queue_peek: the oldest elements in place, all of them or as many as there are up to the end of the buffer */
    method Peek() returns (first: nat, size: nat)
      requires Valid()
      ensures first + size <= queue.Length && queue[first..first + size] <= Contents()
      ensures size == 0 <==> Contents() == []
      ensures size == |Contents()| || first + size == queue.Length
    {
      if tail < head {
        return tail, head - tail;
      } else if tail > head {
        return tail, queue.Length - tail;
      }
      return 0, 0;
    }
  }

  // Overwriting the unused slot of a full ring and moving both ends drops the oldest element
  lemma OverwrittenOldest<T>(buf: seq<T>, buf': seq<T>, head: nat, tail: nat, x: T)
    requires head < |buf| && tail == Inc(head, |buf|) && buf' == buf[head := x]
    ensures Between(buf', tail, Inc(tail, |buf|)) == (Between(buf, head, tail) + [x])[1..]
  {
    var n, q := |buf|, Between(buf', tail, Inc(tail, |buf|));
    forall i: nat | i < |q| ensures q[i] == (Between(buf, head, tail) + [x])[1..][i] {
      assert i + 1 < n - 1 ==> Pos(Inc(tail, n), i, n) == Pos(tail, i + 1, n) != head;
      assert i + 1 == n - 1 ==> Pos(Inc(tail, n), i, n) == head;
    }
  }
}
