// Index arithmetic of a ring of n slots in which one slot always stays unused, shared by the
// sequential and the concurrent model of src/isr_queue.c.
module RingIndex {

  /** Slots in use from tail up to head. */
  function Count(head: nat, tail: nat, n: nat): (c: nat)
    requires head < n && tail < n
    ensures c < n
  {
    if head >= tail then head - tail else head + n - tail
  }

  /** The slot i places after `from`. */
  function Pos(from: nat, i: nat, n: nat): (p: nat)
    requires from < n && i < n
    ensures p < n
  {
    if from + i >= n then from + i - n else from + i
  }

  /** INC_MODULO */
  function Inc(ix: nat, n: nat): (r: nat)
    requires ix < n
    ensures r < n
  {
    if ix + 1 == n then 0 else ix + 1
  }

  /** The elements between tail and head, oldest first. */
  function Between<T>(buf: seq<T>, head: nat, tail: nat): (s: seq<T>)
    requires head < |buf| && tail < |buf|
    ensures |s| == Count(head, tail, |buf|)
    ensures forall i: nat | i < |s| :: s[i] == buf[Pos(tail, i, |buf|)]
  {
    if head >= tail then buf[tail..head] else buf[tail..] + buf[..head]
  }
}
