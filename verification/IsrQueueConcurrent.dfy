// src/isr_queue.c with overwrite off, shared by one producer and one consumer. Every atomic load and
// store and every copied element is a step of its own, and the steps of the two sides interleave in
// any order. Loads and stores are sequentially consistent, as the default C11 ordering makes them.
module IsrQueueConcurrent {
  import opened RingIndex

  // Where the producer is inside isr_queue_push_one or isr_queue_push. `elems` is what the call was
  // given, `base` how much had been accepted before it, `rest` what is still to be pushed.
  datatype Producer<T> =
    | PIdle
    | PLoadHead(one: bool, elems: seq<T>, base: nat, rest: seq<T>)
    | PLoadTail(one: bool, elems: seq<T>, base: nat, rest: seq<T>, h: nat)
    | PCopy(one: bool, elems: seq<T>, base: nat, rest: seq<T>, h: nat, t: nat, size: nat, i: nat)

  // Where the consumer is inside isr_queue_pop_one or isr_queue_pop
  datatype Consumer<T> =
    | CIdle
    | COneLoadHead(t: nat)
    | CCountTail(want: nat, h: nat)
    | CLoadHead(want: nat)
    | CLoadTail(want: nat, h: nat)
    | CCopy(one: bool, want: nat, t: nat, size: nat, out: seq<T>)

  /** The shared queue, the two sides, and the history of elements accepted and popped so far. */
  datatype State<T> = State(buf: seq<T>, head: nat, tail: nat, prod: Producer<T>, cons: Consumer<T>,
                            accepted: seq<T>, popped: seq<T>)

  datatype Action<T> =
    | PushOne(x: T)           // calls are made only while that side is idle
    | Push(elems: seq<T>)
    | ProducerStep
    | PopOne
    | Pop(n: nat)
    | ConsumerStep

  function Init<T>(buf: seq<T>): State<T> {
    State(buf, 0, 0, PIdle, CIdle, [], [])
  }

  // What isr_queue_push does with one pair of loaded indices: how much it copies
  function PushSize(h: nat, t: nat, n: nat, remaining: nat): nat
    requires h < n && t < n
  {
    var space := if h >= t then n - h else t - 1 - h;
    if remaining < space then remaining else space
  }

  // ... and where the head goes, and how many elements that publishes
  function PushNext(h: nat, t: nat, n: nat, size: nat): (nat, int)
    requires n > 0
  {
    if h + size >= n then
      if t != 0 then (0, size) else (n - 1, size - 1)
    else (h + size, size)
  }

  function ProducerNext<T>(s: State<T>): State<T>
    requires Inv(s)
  {
    var n := |s.buf|;
    match s.prod
    case PIdle => s
    case PLoadHead(one, elems, base, rest) =>
      if rest == [] then s.(prod := PIdle) else s.(prod := PLoadTail(one, elems, base, rest, s.head))
    case PLoadTail(one, elems, base, rest, h) =>
      var t := s.tail;
      if one then
        if Inc(h, n) != t then s.(prod := PCopy(one, elems, base, rest, h, t, 1, 0)) else s.(prod := PIdle)
      else
        var size := PushSize(h, t, n, |rest|);
        if size == 0 then s.(prod := PIdle) else s.(prod := PCopy(one, elems, base, rest, h, t, size, 0))
    case PCopy(one, elems, base, rest, h, t, size, i) =>
      if i < size then
        s.(buf := s.buf[h + i := rest[i]], prod := PCopy(one, elems, base, rest, h, t, size, i + 1))
      else
        var (next, pushed) := if one then (Inc(h, n), 1) else PushNext(h, t, n, size);
        s.(head := next, accepted := s.accepted + rest[..pushed],
           prod := if one then PIdle else PLoadHead(one, elems, base, rest[pushed..]))
  }

  function ConsumerNext<T>(s: State<T>): State<T>
    requires Inv(s)
  {
    var n := |s.buf|;
    match s.cons
    case CIdle => s
    case COneLoadHead(t) =>
      if t != s.head then s.(cons := CCopy(true, 1, t, 1, [])) else s.(cons := CIdle)
    case CCountTail(want, h) =>
      var available := Count(h, s.tail, n);
      s.(cons := CLoadHead(if want > available then available else want))
    case CLoadHead(want) =>
      if want == 0 then s.(cons := CIdle) else s.(cons := CLoadTail(want, s.head))
    case CLoadTail(want, h) =>
      var t := s.tail;
      if h == t then s.(cons := CIdle) else
      var chunk := if h >= t then h - t else n - t;
      s.(cons := CCopy(false, want, t, if chunk > want then want else chunk, []))
    case CCopy(one, want, t, size, out) =>
      if |out| < size then
        s.(cons := CCopy(one, want, t, size, out + [s.buf[t + |out|]]))
      else
        s.(tail := if t + size >= n then 0 else t + size, popped := s.popped + out,
           cons := if one then CIdle else CLoadHead(want - size))
  }

  function Next<T>(s: State<T>, a: Action<T>): State<T>
    requires Inv(s)
  {
    match a
    case PushOne(x) => if s.prod.PIdle? then s.(prod := PLoadHead(true, [x], |s.accepted|, [x])) else s
    case Push(elems) => if s.prod.PIdle? then s.(prod := PLoadHead(false, elems, |s.accepted|, elems)) else s
    case ProducerStep => ProducerNext(s)
    case PopOne => if s.cons.CIdle? then s.(cons := COneLoadHead(s.tail)) else s
    case Pop(m) => if s.cons.CIdle? then s.(cons := CCountTail(m, s.head)) else s
    case ConsumerStep => ConsumerNext(s)
  }

  // ---- The invariant ----

  // The published elements are in place between tail and head
  ghost predicate QueueOk<T>(s: State<T>) {
    && s.head < |s.buf| && s.tail < |s.buf|
    && |s.popped| <= |s.accepted|
    && Count(s.head, s.tail, |s.buf|) == |s.accepted| - |s.popped|
    && s.popped == s.accepted[..|s.popped|]
    && forall i: nat | i < |s.accepted| - |s.popped| :: s.buf[Pos(s.tail, i, |s.buf|)] == s.accepted[|s.popped| + i]
  }

  // A call has accepted exactly the elements it was given up to `rest`
  ghost predicate CallOk<T>(accepted: seq<T>, elems: seq<T>, base: nat, rest: seq<T>) {
    base <= |accepted| && accepted[base..] + rest == elems
  }

  // The loaded tail may be stale, but the consumer only ever makes more room
  ghost predicate ProducerOk<T>(s: State<T>)
    requires QueueOk(s)
  {
    var n := |s.buf|;
    match s.prod
    case PIdle => true
    case PLoadHead(one, elems, base, rest) => CallOk(s.accepted, elems, base, rest) && (one ==> |rest| == 1)
    case PLoadTail(one, elems, base, rest, h) =>
      CallOk(s.accepted, elems, base, rest) && h == s.head && |rest| > 0 && (one ==> |rest| == 1)
    case PCopy(one, elems, base, rest, h, t, size, i) =>
      && CallOk(s.accepted, elems, base, rest) && h == s.head && t < n
      && 0 < size <= |rest| && i <= size && h + size <= n
      && Count(h, s.tail, n) <= Count(h, t, n)
      && (if one then size == 1 && Inc(h, n) != t
          else if h >= t then true else h + size < t)
      && forall k: nat | k < i :: rest[k] == s.buf[h + k]
  }

  // The loaded head may be stale, but the producer only ever adds elements
  ghost predicate ConsumerOk<T>(s: State<T>)
    requires QueueOk(s)
  {
    var n := |s.buf|;
    match s.cons
    case CIdle => true
    case COneLoadHead(t) => t == s.tail
    case CCountTail(want, h) => h < n && Count(h, s.tail, n) <= Count(s.head, s.tail, n)
    case CLoadHead(want) => true
    case CLoadTail(want, h) => want > 0 && h < n && Count(h, s.tail, n) <= Count(s.head, s.tail, n)
    case CCopy(one, want, t, size, out) =>
      && t == s.tail && 0 < size <= want && t + size <= n && size <= Count(s.head, s.tail, n)
      && |out| <= size && out == s.accepted[|s.popped|..|s.popped| + |out|]
  }

  ghost predicate Inv<T>(s: State<T>) {
    QueueOk(s) && ProducerOk(s) && ConsumerOk(s)
  }

  // ---- Every step keeps it ----

  lemma InitOk<T>(buf: seq<T>)
    requires |buf| > 0
    ensures Inv(Init(buf))
  {
  }

  lemma LoadTailOneOk<T>(s: State<T>)
    requires Inv(s) && s.prod.PLoadTail? && s.prod.one
    ensures Inv(ProducerNext(s))
  {
    ConsumerUnmoved(s, ProducerNext(s));
  }

  lemma LoadTailOk<T>(s: State<T>)
    requires Inv(s) && s.prod.PLoadTail? && !s.prod.one
    ensures Inv(ProducerNext(s))
  {
    ConsumerUnmoved(s, ProducerNext(s));
  }

  lemma CopyStepOk<T>(s: State<T>)
    requires Inv(s) && s.prod.PCopy? && s.prod.i < s.prod.size
    ensures Inv(ProducerNext(s))
  {
  }

  // The new head publishes elements into free slots only, whatever the tail has become meanwhile
  lemma PublishIndex(h: nat, t: nat, tail: nat, n: nat, size: nat)
    requires h < n && t < n && tail < n && 0 < size && h + size <= n
    requires Count(h, tail, n) <= Count(h, t, n)
    requires h < t ==> h + size < t
    ensures var (next, pushed) := PushNext(h, t, n, size);
            && 0 <= pushed <= size && next < n
            && Count(next, tail, n) == Count(h, tail, n) + pushed
  {
  }

  lemma PosBehindHead(h: nat, tail: nat, n: nat, k: nat)
    requires h < n && tail < n && Count(h, tail, n) + k < n && h + k < n
    ensures Pos(tail, Count(h, tail, n) + k, n) == h + k
  {
  }

  lemma PublishOneIndex(h: nat, t: nat, tail: nat, n: nat)
    requires h < n && t < n && tail < n && Inc(h, n) != t
    requires Count(h, tail, n) <= Count(h, t, n)
    ensures Count(Inc(h, n), tail, n) == Count(h, tail, n) + 1
  {
  }

  // Moving the head over copied elements extends the queue by them
  lemma Published<T>(s: State<T>, next: nat, xs: seq<T>)
    requires QueueOk(s) && next < |s.buf| && s.head + |xs| <= |s.buf|
    requires Count(next, s.tail, |s.buf|) == Count(s.head, s.tail, |s.buf|) + |xs|
    requires forall k: nat | k < |xs| :: s.buf[s.head + k] == xs[k]
    ensures QueueOk(s.(head := next, accepted := s.accepted + xs))
  {
    var accepted, c := s.accepted + xs, |s.accepted| - |s.popped|;
    assert accepted[..|s.popped|] == s.accepted[..|s.popped|];
    forall i: nat | i < |accepted| - |s.popped|
      ensures s.buf[Pos(s.tail, i, |s.buf|)] == accepted[|s.popped| + i]
    {
      if i >= c {
        PosBehindHead(s.head, s.tail, |s.buf|, i - c);
        assert s.buf[s.head + (i - c)] == xs[i - c];
      } else {
        assert accepted[|s.popped| + i] == s.accepted[|s.popped| + i];
      }
    }
  }

  lemma PublishOneOk<T>(s: State<T>)
    requires Inv(s) && s.prod.PCopy? && s.prod.i == s.prod.size && s.prod.one
    ensures Inv(ProducerNext(s))
  {
    var PCopy(one, elems, base, rest, h, t, size, i) := s.prod;
    PublishOneIndex(h, t, s.tail, |s.buf|);
    Published(s, Inc(h, |s.buf|), rest[..1]);
    ConsumerUnmoved(s, ProducerNext(s));
  }

  lemma PublishOk<T>(s: State<T>)
    requires Inv(s) && s.prod.PCopy? && s.prod.i == s.prod.size && !s.prod.one
    ensures Inv(ProducerNext(s))
  {
    var PCopy(one, elems, base, rest, h, t, size, i) := s.prod;
    var n := |s.buf|;
    PublishIndex(h, t, s.tail, n, size);
    var (next, pushed) := PushNext(h, t, n, size);
    Published(s, next, rest[..pushed]);
    CallAdvances(s.accepted, elems, base, rest, pushed);
    var s' := ProducerNext(s);
    assert s' == s.(head := next, accepted := s.accepted + rest[..pushed], prod := s'.prod);
    ConsumerUnmoved(s, s');
  }

  lemma CallAdvances<T>(accepted: seq<T>, elems: seq<T>, base: nat, rest: seq<T>, pushed: nat)
    requires CallOk(accepted, elems, base, rest) && pushed <= |rest|
    ensures CallOk(accepted + rest[..pushed], elems, base, rest[pushed..])
  {
    assert (accepted + rest[..pushed])[base..] == accepted[base..] + rest[..pushed];
    assert rest == rest[..pushed] + rest[pushed..];
  }

  // The consumer does not notice elements being added behind the ones it looks at
  lemma ConsumerUnmoved<T>(s: State<T>, s': State<T>)
    requires Inv(s) && QueueOk(s') && |s'.buf| == |s.buf| && s'.tail == s.tail && s'.cons == s.cons
    requires s'.popped == s.popped
    requires s.accepted <= s'.accepted
    ensures ConsumerOk(s')
  {
    match s.cons
    case CCopy(one, want, t, size, out) =>
      assert s'.accepted[|s.popped|..|s.popped| + |out|] == s.accepted[|s.popped|..|s.popped| + |out|];
    case _ =>
  }

  lemma ProducerStepOk<T>(s: State<T>)
    requires Inv(s)
    ensures Inv(ProducerNext(s))
  {
    match s.prod
    case PIdle =>
    case PLoadHead(_, _, _, _) =>
    case PLoadTail(one, _, _, _, _) =>
      if one {
        LoadTailOneOk(s);
      } else {
        LoadTailOk(s);
      }
    case PCopy(one, _, _, _, _, _, size, i) =>
      if i < size {
        CopyStepOk(s);
      } else if one {
        PublishOneOk(s);
      } else {
        PublishOk(s);
      }
  }

  lemma TakeElementOk<T>(s: State<T>)
    requires Inv(s) && s.cons.CCopy? && |s.cons.out| < s.cons.size
    ensures Inv(ConsumerNext(s))
  {
    var CCopy(one, want, t, size, out) := s.cons;
    var c := |s.popped|;
    assert s.buf[Pos(s.tail, |out|, |s.buf|)] == s.accepted[c + |out|];
    assert s.accepted[c..c + |out| + 1] == s.accepted[c..c + |out|] + [s.accepted[c + |out|]];
  }

  // Moving the tail over the copied chunk
  lemma Consumed<T>(s: State<T>)
    requires Inv(s) && s.cons.CCopy? && |s.cons.out| == s.cons.size
    ensures var s' := ConsumerNext(s);
            QueueOk(s') && |s'.buf| == |s.buf| && s'.head == s.head && s'.accepted == s.accepted
  {
    var CCopy(one, want, t, size, out) := s.cons;
    var s', n := ConsumerNext(s), |s.buf|;
    forall i: nat | i < |s'.accepted| - |s'.popped|
      ensures s'.buf[Pos(s'.tail, i, n)] == s'.accepted[|s'.popped| + i]
    {
      assert s.buf[Pos(s.tail, size + i, n)] == s.accepted[|s.popped| + (size + i)];
    }
  }

  lemma ConsumeOk<T>(s: State<T>)
    requires Inv(s) && s.cons.CCopy? && |s.cons.out| == s.cons.size
    ensures Inv(ConsumerNext(s))
  {
    Consumed(s);
  }

  lemma ConsumerLoadOk<T>(s: State<T>)
    requires Inv(s) && !s.cons.CCopy?
    ensures Inv(ConsumerNext(s))
  {
    var c := ConsumerNext(s).cons;
    assert ConsumerNext(s) == s.(cons := c);
    assert QueueOk(s.(cons := c)) && ProducerOk(s.(cons := c));
    assert ConsumerOk(s.(cons := c));
  }

  lemma ConsumerStepOk<T>(s: State<T>)
    requires Inv(s)
    ensures Inv(ConsumerNext(s))
  {
    if !s.cons.CCopy? {
      ConsumerLoadOk(s);
    } else if |s.cons.out| < s.cons.size {
      TakeElementOk(s);
    } else {
      ConsumeOk(s);
    }
  }

  lemma StartOk<T>(s: State<T>, a: Action<T>)
    requires Inv(s) && (a.PushOne? || a.Push? || a.PopOne? || a.Pop?)
    ensures Inv(Next(s, a))
  {
    var s' := Next(s, a);
    assert s' == s.(prod := s'.prod, cons := s'.cons);
    assert QueueOk(s.(prod := s'.prod, cons := s'.cons));
  }

  // ---- All interleavings ----

  /** The state after any interleaving of calls and steps. */
  ghost function Run<T>(buf: seq<T>, actions: seq<Action<T>>): (s: State<T>)
    requires |buf| > 0
    ensures Inv(s) && |s.buf| == |buf|
    decreases |actions|
  {
    if actions == [] then
      InitOk(buf);
      Init(buf)
    else
      var s, a := Run(buf, actions[..|actions| - 1]), actions[|actions| - 1];
      NextOk(s, a);
      NextGrows(s, a);
      Next(s, a)
  }

  lemma NextGrows<T>(s: State<T>, a: Action<T>)
    requires Inv(s)
    ensures |Next(s, a).buf| == |s.buf|
    ensures s.accepted <= Next(s, a).accepted && s.popped <= Next(s, a).popped
  {
  }

  lemma NextOk<T>(s: State<T>, a: Action<T>)
    requires Inv(s)
    ensures Inv(Next(s, a))
  {
    match a
    case ProducerStep => ProducerStepOk(s);
    case ConsumerStep => ConsumerStepOk(s);
    case _ => StartOk(s, a);
  }

  /** After any interleaving the popped elements are a prefix of the accepted ones, and the difference
      is exactly what the ring holds between tail and head, which is never more than end_ix - 1. */
  lemma FirstInFirstOut<T>(buf: seq<T>, actions: seq<Action<T>>)
    requires |buf| > 0
    ensures var s := Run(buf, actions);
            && s.popped <= s.accepted
            && s.accepted == s.popped + Between(s.buf, s.head, s.tail)
            && |s.accepted| - |s.popped| <= |buf| - 1
  {
    var s := Run(buf, actions);
    var q := Between(s.buf, s.head, s.tail);
    forall i: nat | i < |q| ensures q[i] == s.accepted[|s.popped| + i] {
      assert q[i] == s.buf[Pos(s.tail, i, |s.buf|)];
    }
    assert s.accepted == s.popped + s.accepted[|s.popped|..];
    assert q == s.accepted[|s.popped|..];
  }

  /** The slot the producer is about to write is neither between tail and head nor in the chunk the
      consumer is reading. */
  lemma ProducerWritesOnlyFreeSlots<T>(buf: seq<T>, actions: seq<Action<T>>)
    requires |buf| > 0
    ensures var s := Run(buf, actions);
            s.prod.PCopy? && s.prod.i < s.prod.size ==>
              && s.prod.h + s.prod.i < |s.buf|
              && (forall i: nat | i < Count(s.head, s.tail, |s.buf|) :: s.prod.h + s.prod.i != Pos(s.tail, i, |s.buf|))
              && (s.cons.CCopy? ==> !(s.cons.t <= s.prod.h + s.prod.i < s.cons.t + s.cons.size))
  {
    var s := Run(buf, actions);
    if s.prod.PCopy? && s.cons.CCopy? {
      SlotInChunk(s.head, s.tail, |s.buf|, s.cons.size, s.prod.h + s.prod.i);
    }
  }

  lemma SlotInChunk(head: nat, tail: nat, n: nat, size: nat, slot: nat)
    requires head < n && tail < n && tail + size <= n && size <= Count(head, tail, n)
    ensures tail <= slot < tail + size ==> exists i: nat :: i < Count(head, tail, n) && slot == Pos(tail, i, n)
  {
    if tail <= slot < tail + size {
      assert slot == Pos(tail, slot - tail, n);
    }
  }

  /** A call under way has accepted exactly the elements it was given up to the ones it still holds, so
      the count it returns is a prefix length and nothing is reordered, dropped or duplicated. */
  lemma CallsAcceptPrefixes<T>(buf: seq<T>, actions: seq<Action<T>>)
    requires |buf| > 0
    ensures var s := Run(buf, actions);
            !s.prod.PIdle? ==>
              && s.prod.base <= |s.accepted|
              && s.accepted[s.prod.base..] + s.prod.rest == s.prod.elems
  {
  }

  // ---- A push that never returns ----

  function ProducerSteps<T>(k: nat): seq<Action<T>> { seq(k, _ => ProducerStep) }

  ghost function Iterate<S>(f: S -> S, s: S, k: nat): S {
    if k == 0 then s else f(Iterate(f, s, k - 1))
  }

  lemma {:induction false} IterateAdds<S>(f: S -> S, s: S, j: nat, k: nat)
    ensures Iterate(f, Iterate(f, s, j), k) == Iterate(f, s, j + k)
  {
    if k > 0 {
      IterateAdds(f, s, j, k - 1);
    }
  }

  lemma {:induction false} IterateStays<S>(f: S -> S, s: S, j: nat, k: nat)
    requires f(Iterate(f, s, j)) == Iterate(f, s, j) && j <= k
    ensures Iterate(f, s, k) == Iterate(f, s, j)
  {
    if j < k {
      IterateStays(f, s, j, k - 1);
    }
  }

  lemma {:induction false} IterateKeeps<S>(f: S -> S, p: S -> bool, s: S, k: nat)
    requires p(s) && forall x | p(x) :: p(f(x))
    ensures p(Iterate(f, s, k))
  {
    if k > 0 {
      IterateKeeps(f, p, s, k - 1);
    }
  }

  ghost function Produced<T>(s: State<T>): State<T> { if Inv(s) then ProducerNext(s) else s }

  /** The state when only the producer takes steps. */
  ghost function Alone<T>(s: State<T>, k: nat): State<T> {
    var f: State<T> -> State<T> := Produced;
    Iterate(f, s, k)
  }

  lemma AloneStep<T>(s: State<T>, k: nat)
    ensures Alone(s, 0) == s && Alone(s, k + 1) == Produced(Alone(s, k))
  {
  }

  lemma AloneAdds<T>(s: State<T>, j: nat, k: nat)
    ensures Alone(Alone(s, j), k) == Alone(s, j + k)
  {
    var f: State<T> -> State<T> := Produced;
    IterateAdds(f, s, j, k);
  }

  lemma IdleStays<T>(s: State<T>, j: nat, k: nat)
    requires Alone(s, j).prod.PIdle? && j <= k
    ensures Alone(s, k) == Alone(s, j)
  {
    var f: State<T> -> State<T> := Produced;
    IterateStays(f, s, j, k);
  }

  lemma AloneOk<T>(s: State<T>, k: nat)
    requires Inv(s)
    ensures Inv(Alone(s, k)) && |Alone(s, k).buf| == |s.buf| && Alone(s, k).tail == s.tail
  {
    var f: State<T> -> State<T> := Produced;
    var p: State<T> -> bool := x => Inv(x) && |x.buf| == |s.buf| && x.tail == s.tail;
    forall x | p(x) ensures p(f(x)) {
      ProducedOk(x);
    }
    IterateKeeps(f, p, s, k);
    assert p(Iterate(f, s, k));
  }

  lemma ProducedOk<T>(s: State<T>)
    requires Inv(s)
    ensures Inv(Produced(s)) && |Produced(s).buf| == |s.buf| && Produced(s).tail == s.tail
  {
    ProducerStepOk(s);
  }

  lemma RunOn<T>(buf: seq<T>, actions: seq<Action<T>>)
    requires |buf| > 0 && actions != [] && actions[|actions| - 1] == ProducerStep
    ensures Run(buf, actions) == Produced(Run(buf, actions[..|actions| - 1]))
  {
  }

  lemma {:induction false} AloneIsRun<T>(buf: seq<T>, actions: seq<Action<T>>, k: nat)
    requires |buf| > 0
    ensures Run(buf, actions + ProducerSteps(k)) == Alone(Run(buf, actions), k)
  {
    if k == 0 {
      assert actions + ProducerSteps(0) == actions;
    } else {
      AloneIsRun(buf, actions, k - 1);
      var all := actions + ProducerSteps(k);
      assert all[..|all| - 1] == actions + ProducerSteps(k - 1) && all[|all| - 1] == ProducerStep;
      RunOn(buf, all);
      AloneStep(Run(buf, actions), k - 1);
    }
  }

  // The loop of isr_queue_push when the tail stays at slot 0 and not all that is left fits: whatever it
  // copies, one element more is left than there are slots to publish
  ghost predicate Spins<T>(s: State<T>) {
    && s.tail == 0 && s.head < |s.buf|
    && match s.prod
       case PIdle => false
       case PLoadHead(one, _, _, rest) => !one && |rest| > |s.buf| - 1 - s.head
       case PLoadTail(one, _, _, rest, h) => !one && h == s.head && |rest| > |s.buf| - 1 - s.head
       case PCopy(one, _, _, rest, h, t, size, _) => !one && h == s.head && t == 0 && size == |s.buf| - h <= |rest|
  }

  lemma SpinsForever<T>(s: State<T>, k: nat)
    requires Inv(s) && Spins(s)
    ensures Spins(Alone(s, k))
  {
    var f: State<T> -> State<T> := Produced;
    var p: State<T> -> bool := x => Inv(x) && Spins(x);
    forall x | p(x) ensures p(f(x)) {
      ProducedOk(x);
      SpinsOn(x);
    }
    IterateKeeps(f, p, s, k);
    assert p(Iterate(f, s, k));
  }

  lemma SpinsOn<T>(s: State<T>)
    requires Inv(s) && Spins(s)
    ensures Spins(Produced(s))
  {
  }

  // What one whole round of the loop makes of the head and of what is left
  function PushRound(h: nat, t: nat, n: nat, remaining: nat): (r: (nat, nat))
    requires h < n && t < n
    ensures r.0 < n && r.1 <= remaining
  {
    var size := PushSize(h, t, n, remaining);
    if size == 0 then (h, remaining) else
    var (next, pushed) := PushNext(h, t, n, size);
    (next, remaining - pushed)
  }

  predicate PushReturns(h: nat, t: nat, n: nat, remaining: nat)
    requires h < n && t < n
  {
    remaining == 0 || PushSize(h, t, n, remaining) == 0
  }

  // What fits between head and tail
  function Free(h: nat, t: nat, n: nat): nat
    requires h < n && t < n
  {
    n - 1 - Count(h, t, n)
  }

  // A round takes no more than fits, and two rounds take all that does
  lemma TwoRounds(h: nat, t: nat, n: nat, len: nat)
    requires h < n && t < n && (t != 0 || len <= Free(h, t, n))
    ensures PushReturns(h, t, n, len) ==> len == 0 || Free(h, t, n) == 0
    ensures var (h', left) := PushRound(h, t, n, len); Free(h', t, n) == Free(h, t, n) - (len - left)
    ensures RoundsLeft(h, t, n, len, 2)
  {
    var (h', left) := PushRound(h, t, n, len);
    assert RoundsLeft(h', t, n, left, 1);
  }

  // A call of isr_queue_push is at the head of its loop
  ghost predicate AtRound<T>(s: State<T>) { Inv(s) && s.prod.PLoadHead? && !s.prod.one }

  lemma {:induction false} CopiesOn<T>(s: State<T>, k: nat)
    requires Inv(s) && s.prod.PCopy? && s.prod.i + k <= s.prod.size
    ensures Alone(s, k).prod == s.prod.(i := s.prod.i + k) && Alone(s, k).head == s.head
    ensures Alone(s, k).accepted == s.accepted
  {
    AloneStep(s, 0);
    if k > 0 {
      CopiesOn(s, k - 1);
      AloneOk(s, k - 1);
      AloneStep(s, k - 1);
      CopiesOne(Alone(s, k - 1));
    }
  }

  lemma CopiesOne<T>(s: State<T>)
    requires Inv(s) && s.prod.PCopy? && s.prod.i < s.prod.size
    ensures Produced(s).prod == s.prod.(i := s.prod.i + 1) && Produced(s).head == s.head
    ensures Produced(s).accepted == s.accepted
  {
  }

  lemma TwoLoads<T>(s: State<T>)
    requires AtRound(s) && s.prod.rest != []
    ensures Alone(s, 2).head == s.head && Alone(s, 2).accepted == s.accepted && Alone(s, 2).tail == s.tail
    ensures var size := PushSize(s.head, s.tail, |s.buf|, |s.prod.rest|);
            Alone(s, 2).prod == if size == 0 then PIdle
                                else PCopy(false, s.prod.elems, s.prod.base, s.prod.rest, s.head, s.tail, size, 0)
  {
    AloneStep(s, 0);
    AloneStep(s, 1);
    AloneOk(s, 1);
  }

  // The round stores the new head
  lemma Publishes<T>(s: State<T>)
    requires Inv(s) && s.prod.PCopy? && !s.prod.one && s.prod.i == s.prod.size
    ensures var (next, pushed) := PushNext(s.prod.h, s.prod.t, |s.buf|, s.prod.size);
            && Produced(s).head == next && 0 <= pushed <= |s.prod.rest|
            && Produced(s).accepted == s.accepted + s.prod.rest[..pushed]
            && Produced(s).prod == PLoadHead(false, s.prod.elems, s.prod.base, s.prod.rest[pushed..])
  {
  }

  // What the state is after a round that began in s
  ghost predicate RoundFrom<T>(s: State<T>, r: State<T>)
    requires AtRound(s)
  {
    var (h, left) := PushRound(s.head, s.tail, |s.buf|, |s.prod.rest|);
    && AtRound(r) && r.head == h && r.tail == s.tail && |r.buf| == |s.buf|
    && r.prod.rest == s.prod.rest[|s.prod.rest| - left..]
    && r.accepted == s.accepted + s.prod.rest[..|s.prod.rest| - left]
  }

  // The copies of a round that began in s are done
  ghost predicate Copied<T>(s: State<T>, c: State<T>)
    requires AtRound(s)
  {
    var size := PushSize(s.head, s.tail, |s.buf|, |s.prod.rest|);
    && Inv(c) && c.head == s.head && c.tail == s.tail && |c.buf| == |s.buf| && c.accepted == s.accepted
    && c.prod == PCopy(false, s.prod.elems, s.prod.base, s.prod.rest, s.head, s.tail, size, size)
  }

  lemma CopiedIs<T>(s: State<T>)
    requires AtRound(s) && !PushReturns(s.head, s.tail, |s.buf|, |s.prod.rest|)
    ensures Copied(s, Alone(s, 2 + PushSize(s.head, s.tail, |s.buf|, |s.prod.rest|)))
  {
    var size := PushSize(s.head, s.tail, |s.buf|, |s.prod.rest|);
    TwoLoads(s);
    AloneOk(s, 2);
    CopiesOn(Alone(s, 2), size);
    AloneAdds(s, 2, size);
    AloneOk(s, 2 + size);
  }

  lemma CopiedPublishes<T>(s: State<T>, k: nat)
    requires AtRound(s) && !PushReturns(s.head, s.tail, |s.buf|, |s.prod.rest|) && Copied(s, Alone(s, k))
    ensures RoundFrom(s, Alone(s, k + 1))
  {
    AloneStep(s, k);
    Publishes(Alone(s, k));
    ProducedOk(Alone(s, k));
  }

  /** One round of the loop of isr_queue_push is what the steps of the producer do from its head: the loads of
      the indices, the copies, and the store of the new head. */
  lemma RoundIs<T>(s: State<T>) returns (k: nat)
    requires AtRound(s) && !PushReturns(s.head, s.tail, |s.buf|, |s.prod.rest|)
    ensures RoundFrom(s, Alone(s, k))
  {
    var copied := 2 + PushSize(s.head, s.tail, |s.buf|, |s.prod.rest|);
    CopiedIs(s);
    CopiedPublishes(s, copied);
    k := copied + 1;
  }

  // The call has returned and accepted as much as fits
  ghost predicate TookWhatFits<T>(s: State<T>, r: State<T>)
    requires AtRound(s)
  {
    var free := Free(s.head, s.tail, |s.buf|);
    var taken := if |s.prod.rest| <= free then |s.prod.rest| else free;
    r.prod.PIdle? && r.accepted == s.accepted + s.prod.rest[..taken]
  }

  lemma ReturnsNow<T>(s: State<T>)
    requires AtRound(s) && PushReturns(s.head, s.tail, |s.buf|, |s.prod.rest|)
    requires s.tail != 0 || |s.prod.rest| <= Free(s.head, s.tail, |s.buf|)
    ensures TookWhatFits(s, Alone(s, 2))
  {
    TwoRounds(s.head, s.tail, |s.buf|, |s.prod.rest|);
    if s.prod.rest != [] {
      TwoLoads(s);
    } else {
      AloneStep(s, 0);
      AloneStep(s, 1);
    }
    assert Alone(s, 2).accepted == s.accepted + s.prod.rest[..0];
  }

  lemma RoundThenRest<T>(s: State<T>, j: nat, i: nat, k: nat)
    requires AtRound(s) && RoundFrom(s, Alone(s, j)) && TookWhatFits(Alone(s, j), Alone(Alone(s, j), i))
    requires s.tail != 0 || |s.prod.rest| <= Free(s.head, s.tail, |s.buf|)
    requires k == j + i
    ensures TookWhatFits(s, Alone(s, k))
  {
    AloneAdds(s, j, i);
    AfterRound(s, Alone(s, j), Alone(s, k));
  }

  lemma AfterRound<T>(s: State<T>, r: State<T>, end: State<T>)
    requires AtRound(s) && RoundFrom(s, r) && TookWhatFits(r, end)
    requires s.tail != 0 || |s.prod.rest| <= Free(s.head, s.tail, |s.buf|)
    ensures TookWhatFits(s, end)
  {
    TwoRounds(s.head, s.tail, |s.buf|, |s.prod.rest|);
    PrefixOfRest(s.prod.rest, |s.prod.rest| - |r.prod.rest|, |end.accepted| - |r.accepted|);
  }

  lemma PrefixOfRest<T>(rest: seq<T>, a: nat, b: nat)
    requires a + b <= |rest|
    ensures rest[..a] + rest[a..][..b] == rest[..a + b]
  {
  }

  // After that many rounds the call returns
  ghost predicate RoundsLeft(h: nat, t: nat, n: nat, len: nat, rounds: nat)
    requires h < n && t < n
    decreases rounds
  {
    PushReturns(h, t, n, len)
    || (rounds > 0 && var (h', len') := PushRound(h, t, n, len); RoundsLeft(h', t, n, len', rounds - 1))
  }

  lemma FitsStill<T>(s: State<T>, r: State<T>)
    requires AtRound(s) && RoundFrom(s, r)
    requires s.tail != 0 || |s.prod.rest| <= Free(s.head, s.tail, |s.buf|)
    ensures r.tail != 0 || |r.prod.rest| <= Free(r.head, r.tail, |r.buf|)
  {
    TwoRounds(s.head, s.tail, |s.buf|, |s.prod.rest|);
  }

  lemma {:induction false} ReturnsLater<T>(s: State<T>, rounds: nat) returns (k: nat)
    requires AtRound(s) && (s.tail != 0 || |s.prod.rest| <= Free(s.head, s.tail, |s.buf|))
    requires RoundsLeft(s.head, s.tail, |s.buf|, |s.prod.rest|, rounds)
    ensures TookWhatFits(s, Alone(s, k))
    decreases rounds
  {
    if PushReturns(s.head, s.tail, |s.buf|, |s.prod.rest|) {
      k := 2;
      ReturnsNow(s);
    } else {
      var j := RoundIs(s);
      FitsStill(s, Alone(s, j));
      var i := ReturnsLater(Alone(s, j), rounds - 1);
      k := j + i;
      RoundThenRest(s, j, i, k);
    }
  }

  /** A call of isr_queue_push at the head of its loop, in any run, with the consumer at rest from then on: it
      returns exactly when the tail is not at slot 0 or what is left fits, and then it has accepted exactly as much
      as fits. Otherwise it keeps copying one element into the unused slot and never publishes it, until the
      consumer moves the tail. */
  lemma PushReturnsIff<T>(buf: seq<T>, actions: seq<Action<T>>)
    requires |buf| > 0 && Run(buf, actions).prod.PLoadHead? && !Run(buf, actions).prod.one
    ensures var s := Run(buf, actions);
            (exists k: nat :: Run(buf, actions + ProducerSteps(k)).prod.PIdle?)
            <==> s.tail != 0 || |s.prod.rest| <= Free(s.head, s.tail, |buf|)
    ensures forall k: nat | Run(buf, actions + ProducerSteps(k)).prod.PIdle? ::
              TookWhatFits(Run(buf, actions), Run(buf, actions + ProducerSteps(k)))
  {
    var s := Run(buf, actions);
    if s.tail != 0 || |s.prod.rest| <= Free(s.head, s.tail, |buf|) {
      TwoRounds(s.head, s.tail, |buf|, |s.prod.rest|);
      var j := ReturnsLater(s, 2);
      AloneIsRun(buf, actions, j);
      forall k: nat | Run(buf, actions + ProducerSteps(k)).prod.PIdle?
        ensures TookWhatFits(s, Run(buf, actions + ProducerSteps(k)))
      {
        AloneIsRun(buf, actions, k);
        IdleStays(s, if j <= k then j else k, if j <= k then k else j);
      }
    } else {
      forall k: nat ensures !Run(buf, actions + ProducerSteps(k)).prod.PIdle? {
        AloneIsRun(buf, actions, k);
        SpinsForever(s, k);
      }
    }
  }
}
