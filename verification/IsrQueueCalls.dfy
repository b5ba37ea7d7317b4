// What the calls of src/isr_queue.c give their callers while the steps of the two sides interleave in any order: how
// many elements they take or accept, and that those of the consumer and push_one never wait for the other side.
module IsrQueueCalls {
  import opened IsrQueueConcurrent
  import opened RingIndex

  function Min(a: nat, b: nat): (m: nat)
    ensures m <= a && m <= b && (m == a || m == b)
  {
    if a < b then a else b
  }

  ghost function StepsOf<T>(actions: seq<Action<T>>, step: Action<T>): nat {
    if actions == [] then 0
    else StepsOf(actions[..|actions| - 1], step) + if actions[|actions| - 1] == step then 1 else 0
  }

  lemma StepsGrow<T>(actions: seq<Action<T>>, j: nat, step: Action<T>)
    requires j < |actions|
    ensures StepsOf(actions[..j + 1], step) == StepsOf(actions[..j], step) + if actions[j] == step then 1 else 0
  {
    assert actions[..j + 1][..j] == actions[..j];
  }

  lemma {:induction false} StepsAscend<T>(actions: seq<Action<T>>, i: nat, j: nat, step: Action<T>)
    requires i <= j <= |actions|
    ensures StepsOf(actions[..i], step) <= StepsOf(actions[..j], step)
    decreases j
  {
    if i < j {
      StepsAscend(actions, i, j - 1, step);
      StepsGrow(actions, j - 1, step);
    }
  }

  // Action j is a step of this side, and n of them come before it
  ghost predicate StepAt<T>(actions: seq<Action<T>>, j: nat, step: Action<T>, n: nat) {
    j < |actions| && actions[j] == step && StepsOf(actions[..j], step) == n
  }

  lemma StepIsOne<T>(actions: seq<Action<T>>, i: nat, j: nat, step: Action<T>, n: nat)
    requires StepAt(actions, i, step, n) && StepAt(actions, j, step, n)
    ensures i == j
  {
    StepsGrow(actions, i, step);
    StepsGrow(actions, j, step);
    if i < j {
      StepsAscend(actions, i + 1, j, step);
    } else if j < i {
      StepsAscend(actions, j + 1, i, step);
    }
  }

  // ---- Interleavings ----

  ghost predicate Goes<T>(states: seq<State<T>>, actions: seq<Action<T>>, j: nat) {
    && j < |actions| && |states| == |actions| + 1
    && Inv(states[j]) && Inv(states[j + 1]) && states[j + 1] == Next(states[j], actions[j])
  }

  /** The states that an interleaving of calls and steps goes through. */
  ghost predicate Trace<T>(states: seq<State<T>>, actions: seq<Action<T>>) {
    && |states| == |actions| + 1 && Inv(states[0])
    && forall j: nat | j < |actions| :: Goes(states, actions, j)
  }

  lemma RunStep<T>(buf: seq<T>, actions: seq<Action<T>>, a: Action<T>)
    requires |buf| > 0
    ensures Run(buf, actions + [a]) == Next(Run(buf, actions), a)
  {
    assert (actions + [a])[..|actions|] == actions;
  }

  lemma TraceStep<T>(states: seq<State<T>>, actions: seq<Action<T>>, a: Action<T>)
    requires Trace(states, actions) && Inv(states[|actions|])
    ensures Trace(states + [Next(states[|actions|], a)], actions + [a])
  {
    NextOk(states[|actions|], a);
    forall j: nat | j <= |actions| ensures Goes(states + [Next(states[|actions|], a)], actions + [a], j) {
      assert j < |actions| ==> Goes(states, actions, j);
    }
  }

  // These are the states from one point of a run to another
  ghost predicate TraceFrom<T>(states: seq<State<T>>, buf: seq<T>, before: seq<Action<T>>, actions: seq<Action<T>>)
    requires |buf| > 0
  {
    Trace(states, actions) && states[0] == Run(buf, before) && states[|actions|] == Run(buf, before + actions)
  }

  lemma TraceFromStep<T>(states: seq<State<T>>, buf: seq<T>, before: seq<Action<T>>, actions: seq<Action<T>>,
                         a: Action<T>) returns (more: seq<State<T>>)
    requires |buf| > 0 && TraceFrom(states, buf, before, actions)
    ensures TraceFrom(more, buf, before, actions + [a])
  {
    more := states + [Next(states[|actions|], a)];
    TraceStep(states, actions, a);
    RunStep(buf, before + actions, a);
    assert before + actions + [a] == before + (actions + [a]);
  }

  /** Every run goes through such states, from any point of it on. */
  lemma {:induction false} RunsAreTraces<T>(buf: seq<T>, before: seq<Action<T>>, actions: seq<Action<T>>)
    returns (states: seq<State<T>>)
    requires |buf| > 0
    ensures TraceFrom(states, buf, before, actions)
    decreases |actions|
  {
    if actions == [] {
      states := [Run(buf, before)];
      assert before + [] == before;
    } else {
      var n: nat := |actions| - 1;
      assert actions == actions[..n] + [actions[n]];
      states := RunsAreTraces(buf, before, actions[..n]);
      states := TraceFromStep(states, buf, before, actions[..n], actions[n]);
    }
  }

  // What one side has come to stays until its next step
  lemma {:induction false} UpToStep<T>(states: seq<State<T>>, actions: seq<Action<T>>, i: nat, step: Action<T>,
                                       p: State<T> -> bool) returns (j: nat)
    requires Trace(states, actions) && i <= |actions| && p(states[i])
    requires forall s: State<T>, a: Action<T> | Inv(s) && p(s) && a != step :: p(Next(s, a))
    ensures i <= j <= |actions| && p(states[j]) && StepsOf(actions[..j], step) == StepsOf(actions[..i], step)
    ensures j < |actions| ==> StepAt(actions, j, step, StepsOf(actions[..i], step))
    decreases |actions| - i
  {
    j := i;
    if i < |actions| && actions[i] != step {
      assert Goes(states, actions, i);
      StepsGrow(actions, i, step);
      j := UpToStep(states, actions, i + 1, step, p);
    }
  }

  // How many elements are in the ring
  function Size<T>(s: State<T>): int { |s.accepted| - |s.popped| }

  ghost predicate RingIsEmpty<T>(s: State<T>) { Size(s) == 0 }

  // ---- The consumer ----

  /** A call of the consumer and what it does until it returns. The producer may do anything meanwhile. */
  ghost predicate PopCall<T>(states: seq<State<T>>, actions: seq<Action<T>>, call: Action<T>) {
    && Trace(states, actions) && actions != [] && actions[0] == call
    && states[0].cons.CIdle? && states[|actions|].cons.CIdle?
    && forall j: nat | 0 < j < |actions| :: !states[j].cons.CIdle?
  }

  // What the consumer is in the middle of will have taken its elements when so many have been popped
  ghost predicate Taking<T>(s: State<T>, goal: nat) {
    && Inv(s)
    && match s.cons
       case CIdle => |s.popped| == goal
       case COneLoadHead(_) => false
       case CCountTail(want, h) => |s.popped| + Min(want, Count(h, s.tail, |s.buf|)) == goal
       case CLoadHead(want) => |s.popped| + want == goal && want <= Count(s.head, s.tail, |s.buf|)
       case CLoadTail(want, h) => |s.popped| + want == goal && want <= Count(h, s.tail, |s.buf|)
       case CCopy(one, want, _, _, _) =>
         |s.popped| + want == goal && want <= Count(s.head, s.tail, |s.buf|) && (one ==> want == 1)
  }

  lemma TakingOn<T>(s: State<T>, a: Action<T>, goal: nat)
    requires Taking(s, goal) && !s.cons.CIdle?
    ensures Taking(Next(s, a), goal)
  {
    NextOk(s, a);
    NextGrows(s, a);
  }

  lemma {:induction false} TakingUpTo<T>(states: seq<State<T>>, actions: seq<Action<T>>, i: nat, j: nat, goal: nat)
    requires Trace(states, actions) && i <= j <= |actions| && Taking(states[i], goal)
    requires forall k: nat | i <= k < j :: !states[k].cons.CIdle?
    ensures Taking(states[j], goal)
    decreases j
  {
    if i < j {
      TakingUpTo(states, actions, i, j - 1, goal);
      assert Goes(states, actions, j - 1);
      TakingOn(states[j - 1], actions[j - 1], goal);
    }
  }

  /** isr_queue_pop, in every interleaving: it takes as many elements as it was asked for, or all that were in the ring
      when it was called if that is less. */
  lemma PopTakes<T>(states: seq<State<T>>, actions: seq<Action<T>>, n: nat)
    requires PopCall(states, actions, Pop(n)) && Size(states[0]) >= 0
    ensures |states[|actions|].popped| == |states[0].popped| + Min(n, Size(states[0]))
  {
    PopCalled(states[0], n);
    assert Goes(states, actions, 0);
    TakingUpTo(states, actions, 1, |actions|, |states[0].popped| + Min(n, Size(states[0])));
  }

  lemma PopCalled<T>(s: State<T>, n: nat)
    requires Inv(s) && s.cons.CIdle?
    ensures Size(s) >= 0 && Taking(Next(s, Pop(n)), |s.popped| + Min(n, Size(s)))
  {
    NextOk(s, Pop(n));
  }

  // pop_one has loaded the tail and not yet the head
  ghost predicate OneCalled<T>(s: State<T>, base: nat) { Inv(s) && s.cons.COneLoadHead? && |s.popped| == base }

  lemma OneCalledOn<T>(s: State<T>, a: Action<T>, base: nat)
    requires OneCalled(s, base)
    ensures a != ConsumerStep ==> OneCalled(Next(s, a), base)
    ensures a == ConsumerStep ==> Taking(Next(s, a), base + if RingIsEmpty(s) then 0 else 1)
  {
    NextOk(s, a);
  }

  // So many steps of this side after the call, the ring is empty
  ghost predicate FindsEmpty<T>(states: seq<State<T>>, actions: seq<Action<T>>) {
    exists j: nat :: j < |states| && StepAt(actions, j, ConsumerStep, 0) && RingIsEmpty(states[j])
  }

  /** isr_queue_pop_one, in every interleaving: it takes one element, unless the ring was empty at its first step, which
      loads the head. */
  lemma PopOneTakes<T>(states: seq<State<T>>, actions: seq<Action<T>>)
    requires PopCall(states, actions, PopOne)
    ensures |states[|actions|].popped| == |states[0].popped| + if FindsEmpty(states, actions) then 0 else 1
  {
    var base := |states[0].popped|;
    assert Goes(states, actions, 0) && OneCalled(states[1], base);
    var p: State<T> -> bool := s => OneCalled(s, base);
    forall s: State<T>, a: Action<T> | Inv(s) && p(s) && a != ConsumerStep ensures p(Next(s, a)) {
      OneCalledOn(s, a, base);
    }
    var j := UpToStep(states, actions, 1, ConsumerStep, p);
    StepsGrow(actions, 0, ConsumerStep);
    assert Goes(states, actions, j);
    OneCalledOn(states[j], ConsumerStep, base);
    TakingUpTo(states, actions, j + 1, |actions|, base + if RingIsEmpty(states[j]) then 0 else 1);
    if FindsEmpty(states, actions) {
      var i: nat :| i < |states| && StepAt(actions, i, ConsumerStep, 0) && RingIsEmpty(states[i]);
      StepIsOne(actions, i, j, ConsumerStep, 0);
    }
  }

  // ---- How many steps a call of the consumer takes at most ----

  function PopStepsLeft<T>(c: Consumer<T>): int {
    match c
    case CIdle => 0
    case COneLoadHead(_) => 4
    case CCountTail(want, _) => 4 * want + 2
    case CLoadHead(want) => 4 * want + 1
    case CLoadTail(want, _) => 4 * want
    case CCopy(_, want, _, size, out) => 4 * (want - size) + 2 + (size - |out|)
  }

  lemma PopStepsFall<T>(s: State<T>, a: Action<T>)
    requires Inv(s) && !s.cons.CIdle?
    ensures PopStepsLeft(s.cons) > 0
    ensures PopStepsLeft(Next(s, a).cons) <= PopStepsLeft(s.cons) - if a == ConsumerStep then 1 else 0
  {
  }

  lemma {:induction false} PopStepsUsed<T>(states: seq<State<T>>, actions: seq<Action<T>>, j: nat)
    requires Trace(states, actions) && 0 < j <= |actions| && actions[0] != ConsumerStep
    requires forall k: nat | 0 < k < j :: !states[k].cons.CIdle?
    ensures StepsOf(actions[..j], ConsumerStep) + PopStepsLeft(states[j].cons) <= PopStepsLeft(states[1].cons)
  {
    StepsGrow(actions, j - 1, ConsumerStep);
    if j > 1 {
      PopStepsUsed(states, actions, j - 1);
      assert Goes(states, actions, j - 1);
      PopStepsFall(states[j - 1], actions[j - 1]);
    } else {
      assert actions[..0] == [];
    }
  }

  ghost predicate PopCallTo<T>(states: seq<State<T>>, actions: seq<Action<T>>, call: Action<T>, j: nat) {
    j <= |actions| < |states| && PopCall(states[..j + 1], actions[..j], call)
  }

  // One of the states ends the call
  ghost predicate PopReturnsIn<T>(states: seq<State<T>>, actions: seq<Action<T>>, call: Action<T>) {
    exists j: nat :: PopCallTo(states, actions, call, j)
  }

  /** The consumer never waits: whatever the producer does, a call of isr_queue_pop for n elements has returned after
      4n + 2 of its own steps, */
  lemma PopReturns<T>(states: seq<State<T>>, actions: seq<Action<T>>, n: nat)
    requires Trace(states, actions) && states[0].cons.CIdle? && actions != [] && actions[0] == Pop(n)
    requires StepsOf(actions, ConsumerStep) >= 4 * n + 2
    ensures PopReturnsIn(states, actions, Pop(n))
  {
    assert Goes(states, actions, 0);
    CallEnds(states, actions);
  }

  /** and one of isr_queue_pop_one after 4. */
  lemma PopOneReturns<T>(states: seq<State<T>>, actions: seq<Action<T>>)
    requires Trace(states, actions) && states[0].cons.CIdle? && actions != [] && actions[0] == PopOne
    requires StepsOf(actions, ConsumerStep) >= 4
    ensures PopReturnsIn(states, actions, PopOne)
  {
    assert Goes(states, actions, 0);
    CallEnds(states, actions);
  }

  lemma CallEnds<T>(states: seq<State<T>>, actions: seq<Action<T>>)
    requires Trace(states, actions) && states[0].cons.CIdle? && actions != [] && actions[0] != ConsumerStep
    requires StepsOf(actions, ConsumerStep) >= PopStepsLeft(states[1].cons)
    ensures PopReturnsIn(states, actions, actions[0])
  {
    var j := IdleInTime(states, actions);
    Shorter(states, actions, j);
    assert PopCallTo(states, actions, actions[0], j);
  }

  lemma Shorter<T>(states: seq<State<T>>, actions: seq<Action<T>>, j: nat)
    requires Trace(states, actions) && j <= |actions|
    ensures Trace(states[..j + 1], actions[..j])
  {
    var first, those := states[..j + 1], actions[..j];
    forall i: nat | i < j ensures Goes(first, those, i) {
      assert Goes(states, actions, i);
    }
  }

  lemma IdleInTime<T>(states: seq<State<T>>, actions: seq<Action<T>>) returns (j: nat)
    requires Trace(states, actions) && actions != [] && actions[0] != ConsumerStep
    requires StepsOf(actions, ConsumerStep) >= PopStepsLeft(states[1].cons)
    ensures 0 < j <= |actions| && states[j].cons.CIdle? && forall i: nat | 0 < i < j :: !states[i].cons.CIdle?
  {
    if k: nat :| 0 < k <= |actions| && states[k].cons.CIdle? {
      j := FirstIdle(states, k);
    } else {
      BusyIsShort(states, actions);
      assert false;
    }
  }

  lemma BusyIsShort<T>(states: seq<State<T>>, actions: seq<Action<T>>)
    requires Trace(states, actions) && actions != [] && actions[0] != ConsumerStep
    requires forall k: nat | 0 < k <= |actions| :: !states[k].cons.CIdle?
    ensures StepsOf(actions, ConsumerStep) < PopStepsLeft(states[1].cons)
  {
    var n := |actions|;
    PopStepsUsed(states, actions, n);
    assert Goes(states, actions, n - 1);
    PopStepsFall(states[n], ConsumerStep);
    assert actions[..n] == actions;
  }

  lemma {:induction false} FirstIdle<T>(states: seq<State<T>>, k: nat) returns (j: nat)
    requires 0 < k < |states| && states[k].cons.CIdle?
    ensures 0 < j <= k && states[j].cons.CIdle? && forall i: nat | 0 < i < j :: !states[i].cons.CIdle?
  {
    if i: nat :| 0 < i < k && states[i].cons.CIdle? {
      j := FirstIdle(states, i);
    } else {
      j := k;
    }
  }

  // ---- The producer ----

  /** A call of the producer and what it does until it returns. The consumer may do anything meanwhile. */
  ghost predicate PushCall<T>(states: seq<State<T>>, actions: seq<Action<T>>, call: Action<T>) {
    && Trace(states, actions) && actions != [] && actions[0] == call
    && states[0].prod.PIdle? && states[|actions|].prod.PIdle?
    && forall j: nat | 0 < j < |actions| :: !states[j].prod.PIdle?
  }

  // One slot always stays unused
  ghost predicate RingIsFull<T>(s: State<T>) { Size(s) == |s.buf| - 1 }

  ghost predicate OneStarted<T>(s: State<T>, x: T, was: seq<T>) {
    Inv(s) && s.prod.PLoadHead? && s.prod.one && s.prod.rest == [x] && s.accepted == was
  }

  ghost predicate OneLoads<T>(s: State<T>, x: T, was: seq<T>) {
    Inv(s) && s.prod.PLoadTail? && s.prod.one && s.prod.rest == [x] && s.accepted == was
  }

  // What push_one is in the middle of will have made this of the accepted elements
  ghost predicate Accepting<T>(s: State<T>, goal: seq<T>) {
    && Inv(s)
    && match s.prod
       case PIdle => s.accepted == goal
       case PCopy(one, _, _, rest, _, _, _, _) => one && rest != [] && s.accepted + rest[..1] == goal
       case _ => false
  }

  lemma OneStartedOn<T>(s: State<T>, a: Action<T>, x: T, was: seq<T>)
    requires OneStarted(s, x, was)
    ensures if a == ProducerStep then OneLoads(Next(s, a), x, was) else OneStarted(Next(s, a), x, was)
  {
    NextOk(s, a);
  }

  lemma OneLoadsOn<T>(s: State<T>, a: Action<T>, x: T, was: seq<T>)
    requires OneLoads(s, x, was)
    ensures a != ProducerStep ==> OneLoads(Next(s, a), x, was)
    ensures a == ProducerStep ==> Accepting(Next(s, a), if RingIsFull(s) then was else was + [x])
  {
    NextOk(s, a);
  }

  lemma AcceptingOn<T>(s: State<T>, a: Action<T>, goal: seq<T>)
    requires Accepting(s, goal) && !s.prod.PIdle?
    ensures Accepting(Next(s, a), goal)
  {
    NextOk(s, a);
  }

  lemma {:induction false} AcceptingUpTo<T>(states: seq<State<T>>, actions: seq<Action<T>>, i: nat, j: nat,
                                            goal: seq<T>)
    requires Trace(states, actions) && i <= j <= |actions| && Accepting(states[i], goal)
    requires forall k: nat | i <= k < j :: !states[k].prod.PIdle?
    ensures Accepting(states[j], goal)
    decreases j
  {
    if i < j {
      AcceptingUpTo(states, actions, i, j - 1, goal);
      assert Goes(states, actions, j - 1);
      AcceptingOn(states[j - 1], actions[j - 1], goal);
    }
  }

  // The second step of the producer finds the ring full
  ghost predicate FindsFull<T>(states: seq<State<T>>, actions: seq<Action<T>>) {
    exists j: nat :: j < |states| && StepAt(actions, j, ProducerStep, 1) && RingIsFull(states[j])
  }

  // When push_one loads the tail
  lemma OneLoadsAt<T>(states: seq<State<T>>, actions: seq<Action<T>>, x: T) returns (j: nat)
    requires PushCall(states, actions, PushOne(x))
    ensures 0 < j < |actions| && StepAt(actions, j, ProducerStep, 1) && OneLoads(states[j], x, states[0].accepted)
  {
    var was := states[0].accepted;
    assert Goes(states, actions, 0) && OneStarted(states[1], x, was);
    var p: State<T> -> bool := s => OneStarted(s, x, was);
    forall s: State<T>, a: Action<T> | Inv(s) && p(s) && a != ProducerStep ensures p(Next(s, a)) {
      OneStartedOn(s, a, x, was);
    }
    var i := UpToStep(states, actions, 1, ProducerStep, p);
    StepsGrow(actions, 0, ProducerStep);
    assert Goes(states, actions, i);
    OneStartedOn(states[i], ProducerStep, x, was);
    StepsGrow(actions, i, ProducerStep);
    var q: State<T> -> bool := s => OneLoads(s, x, was);
    forall s: State<T>, a: Action<T> | Inv(s) && q(s) && a != ProducerStep ensures q(Next(s, a)) {
      OneLoadsOn(s, a, x, was);
    }
    j := UpToStep(states, actions, i + 1, ProducerStep, q);
  }

  /** isr_queue_push_one, in every interleaving: its element is accepted, unless the ring was full at its second step,
      which loads the tail. */
  lemma PushOneTakes<T>(states: seq<State<T>>, actions: seq<Action<T>>, x: T)
    requires PushCall(states, actions, PushOne(x))
    ensures states[|actions|].accepted
            == if FindsFull(states, actions) then states[0].accepted else states[0].accepted + [x]
  {
    var j := OneLoadsAt(states, actions, x);
    var was := states[0].accepted;
    assert Goes(states, actions, j);
    OneLoadsOn(states[j], ProducerStep, x, was);
    AcceptingUpTo(states, actions, j + 1, |actions|, if RingIsFull(states[j]) then was else was + [x]);
    if FindsFull(states, actions) {
      var i: nat :| i < |states| && StepAt(actions, i, ProducerStep, 1) && RingIsFull(states[i]);
      StepIsOne(actions, i, j, ProducerStep, 1);
    }
  }

  // A call of isr_queue_push that was given these elements
  ghost predicate Pushing<T>(s: State<T>, elems: seq<T>, was: seq<T>) {
    && Inv(s)
    && match s.prod
       case PIdle => false
       case PLoadHead(one, es, base, _) => !one && es == elems && base == |was| && was <= s.accepted
       case PLoadTail(one, es, base, _, _) => !one && es == elems && base == |was| && was <= s.accepted
       case PCopy(one, es, base, _, _, _, _, _) => !one && es == elems && base == |was| && was <= s.accepted
  }

  // It ends with all of them accepted, or with those that came before it found the ring full
  ghost predicate PushEnds<T>(s: State<T>, end: State<T>, elems: seq<T>, was: seq<T>) {
    && was <= end.accepted && end.accepted[|was|..] <= elems
    && (end.accepted[|was|..] == elems || RingIsFull(s))
  }

  lemma PushingOn<T>(s: State<T>, a: Action<T>, elems: seq<T>, was: seq<T>)
    requires Pushing(s, elems, was)
    ensures Next(s, a).prod.PIdle? ==> PushEnds(s, Next(s, a), elems, was)
    ensures !Next(s, a).prod.PIdle? ==> Pushing(Next(s, a), elems, was)
  {
    NextOk(s, a);
    NextGrows(s, a);
  }

  lemma {:induction false} PushingUpTo<T>(states: seq<State<T>>, actions: seq<Action<T>>, j: nat, elems: seq<T>)
    requires PushCall(states, actions, Push(elems)) && 0 < j < |actions|
    ensures Pushing(states[j], elems, states[0].accepted)
  {
    assert Goes(states, actions, j - 1);
    if j > 1 {
      PushingUpTo(states, actions, j - 1, elems);
      PushingOn(states[j - 1], actions[j - 1], elems, states[0].accepted);
    }
  }

  /** isr_queue_push, in every interleaving: it has accepted all of its elements when it returns, or the first of them
      and found the ring full at its last step. */
  lemma PushTakes<T>(states: seq<State<T>>, actions: seq<Action<T>>, elems: seq<T>)
    requires PushCall(states, actions, Push(elems))
    ensures PushEnds(states[|actions| - 1], states[|actions|], elems, states[0].accepted)
  {
    var n: nat := |actions| - 1;
    assert Goes(states, actions, n);
    if n > 0 {
      PushingUpTo(states, actions, n, elems);
      PushingOn(states[n], actions[n], elems, states[0].accepted);
    }
  }

  // ---- push_one does not wait either ----

  function PushOneStepsLeft<T>(p: Producer<T>): int {
    match p
    case PIdle => 0
    case PLoadHead(_, _, _, _) => 4
    case PLoadTail(_, _, _, _, _) => 3
    case PCopy(_, _, _, _, _, _, _, i) => 2 - i
  }

  ghost predicate PushingOne<T>(s: State<T>) {
    match s.prod
    case PIdle => true
    case PLoadHead(one, _, _, rest) => one && rest != []
    case PLoadTail(one, _, _, _, _) => one
    case PCopy(one, _, _, _, _, _, _, _) => one
  }

  lemma PushOneStepsFall<T>(s: State<T>, a: Action<T>)
    requires Inv(s) && PushingOne(s) && !s.prod.PIdle?
    ensures PushOneStepsLeft(s.prod) > 0 && PushingOne(Next(s, a))
    ensures PushOneStepsLeft(Next(s, a).prod) <= PushOneStepsLeft(s.prod) - if a == ProducerStep then 1 else 0
  {
  }

  lemma {:induction false} PushOneStepsUsed<T>(states: seq<State<T>>, actions: seq<Action<T>>, j: nat)
    requires Trace(states, actions) && 0 < j <= |actions| && actions[0] != ProducerStep && PushingOne(states[1])
    requires forall k: nat | 0 < k < j :: !states[k].prod.PIdle?
    ensures PushingOne(states[j])
    ensures StepsOf(actions[..j], ProducerStep) + PushOneStepsLeft(states[j].prod) <= PushOneStepsLeft(states[1].prod)
  {
    StepsGrow(actions, j - 1, ProducerStep);
    if j > 1 {
      PushOneStepsUsed(states, actions, j - 1);
      assert Goes(states, actions, j - 1);
      PushOneStepsFall(states[j - 1], actions[j - 1]);
    } else {
      assert actions[..0] == [];
    }
  }

  lemma BusyPushIsShort<T>(states: seq<State<T>>, actions: seq<Action<T>>)
    requires Trace(states, actions) && actions != [] && actions[0] != ProducerStep && PushingOne(states[1])
    requires forall k: nat | 0 < k <= |actions| :: !states[k].prod.PIdle?
    ensures StepsOf(actions, ProducerStep) < PushOneStepsLeft(states[1].prod)
  {
    var n := |actions|;
    PushOneStepsUsed(states, actions, n);
    assert Goes(states, actions, n - 1);
    PushOneStepsFall(states[n], ProducerStep);
    assert actions[..n] == actions;
  }

  lemma {:induction false} FirstPushIdle<T>(states: seq<State<T>>, k: nat) returns (j: nat)
    requires 0 < k < |states| && states[k].prod.PIdle?
    ensures 0 < j <= k && states[j].prod.PIdle? && forall i: nat | 0 < i < j :: !states[i].prod.PIdle?
  {
    if i: nat :| 0 < i < k && states[i].prod.PIdle? {
      j := FirstPushIdle(states, i);
    } else {
      j := k;
    }
  }

  ghost predicate PushCallTo<T>(states: seq<State<T>>, actions: seq<Action<T>>, call: Action<T>, j: nat) {
    j <= |actions| < |states| && PushCall(states[..j + 1], actions[..j], call)
  }

  /** Whatever the consumer does, a call of isr_queue_push_one has returned after 4 of its own steps. */
  lemma PushOneReturns<T>(states: seq<State<T>>, actions: seq<Action<T>>, x: T)
    requires Trace(states, actions) && states[0].prod.PIdle? && actions != [] && actions[0] == PushOne(x)
    requires StepsOf(actions, ProducerStep) >= 4
    ensures exists j: nat :: PushCallTo(states, actions, PushOne(x), j)
  {
    assert Goes(states, actions, 0);
    if k: nat :| 0 < k <= |actions| && states[k].prod.PIdle? {
      var j := FirstPushIdle(states, k);
      Shorter(states, actions, j);
      assert PushCallTo(states, actions, PushOne(x), j);
    } else {
      BusyPushIsShort(states, actions);
      assert false;
    }
  }

  /** isr_queue_push with the consumer at rest, from its call on: it returns exactly when the tail is not at slot 0 or
      its elements fit, and then has accepted as many of them as fit. */
  lemma PushAloneReturnsIff<T>(buf: seq<T>, before: seq<Action<T>>, elems: seq<T>)
    requires |buf| > 0 && Run(buf, before).prod.PIdle?
    ensures var s, call := Run(buf, before), before + [Push(elems)];
            && ((exists k: nat :: Run(buf, call + ProducerSteps(k)).prod.PIdle?)
                <==> s.tail != 0 || |elems| <= |buf| - 1 - Size(s))
            && forall k: nat | Run(buf, call + ProducerSteps(k)).prod.PIdle? ::
                 Run(buf, call + ProducerSteps(k)).accepted
                 == s.accepted + elems[..if |elems| <= |buf| - 1 - Size(s) then |elems| else |buf| - 1 - Size(s)]
  {
    RunStep(buf, before, Push(elems));
    PushReturnsIff(buf, before + [Push(elems)]);
  }
}
