/** The wake-up protocol of src/core/core.c around the task queue, as interleaved atomic steps of
    any number of writers and one reader. The wake event is a flag: `ffkq_post` sets it,
    `ffkq_wait` returns while it is set, `ffkq_post_consume` clears it. */
module WakeUp {
  import opened Bytes
  import opened TaskQueue

  type Writer = nat

  /** Where the reader is: in `ffkq_wait`; before and after `ffkq_post_consume`; at the head of
      the loop in `fftaskqueue_run` with its `n` and `nn`; with the first task peeked; in the
      task's handler; in the handler between a post and its wake. */
  datatype Reader =
    | Waiting
    | Woken
    | Consumed
    | Running(n: nat, nn: nat)
    | Holding(n: nat, nn: nat, it: Task)
    | Calling(n: nat, nn: nat)
    | CallOwes(n: nat, nn: nat)

  /** `owing` are the writers in `core_task` between `fftaskqueue_post4` and `ffkq_post`. */
  datatype State = State(
    queue: seq<Task>, wake: bool, owing: set<Writer>, reader: Reader,
    added: seq<Task>, called: seq<Task>)

  datatype Step =
    | Enqueue(w: Writer, t: Task)
    | Wake(w: Writer)
    | Return
    | Consume
    | Snapshot
    | Peek
    | Take
    | HandlerEnqueue(t: Task)
    | HandlerWake
    | HandlerDone
    | BatchEnd

  function Init(): State { State([], false, {}, Waiting, [], []) }

  predicate Enabled(s: State, a: Step)
  {
    match a
    case Enqueue(w, t) => w !in s.owing
    case Wake(w) => w in s.owing
    case Return => s.reader.Waiting? && s.wake
    case Consume => s.reader.Woken?
    case Snapshot => s.reader.Consumed?
    case Peek => s.reader.Running? && s.reader.n < s.reader.nn
    case Take => s.reader.Holding?
    case HandlerEnqueue(t) => s.reader.Calling?
    case HandlerWake => s.reader.CallOwes?
    case HandlerDone => s.reader.Calling?
    case BatchEnd => s.reader.Running? && s.reader.n >= s.reader.nn
  }

  function Posted(s: State, t: Task): State
  {
    if t in s.queue then s else s.(queue := s.queue + [t], added := s.added + [t])
  }

  function Do(s: State, a: Step): State
    requires Enabled(s, a)
  {
    match a
    case Enqueue(w, t) => Posted(s, t).(owing := s.owing + {w})
    case Wake(w) => s.(wake := true, owing := s.owing - {w})
    case Return => s.(reader := Woken)
    case Consume => s.(reader := Consumed, wake := false)
    case Snapshot => s.(reader := Running(0, |s.queue|))
    case Peek =>
      s.(reader := if s.queue == [] then Waiting else Holding(s.reader.n, s.reader.nn, s.queue[0]))
    case Take =>
      s.(reader := Calling(s.reader.n, s.reader.nn), queue := Remove(s.queue, s.reader.it),
         called := s.called + [s.reader.it])
    case HandlerEnqueue(t) => Posted(s, t).(reader := CallOwes(s.reader.n, s.reader.nn))
    case HandlerWake => s.(reader := Calling(s.reader.n, s.reader.nn), wake := true)
    case HandlerDone => s.(reader := Running(s.reader.n + 1, s.reader.nn))
    case BatchEnd => s.(reader := Waiting)
  }

  /** Every interleaving: the state after a sequence of steps, if each of them is possible. */
  ghost predicate IsRun(s: State, steps: seq<Step>, s': State)
    decreases |steps|
  {
    if steps == [] then s == s'
    else Enabled(s, steps[0]) && IsRun(Do(s, steps[0]), steps[1..], s')
  }

  /** A wake event has come, or is bound to come. */
  predicate Pending(s: State)
  {
    s.wake || s.owing != {} || s.reader.CallOwes?
  }

  /** How many of the queued tasks belong to the batch in progress. */
  function BatchLeft(r: Reader): nat
  {
    match r
    case Running(n, nn) => if n <= nn then nn - n else 0
    case Holding(n, nn, _) => if n <= nn then nn - n else 0
    case Calling(n, nn) => if n < nn then nn - n - 1 else 0
    case CallOwes(n, nn) => if n < nn then nn - n - 1 else 0
    case _ => 0
  }

  ghost predicate Inv(s: State)
  {
    && NoDuplicates(s.queue) && s.called + s.queue == s.added
    && BatchLeft(s.reader) <= |s.queue|
    && (|s.queue| > BatchLeft(s.reader) ==> Pending(s) || s.reader.Woken? || s.reader.Consumed?)
    && (match s.reader
        case Running(n, nn) => n <= nn
        case Holding(n, nn, it) => n < nn && s.queue != [] && s.queue[0] == it
        case Calling(n, nn) => n < nn
        case CallOwes(n, nn) => n < nn
        case _ => true)
  }

  lemma StepKeepsInv(s: State, a: Step)
    requires Inv(s) && Enabled(s, a)
    ensures Inv(Do(s, a))
  {
  }

  lemma {:induction false} RunKeepsInv(s: State, steps: seq<Step>, s': State)
    requires Inv(s) && IsRun(s, steps, s')
    ensures Inv(s')
    decreases |steps|
  {
    if steps != [] {
      StepKeepsInv(s, steps[0]);
      RunKeepsInv(Do(s, steps[0]), steps[1..], s');
    }
  }

  /** The task that a step posts. */
  function PostOf(a: Step): Option<Task>
  {
    match a
    case Enqueue(_, t) => Some(t)
    case HandlerEnqueue(t) => Some(t)
    case _ => None
  }

  /** A posted task is in the queue afterwards: where it was, or behind all others. */
  lemma PostArrives(s: State, a: Step)
    requires Inv(s) && Enabled(s, a) && PostOf(a).Some?
    ensures var t, after := PostOf(a).value, Do(s, a);
      && t in after.queue && after.called == s.called
      && after.queue == if t in s.queue then s.queue else s.queue + [t]
  {
    assert (s.queue + [PostOf(a).value])[|s.queue|] == PostOf(a).value;
  }

  /** What the posts and removals among some steps make of a queue, and which tasks they remove. */
  function QueueAfter(q: seq<Task>, steps: seq<Step>): seq<Task>
    decreases |steps|
  {
    if steps == [] then q
    else match PostOf(steps[0])
      case Some(t) => QueueAfter(if t in q then q else q + [t], steps[1..])
      case None => QueueAfter(if steps[0] == Take && q != [] then q[1..] else q, steps[1..])
  }

  function Removed(q: seq<Task>, steps: seq<Step>): seq<Task>
    decreases |steps|
  {
    if steps == [] then []
    else match PostOf(steps[0])
      case Some(t) => Removed(if t in q then q else q + [t], steps[1..])
      case None =>
        if steps[0] == Take && q != [] then [q[0]] + Removed(q[1..], steps[1..]) else Removed(q, steps[1..])
  }

  /** Queue and calls, from the steps alone. */
  lemma {:induction false} RunQueues(s: State, steps: seq<Step>, s': State)
    requires Inv(s) && IsRun(s, steps, s')
    ensures s'.queue == QueueAfter(s.queue, steps)
    ensures s'.called == s.called + Removed(s.queue, steps)
    decreases |steps|
  {
    if steps == [] {
      assert s.called + [] == s.called;
    } else {
      var t := Do(s, steps[0]);
      StepKeepsInv(s, steps[0]);
      RunQueues(t, steps[1..], s');
      if steps[0] == Take {
        assert t.queue == s.queue[1..];
      }
    }
  }

  /** How often each task has been posted. */
  function Posts(steps: seq<Step>): multiset<Task>
    decreases |steps|
  {
    if steps == [] then multiset{}
    else (if PostOf(steps[0]).Some? then multiset{PostOf(steps[0]).value} else multiset{}) + Posts(steps[1..])
  }

  lemma StepAdds(s: State, a: Step)
    requires Enabled(s, a)
    ensures Do(s, a).added == s.added || (PostOf(a).Some? && Do(s, a).added == s.added + [PostOf(a).value])
    ensures s.called <= Do(s, a).called
  {
  }

  lemma {:induction false} AddedAtMostPosted(s: State, steps: seq<Step>, s': State)
    requires Inv(s) && IsRun(s, steps, s')
    ensures multiset(s'.added) <= multiset(s.added) + Posts(steps)
    ensures s.called <= s'.called
    decreases |steps|
  {
    if steps != [] {
      StepKeepsInv(s, steps[0]);
      StepAdds(s, steps[0]);
      hide Do, Inv, PostOf;
      AddedAtMostPosted(Do(s, steps[0]), steps[1..], s');
    }
  }

  /** No task is called more often than it has been posted. */
  lemma CalledAtMostPosted(steps: seq<Step>, s: State)
    requires IsRun(Init(), steps, s)
    ensures multiset(s.called) + multiset(s.queue) <= Posts(steps)
  {
    RunKeepsInv(Init(), steps, s);
    AddedAtMostPosted(Init(), steps, s);
    assert multiset(s.called + s.queue) == multiset(s.called) + multiset(s.queue);
  }

  lemma StepServes(s: State, a: Step, t: Task)
    requires Inv(s) && Enabled(s, a) && t in s.queue
    ensures t in Do(s, a).queue || Do(s, a).called == s.called + [t]
  {
  }

  lemma {:induction false} QueuedIsServed(s: State, steps: seq<Step>, s': State, t: Task)
    requires Inv(s) && IsRun(s, steps, s') && t in s.queue
    ensures s.called <= s'.called && (t in s'.queue || t in s'.called[|s.called|..])
    decreases |steps|
  {
    if steps != [] {
      StepKeepsInv(s, steps[0]);
      StepAdds(s, steps[0]);
      StepServes(s, steps[0], t);
      hide Do, Inv;
      var u := Do(s, steps[0]);
      if t in u.queue {
        QueuedIsServed(u, steps[1..], s', t);
      } else {
        AddedAtMostPosted(u, steps[1..], s');
        assert u.called[|s.called|] == t;
      }
    }
  }

  /** Whatever else happens: a task posted in any state of any run is called after that, or is still
      queued, and then a reader that waits has been woken, or a writer is about to wake it. */
  lemma PostedIsServed(before: seq<Step>, s: State, a: Step, after: seq<Step>, s': State)
    requires IsRun(Init(), before, s) && Enabled(s, a) && PostOf(a).Some? && IsRun(Do(s, a), after, s')
    ensures s.called <= s'.called
    ensures var t := PostOf(a).value;
      t in s'.called[|s.called|..] || (t in s'.queue && (s'.reader.Waiting? ==> s'.wake || s'.owing != {}))
  {
    RunKeepsInv(Init(), before, s);
    StepKeepsInv(s, a);
    PostArrives(s, a);
    QueuedIsServed(Do(s, a), after, s', PostOf(a).value);
    RunKeepsInv(Do(s, a), after, s');
  }

  /** No wake-up is lost: if the reader waits although there are tasks, then the wake event is
      pending, or a writer stands between its post and its wake. */
  lemma NoLostWakeUp(steps: seq<Step>, s: State)
    requires IsRun(Init(), steps, s)
    ensures s.reader.Waiting? && s.queue != [] ==> s.wake || s.owing != {}
  {
    RunKeepsInv(Init(), steps, s);
  }

  /** Tasks are called in the order in which they were queued, and none is queued twice. */
  lemma CallsAreFifo(steps: seq<Step>, s: State)
    requires IsRun(Init(), steps, s)
    ensures s.called <= s.added && s.queue == s.added[|s.called|..] && NoDuplicates(s.queue)
  {
    RunKeepsInv(Init(), steps, s);
  }

  /** The task peeked at without the lock is still the first one when it is removed under it. */
  lemma PeekedIsHead(steps: seq<Step>, s: State)
    requires IsRun(Init(), steps, s) && s.reader.Holding?
    ensures s.queue != [] && s.queue[0] == s.reader.it
    ensures Do(s, Take).queue == s.queue[1..]
  {
    RunKeepsInv(Init(), steps, s);
  }

  /** Between two snapshots of the queue length the reader makes at most as many calls as its
      batch had left, whatever is posted meanwhile, by the handlers too. */
  lemma {:induction false} BatchIsBounded(s: State, steps: seq<Step>, s': State)
    requires Inv(s) && IsRun(s, steps, s') && Snapshot !in steps
    ensures |s'.called| + BatchLeft(s'.reader) <= |s.called| + BatchLeft(s.reader)
    decreases |steps|
  {
    if steps != [] {
      StepKeepsInv(s, steps[0]);
      BatchIsBounded(Do(s, steps[0]), steps[1..], s');
    }
  }

  /** The reader's steps through a batch of `k` tasks whose handlers post nothing. */
  function BatchSteps(k: nat): seq<Step>
  {
    if k == 0 then [BatchEnd] else [Peek, Take, HandlerDone] + BatchSteps(k - 1)
  }

  lemma {:induction false} BatchRuns(s: State)
    requires s.reader.Running? && s.reader.n + |s.queue| == s.reader.nn
    ensures IsRun(s, BatchSteps(|s.queue|), s.(reader := Waiting, queue := [], called := s.called + s.queue))
    decreases |s.queue|
  {
    var steps := BatchSteps(|s.queue|);
    if s.queue == [] {
      assert Do(s, BatchEnd) == s.(reader := Waiting, queue := [], called := s.called + s.queue);
      assert steps[1..] == [];
    } else {
      var s3 := Do(Do(Do(s, Peek), Take), HandlerDone);
      BatchRuns(s3);
      assert s.called + s.queue == s3.called + s3.queue;
      assert steps[1..][1..][1..] == BatchSteps(|s3.queue|);
      assert steps[0] == Peek && steps[1..][0] == Take && steps[1..][1..][0] == HandlerDone;
    }
  }

  /** Progress: when no writer is in the middle of a post, a waiting reader can be counted on to
      call every queued task, in order, by its own steps alone. */
  lemma QueueDrains(steps: seq<Step>, s: State)
    requires IsRun(Init(), steps, s)
    requires s.reader.Waiting? && s.owing == {} && s.queue != []
    ensures IsRun(s, [Return, Consume, Snapshot] + BatchSteps(|s.queue|),
                  s.(wake := false, queue := [], called := s.called + s.queue))
  {
    NoLostWakeUp(steps, s);
    var s3 := Do(Do(Do(s, Return), Consume), Snapshot);
    BatchRuns(s3);
    var all := [Return, Consume, Snapshot] + BatchSteps(|s.queue|);
    assert all[1..][1..][1..] == BatchSteps(|s.queue|);
    assert all[0] == Return && all[1..][0] == Consume && all[1..][1..][0] == Snapshot;
  }

  /** A writer that is not in the middle of a post can always post and wake, whatever the state. */
  lemma PostIsPossible(steps: seq<Step>, s: State, w: Writer, t: Task) returns (s': State)
    requires IsRun(Init(), steps, s) && w !in s.owing
    ensures IsRun(s, [Enqueue(w, t), Wake(w)], s')
    ensures t in s'.queue && s'.wake && s'.owing == s.owing && s'.reader == s.reader && s'.called == s.called
  {
    RunKeepsInv(Init(), steps, s);
    PostArrives(s, Enqueue(w, t));
    s' := Do(Do(s, Enqueue(w, t)), Wake(w));
    assert s'.owing == s.owing;
    assert [Enqueue(w, t), Wake(w)][1..] == [Wake(w)] && [Wake(w)][1..] == [];
  }

  /** So can a handler. */
  lemma HandlerPostIsPossible(steps: seq<Step>, s: State, t: Task) returns (s': State)
    requires IsRun(Init(), steps, s) && s.reader.Calling?
    ensures IsRun(s, [HandlerEnqueue(t), HandlerWake], s')
    ensures t in s'.queue && s'.wake && s'.owing == s.owing && s'.reader == s.reader && s'.called == s.called
  {
    RunKeepsInv(Init(), steps, s);
    PostArrives(s, HandlerEnqueue(t));
    s' := Do(Do(s, HandlerEnqueue(t)), HandlerWake);
    assert [HandlerEnqueue(t), HandlerWake][1..] == [HandlerWake] && [HandlerWake][1..] == [];
  }
}
