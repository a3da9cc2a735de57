/** src/util/taskqueue.h: a first-in first-out queue with many writers and one reader. */
module TaskQueue {

  type Task = nat

  /** A handler and its parameter. */
  type Work = nat

  ghost predicate NoDuplicates(s: seq<Task>)
  {
    forall i, j :: 0 <= i < j < |s| ==> s[i] != s[j]
  }

  /** `fflist_rm` */
  function Remove(s: seq<Task>, t: Task): seq<Task>
  {
    if s == [] then [] else if s[0] == t then s[1..] else [s[0]] + Remove(s[1..], t)
  }

  /** What has happened: a handler and parameter stored for a task, or a call. */
  datatype Event = Stored(t: Task, w: Work) | Called(t: Task, w: Work)

  /** The handler and parameter stored last for a task. */
  ghost predicate Latest(log: seq<Event>, t: Task, w: Work)
  {
    exists i :: 0 <= i < |log| && log[i] == Stored(t, w) && forall j :: i < j < |log| && log[j].Stored? ==> log[j].t != t
  }

  /** Every call has been made with what had been stored last for its task. */
  ghost predicate Faithful(log: seq<Event>)
  {
    forall i :: 0 <= i < |log| && log[i].Called? ==> Latest(log[..i], log[i].t, log[i].w)
  }

  /** The tasks called, in order. */
  function Calls(log: seq<Event>): seq<Task>
  {
    if log == [] then []
    else Calls(log[..|log| - 1]) + if log[|log| - 1].Called? then [log[|log| - 1].t] else []
  }

  ghost predicate Current(log: seq<Event>, work: map<Task, Work>)
  {
    forall t :: t in work ==> Latest(log, t, work[t])
  }

  lemma StillLatest(log: seq<Event>, e: Event, t: Task, w: Work)
    requires Latest(log, t, w) && (e.Stored? ==> e.t != t)
    ensures Latest(log + [e], t, w)
  {
    var i :| 0 <= i < |log| && log[i] == Stored(t, w) && forall j :: i < j < |log| && log[j].Stored? ==> log[j].t != t;
    assert (log + [e])[i] == Stored(t, w);
  }

  lemma StoredLast(log: seq<Event>, work: map<Task, Work>, t: Task, w: Work)
    requires Current(log, work)
    ensures Current(log + [Stored(t, w)], work[t := w])
  {
    var all, work' := log + [Stored(t, w)], work[t := w];
    forall u | u in work' ensures Latest(all, u, work'[u]) {
      if u == t {
        assert all[|log|] == Stored(t, w);
      } else {
        StillLatest(log, Stored(t, w), u, work[u]);
      }
    }
  }

  lemma FaithfulSnoc(log: seq<Event>, work: map<Task, Work>, e: Event)
    requires Faithful(log) && Current(log, work) && (e.Called? ==> e.t in work && work[e.t] == e.w)
    ensures Faithful(log + [e]) && (e.Called? ==> Current(log + [e], work))
    ensures Calls(log + [e]) == Calls(log) + if e.Called? then [e.t] else []
  {
    var all := log + [e];
    assert all[..|log|] == log;
    forall i | 0 <= i < |all| && all[i].Called? ensures Latest(all[..i], all[i].t, all[i].w) {
      assert all[..i] == log[..i];
    }
    if e.Called? {
      forall t | t in work ensures Latest(all, t, work[t]) {
        StillLatest(log, e, t, work[t]);
      }
    }
  }

  class TaskQueue {
    var tasks: seq<Task>
    /** The `handler` and `param` fields of each task. */
    var work: map<Task, Work>

    /** Every task ever added to the list, and what has been stored and called. */
    ghost var added: seq<Task>
    ghost var log: seq<Event>
    /** The task that has been removed and not been called yet. */
    ghost var running: seq<Task>

    ghost predicate Valid()
      reads this
    {
      && NoDuplicates(tasks) && (forall t :: t in tasks ==> t in work)
      && Calls(log) + running + tasks == added
      && Faithful(log) && Current(log, work)
    }

    /** `fftaskqueue_init` */
    constructor ()
      ensures Valid() && tasks == [] && added == [] && log == [] && running == []
    {
      tasks, work, added, log, running := [], map[], [], [], [];
    }

    /** `fftaskqueue_post` */
    method Post(t: Task) returns (wasEmpty: bool)
      requires Valid() && t in work
      modifies this`tasks, this`added
      ensures Valid() && wasEmpty == (old(tasks) == [])
      ensures tasks == if t in old(tasks) then old(tasks) else old(tasks) + [t]
    {
      hide Faithful, Current, Calls;
      wasEmpty := false;
      if t in tasks {
        return;
      }
      wasEmpty := |tasks| == 0;
      tasks := tasks + [t];
      added := added + [t];
    }

    /** `fftaskqueue_post4`: the handler and parameter are stored even for a queued task. */
    method Post4(t: Task, w: Work)
      requires Valid()
      modifies this`tasks, this`added, this`work, this`log
      ensures Valid() && work == old(work)[t := w] && log == old(log) + [Stored(t, w)]
      ensures tasks == if t in old(tasks) then old(tasks) else old(tasks) + [t]
    {
      hide Faithful, Current, Calls;
      FaithfulSnoc(log, work, Stored(t, w));
      StoredLast(log, work, t, w);
      work := work[t := w];
      log := log + [Stored(t, w)];
      var _ := Post(t);
    }

    static lemma NoCall(log: seq<Event>, t: Task, w: Work)
      ensures Calls(log + [Stored(t, w)]) == Calls(log)
    {
      assert (log + [Stored(t, w)])[..|log|] == log;
    }

    /** What other threads, or a task's handler, may do in the meantime: post any tasks any
        number of times, the running one included. */
    method Others()
      requires Valid()
      modifies this`tasks, this`added, this`work, this`log
      ensures Valid() && old(tasks) <= tasks && old(work.Keys) <= work.Keys && old(log) <= log && Calls(log) == Calls(old(log))
    {
      hide Faithful, Current, Calls, TaskQueue.Valid;
      var k: nat :| true;
      while k > 0
        invariant Valid() && old(tasks) <= tasks && old(work.Keys) <= work.Keys && old(log) <= log && Calls(log) == Calls(old(log))
      {
        var t: Task, w: Work :| true;
        ghost var before := log;
        Post4(t, w);
        NoCall(before, t, w);
        k := k - 1;
      }
    }

    /** `fftaskqueue_run` removes a task under the lock ... */
    method Unlink(it: Task)
      requires Valid() && tasks != [] && tasks[0] == it && running == []
      modifies this`tasks, this`running
      ensures Valid() && tasks == old(tasks)[1..] && running == [it] && it in work
    {
      hide Faithful, Current, Calls;
      ghost var before := tasks;
      tasks := Remove(tasks, it);
      running := [it];
      assert before == [it] + tasks;
    }

    /** ... and calls it with the handler and parameter that it then has. */
    method Call(it: Task)
      requires Valid() && running == [it] && it in work
      modifies this`log, this`running
      ensures Valid() && running == [] && log == old(log) + [Called(it, work[it])]
      ensures Calls(log) == old(Calls(log)) + [it]
    {
      hide Faithful, Current, Calls;
      FaithfulSnoc(log, work, Called(it, work[it]));
      log := log + [Called(it, work[it])];
      running := [];
    }

    /** `fftaskqueue_run`: it calls exactly the tasks that were queued when it started, in their
        order and each of them once, whatever is posted meanwhile. That each call is made with what was
        stored last for its task is a part of `Valid`. */
    method Run() returns (n: nat)
      requires Valid() && running == []
      modifies this
      ensures Valid() && running == [] && n == |old(tasks)| && old(log) <= log && Calls(log) == Calls(old(log)) + old(tasks)
    {
      hide Faithful, Current, Calls, TaskQueue.Valid, NoDuplicates;
      n := 0;
      var nn := |tasks|;
      ghost var batch := tasks;
      while n < nn
        invariant Valid() && running == [] && n <= nn == |batch| && old(log) <= log
        invariant Calls(log) == Calls(old(log)) + batch[..n] && batch[n..] <= tasks
      {
        Others();
        assert batch[n..][0] == batch[n] == tasks[0];
        if tasks == [] {
          break;
        }
        var it := tasks[0];
        Others();
        assert tasks[0] == it && batch[n..][1..] == batch[n + 1..] <= tasks[1..];
        Unlink(it);
        Others();
        Call(it);
        Others();
        n := n + 1;
        assert batch[..n] == batch[..n - 1] + [it];
      }
      assert batch[..nn] == batch;
    }
  }
}
