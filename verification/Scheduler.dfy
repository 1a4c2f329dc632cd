/** The choice of the next task in kernel/sched/scheduler.c. */
module Scheduler {
  import opened Division

  /** A file a task waits for: a hook may be missing, and then never reports anything. */
  datatype Inode = Inode(hasDataHook: bool, hasData: bool, canWriteHook: bool, canWrite: bool, isOpen: bool)

  datatype Task = Task(sleepUntil: nat, isInterrupted: bool, dead: bool, halts: (bool, bool),
                       readList: seq<Inode>, writeList: seq<Inode>, disconnectList: seq<Inode>)

  predicate Readable(i: Inode) {
    i.hasDataHook && i.hasData
  }

  predicate Writable(i: Inode) {
    i.canWriteHook && i.canWrite
  }

  predicate Disconnected(i: Inode) {
    !i.isOpen
  }

  /** Something it waits for has happened. */
  ghost predicate Woken(t: Task) {
    || (exists i :: 0 <= i < |t.readList| && Readable(t.readList[i]))
    || (exists i :: 0 <= i < |t.writeList| && Writable(t.writeList[i]))
    || (exists i :: 0 <= i < |t.disconnectList| && Disconnected(t.disconnectList[i]))
  }

  predicate Waiting(t: Task) {
    t.readList != [] || t.writeList != [] || t.disconnectList != []
  }

  /** isset_fdhalt: whether a process is blocked, and whether it waits for nothing at all. */
  method IssetFdhalt(t: Task) returns (blocked: bool, empty: bool)
    ensures t.dead ==> blocked && empty
    ensures !t.dead ==> blocked == (Waiting(t) && !Woken(t)) && (blocked ==> !empty)
    ensures !t.dead && !blocked && !Woken(t) ==> empty
  {
    empty := true;
    if t.dead { return true, empty; }
    blocked := false;
    for i := 0 to |t.readList|
      invariant empty == !blocked == (i == 0) && forall k :: 0 <= k < i ==> !Readable(t.readList[k])
    {
      empty := false;
      if t.readList[i].hasDataHook {
        if t.readList[i].hasData { return false, empty; }
      }
      blocked := true;
    }
    for i := 0 to |t.writeList|
      invariant empty == !blocked == (t.readList == [] && i == 0) && forall k :: 0 <= k < i ==>
                !Writable(t.writeList[k])
    {
      empty := false;
      if t.writeList[i].canWriteHook {
        if t.writeList[i].canWrite { return false, empty; }
      }
      blocked := true;
    }
    for i := 0 to |t.disconnectList|
      invariant empty == !blocked == (t.readList == [] && t.writeList == [] && i == 0)
      invariant forall k :: 0 <= k < i ==> !Disconnected(t.disconnectList[k])
    {
      empty := false;
      if !t.disconnectList[i].isOpen { return false, empty; }
      blocked := true;
    }
  }

  /** is_halted: halted by a flag, or waiting for files of which none is ready. A dead task is not. */
  method IsHalted(t: Task) returns (r: bool)
    ensures r == Halted(t)
  {
    if t.halts.0 || t.halts.1 { return true; }
    var blocked, empty := IssetFdhalt(t);
    return blocked && !empty;
  }

  ghost predicate Halted(t: Task) {
    t.halts.0 || t.halts.1 || (!t.dead && Waiting(t) && !Woken(t))
  }

  /** May run: not asleep, and interrupted or alive and not halted. */
  ghost predicate Eligible(t: Task, now: nat) {
    t.sleepUntil <= now && (t.isInterrupted || (!t.dead && !Halted(t)))
  }

  /** A task with nothing to wait for may run from the millisecond its sleep ends on; an interrupt wakes any task
      that is not asleep, and a dead task runs for nothing else. */
  lemma EligibleExact(t: Task, now: nat)
    ensures now < t.sleepUntil ==> !Eligible(t, now)
    ensures t.isInterrupted ==> (Eligible(t, now) <==> t.sleepUntil <= now)
    ensures t.dead && !t.isInterrupted ==> !Eligible(t, now)
    ensures !t.dead && t.halts == (false, false) && t.readList == t.writeList == t.disconnectList == [] ==>
              (Eligible(t, now) <==> t.sleepUntil <= now)
    ensures forall i :: i in t.readList && i.hasDataHook && i.hasData && !t.dead && t.halts == (false, false) ==>
                          (Eligible(t, now) <==> t.sleepUntil <= now)
    ensures forall i :: i in t.writeList && i.canWriteHook && i.canWrite && !t.dead && t.halts == (false, false) ==>
                          (Eligible(t, now) <==> t.sleepUntil <= now)
    ensures forall i :: i in t.disconnectList && !i.isOpen && !t.dead && t.halts == (false, false) ==>
                          (Eligible(t, now) <==> t.sleepUntil <= now)
  {
  }

  /** The queue as next_task finds it on one pass, and the time it has read. */
  datatype Pass = Pass(tasks: seq<Task>, now: nat)

  predicate Sized(passes: seq<Pass>, n: nat) {
    n > 0 && forall k :: 0 <= k < |passes| ==> |passes[k].tasks| == n
  }

  /** Step j after task s looks j places further on; every n steps are a pass. */
  function Place(s: nat, j: nat, n: nat): nat
    requires n > 0
  {
    Mod(s + j, n)
  }

  ghost predicate EligibleAt(passes: seq<Pass>, n: nat, s: nat, j: nat)
    requires Sized(passes, n) && Div(j, n) < |passes|
  {
    Eligible(passes[Div(j, n)].tasks[Place(s, j, n)], passes[Div(j, n)].now)
  }

  /** Place j is the first eligible one behind s, in cyclic order. */
  ghost predicate First(passes: seq<Pass>, n: nat, s: nat, j: nat)
    requires Sized(passes, n)
  {
    && j > 0 && Div(j, n) < |passes| && EligibleAt(passes, n, s, j)
    && forall k :: 0 < k < j ==> (Div(k, n) < |passes| && !EligibleAt(passes, n, s, k))
  }

  lemma PassOf(n: nat, j: nat, pass: nat, c: nat, s: nat)
    requires n > 0 && s < n && c < n && s + j == pass * n + c + (if c < s then n else 0)
    ensures Place(s, j, n) == c && Div(j, n) == pass
  {
    DivModUnique(pass, n, if c < s then c + n - s else c - s);
    DivModUnique(if c < s then pass + 1 else pass, n, c);
    assert (pass + 1) * n == pass * n + n;
  }

  /** next_task. `passes` are the states of the queue it will see; on one of them a task is eligible. */
  method NextTask(passes: seq<Pass>, n: nat, s: nat, ghost reached: nat) returns (c: nat)
    requires Sized(passes, n) && s < n && reached > 0 && Div(reached, n) < |passes| && EligibleAt(passes, n, s, reached)
    ensures c < n && exists j: nat :: j <= reached && First(passes, n, s, j) && c == Place(s, j, n)
  {
    hide Div, Mod, Halted, Place;
    var pass, i := 0, 0;
    c := s + 1;
    ghost var j: nat := 1;
    while true
      invariant 0 < j <= reached && c <= n && s + j == pass * n + c + (if c <= s then n else 0)
      invariant forall k :: 0 < k < j ==> (Div(k, n) < |passes| && !EligibleAt(passes, n, s, k))
      decreases reached - j
    {
      if c == n { c := 0; }
      if c == s {
        pass := pass + 1;
        i := i + 1;
      }
      assert (pass - 1) * n == pass * n - n;
      assert (pass + 1) * n == pass * n + n;
      PassOf(n, j, pass, c, s);
      DivMonotone(j, reached, n);
      if i > 10 { i := 0; }
      var t, now := passes[pass].tasks[c], passes[pass].now;
      if t.sleepUntil <= now {
        if t.isInterrupted {
          assert First(passes, n, s, j);
          return;
        }
        if !t.dead {
          var halted := IsHalted(t);
          if !halted {
            assert First(passes, n, s, j);
            return;
          }
        }
      }
      c := c + 1;
      j := j + 1;
    }
  }

  // Fairness.

  /** How many places task x is behind task s, from 1 to n. */
  function Distance(n: nat, s: nat, x: nat): (d: nat)
    requires s < n && x < n
    ensures 1 <= d <= n
  {
    if s < x then x - s else x - s + n
  }

  ghost predicate StaysEligible(passes: seq<Pass>, n: nat, x: nat)
    requires Sized(passes, n) && x < n
  {
    forall k :: 0 <= k < |passes| ==> Eligible(passes[k].tasks[x], passes[k].now)
  }

  lemma Skipped(passes: seq<Pass>, n: nat, s: nat, j: nat, d: nat)
    requires Sized(passes, n) && First(passes, n, s, j) && 0 < d < j
    ensures Div(d, n) < |passes| && !EligibleAt(passes, n, s, d)
  {
  }

  /** next_task does not go past an eligible task. */
  lemma NotPast(passes: seq<Pass>, n: nat, s: nat, j: nat, x: nat)
    requires Sized(passes, n) && s < n && x < n && First(passes, n, s, j) && StaysEligible(passes, n, x)
    ensures j <= Distance(n, s, x)
    ensures j == Distance(n, s, x) ==> Place(s, j, n) == x
    ensures j < Distance(n, s, x) ==> Place(s, j, n) < n && Distance(n, Place(s, j, n), x) == Distance(n, s, x) - j
  {
    var d := Distance(n, s, x);
    PassOf(n, d, if x == s then 1 else 0, x, s);
    if j > d {
      Skipped(passes, n, s, j, d);
      assert false;
    } else if j < d {
      if s + j < n {
        PassOf(n, j, 0, s + j, s);
      } else {
        PassOf(n, j, 0, s + j - n, s);
      }
    }
  }

  /** Task after task, each chosen by next_task from the one before, whatever the others do. */
  ghost predicate Schedule(run: seq<nat>, views: seq<seq<Pass>>, n: nat) {
    && |run| == |views| + 1 && (forall k :: 0 <= k < |run| ==> run[k] < n)
    && (forall k :: 0 <= k < |views| ==> Sized(views[k], n))
    && (forall k :: 0 <= k < |views| ==> Chosen(run, views, n, k))
  }

  ghost predicate Chosen(run: seq<nat>, views: seq<seq<Pass>>, n: nat, k: nat)
    requires k < |views| && k + 1 < |run| && Sized(views[k], n)
  {
    exists j: nat :: First(views[k], n, run[k], j) && run[k + 1] == Place(run[k], j, n)
  }

  /** A task that stays eligible runs after at most as many choices as it is places away. */
  lemma {:induction false} Fair(run: seq<nat>, views: seq<seq<Pass>>, n: nat, x: nat, k: nat)
    requires Schedule(run, views, n) && x < n && forall i :: 0 <= i < |views| ==> StaysEligible(views[i], n, x)
    requires k < |run| && k + Distance(n, run[k], x) < |run|
    ensures exists i :: k < i <= k + Distance(n, run[k], x) && run[i] == x
    decreases |run| - k
  {
    assert Chosen(run, views, n, k);
    var j: nat :| First(views[k], n, run[k], j) && run[k + 1] == Place(run[k], j, n);
    NotPast(views[k], n, run[k], j, x);
    if j < Distance(n, run[k], x) {
      Fair(run, views, n, x, k + 1);
    }
  }

  /** In a queue of n tasks, within n choices. */
  lemma FairWithinN(run: seq<nat>, views: seq<seq<Pass>>, n: nat, x: nat, k: nat)
    requires Schedule(run, views, n) && x < n && forall i :: 0 <= i < |views| ==> StaysEligible(views[i], n, x)
    requires k + n < |run|
    ensures exists i :: k < i <= k + n && run[i] == x
  {
    Fair(run, views, n, x, k);
  }
}
