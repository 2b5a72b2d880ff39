/** The scheduler and the process list it works on in place. */
module Scheduler {
  import opened SchedulerRuns

  class Process {
    const pid: nat
    var next: Process?

    constructor (pid: nat, next: Process?)
      ensures this.pid == pid && this.next == next
    {
      this.pid, this.next := pid, next;
    }
  }

  ghost function PidsOf(procs: seq<Process>): (pids: seq<nat>)
    ensures |pids| == |procs| && forall i :: 0 <= i < |procs| ==> pids[i] == procs[i].pid
  {
    seq(|procs|, i requires 0 <= i < |procs| => procs[i].pid)
  }

  /** The process at index `i`, or null past the end. */
  ghost function ProcAt(procs: seq<Process>, i: nat): Process? {
    if i < |procs| then procs[i] else null
  }

  class ProcessTable {
    var head: Process?
    var current: Process?
    var lastPid: nat
    var scheduling: bool
    ghost var procs: seq<Process>
    ghost var cursor: Cursor

    ghost function View(): State
      reads this
    {
      State(PidsOf(procs), cursor, lastPid)
    }

    ghost predicate Linked()
      reads this, procs
    {
      head == ProcAt(procs, 0) &&
      forall i {:trigger procs[i].next} :: 0 <= i < |procs| ==> procs[i].next == ProcAt(procs, i + 1)
    }

    /** A process that left the list may still be current, and then links to its successor. */
    ghost predicate CurrentOk()
      reads this, current
    {
      match cursor
      case At(i) => i < |procs| && current == procs[i]
      case Gap(i) => if current == null then i == |procs| else current !in procs && current.next == ProcAt(procs, i)
    }

    ghost predicate Valid()
      reads this, procs, current
    {
      View().Valid() && Linked() && CurrentOk()
    }

    constructor ()
      ensures Valid() && View() == Initial
    {
      head, current, lastPid, scheduling := null, null, 0, false;
      procs, cursor := [], Gap(0);
    }

    /** The list and pid part of `UserProcessLoad`. */
    method Load() returns (pid: nat)
      requires Valid()
      modifies this
      ensures Valid() && View() == SchedulerRuns.Load(old(View())) && scheduling == old(scheduling)
      ensures pid == if old(lastPid) == MAX_PID then 0 else old(lastPid) + 1
    {
      if lastPid == MAX_PID {
        return 0;
      }
      hide State.Valid, PidsOf;
      ghost var before := View();
      lastPid := lastPid + 1;
      var process := new Process(lastPid, head);
      head := process;
      procs := [process] + procs;
      cursor := Shift(cursor);
      assert View().pids == [lastPid] + before.pids;
      StepKeepsValid(before, Loaded, View());
      return process.pid;
    }

    /** `SchedulerTick`: the process to run, or null when the system halts for want of processes. */
    method Tick() returns (running: Process?)
      requires Valid()
      modifies this
      ensures Valid()
      ensures running == null <==> old(View()).pids == []
      ensures running == null ==> View() == old(View())
      ensures scheduling <==> running != null
      ensures running != null ==> running in procs && running == current && View() == SchedulerRuns.Tick(old(View()))
    {
      hide PidsOf;
      ghost var before := View();
      scheduling := false;
      if head == null {
        return null;
      }
      if current == null || current.next == null {
        current := head;
      } else {
        current := current.next;
      }
      cursor := At(before.NextIndex());
      scheduling := true;
      return current;
    }

    /** `GetProcess`: the live process with this id. */
    method GetProcess(pid: nat) returns (process: Process?)
      requires Valid()
      ensures process == null <==> pid !in View().pids
      ensures process != null ==> process in procs && process.pid == pid
    {
      process := head;
      ghost var i := 0;
      while process != null && process.pid != pid
        invariant 0 <= i <= |procs| && process == ProcAt(procs, i)
        invariant forall j :: 0 <= j < i ==> procs[j].pid != pid
        decreases |procs| - i
      {
        process := process.next;
        i := i + 1;
      }
      if process != null {
        assert View().pids[i] == pid;
      }
    }

    /** The walk of `_RemoveProcess`: the process with a given live id, and the one in front of it. */
    method FindWithPrevious(pid: nat, ghost k: nat) returns (prev: Process?, process: Process)
      requires Valid() && k < |procs| && procs[k].pid == pid
      ensures process == procs[k] && prev == if k == 0 then null else procs[k - 1]
    {
      hide PidsOf;
      prev := null;
      process := head;
      ghost var i := 0;
      while process.pid != pid
        invariant 0 <= i <= k && process == procs[i]
        invariant prev == if i == 0 then null else procs[i - 1]
        decreases k - i
      {
        prev := process;
        process := process.next;
        i := i + 1;
      }
      assert View().pids[i] == View().pids[k];
    }

    /** `_RemoveProcess` for the current process: it leaves the list but stays current until the next tick. */
    method ExitCurrent()
      requires Valid() && cursor.At?
      modifies this, procs
      ensures Valid() && View() == Exit(old(View())) && current == old(current) && scheduling == old(scheduling)
    {
      ghost var before, i := View(), cursor.i;
      DistinctProcesses(procs);
      hide PidsOf, State.Valid, ProcAt;
      Unlink(current.pid, i);
      DropFromList(i);
      StepKeepsValid(before, Exited, View());
    }

    /** The list without index `i`, once the pointers lead past it. */
    ghost method DropFromList(i: nat)
      requires cursor == At(i) && i < |procs| && current == procs[i] && forall a, b :: 0 <= a < b < |procs| ==> procs[a] != procs[b]
      requires head == ProcAt(procs, if i == 0 then 1 else 0)
      requires forall k {:trigger procs[k].next} :: 0 <= k < |procs| ==> procs[k].next == ProcAt(procs, if k == i - 1 then i + 1 else k + 1)
      modifies this`procs, this`cursor
      ensures procs == old(procs)[..i] + old(procs)[i + 1..] && cursor == Gap(i) && Linked() && CurrentOk()
      ensures PidsOf(procs) == PidsOf(old(procs))[..i] + PidsOf(old(procs))[i + 1..]
    {
      hide PidsOf, ProcAt;
      var p := procs;
      AfterRemoval(p, i, p[..i] + p[i + 1..]);
      procs := p[..i] + p[i + 1..];
      cursor := Gap(i);
    }

    /** The pointer updates of `_RemoveProcess`: the process in front of index `i` now links past it. */
    method Unlink(pid: nat, ghost i: nat)
      requires Valid() && i < |procs| && procs[i].pid == pid && forall a, b :: 0 <= a < b < |procs| ==> procs[a] != procs[b]
      modifies this`head, procs
      ensures head == ProcAt(procs, if i == 0 then 1 else 0)
      ensures forall k {:trigger procs[k].next} :: 0 <= k < |procs| ==> procs[k].next == ProcAt(procs, if k == i - 1 then i + 1 else k + 1)
    {
      var prev, process := FindWithPrevious(pid, i);
      hide PidsOf, State.Valid;
      if prev == null {
        head := process.next;
      } else {
        prev.next := process.next;
      }
    }
  }

  /** What is left of a list of distinct processes once the one at index `i` is gone. */
  lemma AfterRemoval(p: seq<Process>, i: nat, q: seq<Process>)
    requires i < |p| && q == p[..i] + p[i + 1..] && forall a, b :: 0 <= a < b < |p| ==> p[a] != p[b]
    ensures p[i] !in q && PidsOf(q) == PidsOf(p)[..i] + PidsOf(p)[i + 1..]
    ensures forall j: nat :: ProcAt(q, j) == ProcAt(p, if j < i then j else j + 1)
  {
  }

  lemma DistinctProcesses(procs: seq<Process>)
    requires forall i, j :: 0 <= i < j < |procs| ==> PidsOf(procs)[i] != PidsOf(procs)[j]
    ensures forall i, j :: 0 <= i < j < |procs| ==> procs[i] != procs[j]
  {
    forall i, j | 0 <= i < j < |procs|
      ensures procs[i] != procs[j]
    {
      assert PidsOf(procs)[i] != PidsOf(procs)[j];
    }
  }
}
