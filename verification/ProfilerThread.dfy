/**
 The replay loop as it runs in MicroProfileFlip: the stack holds positions in the log
 array, the stacks are fixed buffers, and everything is updated in place.
 */
module ProfilerThread {
  import opened ProfilerEntry
  import opened ProfilerReplay

  class ThreadReplay {
    const groups: Groups
    const stack: array<nat>
    const child: array<int>
    var stackPos: nat
    var groupPos: seq<nat>
    var totals: Totals

    ghost predicate Valid(log: array<Entry>)
      reads this, stack
    {
      && stack.Length == child.Length == STACK_MAX && stackPos < STACK_MAX
      && |groupPos| == MAX_GROUPS && ValidTotals(totals)
      && (forall i :: 0 <= i < stackPos ==> stack[i] < log.Length)
      && (forall i :: 0 <= i < MAX_GROUPS ==> groupPos[i] < 256)
    }

    /** The ENTER entries of the open scopes, read through the log. */
    ghost function Open(log: seq<Entry>, positions: seq<nat>): (s: seq<Entry>)
      requires forall i :: 0 <= i < |positions| ==> positions[i] < |log|
      ensures |s| == |positions| && forall i :: 0 <= i < |s| ==> s[i] == log[positions[i]]
    {
      seq(|positions|, i requires 0 <= i < |positions| => log[positions[i]])
    }

    ghost function Abs(log: array<Entry>): (m: Machine)
      reads this, stack, child, log
      requires Valid(log)
      ensures ValidMachine(m)
    {
      Machine(Open(log[..], stack[..stackPos]), child[..stackPos + 1], groupPos, totals)
    }

    constructor (groups: Groups, log: array<Entry>)
      ensures Valid(log) && fresh(stack) && fresh(child) && this.groups == groups
      ensures Abs(log) == Machine([], [0], seq(MAX_GROUPS, _ => 0), Zero())
    {
      this.groups := groups;
      stack := new nat[STACK_MAX](_ => 0);
      child := new int[STACK_MAX](_ => 0);
      stackPos, groupPos, totals := 0, seq(MAX_GROUPS, _ => 0), Zero();
    }

    method EnterScope(log: array<Entry>, k: nat)
      requires Valid(log) && k < log.Length && Timer(log[k]) < MAX_TIMERS && stackPos + 1 < STACK_MAX
      modifies this`stackPos, this`groupPos, stack, child
      ensures Valid(log) && stackPos == old(stackPos) + 1 && stack[..stackPos] == old(stack[..stackPos]) + [k]
      ensures Abs(log) == Enter(groups, old(Abs(log)), log[k])
    {
      ghost var was := Abs(log);
      var group := groups[Timer(log[k])];
      groupPos := groupPos[group := (groupPos[group] + 1) % 256];
      stack[stackPos] := k;
      stackPos := stackPos + 1;
      child[stackPos] := 0;
      assert Open(log[..], stack[..stackPos]) == was.stack + [log[k]];
      assert child[..stackPos + 1] == was.child + [0];
    }

    method LeaveScope(log: array<Entry>, k: nat)
      requires Valid(log) && k < log.Length && Timer(log[k]) < MAX_TIMERS
      modifies this`stackPos, this`groupPos, this`totals, child
      ensures Valid(log) && stackPos == if old(stackPos) == 0 then 0 else old(stackPos) - 1
      ensures Abs(log) == Leave(groups, old(Abs(log)), log[k])
    {
      hide TickDifference, Credit, LeaveGroup;
      ghost var was := Abs(log);
      if stackPos != 0 {
        var timer := Timer(log[k]);
        var nTicks := TickDifference(log[stack[stackPos - 1]], log[k]);
        var childTicks := child[stackPos];
        stackPos := stackPos - 1;
        child[stackPos] := child[stackPos] + nTicks;
        assert Open(log[..], stack[..stackPos]) == was.stack[..stackPos];
        assert child[..stackPos + 1] == was.child[..stackPos + 1][stackPos := was.child[stackPos] + nTicks];
        totals := Credit(totals, timer, nTicks, nTicks - childTicks);
        LeaveGroupScope(log, groups[timer], nTicks);
      }
    }

    /** The group part of leaving a scope. */
    method LeaveGroupScope(log: array<Entry>, group: nat, nTicks: int)
      requires Valid(log) && group < MAX_GROUPS
      modifies this`groupPos, this`totals
      ensures Valid(log) && Abs(log) == LeaveGroup(old(Abs(log)), group, nTicks)
    {
      var pos := groupPos[group];
      if pos != 0 {
        pos := pos - 1;
        if pos == 0 {
          totals := totals.(group := totals.group[group := totals.group[group] + nTicks]);
        }
        groupPos := groupPos[group := pos];
      }
    }

    /** One turn of the loop. */
    method ReplayEntry(log: array<Entry>, k: nat)
      requires Valid(log) && k < log.Length && ValidEntry(log[k])
      requires Kind(log[k]) == LOG_ENTER ==> stackPos + 1 < STACK_MAX
      requires log != stack as object && log != child as object
      modifies this`stackPos, this`groupPos, this`totals, stack, child
      ensures Valid(log) && Abs(log) == Step(groups, old(Abs(log)), log[k])
      ensures stack[..stackPos] == OpenStep(old(stack[..stackPos]), log[k], k)
    {
      hide Enter, Leave, Kind;
      var kind := Kind(log[k]);
      if kind == LOG_ENTER {
        EnterScope(log, k);
      } else if kind == LOG_LEAVE {
        LeaveScope(log, k);
      }
    }

    /** The loop over one range of the log. */
    method ReplayRange(log: array<Entry>, start: nat, end: nat)
      requires Valid(log) && start <= end <= log.Length && ValidLog(log[start..end])
      requires WithinStack(stackPos, log[start..end])
      requires log != stack as object && log != child as object
      modifies this`stackPos, this`groupPos, this`totals, stack, child
      ensures Valid(log) && Abs(log) == Run(groups, old(Abs(log)), log[start..end])
      ensures stack[..stackPos] == OpenAt(old(stack[..stackPos]), log[start..end], start)
    {
      hide Kind, Step, Abs, WithinStack, OpenStep;
      ghost var m0, all, open0 := Abs(log), log[..], stack[..stackPos];
      var k := start;
      while k < end
        invariant start <= k <= end && Valid(log) && log[..] == all && ValidLog(all[k..end])
        invariant WithinStack(stackPos, all[k..end])
        invariant Run(groups, Abs(log), all[k..end]) == Run(groups, m0, all[start..end])
        invariant OpenAt(stack[..stackPos], all[k..end], k) == OpenAt(open0, all[start..end], start)
      {
        ghost var rest := all[k..end];
        assert rest[0] == log[k] && rest[1..] == all[k + 1..end];
        assert ValidEntry(rest[0]);
        WithinNext(stack[..stackPos], rest, k);
        ReplayEntry(log, k);
        assert |stack[..stackPos]| == stackPos;
        k := k + 1;
      }
    }

    /** The two ranges of a frame, one after the other. */
    method ReplayFrame(log: array<Entry>, s0: nat, e0: nat, s1: nat, e1: nat)
      requires Valid(log) && s0 <= e0 <= log.Length && s1 <= e1 <= log.Length
      requires ValidLog(log[s0..e0]) && ValidLog(log[s1..e1])
      requires WithinStack(stackPos, log[s0..e0] + log[s1..e1])
      requires log != stack as object && log != child as object
      modifies this`stackPos, this`groupPos, this`totals, stack, child
      ensures Valid(log) && ValidLog(log[s0..e0] + log[s1..e1])
      ensures Abs(log) == Run(groups, old(Abs(log)).(totals := Zero()), log[s0..e0] + log[s1..e1])
      ensures stack[..stackPos] == OpenAt(OpenAt(old(stack[..stackPos]), log[s0..e0], s0), log[s1..e1], s1)
    {
      hide Run, OpenAt, WithinStack, ValidLog;
      ghost var a, b, m, open := log[s0..e0], log[s1..e1], Abs(log), stack[..stackPos];
      totals := Zero();
      OpenAtAppend(open, a, b, s0);
      RunAppend(groups, m.(totals := Zero()), a, b);
      ReplayRange(log, s0, e0);
      ReplayRange(log, s1, e1);
    }
  }
}
