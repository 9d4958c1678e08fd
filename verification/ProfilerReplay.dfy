/**
 Replaying a thread's log: a stack machine that credits inclusive, exclusive and group
 time (externals/microprofile/microprofile.h, MicroProfileFlip).  It is shown to agree with
 a recursion over the forest of scopes that produced the log.
 */
module ProfilerReplay {
  import opened Sequences
  import opened ProfilerEntry

  const MAX_TIMERS := 1024
  const MAX_GROUPS := 48
  const STACK_MAX := 32

  /** TimerToGroup. */
  type Groups = g: seq<nat> | |g| == MAX_TIMERS && forall i :: 0 <= i < |g| ==> g[i] < MAX_GROUPS
    witness seq(MAX_TIMERS, _ => 0)

  /** Per timer: ticks, exclusive ticks and calls; per group: ticks. */
  datatype Totals = Totals(ticks: seq<int>, exclusive: seq<int>, calls: seq<int>, group: seq<int>)

  function Zero(): Totals {
    var z := seq(MAX_TIMERS, _ => 0);
    Totals(z, z, z, seq(MAX_GROUPS, _ => 0))
  }

  /** What a thread log keeps from one frame to the next, and the totals of the current frame.  The
      stack holds the ENTER entries; child[i] the ticks spent in closed children at depth i. */
  datatype Machine = Machine(stack: seq<Entry>, child: seq<int>, groupPos: seq<nat>, totals: Totals)

  ghost predicate ValidTotals(t: Totals) {
    |t.ticks| == |t.exclusive| == |t.calls| == MAX_TIMERS && |t.group| == MAX_GROUPS
  }

  ghost predicate ValidMachine(m: Machine) {
    && |m.child| == |m.stack| + 1 && |m.groupPos| == MAX_GROUPS && ValidTotals(m.totals)
    && forall i :: 0 <= i < MAX_GROUPS ==> m.groupPos[i] < 256
  }

  ghost predicate ValidEntry(e: Entry) {
    Kind(e) == LOG_ENTER || Kind(e) == LOG_LEAVE ==> Timer(e) < MAX_TIMERS
  }

  function Enter(g: Groups, m: Machine, e: Entry): (r: Machine)
    requires ValidMachine(m) && Timer(e) < MAX_TIMERS
    ensures ValidMachine(r)
  {
    var k := g[Timer(e)];
    m.(groupPos := m.groupPos[k := (m.groupPos[k] + 1) % 256], stack := m.stack + [e], child := m.child + [0])
  }

  function Credit(t: Totals, timer: nat, ticks: int, exclusive: int): (r: Totals)
    requires ValidTotals(t) && timer < MAX_TIMERS
    ensures ValidTotals(r)
  {
    t.(ticks := t.ticks[timer := t.ticks[timer] + ticks],
       exclusive := t.exclusive[timer := t.exclusive[timer] + exclusive],
       calls := t.calls[timer := t.calls[timer] + 1])
  }

  /** The group bookkeeping of a LEAVE: only the outermost scope of a group counts. */
  function LeaveGroup(m: Machine, k: nat, ticks: int): (r: Machine)
    requires ValidMachine(m) && k < MAX_GROUPS
    ensures ValidMachine(r)
  {
    var p := m.groupPos[k];
    if p == 0 then m
    else
      var t := if p == 1 then m.totals.(group := m.totals.group[k := m.totals.group[k] + ticks]) else m.totals;
      m.(groupPos := m.groupPos[k := p - 1], totals := t)
  }

  function Leave(g: Groups, m: Machine, e: Entry): (r: Machine)
    requires ValidMachine(m) && Timer(e) < MAX_TIMERS
    ensures ValidMachine(r)
  {
    var n := |m.stack|;
    if n == 0 then m
    else
      var ticks := TickDifference(m.stack[n - 1], e);
      var popped := m.(stack := m.stack[..n - 1],
                       child := m.child[..n][n - 1 := m.child[n - 1] + ticks],
                       totals := Credit(m.totals, Timer(e), ticks, ticks - m.child[n]));
      LeaveGroup(popped, g[Timer(e)], ticks)
  }

  /** One log entry; other kinds do not touch the time totals. */
  function Step(g: Groups, m: Machine, e: Entry): (r: Machine)
    requires ValidMachine(m) && ValidEntry(e)
    ensures ValidMachine(r)
  {
    if Kind(e) == LOG_ENTER then Enter(g, m, e)
    else if Kind(e) == LOG_LEAVE then Leave(g, m, e)
    else m
  }

  ghost predicate ValidLog(log: seq<Entry>) { forall i :: 0 <= i < |log| ==> ValidEntry(log[i]) }

  function Run(g: Groups, m: Machine, log: seq<Entry>): (r: Machine)
    requires ValidMachine(m) && ValidLog(log)
    ensures ValidMachine(r)
    decreases |log|
  {
    if log == [] then m else Run(g, Step(g, m, log[0]), log[1..])
  }

  lemma {:induction false} RunAppend(g: Groups, m: Machine, a: seq<Entry>, b: seq<Entry>)
    requires ValidMachine(m) && ValidLog(a) && ValidLog(b)
    ensures ValidLog(a + b) && Run(g, m, a + b) == Run(g, Run(g, m, a), b)
    decreases |a|
  {
    if a == [] {
      assert a + b == b;
    } else {
      assert (a + b)[0] == a[0] && (a + b)[1..] == a[1..] + b;
      RunAppend(g, Step(g, m, a[0]), a[1..], b);
    }
  }

  // ----- conservation of exclusive time ---------------------------------------

  function Sum(s: seq<int>): int { if s == [] then 0 else Sum(s[..|s| - 1]) + s[|s| - 1] }

  lemma {:induction false} SumUpdate(s: seq<int>, i: nat, d: int)
    requires i < |s|
    ensures Sum(s[i := s[i] + d]) == Sum(s) + d
    decreases |s|
  {
    var n := |s| - 1;
    var t := s[i := s[i] + d];
    if i == n {
      assert t[..n] == s[..n];
    } else {
      assert t[..n] == s[..n][i := s[..n][i] + d];
      SumUpdate(s[..n], i, d);
    }
  }

  /** Ticks of scopes that closed with nothing open around them. */
  function OutermostTicks(g: Groups, m: Machine, log: seq<Entry>): int
    requires ValidMachine(m) && ValidLog(log)
    decreases |log|
  {
    if log == [] then 0
    else
      var e := log[0];
      (if Kind(e) == LOG_LEAVE && |m.stack| == 1 then TickDifference(m.stack[0], e) else 0)
      + OutermostTicks(g, Step(g, m, e), log[1..])
  }

  lemma LeaveConserves(g: Groups, m: Machine, e: Entry)
    requires ValidMachine(m) && Timer(e) < MAX_TIMERS
    ensures var r := Leave(g, m, e);
            && Sum(r.totals.exclusive) - Sum(r.child) == Sum(m.totals.exclusive) - Sum(m.child)
            && r.child[0] - m.child[0] == if |m.stack| == 1 then TickDifference(m.stack[0], e) else 0
  {
    var n := |m.stack|;
    if n > 0 {
      var ticks := TickDifference(m.stack[n - 1], e);
      SumUpdate(m.totals.exclusive, Timer(e), ticks - m.child[n]);
      SumUpdate(m.child[..n], n - 1, ticks);
    }
  }

  /** Over any log, balanced or not: total exclusive time less the child ticks still on the stack never
      changes, and the bottom slot collects the outermost scopes. */
  lemma {:induction false} ExclusiveConserved(g: Groups, m: Machine, log: seq<Entry>)
    requires ValidMachine(m) && ValidLog(log)
    ensures var r := Run(g, m, log);
            && Sum(r.totals.exclusive) - Sum(r.child) == Sum(m.totals.exclusive) - Sum(m.child)
            && r.child[0] == m.child[0] + OutermostTicks(g, m, log)
    decreases |log|
  {
    if log != [] {
      var e := log[0];
      if Kind(e) == LOG_LEAVE {
        LeaveConserves(g, m, e);
      } else if Kind(e) == LOG_ENTER {
        assert (m.child + [0])[..|m.child|] == m.child;
      }
      ExclusiveConserved(g, Step(g, m, e), log[1..]);
    }
  }

  /** With nothing open before and after, exclusive time handed out is the time of the outermost scopes. */
  lemma ExclusiveIsOutermost(g: Groups, m: Machine, log: seq<Entry>)
    requires ValidMachine(m) && ValidLog(log) && m.stack == [] && Run(g, m, log).stack == []
    ensures Sum(Run(g, m, log).totals.exclusive) == Sum(m.totals.exclusive) + OutermostTicks(g, m, log)
  {
    ExclusiveConserved(g, m, log);
    var r := Run(g, m, log);
    assert r.child[..0] == [] && m.child[..0] == [];
  }

  // ----- forests of scopes ----------------------------------------------------

  /** A run of scopes: the first, with what happened inside it, and those after it. */
  datatype Forest = Empty | Scope(timer: nat, from: int, to: int, inside: Forest, after: Forest)

  function Duration(f: Forest): int requires f.Scope? { f.to - f.from }

  ghost predicate ValidForest(f: Forest) {
    f.Scope? ==>
      && f.timer < MAX_TIMERS && -TWO_47 <= Duration(f) < TWO_47
      && ValidForest(f.inside) && ValidForest(f.after)
  }

  function Depth(f: Forest): nat {
    if f.Empty? then 0 else Max(1 + Depth(f.inside), Depth(f.after))
  }

  function Flatten(f: Forest): (log: seq<Entry>)
    requires ValidForest(f)
    ensures ValidLog(log)
  {
    if f.Empty? then []
    else [MakeEntry(LOG_ENTER, f.timer, f.from)] + Flatten(f.inside) + [MakeEntry(LOG_LEAVE, f.timer, f.to)] + Flatten(f.after)
  }

  function If(c: bool, x: int): int { if c then x else 0 }

  /** Time in scopes of a timer. */
  function Inclusive(f: Forest, x: nat): int {
    if f.Empty? then 0 else If(f.timer == x, Duration(f)) + Inclusive(f.inside, x) + Inclusive(f.after, x)
  }

  /** Time of the top-level scopes. */
  function Direct(f: Forest): int {
    if f.Empty? then 0 else Duration(f) + Direct(f.after)
  }

  /** Time in scopes of a timer outside their direct children. */
  function Exclusive(f: Forest, x: nat): int {
    if f.Empty? then 0
    else If(f.timer == x, Duration(f) - Direct(f.inside)) + Exclusive(f.inside, x) + Exclusive(f.after, x)
  }

  function Calls(f: Forest, x: nat): int {
    if f.Empty? then 0 else If(f.timer == x, 1) + Calls(f.inside, x) + Calls(f.after, x)
  }

  /** Time of the scopes of a group that lie in no other scope of the group. */
  function GroupTime(g: Groups, f: Forest, k: nat): int
    requires ValidForest(f)
  {
    if f.Empty? then 0
    else (if g[f.timer] == k then Duration(f) else GroupTime(g, f.inside, k)) + GroupTime(g, f.after, k)
  }

  /** The replay of f took m to r: the stack is as before, the ticks of the top-level scopes have been
      handed to the enclosing scope, ... */
  ghost predicate StackKept(m: Machine, r: Machine, f: Forest)
    requires ValidMachine(m) && ValidMachine(r)
  {
    && r.stack == m.stack && r.groupPos == m.groupPos
    && r.child == m.child[|m.stack| := m.child[|m.stack|] + Direct(f)]
  }

  /** ... each timer has got its share, ... */
  ghost predicate TimersCredited(m: Totals, r: Totals, f: Forest)
    requires ValidTotals(m) && ValidTotals(r)
  {
    forall x :: 0 <= x < MAX_TIMERS ==>
      && r.ticks[x] == m.ticks[x] + Inclusive(f, x)
      && r.exclusive[x] == m.exclusive[x] + Exclusive(f, x)
      && r.calls[x] == m.calls[x] + Calls(f, x)
  }

  /** ... and so has each group, unless one of its scopes is open already. */
  ghost predicate GroupsCredited(g: Groups, groupPos: seq<nat>, m: Totals, r: Totals, f: Forest)
    requires |groupPos| == MAX_GROUPS && ValidTotals(m) && ValidTotals(r) && ValidForest(f)
  {
    forall k :: 0 <= k < MAX_GROUPS ==> r.group[k] == m.group[k] + If(groupPos[k] == 0, GroupTime(g, f, k))
  }

  ghost predicate Credited(g: Groups, m: Machine, r: Machine, f: Forest)
    requires ValidMachine(m) && ValidMachine(r) && ValidForest(f)
  {
    && StackKept(m, r, f) && TimersCredited(m.totals, r.totals, f)
    && GroupsCredited(g, m.groupPos, m.totals, r.totals, f)
  }

  ghost predicate RoomFor(m: Machine, f: Forest)
    requires ValidMachine(m)
  {
    forall k :: 0 <= k < MAX_GROUPS ==> m.groupPos[k] + Depth(f) < 256
  }

  /** Leaving a scope entered from m, given what is on top of the stack. */
  function LeaveWith(g: Groups, m: Machine, r: Machine, f: Forest): (s: Machine)
    requires ValidMachine(m) && ValidMachine(r) && ValidForest(f) && f.Scope?
    requires |r.stack| == |m.stack| + 1
    ensures ValidMachine(s)
  {
    var n, d := |m.stack|, Duration(f);
    LeaveGroup(r.(stack := r.stack[..n], child := r.child[..n + 1][n := r.child[n] + d],
                  totals := Credit(r.totals, f.timer, d, d - r.child[n + 1])), g[f.timer], d)
  }

  lemma LeaveIs(g: Groups, m: Machine, f: Forest, r: Machine, e: Entry, l: Entry)
    requires ValidMachine(m) && ValidForest(f) && f.Scope? && ValidMachine(r)
    requires e == MakeEntry(LOG_ENTER, f.timer, f.from) && l == MakeEntry(LOG_LEAVE, f.timer, f.to)
    requires r.stack == m.stack + [e]
    ensures Timer(e) == Timer(l) == f.timer && Leave(g, r, l) == LeaveWith(g, m, r, f)
  {
    TickDifferenceExact(LOG_ENTER, f.timer, f.from, LOG_LEAVE, f.timer, f.to);
    assert f.timer % TWO_14 == f.timer;
  }

  /** One scope: entering it, replaying its inside, leaving it. */
  lemma ScopeKeepsStack(g: Groups, m: Machine, f: Forest, m1: Machine, r: Machine, e: Entry)
    requires ValidMachine(m) && ValidForest(f) && f.Scope? && RoomFor(m, f) && ValidMachine(r)
    requires Timer(e) == f.timer && m1 == Enter(g, m, e) && StackKept(m1, r, f.inside)
    ensures r.stack == m.stack + [e] && StackKept(m, LeaveWith(g, m, r, f), f.(after := Empty))
  {
    var k, n := g[f.timer], |m.stack|;
    var s := LeaveWith(g, m, r, f);
    assert r.stack[..n] == m.stack && r.child[..n + 1] == m.child;
    assert m1.groupPos[k] == m.groupPos[k] + 1;
    assert s.groupPos == m.groupPos;
  }

  lemma ScopeCreditsTimers(g: Groups, m: Machine, f: Forest, m1: Machine, r: Machine, e: Entry)
    requires ValidMachine(m) && ValidForest(f) && f.Scope? && ValidMachine(r)
    requires Timer(e) == f.timer && m1 == Enter(g, m, e) && StackKept(m1, r, f.inside)
    requires TimersCredited(m1.totals, r.totals, f.inside)
    ensures TimersCredited(m.totals, LeaveWith(g, m, r, f).totals, f.(after := Empty))
  {
    hide Direct, TickDifference;
    var d, c := Duration(f), Direct(f.inside);
    assert r.child[|m.stack| + 1] == 0 + c;
    var t, u := r.totals, LeaveWith(g, m, r, f).totals;
    assert u.ticks == t.ticks[f.timer := t.ticks[f.timer] + d];
    assert u.exclusive == t.exclusive[f.timer := t.exclusive[f.timer] + (d - c)];
    assert u.calls == t.calls[f.timer := t.calls[f.timer] + 1];
    forall x | 0 <= x < MAX_TIMERS
      ensures && u.ticks[x] == m.totals.ticks[x] + Inclusive(f.(after := Empty), x)
              && u.exclusive[x] == m.totals.exclusive[x] + Exclusive(f.(after := Empty), x)
              && u.calls[x] == m.totals.calls[x] + Calls(f.(after := Empty), x)
    {
      OneScope(f, f.(after := Empty), x);
    }
  }

  lemma OneScope(f: Forest, h: Forest, x: nat)
    requires f.Scope? && h == f.(after := Empty)
    ensures Inclusive(h, x) == If(f.timer == x, Duration(f)) + Inclusive(f.inside, x)
    ensures Exclusive(h, x) == If(f.timer == x, Duration(f) - Direct(f.inside)) + Exclusive(f.inside, x)
    ensures Calls(h, x) == If(f.timer == x, 1) + Calls(f.inside, x)
  {
    assert Inclusive(Empty, x) == Exclusive(Empty, x) == Calls(Empty, x) == 0;
  }

  lemma ScopeCreditsGroups(g: Groups, m: Machine, f: Forest, m1: Machine, r: Machine, e: Entry)
    requires ValidMachine(m) && ValidForest(f) && f.Scope? && RoomFor(m, f) && ValidMachine(r)
    requires Timer(e) == f.timer && m1 == Enter(g, m, e) && StackKept(m1, r, f.inside)
    requires GroupsCredited(g, m1.groupPos, m1.totals, r.totals, f.inside)
    ensures GroupsCredited(g, m.groupPos, m.totals, LeaveWith(g, m, r, f).totals, f.(after := Empty))
  {
    var k := g[f.timer];
    assert m1.groupPos[k] == m.groupPos[k] + 1;
  }

  /** Every measure of a forest is that of its first scope plus that of the rest. */
  lemma SplitMeasures(f: Forest, h: Forest, x: nat)
    requires f.Scope? && h == f.(after := Empty)
    ensures Direct(f) == Direct(h) + Direct(f.after)
    ensures Inclusive(f, x) == Inclusive(h, x) + Inclusive(f.after, x)
    ensures Exclusive(f, x) == Exclusive(h, x) + Exclusive(f.after, x)
    ensures Calls(f, x) == Calls(h, x) + Calls(f.after, x)
  {
    assert Direct(Empty) == Inclusive(Empty, x) == Exclusive(Empty, x) == Calls(Empty, x) == 0;
  }

  lemma SplitGroupTime(g: Groups, f: Forest, h: Forest, k: nat)
    requires ValidForest(f) && f.Scope? && h == f.(after := Empty)
    ensures GroupTime(g, f, k) == GroupTime(g, h, k) + GroupTime(g, f.after, k)
  {
    assert GroupTime(g, Empty, k) == 0;
  }

  lemma ThenAfter(g: Groups, m: Machine, s: Machine, r: Machine, f: Forest)
    requires ValidMachine(m) && ValidMachine(s) && ValidMachine(r) && ValidForest(f) && f.Scope?
    requires Credited(g, m, s, f.(after := Empty)) && Credited(g, s, r, f.after)
    ensures Credited(g, m, r, f)
  {
    hide Direct, Inclusive, Exclusive, Calls, GroupTime;
    var h := f.(after := Empty);
    SplitMeasures(f, h, 0);
    assert StackKept(m, r, f);
    forall x | 0 <= x < MAX_TIMERS
      ensures && r.totals.ticks[x] == m.totals.ticks[x] + Inclusive(f, x)
              && r.totals.exclusive[x] == m.totals.exclusive[x] + Exclusive(f, x)
              && r.totals.calls[x] == m.totals.calls[x] + Calls(f, x)
    {
      SplitMeasures(f, h, x);
    }
    forall k | 0 <= k < MAX_GROUPS
      ensures r.totals.group[k] == m.totals.group[k] + If(m.groupPos[k] == 0, GroupTime(g, f, k))
    {
      SplitGroupTime(g, f, h, k);
    }
  }

  /** Replaying the flattened forest credits every timer and group with what the forest says. */
  lemma {:induction false} ReplayAgreesWithForest(g: Groups, m: Machine, f: Forest)
    requires ValidMachine(m) && ValidForest(f) && RoomFor(m, f)
    ensures Credited(g, m, Run(g, m, Flatten(f)), f)
    decreases f
  {
    hide LeaveWith, StackKept, TimersCredited, GroupsCredited, MakeEntry, Leave;
    if f.Scope? {
      var e, l := MakeEntry(LOG_ENTER, f.timer, f.from), MakeEntry(LOG_LEAVE, f.timer, f.to);
      assert Timer(e) == f.timer;
      var m1 := Enter(g, m, e);
      ReplayAgreesWithForest(g, m1, f.inside);
      var m2 := Run(g, m1, Flatten(f.inside));
      ScopeKeepsStack(g, m, f, m1, m2, e);
      ScopeCreditsTimers(g, m, f, m1, m2, e);
      ScopeCreditsGroups(g, m, f, m1, m2, e);
      LeaveIs(g, m, f, m2, e, l);
      var m3 := Leave(g, m2, l);
      assert RoomFor(m3, f.after) by { StackKeptMeansRoom(m, m3, f); }
      ReplayAgreesWithForest(g, m3, f.after);
      RunScope(g, m, e, Flatten(f.inside), l, Flatten(f.after));
      ThenAfter(g, m, m3, Run(g, m3, Flatten(f.after)), f);
    } else {
      NothingToCredit(g, m);
    }
  }

  lemma StackKeptMeansRoom(m: Machine, s: Machine, f: Forest)
    requires ValidMachine(m) && ValidMachine(s) && f.Scope? && RoomFor(m, f)
    requires StackKept(m, s, f.(after := Empty))
    ensures RoomFor(s, f.after)
  {}

  lemma NothingToCredit(g: Groups, m: Machine)
    requires ValidMachine(m)
    ensures Credited(g, m, m, Empty)
  {}

  lemma RunScope(g: Groups, m: Machine, e: Entry, inside: seq<Entry>, l: Entry, after: seq<Entry>)
    requires ValidMachine(m) && ValidLog(inside) && ValidLog(after)
    requires Kind(e) == LOG_ENTER && Kind(l) == LOG_LEAVE && Timer(e) < MAX_TIMERS && Timer(l) < MAX_TIMERS
    ensures ValidLog([e] + inside + [l] + after)
    ensures Run(g, m, [e] + inside + [l] + after) == Run(g, Leave(g, Run(g, Enter(g, m, e), inside), l), after)
  {
    RunAppend(g, m, [e], inside);
    RunAppend(g, m, [e] + inside, [l]);
    RunAppend(g, m, [e] + inside + [l], after);
  }

  // ----- the stack bound --------------------------------------------------------

  /** Starting with n open scopes, a log never has more than 31 open: entering the 32nd would write the
      child-tick slot one past the end of its array. */
  ghost predicate WithinStack(n: nat, log: seq<Entry>)
    decreases |log|
  {
    if log == [] then true
    else if Kind(log[0]) == LOG_ENTER then n + 1 < STACK_MAX && WithinStack(n + 1, log[1..])
    else if Kind(log[0]) == LOG_LEAVE && n > 0 then WithinStack(n - 1, log[1..])
    else WithinStack(n, log[1..])
  }

  lemma FlattenThen(f: Forest, rest: seq<Entry>) returns (e: Entry, l: Entry)
    requires ValidForest(f) && f.Scope?
    ensures Kind(e) == LOG_ENTER && Kind(l) == LOG_LEAVE
    ensures Flatten(f) + rest == [e] + (Flatten(f.inside) + ([l] + (Flatten(f.after) + rest)))
  {
    e, l := MakeEntry(LOG_ENTER, f.timer, f.from), MakeEntry(LOG_LEAVE, f.timer, f.to);
    Regroup([e], Flatten(f.inside), [l], Flatten(f.after), rest);
  }

  lemma Regroup(a: seq<Entry>, b: seq<Entry>, c: seq<Entry>, d: seq<Entry>, e: seq<Entry>)
    ensures a + b + c + d + e == a + (b + (c + (d + e)))
  {}

  lemma WithinEnter(n: nat, e: Entry, inside: seq<Entry>, log: seq<Entry>)
    requires Kind(e) == LOG_ENTER && log == [e] + inside
    ensures WithinStack(n, log) <==> n + 1 < STACK_MAX && WithinStack(n + 1, inside)
  {
    assert log[1..] == inside;
  }

  lemma WithinLeave(n: nat, l: Entry, after: seq<Entry>, log: seq<Entry>)
    requires Kind(l) == LOG_LEAVE && log == [l] + after
    ensures WithinStack(n + 1, log) <==> WithinStack(n, after)
  {
    assert log[1..] == after;
  }

  function Max(a: nat, b: nat): nat { if a > b then a else b }

  /** A scope whose inside is nested di deep, followed by scopes nested da deep. */
  lemma ScopeWithin(n: nat, di: nat, da: nat, e: Entry, inside: seq<Entry>, l: Entry, after: seq<Entry>, rest: seq<Entry>,
                    tail: seq<Entry>, log: seq<Entry>)
    requires Kind(e) == LOG_ENTER && Kind(l) == LOG_LEAVE && tail == [l] + after && log == [e] + inside
    requires n + 1 < STACK_MAX ==> (WithinStack(n + 1, inside) <==> n + 1 + di < STACK_MAX && WithinStack(n + 1, tail))
    requires n + 1 < STACK_MAX ==> (WithinStack(n, after) <==> n + da < STACK_MAX && WithinStack(n, rest))
    ensures WithinStack(n, log) <==> n + Max(1 + di, da) < STACK_MAX && WithinStack(n, rest)
  {
    hide WithinStack, Kind;
    WithinEnter(n, e, inside, log);
    WithinLeave(n, l, after, tail);
  }

  lemma {:induction false} ForestWithinStack(n: nat, f: Forest, rest: seq<Entry>)
    requires ValidForest(f) && n < STACK_MAX
    ensures WithinStack(n, Flatten(f) + rest) <==> n + Depth(f) < STACK_MAX && WithinStack(n, rest)
    decreases f
  {
    hide WithinStack, Kind;
    if f.Scope? {
      var e, l := FlattenThen(f, rest);
      hide Flatten;
      var after := Flatten(f.after) + rest;
      var tail := [l] + after;
      if n + 1 < STACK_MAX {
        ForestWithinStack(n + 1, f.inside, tail);
        ForestWithinStack(n, f.after, rest);
      }
      ScopeWithin(n, Depth(f.inside), Depth(f.after), e, Flatten(f.inside) + tail, l, after, rest, tail, Flatten(f) + rest);
    } else {
      assert Flatten(f) + rest == rest;
    }
  }

  /** A forest can be replayed within the stack exactly when it is nested at most 31 deep. */
  lemma StackBoundIsDepth(f: Forest)
    requires ValidForest(f)
    ensures WithinStack(0, Flatten(f)) <==> Depth(f) <= 31
  {
    ForestWithinStack(0, f, []);
    assert Flatten(f) + [] == Flatten(f);
  }

  /** n scopes of timer 0, one inside the other, entered and left a tick apart. */
  function Nested(n: nat): Forest {
    if n == 0 then Empty else Scope(0, 100 - n, 100 + n, Nested(n - 1), Empty)
  }

  lemma {:induction false} NestedIsDeep(n: nat)
    requires n <= 100
    ensures ValidForest(Nested(n)) && Depth(Nested(n)) == n
  {
    if n > 0 { NestedIsDeep(n - 1); }
  }

  /** Thirty-one nested scopes are replayed within the arrays, thirty-two are not. */
  lemma ThirtyTwoScopesOverrun()
    ensures ValidForest(Nested(31)) && WithinStack(0, Flatten(Nested(31)))
    ensures ValidForest(Nested(32)) && !WithinStack(0, Flatten(Nested(32)))
  {
    hide Flatten, WithinStack;
    NestedIsDeep(31);
    NestedIsDeep(32);
    StackBoundIsDepth(Nested(31));
    StackBoundIsDepth(Nested(32));
  }

  // ----- where the open scopes are in the log -------------------------------------

  function OpenStep(open: seq<nat>, e: Entry, k: nat): seq<nat> {
    if Kind(e) == LOG_ENTER then open + [k]
    else if Kind(e) == LOG_LEAVE && open != [] then open[..|open| - 1]
    else open
  }

  /** Positions of the ENTER entries of the scopes open after a log whose entries are at k, k + 1, ..., given
      those open before it. */
  function OpenAt(open: seq<nat>, log: seq<Entry>, k: nat): seq<nat>
    decreases |log|
  {
    if log == [] then open else OpenAt(OpenStep(open, log[0], k), log[1..], k + 1)
  }

  lemma WithinNext(open: seq<nat>, log: seq<Entry>, k: nat)
    requires log != [] && WithinStack(|open|, log)
    ensures Kind(log[0]) == LOG_ENTER ==> |open| + 1 < STACK_MAX
    ensures WithinStack(|OpenStep(open, log[0], k)|, log[1..])
  {
    hide Kind;
  }

  lemma {:induction false} OpenAtAppend(open: seq<nat>, a: seq<Entry>, b: seq<Entry>, k: nat)
    ensures OpenAt(open, a + b, k) == OpenAt(OpenAt(open, a, k), b, k + |a|)
    ensures WithinStack(|open|, a + b) <==> WithinStack(|open|, a) && WithinStack(|OpenAt(open, a, k)|, b)
    decreases |a|
  {
    if a == [] {
      assert a + b == b;
    } else {
      hide Kind;
      assert (a + b)[0] == a[0] && (a + b)[1..] == a[1..] + b;
      OpenAtAppend(OpenStep(open, a[0], k), a[1..], b, k + 1);
    }
  }

  /** The machine's stack holds the entries at these positions of a longer log, oldest first. */
  ghost predicate Tracks(stack: seq<Entry>, open: seq<nat>, all: seq<Entry>, bound: nat) {
    && |stack| == |open| && bound <= |all|
    && (forall i :: 0 <= i < |open| ==> open[i] < bound && stack[i] == all[open[i]])
    && (forall i, j :: 0 <= i < j < |open| ==> open[i] < open[j])
  }

  lemma {:induction false} OpenAtTracks(g: Groups, m: Machine, open: seq<nat>, log: seq<Entry>, all: seq<Entry>, k: nat)
    requires ValidMachine(m) && ValidLog(log) && Tracks(m.stack, open, all, k)
    requires k + |log| <= |all| && all[k..k + |log|] == log
    ensures Tracks(Run(g, m, log).stack, OpenAt(open, log, k), all, k + |log|)
    decreases |log|
  {
    if log != [] {
      assert log[0] == all[k] && log[1..] == all[k + 1..k + 1 + |log[1..]|];
      StepTracks(g, m, open, log[0], all, k);
      OpenAtTracks(g, Step(g, m, log[0]), OpenStep(open, log[0], k), log[1..], all, k + 1);
    }
  }

  lemma StepTracks(g: Groups, m: Machine, open: seq<nat>, e: Entry, all: seq<Entry>, k: nat)
    requires ValidMachine(m) && ValidEntry(e) && Tracks(m.stack, open, all, k) && k < |all| && e == all[k]
    ensures Tracks(Step(g, m, e).stack, OpenStep(open, e, k), all, k + 1)
  {
    StepStack(g, m, e);
    hide Kind, Step;
  }

  lemma StepStack(g: Groups, m: Machine, e: Entry)
    requires ValidMachine(m) && ValidEntry(e)
    ensures Step(g, m, e).stack
            == if Kind(e) == LOG_ENTER then m.stack + [e]
               else if Kind(e) == LOG_LEAVE && m.stack != [] then m.stack[..|m.stack| - 1]
               else m.stack
  {}

  // ----- open scopes whose ENTER entry is gone --------------------------------------

  /** Starting with n open scopes, a log closes none of the outermost cut. */
  ghost predicate StaysAbove(n: nat, cut: nat, log: seq<Entry>)
    decreases |log|
  {
    if log == [] then true
    else if Kind(log[0]) == LOG_ENTER then StaysAbove(n + 1, cut, log[1..])
    else if Kind(log[0]) == LOG_LEAVE && n > 0 then n > cut && StaysAbove(n - 1, cut, log[1..])
    else StaysAbove(n, cut, log[1..])
  }

  ghost predicate AgreeFrom(a: seq<Entry>, b: seq<Entry>, cut: nat) {
    |a| == |b| && forall i :: cut <= i < |a| ==> a[i] == b[i]
  }

  /** A scope that is not closed is not looked at: with other entries for the outermost cut scopes the
      replay goes the same way. */
  lemma {:induction false} RunIgnoresOuter(g: Groups, m: Machine, stack: seq<Entry>, cut: nat, log: seq<Entry>)
    requires ValidMachine(m) && ValidLog(log) && AgreeFrom(m.stack, stack, cut) && StaysAbove(|stack|, cut, log)
    ensures var r := Run(g, m.(stack := stack), log);
            AgreeFrom(Run(g, m, log).stack, r.stack, cut) && r == Run(g, m, log).(stack := r.stack)
    decreases |log|
  {
    hide TickDifference, Credit;
    if log != [] {
      var e := log[0];
      var m', s' := Step(g, m, e), Step(g, m.(stack := stack), e);
      assert AgreeFrom(m'.stack, s'.stack, cut) && s' == m'.(stack := s'.stack);
      RunIgnoresOuter(g, m', s'.stack, cut, log[1..]);
    }
  }

  // ----- frame cuts -------------------------------------------------------------

  function AddSeq(a: seq<int>, b: seq<int>): (r: seq<int>)
    requires |a| == |b|
    ensures |r| == |a| && forall i :: 0 <= i < |r| ==> r[i] == a[i] + b[i]
  {
    seq(|a|, i requires 0 <= i < |a| => a[i] + b[i])
  }

  function Add(a: Totals, b: Totals): (r: Totals)
    requires ValidTotals(a) && ValidTotals(b)
    ensures ValidTotals(r)
  {
    Totals(AddSeq(a.ticks, b.ticks), AddSeq(a.exclusive, b.exclusive), AddSeq(a.calls, b.calls), AddSeq(a.group, b.group))
  }

  lemma AddUpdate(a: seq<int>, b: seq<int>, i: nat, d: int)
    requires |a| == |b| && i < |a|
    ensures AddSeq(a, b)[i := AddSeq(a, b)[i] + d] == AddSeq(a, b[i := b[i] + d])
  {
    var l, r := AddSeq(a, b)[i := AddSeq(a, b)[i] + d], AddSeq(a, b[i := b[i] + d]);
    assert |l| == |r| && forall j :: 0 <= j < |l| ==> l[j] == r[j];
  }

  lemma AddLaws(a: Totals, b: Totals, c: Totals)
    requires ValidTotals(a) && ValidTotals(b) && ValidTotals(c)
    ensures Add(Add(a, b), c) == Add(a, Add(b, c)) && Add(a, Zero()) == a
  {
    AddSeqLaws(a.ticks, b.ticks, c.ticks);
    AddSeqLaws(a.exclusive, b.exclusive, c.exclusive);
    AddSeqLaws(a.calls, b.calls, c.calls);
    AddSeqLaws(a.group, b.group, c.group);
  }

  lemma AddSeqLaws(a: seq<int>, b: seq<int>, c: seq<int>)
    requires |a| == |b| == |c|
    ensures AddSeq(AddSeq(a, b), c) == AddSeq(a, AddSeq(b, c)) && AddSeq(a, seq(|a|, _ => 0)) == a
  {
    assert forall i :: 0 <= i < |a| ==> AddSeq(AddSeq(a, b), c)[i] == AddSeq(a, AddSeq(b, c))[i];
    assert forall i :: 0 <= i < |a| ==> AddSeq(a, seq(|a|, _ => 0))[i] == a[i];
  }

  /** Time credited does not depend on what was credited before. */
  lemma StepAdds(g: Groups, m: Machine, a: Totals, e: Entry)
    requires ValidMachine(m) && ValidTotals(a) && ValidEntry(e)
    ensures var r := Step(g, m, e); Step(g, m.(totals := Add(a, m.totals)), e) == r.(totals := Add(a, r.totals))
  {
    hide Add, TickDifference, Credit, LeaveGroup, Kind;
    var n, t := |m.stack|, m.totals;
    if Kind(e) == LOG_LEAVE && n > 0 {
      var x, ticks := Timer(e), TickDifference(m.stack[n - 1], e);
      var excl := ticks - m.child[n];
      CreditAdds(a, t, x, ticks, excl);
      var popped := m.(stack := m.stack[..n - 1], child := m.child[..n][n - 1 := m.child[n - 1] + ticks],
                       totals := Credit(t, x, ticks, excl));
      LeaveGroupAdds(popped, a, g[x], ticks);
    }
  }

  lemma CreditAdds(a: Totals, t: Totals, x: nat, ticks: int, excl: int)
    requires ValidTotals(a) && ValidTotals(t) && x < MAX_TIMERS
    ensures Credit(Add(a, t), x, ticks, excl) == Add(a, Credit(t, x, ticks, excl))
  {
    hide AddSeq;
    AddUpdate(a.ticks, t.ticks, x, ticks);
    AddUpdate(a.exclusive, t.exclusive, x, excl);
    AddUpdate(a.calls, t.calls, x, 1);
  }

  lemma LeaveGroupAdds(m: Machine, a: Totals, k: nat, ticks: int)
    requires ValidMachine(m) && ValidTotals(a) && k < MAX_GROUPS
    ensures var r := LeaveGroup(m, k, ticks); LeaveGroup(m.(totals := Add(a, m.totals)), k, ticks) == r.(totals := Add(a, r.totals))
  {
    hide AddSeq;
    AddUpdate(a.group, m.totals.group, k, ticks);
  }

  lemma {:induction false} RunAdds(g: Groups, m: Machine, a: Totals, log: seq<Entry>)
    requires ValidMachine(m) && ValidTotals(a) && ValidLog(log)
    ensures var r := Run(g, m, log); Run(g, m.(totals := Add(a, m.totals)), log) == r.(totals := Add(a, r.totals))
    decreases |log|
  {
    if log != [] {
      StepAdds(g, m, a, log[0]);
      RunAdds(g, Step(g, m, log[0]), a, log[1..]);
    }
  }

  lemma {:induction false} ConcatValid(frames: seq<seq<Entry>>)
    requires forall i :: 0 <= i < |frames| ==> ValidLog(frames[i])
    ensures ValidLog(Concat(frames))
  {
    if frames != [] { ConcatValid(frames[1..]); }
  }

  /** Frame after frame: clear the frame totals, replay the frame's entries, add the result to the
      accumulated totals.  Stack and child ticks are carried over. */
  function Flips(g: Groups, m: Machine, accum: Totals, frames: seq<seq<Entry>>): (Machine, Totals)
    requires ValidMachine(m) && ValidTotals(accum) && forall i :: 0 <= i < |frames| ==> ValidLog(frames[i])
    decreases |frames|
  {
    if frames == [] then (m, accum)
    else
      var r := Run(g, m.(totals := Zero()), frames[0]);
      Flips(g, r, Add(accum, r.totals), frames[1..])
  }

  /** Accumulated totals are the same wherever the log is cut into frames. */
  lemma {:induction false} FrameCutsDoNotMatter(g: Groups, m: Machine, accum: Totals, frames: seq<seq<Entry>>)
    requires ValidMachine(m) && ValidTotals(accum) && forall i :: 0 <= i < |frames| ==> ValidLog(frames[i])
    ensures ValidLog(Concat(frames))
    ensures Flips(g, m, accum, frames).1 == Add(accum, Run(g, m.(totals := Zero()), Concat(frames)).totals)
    decreases |frames|
  {
    hide Add, AddSeq, Step, Zero;
    ConcatValid(frames);
    var z := Zero();
    assert ValidTotals(z) by { ZeroIsValid(); }
    if frames == [] {
      AddLaws(accum, z, z);
    } else {
      var rest := Concat(frames[1..]);
      ConcatValid(frames[1..]);
      var r := Run(g, m.(totals := z), frames[0]);
      FrameCutsDoNotMatter(g, r, Add(accum, r.totals), frames[1..]);
      RunAppend(g, m.(totals := z), frames[0], rest);
      var s := Run(g, r.(totals := z), rest);
      AddLaws(r.totals, z, z);
      RunAdds(g, r.(totals := z), r.totals, rest);
      assert r.(totals := Add(r.totals, z)) == r;
      AddLaws(accum, r.totals, s.totals);
    }
  }

  lemma ZeroIsValid()
    ensures ValidTotals(Zero())
  {}

  /** A log made by scopes and cut into frames anywhere, also inside scopes: the accumulated totals are
      those of the forest. */
  lemma FlipsAgreeWithForest(g: Groups, m: Machine, accum: Totals, frames: seq<seq<Entry>>, f: Forest)
    requires ValidMachine(m) && ValidTotals(accum) && ValidForest(f) && RoomFor(m, f)
    requires (forall i :: 0 <= i < |frames| ==> ValidLog(frames[i])) && Concat(frames) == Flatten(f)
    ensures var r := Flips(g, m, accum, frames).1;
            ValidTotals(r) && TimersCredited(accum, r, f) && GroupsCredited(g, m.groupPos, accum, r, f)
  {
    hide Run, Flips, Flatten, Inclusive, Exclusive, Calls, GroupTime;
    FrameCutsDoNotMatter(g, m, accum, frames);
    ZeroIsValid();
    var m0 := m.(totals := Zero());
    assert RoomFor(m0, f);
    ReplayAgreesWithForest(g, m0, f);
  }
}
