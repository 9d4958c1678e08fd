/**
 Whole runs of one log (externals/microprofile/microprofile.h): any schedule of puts by the
 owning thread and of the two halves of flips, from a new log to accumulated totals.
 */
module ProfilerSchedule {
  import opened Sequences
  import opened ProfilerEntry
  import opened ProfilerReplay
  import opened ProfilerRing
  import opened ProfilerPipeline

  /** A put, the snapshot that begins a flip, the visit that ends it. */
  datatype Event = Put(entry: Entry) | Snap | Visit

  /** What a schedule has done: the entries accepted, how many there were before each flip, the visits made. */
  datatype Past = Past(accepted: seq<Entry>, starts: seq<nat>, visits: nat)

  function Beginning(): Past { Past([], [0], 0) }

  ghost predicate ValidPast(h: Past) { Ascending(h.starts, |h.accepted|) && |h.starts| - 2 <= h.visits <= |h.starts| - 1 }

  /** A put into a full frame is refused. */
  ghost function Next(h: Past, ev: Event): Past
    requires ValidPast(h)
  {
    match ev
    case Put(e) => if |h.accepted| < h.starts[|h.starts| - 1] + (BUFFER_SIZE - 1) then h.(accepted := h.accepted + [e]) else h
    case Snap => h.(starts := h.starts + [|h.accepted|])
    case Visit => h.(visits := h.visits + 1)
  }

  /** Everything visited so far, and the frame that the next visit is for. */
  ghost function Delivered(h: Past): seq<Entry>
    requires ValidPast(h)
  {
    AscendingAt(h.starts, |h.accepted|, h.visits - FRAME_DELAY);
    h.accepted[..StartOf(h.starts, h.visits - FRAME_DELAY)]
  }

  ghost function Due(h: Past): seq<Entry>
    requires ValidPast(h) && h.visits + 1 == |h.starts| - 1
  {
    AscendingAt(h.starts, |h.accepted|, h.visits + 1 - FRAME_DELAY);
    h.accepted[StartOf(h.starts, h.visits - FRAME_DELAY)..StartOf(h.starts, h.visits + 1 - FRAME_DELAY)]
  }

  /** Positions of the scopes that are open after the entries delivered. */
  ghost function Opened(h: Past): seq<nat>
    requires ValidPast(h)
  {
    OpenAt([], Delivered(h), 0)
  }

  /** The frame that is due and the ENTER entries of the scopes it closes are still in the ring, and it does
      not nest deeper than the stack. */
  ghost predicate InTime(h: Past, cut: nat)
    requires ValidPast(h) && h.visits + 1 == |h.starts| - 1
  {
    && |h.accepted| <= |Delivered(h)| + BUFFER_SIZE && WithinStack(|Opened(h)|, Due(h))
    && IntactFrom(Opened(h), cut, |h.accepted|) && StaysAbove(|Opened(h)|, cut, Due(h))
  }

  /** Flips alternate snapshot and visit, and every visit is in time. */
  ghost predicate Allowed(h: Past, ev: Event)
    requires ValidPast(h)
  {
    match ev
    case Put(e) => ValidEntry(e)
    case Snap => h.visits == |h.starts| - 1
    case Visit => h.visits + 1 == |h.starts| - 1 && exists cut: nat :: InTime(h, cut)
  }

  lemma NextIsValid(h: Past, ev: Event)
    requires ValidPast(h) && Allowed(h, ev)
    ensures ValidPast(Next(h, ev))
  {
    if ev.Snap? { AscendingFlip(h.starts, |h.accepted|); }
  }

  ghost predicate Legal(h: Past, events: seq<Event>)
    requires ValidPast(h)
    decreases |events|
  {
    events == [] || (Allowed(h, events[0]) && (NextIsValid(h, events[0]); Legal(Next(h, events[0]), events[1..])))
  }

  ghost function After(h: Past, events: seq<Event>): (r: Past)
    requires ValidPast(h) && Legal(h, events)
    ensures ValidPast(r)
    decreases |events|
  {
    if events == [] then h else (NextIsValid(h, events[0]); After(Next(h, events[0]), events[1..]))
  }

  lemma BeginningIsValid()
    ensures ValidPast(Beginning())
  {}

  /** A pipeline shows what the schedule has done. */
  ghost predicate Shows(p: Profiler, h: Past)
    reads p, p.ring, p.ring.log, p.ring.logStart, p.replay, p.replay.stack, p.replay.child
  {
    p.Valid() && h == Past(p.ring.accepted, p.ring.starts, p.ring.visits)
  }

  lemma ShownIsValid(p: Profiler, h: Past)
    requires Shows(p, h)
    ensures ValidPast(h) && p.ring.delivered == Delivered(h) && p.open == Opened(h)
    ensures |p.open| == p.replay.stackPos
    ensures p.accum == Run(p.replay.groups, Start(), p.ring.delivered).totals
    ensures h.visits + 1 == |h.starts| - 1 ==> p.Due() == Due(h) && p.DueFrom() == |Delivered(h)|
  {
    hide OpenAt, Run, Holds, History, Mod, Slot;
    var positions, child := p.replay.stack[..p.replay.stackPos], p.replay.child[..p.replay.stackPos + 1];
    InStepMeans(p.replay.groups, p.ring.accepted, p.ring.delivered, p.open, positions, child, p.replay.groupPos, p.accum);
    AscendingAt(h.starts, |h.accepted|, h.visits - FRAME_DELAY);
    if h.visits + 1 == |h.starts| - 1 { AscendingAt(h.starts, |h.accepted|, h.visits + 1 - FRAME_DELAY); }
  }

  /** One event. */
  method Do(p: Profiler, ev: Event, ghost h: Past)
    requires Shows(p, h) && ValidPast(h) && Allowed(h, ev)
    modifies p, p.ring, p.ring.log, p.ring.logStart, p.replay, p.replay.stack, p.replay.child
    ensures Shows(p, Next(h, ev))
  {
    hide Profiler.Valid, InTime, Ascending;
    ShownIsValid(p, h);
    match ev
    case Put(e) =>
      var _ := p.Put(e);
    case Snap =>
      p.Snapshot();
    case Visit =>
      ghost var cut: nat :| InTime(h, cut);
      InTimeIs(h, cut);
      p.Visit(cut);
  }

  lemma InTimeIs(h: Past, cut: nat)
    requires ValidPast(h) && h.visits + 1 == |h.starts| - 1 && InTime(h, cut)
    ensures |h.accepted| <= |Delivered(h)| + BUFFER_SIZE && WithinStack(|Opened(h)|, Due(h))
    ensures IntactFrom(Opened(h), cut, |h.accepted|) && StaysAbove(|Opened(h)|, cut, Due(h))
  {}

  /** Any legal schedule, from a new log on: what has been delivered is what the schedule says, and the totals
      are those of one uninterrupted replay of it. */
  method RunSchedule(groups: Groups, events: seq<Event>) returns (p: Profiler)
    requires ValidPast(Beginning()) && Legal(Beginning(), events)
    ensures fresh(p) && Shows(p, After(Beginning(), events)) && p.replay.groups == groups
    ensures p.ring.delivered == Delivered(After(Beginning(), events)) && ValidLog(p.ring.delivered)
    ensures p.accum == Run(groups, Start(), p.ring.delivered).totals
  {
    hide Profiler.Valid, Allowed, Delivered;
    p := new Profiler(groups);
    ghost var h := Beginning();
    assert Shows(p, h);
    assert events[0..] == events;
    for i := 0 to |events|
      invariant fresh(p) && fresh(p.ring) && fresh(p.ring.log) && fresh(p.ring.logStart)
      invariant fresh(p.replay) && fresh(p.replay.stack) && fresh(p.replay.child)
      invariant Shows(p, h) && ValidPast(h) && p.replay.groups == groups
      invariant Legal(h, events[i..]) && After(h, events[i..]) == After(Beginning(), events)
    {
      ghost var left := events[i..];
      assert left[0] == events[i] && left[1..] == events[i + 1..];
      NextIsValid(h, events[i]);
      Do(p, events[i], h);
      h := Next(h, events[i]);
    }
    assert events[|events|..] == [];
    ShownIsValid(p, h);
    DeliveredIsValid(p);
  }

  lemma DeliveredIsValid(p: Profiler)
    requires p.Valid()
    ensures ValidLog(p.ring.delivered)
  {
    hide OpenAt, Run, Holds, History, Mod, Slot, LogRing.Valid, Mirrors;
  }

  /** A run whose delivered entries are the log of a forest of scopes ends with the forest's totals. */
  method ProfileForest(groups: Groups, events: seq<Event>, ghost f: Forest) returns (p: Profiler)
    requires ValidPast(Beginning()) && Legal(Beginning(), events)
    requires ValidForest(f) && Depth(f) < STACK_MAX && Delivered(After(Beginning(), events)) == Flatten(f)
    ensures ValidTotals(p.accum)
    ensures forall x :: 0 <= x < MAX_TIMERS ==>
              p.accum.ticks[x] == Inclusive(f, x) && p.accum.exclusive[x] == Exclusive(f, x) && p.accum.calls[x] == Calls(f, x)
    ensures forall k :: 0 <= k < MAX_GROUPS ==> p.accum.group[k] == GroupTime(groups, f, k)
  {
    hide Profiler.Valid, Legal, After, Delivered, Flatten, Inclusive, Exclusive, Calls, GroupTime, Run;
    p := RunSchedule(groups, events);
    TotalsAreTheForests(p, f);
  }

  // ----- such schedules exist for every forest that fits a frame ---------------------------

  function Puts(log: seq<Entry>): (r: seq<Event>)
    ensures |r| == |log| && forall i :: 0 <= i < |r| ==> r[i] == Put(log[i])
  {
    seq(|log|, i requires 0 <= i < |log| => Put(log[i]))
  }

  /** Flips number k to 3: what was put before the first has been visited after the last. */
  function FlipsFrom(k: nat): seq<Event>
    decreases 4 - k
  {
    if k >= 4 then [] else [Snap, Visit] + FlipsFrom(k + 1)
  }

  lemma {:induction false} PutsAreLegal(sofar: seq<Entry>, log: seq<Entry>, events: seq<Event>)
    requires ValidLog(log) && |sofar| + |log| <= BUFFER_SIZE - 1
    requires ValidPast(Past(sofar, [0], 0)) && ValidPast(Past(sofar + log, [0], 0)) && Legal(Past(sofar + log, [0], 0), events)
    ensures Legal(Past(sofar, [0], 0), Puts(log) + events)
    ensures After(Past(sofar, [0], 0), Puts(log) + events) == After(Past(sofar + log, [0], 0), events)
    decreases |log|
  {
    var all := Puts(log) + events;
    if log == [] {
      assert all == events && sofar + log == sofar;
    } else {
      var h, h' := Past(sofar, [0], 0), Past(sofar + [log[0]], [0], 0);
      Assoc(sofar, [log[0]], log[1..]);
      assert [log[0]] + log[1..] == log;
      assert all[0] == Put(log[0]) && all[1..] == Puts(log[1..]) + events by { assert Puts(log)[1..] == Puts(log[1..]); }
      assert Next(h, all[0]) == h';
      NextIsValid(h, all[0]);
      PutsAreLegal(sofar + [log[0]], log[1..], events);
    }
  }

  /** After a frame with the given log and k flips. */
  function Flipped(log: seq<Entry>, k: nat): Past { Past(log, [0] + seq(k, _ => |log|), k) }

  lemma FlippedIsValid(log: seq<Entry>, k: nat)
    requires |log| <= BUFFER_SIZE - 1
    ensures ValidPast(Flipped(log, k)) && ValidPast(Flipped(log, k + 1).(visits := k))
  {}

  lemma {:induction false} NothingIsAboveZero(n: nat, log: seq<Entry>)
    ensures StaysAbove(n, 0, log)
    decreases |log|
  {
    hide Kind;
    if log != [] {
      var n' := if Kind(log[0]) == LOG_ENTER then n + 1 else if Kind(log[0]) == LOG_LEAVE && n > 0 then n - 1 else n;
      NothingIsAboveZero(n', log[1..]);
    }
  }

  /** The visit of flip k is in time: it sees nothing before the fourth and the whole log then. */
  lemma VisitIsInTime(log: seq<Entry>, k: nat)
    requires |log| <= BUFFER_SIZE - 1 && WithinStack(0, log) && k < 4
    requires ValidPast(Flipped(log, k + 1).(visits := k))
    ensures InTime(Flipped(log, k + 1).(visits := k), 0)
  {
    var h := Flipped(log, k + 1).(visits := k);
    assert Delivered(h) == [] && Opened(h) == [];
    assert Due(h) == if k < 3 then [] else log;
    NothingIsAboveZero(0, Due(h));
  }

  lemma {:induction false} FlipsAreLegal(log: seq<Entry>, k: nat)
    requires |log| <= BUFFER_SIZE - 1 && WithinStack(0, log) && k <= 4 && ValidPast(Flipped(log, k))
    ensures Legal(Flipped(log, k), FlipsFrom(k))
    ensures After(Flipped(log, k), FlipsFrom(k)) == Flipped(log, 4)
    decreases 4 - k
  {
    hide InTime, WithinStack;
    if k < 4 {
      var h, mid, h' := Flipped(log, k), Flipped(log, k + 1).(visits := k), Flipped(log, k + 1);
      FlippedIsValid(log, k);
      FlippedIsValid(log, k + 1);
      VisitIsInTime(log, k);
      assert Next(h, Snap) == mid by { assert [0] + seq(k, _ => |log|) + [|log|] == [0] + seq(k + 1, _ => |log|); }
      assert Next(mid, Visit) == h';
      var es, later := FlipsFrom(k), FlipsFrom(k + 1);
      assert es[0] == Snap && es[1..][0] == Visit && es[1..][1..] == later;
      FlipsAreLegal(log, k + 1);
      assert Legal(mid, es[1..]) && After(mid, es[1..]) == After(h', later);
    }
  }

  /** A thread's whole forest put into one frame and flipped out of it. */
  method ProfileOneFrame(groups: Groups, f: Forest) returns (p: Profiler)
    requires ValidForest(f) && Depth(f) < STACK_MAX && |Flatten(f)| <= BUFFER_SIZE - 1
    ensures ValidTotals(p.accum)
    ensures forall x :: 0 <= x < MAX_TIMERS ==>
              p.accum.ticks[x] == Inclusive(f, x) && p.accum.exclusive[x] == Exclusive(f, x) && p.accum.calls[x] == Calls(f, x)
    ensures forall k :: 0 <= k < MAX_GROUPS ==> p.accum.group[k] == GroupTime(groups, f, k)
  {
    hide Legal, After, Flatten, Inclusive, Exclusive, Calls, GroupTime, WithinStack;
    var log := Flatten(f);
    var events := Puts(log) + FlipsFrom(0);
    StackBoundIsDepth(f);
    assert Flipped(log, 0) == Past(log, [0], 0) && [] + log == log;
    FlippedIsValid(log, 0);
    BeginningIsValid();
    FlipsAreLegal(log, 0);
    PutsAreLegal([], log, FlipsFrom(0));
    assert Delivered(Flipped(log, 4)) == log;
    p := ProfileForest(groups, events, f);
  }
}
