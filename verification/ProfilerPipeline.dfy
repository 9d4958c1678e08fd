/**
 One thread's log from put to accumulated totals: the ring buffer, the frame history and the
 replay together (externals/microprofile/microprofile.h, MicroProfileLogPut and MicroProfileFlip).
 Whatever the flips and wherever the ring wraps, the totals are those of one uninterrupted
 replay of the entries delivered so far.
 */
module ProfilerPipeline {
  import opened ProfilerEntry
  import opened ProfilerReplay
  import opened ProfilerThread
  import opened ProfilerRing

  function Start(): (m: Machine)
    ensures ValidMachine(m)
  {
    Machine([], [0], seq(MAX_GROUPS, _ => 0), Zero())
  }

  /** Ring slots of log positions. */
  function Slots(open: seq<nat>): (r: seq<nat>)
    ensures |r| == |open| && forall i :: 0 <= i < |r| ==> r[i] == Mod(open[i])
  {
    seq(|open|, i requires 0 <= i < |open| => Mod(open[i]))
  }

  lemma SlotsStep(open: seq<nat>, e: Entry, k: nat, pos: nat)
    requires pos == Mod(k)
    ensures OpenStep(Slots(open), e, pos) == Slots(OpenStep(open, e, k))
  {
    hide Kind, Mod;
  }

  /** The entries from k on lie in the ring from slot pos on without wrapping. */
  ghost predicate Straight(log: seq<Entry>, k: nat, pos: nat) {
    log != [] ==> pos == Mod(k) && pos + |log| <= BUFFER_SIZE
  }

  lemma {:induction false} OpenInSlots(open: seq<nat>, log: seq<Entry>, k: nat, pos: nat)
    requires Straight(log, k, pos)
    ensures OpenAt(Slots(open), log, pos) == Slots(OpenAt(open, log, k))
    decreases |log|
  {
    hide OpenStep;
    if log != [] {
      SlotsStep(open, log[0], k, pos);
      NextSlot(k, pos);
      OpenInSlots(OpenStep(open, log[0], k), log[1..], k + 1, pos + 1);
    }
  }

  /** The stack after a frame that lies in two ranges of the ring. */
  lemma FrameInSlots(open: seq<nat>, a: seq<Entry>, b: seq<Entry>, lo: nat, s0: nat, s1: nat)
    requires Straight(a, lo, s0) && Straight(b, lo + |a|, s1)
    ensures OpenAt(OpenAt(Slots(open), a, s0), b, s1) == Slots(OpenAt(open, a + b, lo))
  {
    hide OpenAt, Straight;
    OpenInSlots(open, a, lo, s0);
    OpenInSlots(OpenAt(open, a, lo), b, lo + |a|, s1);
    OpenAtAppend(open, a, b, lo);
  }

  /** Replaying a frame on cleared totals, with the right entries for all scopes it closes, and adding
      up is going on with the uninterrupted replay. */
  lemma FrameContinues(g: Groups, m: Machine, stack: seq<Entry>, cut: nat, frame: seq<Entry>)
    requires ValidMachine(m) && ValidLog(frame) && AgreeFrom(m.stack, stack, cut) && StaysAbove(|stack|, cut, frame)
    ensures var r, t := Run(g, m.(stack := stack, totals := Zero()), frame), Run(g, m, frame);
            r.child == t.child && r.groupPos == t.groupPos && Add(m.totals, r.totals) == t.totals
  {
    hide Run, Add, StaysAbove, AgreeFrom, AddSeq;
    var m0 := m.(totals := Zero());
    ZeroIsValid();
    RunIgnoresOuter(g, m0, stack, cut, frame);
    RunAdds(g, m0, m.totals, frame);
    AddLaws(m.totals, m.totals, m.totals);
    assert m0.(totals := Add(m.totals, m0.totals)) == m;
  }

  /** The scopes from cut on still have their ENTER entries in the ring after n entries in all. */
  ghost predicate IntactFrom(open: seq<nat>, cut: nat, n: nat) {
    forall i :: cut <= i < |open| ==> n <= open[i] + BUFFER_SIZE
  }

  /** The replay's fields show the machine m, which has run over the first n entries. */
  ghost predicate Mirrors(m: Machine, accepted: seq<Entry>, n: nat, open: seq<nat>,
                          positions: seq<nat>, child: seq<int>, groupPos: seq<nat>, accum: Totals)
  {
    && Tracks(m.stack, open, accepted, n) && positions == Slots(open)
    && child == m.child && groupPos == m.groupPos && accum == m.totals
  }

  /** They show the uninterrupted replay of the entries delivered so far. */
  ghost predicate InStep(g: Groups, accepted: seq<Entry>, delivered: seq<Entry>, open: seq<nat>,
                         positions: seq<nat>, child: seq<int>, groupPos: seq<nat>, accum: Totals)
  {
    && ValidLog(delivered) && delivered <= accepted
    && Mirrors(Run(g, Start(), delivered), accepted, |delivered|, open, positions, child, groupPos, accum)
  }

  class Profiler {
    const ring: LogRing
    const replay: ThreadReplay
    var accum: Totals
    ghost var open: seq<nat>    // which entries opened the scopes that are open

    ghost predicate Valid()
      reads this, ring, ring.log, ring.logStart, replay, replay.stack, replay.child
    {
      && ring.Valid() && ring.intact && replay.Valid(ring.log)
      && ring.log != replay.stack as object && ring.log != replay.child as object
      && ring.logStart != replay.stack && ring.logStart != replay.child as object
      && ValidLog(ring.accepted)
      && InStep(replay.groups, ring.accepted, ring.delivered, open, replay.stack[..replay.stackPos],
                replay.child[..replay.stackPos + 1], replay.groupPos, accum)
      && open == OpenAt([], ring.delivered, 0)
    }

    /** The entries of the frame that is due, and the number of entries accepted before it. */
    ghost function DueFrom(): nat
      reads ring
      requires ring.starts != []
    {
      StartOf(ring.starts, |ring.starts| - 1 - FRAME_DELAY - 1)
    }

    ghost function Due(): seq<Entry>
      reads ring, ring.log, ring.logStart
      requires ring.Valid()
    {
      var p := |ring.starts| - 1 - FRAME_DELAY;
      AscendingAt(ring.starts, |ring.accepted|, p);
      ring.accepted[DueFrom()..StartOf(ring.starts, p)]
    }

    constructor (groups: Groups)
      ensures Valid() && ring.accepted == [] && ring.delivered == [] && ring.starts == [0] && ring.visits == 0
      ensures accum == Zero() && replay.groups == groups
      ensures fresh(ring) && fresh(ring.log) && fresh(ring.logStart) && fresh(replay) && fresh(replay.stack) && fresh(replay.child)
    {
      var r := new LogRing();
      ring := r;
      replay := new ThreadReplay(groups, r.log);
      accum, open := Zero(), [];
    }

    method Put(e: Entry) returns (ok: bool)
      requires Valid() && ValidEntry(e)
      modifies ring, ring.log
      ensures Valid() && ok == (|old(ring.accepted)| < ring.starts[|ring.starts| - 1] + (BUFFER_SIZE - 1))
      ensures ring.accepted == if ok then old(ring.accepted) + [e] else old(ring.accepted)
      ensures ring.starts == old(ring.starts) && ring.visits == old(ring.visits)
      ensures ring.delivered == old(ring.delivered) && accum == old(accum)
    {
      hide LogRing.Valid, InStep, ThreadReplay.Abs;
      InStepAfterPut(replay.groups, ring.accepted, e, ring.delivered, open, replay.stack[..replay.stackPos],
                     replay.child[..replay.stackPos + 1], replay.groupPos, accum);
      ok := ring.Put(e);
    }

    /** The first half of a flip. */
    method Snapshot()
      requires Valid() && ring.visits == |ring.starts| - 1
      modifies ring, ring.logStart
      ensures Valid() && ring.starts == old(ring.starts) + [|ring.accepted|] && ring.visits == old(ring.visits)
      ensures ring.accepted == old(ring.accepted) && ring.delivered == old(ring.delivered) && accum == old(accum)
    {
      hide LogRing.Valid, InStep, ThreadReplay.Abs;
      ring.Snapshot();
    }

    /** The second half: replay the frame that is due and add it to the totals.  It may come late as long as
        the frame is still in the ring and so are the ENTER entries of the scopes the frame closes. */
    method Visit(ghost cut: nat)
      requires Valid() && ring.visits + 1 == |ring.starts| - 1
      requires |ring.accepted| <= DueFrom() + BUFFER_SIZE
      requires WithinStack(replay.stackPos, Due())
      requires IntactFrom(open, cut, |ring.accepted|) && StaysAbove(replay.stackPos, cut, Due())
      modifies this, ring, replay, replay.stack, replay.child
      ensures Valid() && ring.delivered == old(ring.delivered) + old(Due())
      ensures ring.accepted == old(ring.accepted) && ring.starts == old(ring.starts) && ring.visits == old(ring.visits) + 1
    {
      hide LogRing.Valid, InStep, ValidLog, WithinStack, StaysAbove, IntactFrom, Run, OpenAt, Add, ThreadReplay.Abs, Slots;
      ghost var frame, lo := Due(), DueFrom();
      FrameFits(cut);
      OpenAtAppend([], ring.delivered, frame, 0);
      ReplayDue(frame, lo, open);
      AbsIs();
      accum := Add(accum, replay.totals);
      open := OpenAt(open, frame, lo);
      var _ := ring.Visit();
    }

    /** Replaying the frame that is due keeps the fields in step. */
    lemma FrameFits(cut: nat)
      requires Valid() && ring.visits + 1 == |ring.starts| - 1
      requires IntactFrom(open, cut, |ring.accepted|) && StaysAbove(replay.stackPos, cut, Due())
      ensures |ring.delivered| == DueFrom() && ValidLog(Due()) && replay.stack[..replay.stackPos] == Slots(open) && ValidTotals(accum)
      ensures var open' := OpenAt(open, Due(), DueFrom());
              var r := Run(replay.groups, replay.Abs(ring.log).(totals := Zero()), Due());
              InStep(replay.groups, ring.accepted, ring.delivered + Due(), open', Slots(open'), r.child, r.groupPos, Add(accum, r.totals))
    {
      hide LogRing.Valid, InStep, ValidLog, StaysAbove, IntactFrom, Run, OpenAt, Add, ThreadReplay.Abs;
      var frame, accepted, before, g := Due(), ring.accepted, ring.delivered, replay.groups;
      var child, held := replay.child[..replay.stackPos + 1], replay.Abs(ring.log).stack;
      RingFacts();
      InStepMeans(g, accepted, before, open, replay.stack[..replay.stackPos], child, replay.groupPos, accum);
      HeldIs(open);
      AbsIs();
      var r := Run(g, replay.Abs(ring.log).(totals := Zero()), frame);
      InStepAfterFrame(g, accepted, before, frame, open, child, replay.groupPos, accum, held, ring.log[..], cut, r);
    }

    /** Finds the frame that is due in the ring and replays it. */
    method ReplayDue(ghost frame: seq<Entry>, ghost lo: nat, ghost open: seq<nat>)
      requires ring.Valid() && replay.Valid(ring.log) && ring.log != replay.stack as object && ring.log != replay.child as object
      requires frame == Due() && lo == DueFrom() && |ring.accepted| <= lo + BUFFER_SIZE && ValidLog(frame)
      requires WithinStack(replay.stackPos, frame) && replay.stack[..replay.stackPos] == Slots(open)
      modifies replay, replay.stack, replay.child
      ensures replay.Valid(ring.log) && replay.stack[..replay.stackPos] == Slots(OpenAt(open, frame, lo))
      ensures replay.Abs(ring.log) == Run(replay.groups, old(replay.Abs(ring.log)).(totals := Zero()), frame)
    {
      hide Mod, Slot, History, Holds, DeliveredInOrder, Ascending, ValidLog, WithinStack, Run, OpenAt, Straight, Place, ThreadReplay.Abs;
      ghost var hi := lo + |frame|;
      AscendingAt(ring.starts, |ring.accepted|, |ring.starts| - 1 - FRAME_DELAY);
      var s0, e0, s1, e1 := ring.FrameRanges(lo, hi);
      ghost var a, b := ring.log[s0..e0], ring.log[s1..e1];
      assert a + b == frame;
      LogParts(a, b);
      RangesAreStraight(a, b, lo, s0, e0, s1, e1);
      FrameInSlots(open, a, b, lo, s0, s1);
      replay.ReplayFrame(ring.log, s0, e0, s1, e1);
    }

    /** What the ring's invariant says about the frame that is due. */
    lemma RingFacts()
      requires ring.Valid() && ring.intact && ring.visits + 1 == |ring.starts| - 1 && ValidLog(ring.accepted)
      ensures |ring.delivered| == DueFrom() && Holds(ring.log[..], ring.accepted) && ValidLog(Due())
      ensures DueFrom() + |Due()| <= |ring.accepted| && Due() == ring.accepted[DueFrom()..DueFrom() + |Due()|]
    {
      hide Mod, Slot, History, Holds, DeliveredInOrder, Ascending, ValidLog;
      AscendingAt(ring.starts, |ring.accepted|, |ring.starts| - 1 - FRAME_DELAY);
      DeliveredSoFar(ring.accepted, ring.starts, ring.visits, ring.delivered);
      SubLog(ring.accepted, DueFrom(), DueFrom() + |Due()|);
    }

    /** The entries the position stack points at. */
    lemma HeldIs(open: seq<nat>)
      requires replay.Valid(ring.log) && ring.log.Length == BUFFER_SIZE && replay.stack[..replay.stackPos] == Slots(open)
      ensures var held := replay.Abs(ring.log).stack;
              |held| == |open| && forall i :: 0 <= i < |open| ==> held[i] == ring.log[..][Mod(open[i])]
    {
      hide Mod;
    }

    lemma AbsIs()
      requires replay.Valid(ring.log)
      ensures replay.Abs(ring.log).child == replay.child[..replay.stackPos + 1]
      ensures replay.Abs(ring.log).groupPos == replay.groupPos && replay.Abs(ring.log).totals == replay.totals
    {}
  }

  /** For a log made by scopes, the accumulated totals are those of the forest of scopes, however the flips
      fell between the entries. */
  lemma TotalsAreTheForests(p: Profiler, f: Forest)
    requires p.Valid() && ValidForest(f) && Depth(f) < STACK_MAX && p.ring.delivered == Flatten(f)
    ensures ValidTotals(p.accum)
    ensures forall x :: 0 <= x < MAX_TIMERS ==>
              p.accum.ticks[x] == Inclusive(f, x) && p.accum.exclusive[x] == Exclusive(f, x) && p.accum.calls[x] == Calls(f, x)
    ensures forall k :: 0 <= k < MAX_GROUPS ==> p.accum.group[k] == GroupTime(p.replay.groups, f, k)
  {
    hide Run, Flatten, Inclusive, Exclusive, Calls, GroupTime, LogRing.Valid, Mirrors, Tracks;
    var positions, child := p.replay.stack[..p.replay.stackPos], p.replay.child[..p.replay.stackPos + 1];
    InStepMeans(p.replay.groups, p.ring.accepted, p.ring.delivered, p.open, positions, child, p.replay.groupPos, p.accum);
    MirroredTotals(Run(p.replay.groups, Start(), p.ring.delivered), p.ring.accepted, |p.ring.delivered|, p.open,
                   positions, child, p.replay.groupPos, p.accum);
    ReplayAgreesWithForest(p.replay.groups, Start(), f);
  }

  lemma MirroredTotals(m: Machine, accepted: seq<Entry>, n: nat, open: seq<nat>,
                       positions: seq<nat>, child: seq<int>, groupPos: seq<nat>, accum: Totals)
    requires Mirrors(m, accepted, n, open, positions, child, groupPos, accum)
    ensures accum == m.totals
  {}

  lemma DeliveredSoFar(accepted: seq<Entry>, starts: seq<nat>, visits: nat, delivered: seq<Entry>)
    requires DeliveredInOrder(accepted, starts, visits, delivered, true)
    ensures |delivered| == StartOf(starts, visits - FRAME_DELAY) <= |accepted| && delivered <= accepted
  {}

  lemma SubLog(log: seq<Entry>, lo: nat, hi: nat)
    requires ValidLog(log) && lo <= hi <= |log|
    ensures ValidLog(log[lo..hi])
  {}

  lemma LogParts(a: seq<Entry>, b: seq<Entry>)
    requires ValidLog(a + b)
    ensures ValidLog(a) && ValidLog(b)
  {
    assert forall i :: 0 <= i < |a| ==> a[i] == (a + b)[i];
    assert forall i :: 0 <= i < |b| ==> b[i] == (a + b)[|a| + i];
  }

  lemma RangesAreStraight(a: seq<Entry>, b: seq<Entry>, lo: nat, s0: nat, e0: nat, s1: nat, e1: nat)
    requires s0 <= e0 <= BUFFER_SIZE && s1 <= e1 <= BUFFER_SIZE && |a| == e0 - s0 && |b| == e1 - s1
    requires forall j: nat :: j < |a| + |b| ==> Place(s0, e0, s1, j) == Mod(Mod(lo) + j)
    ensures Straight(a, lo, s0) && Straight(b, lo + |a|, s1)
  {
    hide Mod;
    if a != [] {
      assert Place(s0, e0, s1, 0) == Mod(Mod(lo) + 0);
      ShiftSlot(lo, 0);
    }
    if b != [] {
      assert Place(s0, e0, s1, |a|) == Mod(Mod(lo) + |a|);
      ShiftSlot(lo, |a|);
    }
  }

  lemma InStepMeans(g: Groups, accepted: seq<Entry>, delivered: seq<Entry>, open: seq<nat>,
                    positions: seq<nat>, child: seq<int>, groupPos: seq<nat>, accum: Totals)
    requires InStep(g, accepted, delivered, open, positions, child, groupPos, accum)
    ensures ValidLog(delivered) && delivered <= accepted && positions == Slots(open) && ValidTotals(accum)
    ensures var m := Run(g, Start(), delivered);
            && Mirrors(m, accepted, |delivered|, open, positions, child, groupPos, accum)
            && Tracks(m.stack, open, accepted, |delivered|) && child == m.child && groupPos == m.groupPos
  {}

  lemma InStepAfterPut(g: Groups, accepted: seq<Entry>, e: Entry, delivered: seq<Entry>, open: seq<nat>,
                       positions: seq<nat>, child: seq<int>, groupPos: seq<nat>, accum: Totals)
    requires InStep(g, accepted, delivered, open, positions, child, groupPos, accum)
    ensures InStep(g, accepted + [e], delivered, open, positions, child, groupPos, accum)
  {}

  /** What the ring holds for the open scopes that it still holds is right. */
  lemma OpenEntriesHeld(stack: seq<Entry>, open: seq<nat>, accepted: seq<Entry>, bound: nat, buf: seq<Entry>, held: seq<Entry>, cut: nat)
    requires Tracks(stack, open, accepted, bound) && Holds(buf, accepted) && IntactFrom(open, cut, |accepted|)
    requires |held| == |open| && forall i :: 0 <= i < |open| ==> held[i] == buf[Mod(open[i])]
    ensures AgreeFrom(stack, held, cut)
  {
    hide Mod;
  }

  lemma MirrorsAfterFrame(g: Groups, m: Machine, accepted: seq<Entry>, n: nat, frame: seq<Entry>, open: seq<nat>,
                          child: seq<int>, groupPos: seq<nat>, accum: Totals, held: seq<Entry>, cut: nat, r: Machine)
    requires ValidMachine(m) && Mirrors(m, accepted, n, open, Slots(open), child, groupPos, accum)
    requires ValidLog(frame) && n + |frame| <= |accepted| && frame == accepted[n..n + |frame|]
    requires AgreeFrom(m.stack, held, cut) && StaysAbove(|held|, cut, frame)
    requires r == Run(g, m.(stack := held, totals := Zero()), frame)
    ensures var open' := OpenAt(open, frame, n);
            Mirrors(Run(g, m, frame), accepted, n + |frame|, open', Slots(open'), r.child, r.groupPos, Add(accum, r.totals))
  {
    hide Run, OpenAt, Add, ValidLog, StaysAbove, Tracks, Slots;
    FrameContinues(g, m, held, cut, frame);
    OpenAtTracks(g, m, open, frame, accepted, n);
  }

  lemma InStepAfterFrame(g: Groups, accepted: seq<Entry>, delivered: seq<Entry>, frame: seq<Entry>, open: seq<nat>,
                         child: seq<int>, groupPos: seq<nat>, accum: Totals, held: seq<Entry>, buf: seq<Entry>, cut: nat, r: Machine)
    requires InStep(g, accepted, delivered, open, Slots(open), child, groupPos, accum)
    requires ValidLog(frame) && |delivered| + |frame| <= |accepted| && frame == accepted[|delivered|..|delivered| + |frame|]
    requires Holds(buf, accepted) && IntactFrom(open, cut, |accepted|)
    requires |held| == |open| && forall i :: 0 <= i < |open| ==> held[i] == buf[Mod(open[i])]
    requires StaysAbove(|open|, cut, frame)
    requires ValidMachine(Machine(held, child, groupPos, Zero())) && r == Run(g, Machine(held, child, groupPos, Zero()), frame)
    ensures var open' := OpenAt(open, frame, |delivered|);
            InStep(g, accepted, delivered + frame, open', Slots(open'), r.child, r.groupPos, Add(accum, r.totals))
  {
    hide Run, Mod, Holds, OpenAt, Add, ValidLog, StaysAbove, Tracks, IntactFrom, Slots, AgreeFrom, Start, Mirrors, InStep;
    InStepMeans(g, accepted, delivered, open, Slots(open), child, groupPos, accum);
    var m := Run(g, Start(), delivered);
    OpenEntriesHeld(m.stack, open, accepted, |delivered|, buf, held, cut);
    assert m.(stack := held, totals := Zero()) == Machine(held, child, groupPos, Zero());
    MirrorsAfterFrame(g, m, accepted, |delivered|, frame, open, child, groupPos, accum, held, cut, r);
    InStepFrom(g, accepted, delivered, frame, m, OpenAt(open, frame, |delivered|), r.child, r.groupPos, Add(accum, r.totals));
  }

  lemma InStepFrom(g: Groups, accepted: seq<Entry>, delivered: seq<Entry>, frame: seq<Entry>, m: Machine, open: seq<nat>,
                   child: seq<int>, groupPos: seq<nat>, accum: Totals)
    requires ValidLog(delivered) && ValidLog(frame) && delivered <= accepted && m == Run(g, Start(), delivered)
    requires |delivered| + |frame| <= |accepted| && frame == accepted[|delivered|..|delivered| + |frame|]
    requires Mirrors(Run(g, m, frame), accepted, |delivered| + |frame|, open, Slots(open), child, groupPos, accum)
    ensures InStep(g, accepted, delivered + frame, open, Slots(open), child, groupPos, accum)
  {
    hide Run, ValidLog, Slots, Mirrors, Start;
    RunAppend(g, Start(), delivered, frame);
    PrefixGrows(accepted, delivered, frame);
  }

  lemma PrefixGrows(s: seq<Entry>, a: seq<Entry>, b: seq<Entry>)
    requires a <= s && |a| + |b| <= |s| && b == s[|a|..|a| + |b|]
    ensures a + b <= s
  {
    assert a + b == s[..|a| + |b|];
  }
}
