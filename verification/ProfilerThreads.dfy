/**
 All thread logs in one flip (externals/microprofile/microprofile.h, MicroProfileFlip): the logs
 are replayed one after the other into the same frame totals.  The accumulated totals are shown
 to be the sums over the forests of the single logs.
 */
module ProfilerThreads {
  import opened ProfilerEntry
  import opened ProfilerReplay
  import opened ProfilerPipeline

  ghost predicate ValidMachines(ms: seq<Machine>) { forall i :: 0 <= i < |ms| ==> ValidMachine(ms[i]) }

  /** One stretch of log for each thread. */
  ghost predicate ValidFrame(frame: seq<seq<Entry>>, n: nat) {
    |frame| == n && forall i :: 0 <= i < |frame| ==> ValidLog(frame[i])
  }

  /** One flip's loop over the logs, on frame totals t. */
  function RunAll(g: Groups, ms: seq<Machine>, frame: seq<seq<Entry>>, t: Totals): (r: (seq<Machine>, Totals))
    requires ValidMachines(ms) && ValidFrame(frame, |ms|) && ValidTotals(t)
    ensures |r.0| == |ms| && ValidMachines(r.0) && ValidTotals(r.1)
    decreases |ms|
  {
    if ms == [] then ([], t)
    else
      var m := Run(g, ms[0].(totals := t), frame[0]);
      var (rest, u) := RunAll(g, ms[1..], frame[1..], m.totals);
      ([m] + rest, u)
  }

  /** Flip after flip: clear the frame totals, replay every log's part of the frame, accumulate. */
  function FlipAll(g: Groups, ms: seq<Machine>, accum: Totals, frames: seq<seq<seq<Entry>>>): (seq<Machine>, Totals)
    requires ValidMachines(ms) && ValidTotals(accum) && forall f :: 0 <= f < |frames| ==> ValidFrame(frames[f], |ms|)
    decreases |frames|
  {
    if frames == [] then (ms, accum)
    else
      ZeroIsValid();
      var (rs, t) := RunAll(g, ms, frames[0], Zero());
      FlipAll(g, rs, Add(accum, t), frames[1..])
  }

  /** What one log contributes, replayed without interruption. */
  function Share(g: Groups, m: Machine, log: seq<Entry>): (t: Totals)
    requires ValidMachine(m) && ValidLog(log)
    ensures ValidTotals(t)
  {
    ZeroIsValid();
    Run(g, m.(totals := Zero()), log).totals
  }

  function Shares(g: Groups, ms: seq<Machine>, logs: seq<seq<Entry>>): (t: Totals)
    requires ValidMachines(ms) && ValidFrame(logs, |ms|)
    ensures ValidTotals(t)
    decreases |ms|
  {
    if ms == [] then (ZeroIsValid(); Zero()) else Add(Share(g, ms[0], logs[0]), Shares(g, ms[1..], logs[1..]))
  }

  /** Each thread's whole log. */
  function Joined(n: nat, frames: seq<seq<seq<Entry>>>): (logs: seq<seq<Entry>>)
    requires forall f :: 0 <= f < |frames| ==> ValidFrame(frames[f], n)
    ensures ValidFrame(logs, n)
    decreases |frames|
  {
    if frames == [] then NoLogs(n) else Both(frames[0], Joined(n, frames[1..]))
  }

  function NoLogs(n: nat): (logs: seq<seq<Entry>>)
    ensures ValidFrame(logs, n) && forall i :: 0 <= i < n ==> logs[i] == []
  {
    seq(n, _ => [])
  }

  function Both(a: seq<seq<Entry>>, b: seq<seq<Entry>>): (r: seq<seq<Entry>>)
    requires ValidFrame(a, |b|) && ValidFrame(b, |a|)
    ensures ValidFrame(r, |a|) && forall i :: 0 <= i < |r| ==> r[i] == a[i] + b[i]
  {
    seq(|a|, i requires 0 <= i < |a| => a[i] + b[i])
  }

  lemma AddCommutes(a: Totals, b: Totals)
    requires ValidTotals(a) && ValidTotals(b)
    ensures Add(a, b) == Add(b, a)
  {
    AddSeqCommutes(a.ticks, b.ticks);
    AddSeqCommutes(a.exclusive, b.exclusive);
    AddSeqCommutes(a.calls, b.calls);
    AddSeqCommutes(a.group, b.group);
  }

  lemma AddSeqCommutes(a: seq<int>, b: seq<int>)
    requires |a| == |b|
    ensures AddSeq(a, b) == AddSeq(b, a)
  {
    assert forall i :: 0 <= i < |a| ==> AddSeq(a, b)[i] == AddSeq(b, a)[i];
  }

  /** (a + b) + (c + d) == (a + c) + (b + d). */
  lemma AddSwap(a: Totals, b: Totals, c: Totals, d: Totals)
    requires ValidTotals(a) && ValidTotals(b) && ValidTotals(c) && ValidTotals(d)
    ensures Add(Add(a, b), Add(c, d)) == Add(Add(a, c), Add(b, d))
  {
    hide Add;
    AddLaws(a, b, Add(c, d));
    AddLaws(b, c, d);
    AddCommutes(b, c);
    AddLaws(c, b, d);
    AddLaws(a, c, Add(b, d));
  }

  /** A replay on totals t adds the log's share to them and moves the machine as it would on any totals. */
  lemma RunIsShare(g: Groups, m: Machine, log: seq<Entry>, t: Totals)
    requires ValidMachine(m) && ValidLog(log) && ValidTotals(t)
    ensures var z, r := Run(g, m.(totals := Zero()), log), Run(g, m.(totals := t), log);
            r == z.(totals := Add(t, Share(g, m, log)))
  {
    hide Run, Add;
    ZeroIsValid();
    var m0 := m.(totals := Zero());
    RunAdds(g, m0, t, log);
    AddLaws(t, t, t);
    assert m0.(totals := Add(t, m0.totals)) == m.(totals := t);
  }

  /** A log in two parts: the share of the second is that of the machine the first has left. */
  lemma ShareSplits(g: Groups, m: Machine, a: seq<Entry>, b: seq<Entry>, r: Machine)
    requires ValidMachine(m) && ValidLog(a) && ValidLog(b) && ValidMachine(r)
    requires r.(totals := Zero()) == Run(g, m.(totals := Zero()), a).(totals := Zero())
    ensures ValidLog(a + b) && Share(g, m, a + b) == Add(Share(g, m, a), Share(g, r, b))
  {
    hide Run, Add;
    ZeroIsValid();
    var z := Run(g, m.(totals := Zero()), a);
    RunAppend(g, m.(totals := Zero()), a, b);
    RunIsShare(g, z, b, z.totals);
    assert z.(totals := z.totals) == z;
  }

  /** One flip adds every log's share of the frame, whatever the order of the logs has put into the totals. */
  lemma {:induction false} RunAllAdds(g: Groups, ms: seq<Machine>, frame: seq<seq<Entry>>, t: Totals)
    requires ValidMachines(ms) && ValidFrame(frame, |ms|) && ValidTotals(t)
    ensures RunAll(g, ms, frame, t).1 == Add(t, Shares(g, ms, frame))
    decreases |ms|
  {
    hide Run, Add, Share;
    if ms == [] {
      AddLaws(t, t, t);
    } else {
      var m := Run(g, ms[0].(totals := t), frame[0]);
      RunIsShare(g, ms[0], frame[0], t);
      RunAllAdds(g, ms[1..], frame[1..], m.totals);
      AddLaws(t, Share(g, ms[0], frame[0]), Shares(g, ms[1..], frame[1..]));
    }
  }

  /** A frame and then more: shares add up log by log. */
  lemma {:induction false} SharesSplit(g: Groups, ms: seq<Machine>, a: seq<seq<Entry>>, b: seq<seq<Entry>>, t: Totals)
    requires ValidMachines(ms) && ValidFrame(a, |ms|) && ValidFrame(b, |ms|) && ValidTotals(t)
    ensures Shares(g, ms, Both(a, b)) == Add(Shares(g, ms, a), Shares(g, RunAll(g, ms, a, t).0, b))
    decreases |ms|
  {
    hide Run, Add, Share, Both, Zero;
    if ms == [] {
      NoShares(g);
    } else {
      var m := Run(g, ms[0].(totals := t), a[0]);
      var rs := RunAll(g, ms[1..], a[1..], m.totals).0;
      RunIsShare(g, ms[0], a[0], t);
      ShareSplits(g, ms[0], a[0], b[0], m);
      SharesSplit(g, ms[1..], a[1..], b[1..], m.totals);
      BothTail(a, b);
      assert ([m] + rs)[1..] == rs;
      AddSwap(Share(g, ms[0], a[0]), Share(g, m, b[0]), Shares(g, ms[1..], a[1..]), Shares(g, rs, b[1..]));
    }
  }

  lemma NoShares(g: Groups)
    ensures Add(Shares(g, [], []), Shares(g, [], [])) == Shares(g, [], [])
  {
    ZeroIsValid();
    AddLaws(Zero(), Zero(), Zero());
  }

  lemma BothTail(a: seq<seq<Entry>>, b: seq<seq<Entry>>)
    requires ValidFrame(a, |b|) && ValidFrame(b, |a|) && a != []
    ensures Both(a, b)[0] == a[0] + b[0] && Both(a, b)[1..] == Both(a[1..], b[1..])
  {
    assert forall i :: 0 <= i < |a| - 1 ==> Both(a, b)[1..][i] == Both(a[1..], b[1..])[i];
  }

  lemma {:induction false} NoEntries(g: Groups, ms: seq<Machine>)
    requires ValidMachines(ms)
    ensures Shares(g, ms, NoLogs(|ms|)) == Zero()
    decreases |ms|
  {
    ZeroIsValid();
    if ms != [] {
      assert NoLogs(|ms|)[1..] == NoLogs(|ms[1..]|);
      NoEntries(g, ms[1..]);
      AddLaws(Zero(), Zero(), Zero());
    }
  }

  /** However the logs are cut into frames, the accumulated totals are the sum of the logs' shares. */
  lemma {:induction false} FlipAllAdds(g: Groups, ms: seq<Machine>, accum: Totals, frames: seq<seq<seq<Entry>>>)
    requires ValidMachines(ms) && ValidTotals(accum) && forall f :: 0 <= f < |frames| ==> ValidFrame(frames[f], |ms|)
    ensures FlipAll(g, ms, accum, frames).1 == Add(accum, Shares(g, ms, Joined(|ms|, frames)))
    decreases |frames|
  {
    hide RunAll, Shares, Add, Both, Zero;
    ZeroIsValid();
    if frames == [] {
      NoEntries(g, ms);
      AddLaws(accum, accum, accum);
    } else {
      var (rs, t) := RunAll(g, ms, frames[0], Zero());
      var later := Joined(|ms|, frames[1..]);
      FlipAllAdds(g, rs, Add(accum, t), frames[1..]);
      RunAllAdds(g, ms, frames[0], Zero());
      AddCommutes(Zero(), Shares(g, ms, frames[0]));
      AddLaws(Shares(g, ms, frames[0]), accum, accum);
      SharesSplit(g, ms, frames[0], later, Zero());
      AddLaws(accum, t, Shares(g, rs, later));
    }
  }

  // ----- forests --------------------------------------------------------------------------

  ghost predicate ValidForests(fs: seq<Forest>) {
    forall i :: 0 <= i < |fs| ==> ValidForest(fs[i]) && Depth(fs[i]) < STACK_MAX
  }

  function FlattenAll(fs: seq<Forest>): (logs: seq<seq<Entry>>)
    requires ValidForests(fs)
    ensures ValidFrame(logs, |fs|) && forall i :: 0 <= i < |fs| ==> logs[i] == Flatten(fs[i])
  {
    seq(|fs|, i requires 0 <= i < |fs| => Flatten(fs[i]))
  }

  function SumInclusive(fs: seq<Forest>, x: nat): int {
    if fs == [] then 0 else Inclusive(fs[0], x) + SumInclusive(fs[1..], x)
  }

  function SumExclusive(fs: seq<Forest>, x: nat): int {
    if fs == [] then 0 else Exclusive(fs[0], x) + SumExclusive(fs[1..], x)
  }

  function SumCalls(fs: seq<Forest>, x: nat): int {
    if fs == [] then 0 else Calls(fs[0], x) + SumCalls(fs[1..], x)
  }

  function SumGroupTime(g: Groups, fs: seq<Forest>, k: nat): int
    requires ValidForests(fs)
  {
    if fs == [] then 0 else GroupTime(g, fs[0], k) + SumGroupTime(g, fs[1..], k)
  }

  /** Totals that are the sums over the forests. */
  ghost predicate TotalsOf(g: Groups, t: Totals, fs: seq<Forest>)
    requires ValidTotals(t) && ValidForests(fs)
  {
    && (forall x :: 0 <= x < MAX_TIMERS ==>
          && t.ticks[x] == SumInclusive(fs, x) && t.exclusive[x] == SumExclusive(fs, x) && t.calls[x] == SumCalls(fs, x))
    && (forall k :: 0 <= k < MAX_GROUPS ==> t.group[k] == SumGroupTime(g, fs, k))
  }

  lemma SumsOfOne(g: Groups, f: Forest, x: nat)
    ensures SumInclusive([f], x) == Inclusive(f, x) && SumExclusive([f], x) == Exclusive(f, x) && SumCalls([f], x) == Calls(f, x)
    ensures ValidForests([f]) ==> ValidForest([f][0]) && SumGroupTime(g, [f], x) == GroupTime(g, f, x)
  {
    assert [f][1..] == [];
  }

  lemma SumsOfMore(g: Groups, f: Forest, fs: seq<Forest>, x: nat)
    requires ValidForest(f) && ValidForests(fs) && ValidForests([f] + fs)
    ensures SumInclusive([f] + fs, x) == Inclusive(f, x) + SumInclusive(fs, x)
    ensures SumExclusive([f] + fs, x) == Exclusive(f, x) + SumExclusive(fs, x)
    ensures SumCalls([f] + fs, x) == Calls(f, x) + SumCalls(fs, x)
    ensures SumGroupTime(g, [f] + fs, x) == GroupTime(g, f, x) + SumGroupTime(g, fs, x)
  {
    assert ([f] + fs)[1..] == fs;
  }

  lemma IsTotalsOfOne(g: Groups, t: Totals, f: Forest)
    requires ValidTotals(t) && ValidForest(f) && Depth(f) < STACK_MAX
    requires forall x :: 0 <= x < MAX_TIMERS ==>
               t.ticks[x] == Inclusive(f, x) && t.exclusive[x] == Exclusive(f, x) && t.calls[x] == Calls(f, x)
    requires forall k :: 0 <= k < MAX_GROUPS ==> t.group[k] == GroupTime(g, f, k)
    ensures TotalsOf(g, t, [f])
  {
    hide Inclusive, Exclusive, Calls, GroupTime, SumInclusive, SumExclusive, SumCalls, SumGroupTime;
    assert [f][0] == f;
    forall x | 0 <= x < MAX_TIMERS
      ensures t.ticks[x] == SumInclusive([f], x) && t.exclusive[x] == SumExclusive([f], x) && t.calls[x] == SumCalls([f], x)
    {
      SumsOfOne(g, f, x);
    }
    forall k | 0 <= k < MAX_GROUPS ensures t.group[k] == SumGroupTime(g, [f], k) { SumsOfOne(g, f, k); }
  }

  lemma ForestShare(g: Groups, f: Forest)
    requires ValidForest(f) && Depth(f) < STACK_MAX
    ensures TotalsOf(g, Share(g, Start(), Flatten(f)), [f])
  {
    hide Run, Flatten, Inclusive, Exclusive, Calls, GroupTime, SumInclusive, SumExclusive, SumCalls, SumGroupTime;
    var m := Start();
    assert m.(totals := Zero()) == m;
    ReplayAgreesWithForest(g, m, f);
    IsTotalsOfOne(g, Share(g, m, Flatten(f)), f);
  }

  lemma OneMore(g: Groups, a: Totals, b: Totals, f: Forest, fs: seq<Forest>)
    requires ValidTotals(a) && ValidTotals(b) && ValidForests([f]) && ValidForests(fs) && ValidForests([f] + fs)
    requires TotalsOf(g, a, [f]) && TotalsOf(g, b, fs)
    ensures TotalsOf(g, Add(a, b), [f] + fs)
  {
    hide Inclusive, Exclusive, Calls, GroupTime, SumInclusive, SumExclusive, SumCalls, SumGroupTime;
    var t, all := Add(a, b), [f] + fs;
    assert [f][0] == f;
    forall x | 0 <= x < MAX_TIMERS
      ensures t.ticks[x] == SumInclusive(all, x) && t.exclusive[x] == SumExclusive(all, x) && t.calls[x] == SumCalls(all, x)
    {
      SumsOfOne(g, f, x);
      SumsOfMore(g, f, fs, x);
    }
    forall k | 0 <= k < MAX_GROUPS ensures t.group[k] == SumGroupTime(g, all, k) {
      SumsOfOne(g, f, k);
      SumsOfMore(g, f, fs, k);
    }
  }

  lemma {:induction false} ForestShares(g: Groups, fs: seq<Forest>)
    requires ValidForests(fs)
    ensures TotalsOf(g, Shares(g, seq(|fs|, _ => Start()), FlattenAll(fs)), fs)
    decreases |fs|
  {
    hide Share, Add, Flatten, Start;
    ZeroIsValid();
    var ms, logs := seq(|fs|, _ => Start()), FlattenAll(fs);
    if fs != [] {
      assert ms[1..] == seq(|fs[1..]|, _ => Start());
      assert logs[1..] == FlattenAll(fs[1..]);
      ForestShare(g, fs[0]);
      ForestShares(g, fs[1..]);
      OneMore(g, Share(g, ms[0], logs[0]), Shares(g, ms[1..], logs[1..]), fs[0], fs[1..]);
      assert [fs[0]] + fs[1..] == fs;
    }
  }

  /** Whatever the flips: for logs made by scopes, one forest to a thread, the totals accumulated over all
      logs are the sums of the forests' inclusive, exclusive, call and group totals. */
  lemma AllThreadsAgreeWithForests(g: Groups, frames: seq<seq<seq<Entry>>>, fs: seq<Forest>)
    requires ValidForests(fs) && forall f :: 0 <= f < |frames| ==> ValidFrame(frames[f], |fs|)
    requires Joined(|fs|, frames) == FlattenAll(fs)
    ensures var ms := seq(|fs|, _ => Start());
            ValidMachines(ms) && ValidTotals(Zero()) && ValidTotals(FlipAll(g, ms, Zero(), frames).1)
            && TotalsOf(g, FlipAll(g, ms, Zero(), frames).1, fs)
  {
    hide FlipAll, Shares, Add, TotalsOf, FlattenAll, Joined, Start;
    ZeroIsValid();
    var ms := seq(|fs|, _ => Start());
    FlipAllAdds(g, ms, Zero(), frames);
    ForestShares(g, fs);
    var t := Shares(g, ms, FlattenAll(fs));
    AddCommutes(Zero(), t);
    AddLaws(t, t, t);
  }

  // ----- the same of the running pipelines ---------------------------------------------------

  /** The totals of several logs added up, as the shared totals of a flip are (RunAllAdds). */
  ghost function SumOfAccums(ps: seq<Profiler>): (t: Totals)
    reads ps
    requires forall i :: 0 <= i < |ps| ==> ValidTotals(ps[i].accum)
    ensures ValidTotals(t)
  {
    if ps == [] then (ZeroIsValid(); Zero()) else Add(ps[0].accum, SumOfAccums(ps[1..]))
  }

  lemma AccumIsShare(g: Groups, p: Profiler)
    requires p.Valid() && p.replay.groups == g
    ensures ValidLog(p.ring.delivered) && p.accum == Share(g, Start(), p.ring.delivered)
  {
    hide Run, Mirrors, Tracks, OpenAt;
    var positions, child := p.replay.stack[..p.replay.stackPos], p.replay.child[..p.replay.stackPos + 1];
    InStepMeans(g, p.ring.accepted, p.ring.delivered, p.open, positions, child, p.replay.groupPos, p.accum);
    MirroredTotals(Run(g, Start(), p.ring.delivered), p.ring.accepted, |p.ring.delivered|, p.open,
                   positions, child, p.replay.groupPos, p.accum);
    assert Start().(totals := Zero()) == Start();
  }

  ghost predicate AllValid(g: Groups, ps: seq<Profiler>)
    reads ps, set p | p in ps :: p.ring, set p | p in ps :: p.ring.log, set p | p in ps :: p.ring.logStart,
          set p | p in ps :: p.replay, set p | p in ps :: p.replay.stack, set p | p in ps :: p.replay.child
  {
    forall i :: 0 <= i < |ps| ==> ps[i].Valid() && ps[i].replay.groups == g && ValidTotals(ps[i].accum)
  }

  lemma {:induction false} AccumsAreShares(g: Groups, ps: seq<Profiler>, logs: seq<seq<Entry>>)
    requires AllValid(g, ps) && ValidFrame(logs, |ps|) && forall i :: 0 <= i < |ps| ==> logs[i] == ps[i].ring.delivered
    ensures Shares(g, seq(|ps|, _ => Start()), logs) == SumOfAccums(ps)
    decreases |ps|
  {
    hide Share, Add, Start, Profiler.Valid;
    if ps != [] {
      var ms := seq(|ps|, _ => Start());
      assert ms[1..] == seq(|ps[1..]|, _ => Start());
      AccumIsShare(g, ps[0]);
      AccumsAreShares(g, ps[1..], logs[1..]);
    }
  }

  /** Any number of logs, each with its own ring, history and stack: the one set of totals that the flips keep,
      over the frames that the rings deliver, is the sum of what the pipelines have accumulated. */
  lemma SharedTotalsAreTheSum(g: Groups, ps: seq<Profiler>, frames: seq<seq<seq<Entry>>>)
    requires AllValid(g, ps) && forall f :: 0 <= f < |frames| ==> ValidFrame(frames[f], |ps|)
    requires forall i :: 0 <= i < |ps| ==> Joined(|ps|, frames)[i] == ps[i].ring.delivered
    ensures ValidMachines(seq(|ps|, _ => Start())) && ValidTotals(Zero())
    ensures FlipAll(g, seq(|ps|, _ => Start()), Zero(), frames).1 == SumOfAccums(ps)
  {
    hide FlipAll, Shares, Add, Joined, Profiler.Valid, Start, SumOfAccums;
    ZeroIsValid();
    var ms := seq(|ps|, _ => Start());
    FlipAllAdds(g, ms, Zero(), frames);
    AccumsAreShares(g, ps, Joined(|ps|, frames));
    var t := SumOfAccums(ps);
    AddCommutes(Zero(), t);
    AddLaws(t, t, t);
  }

  /** And when each ring has delivered the log of a forest, it holds the sums over the forests. */
  lemma PipelinesAddUp(g: Groups, ps: seq<Profiler>, frames: seq<seq<seq<Entry>>>, fs: seq<Forest>)
    requires AllValid(g, ps) && ValidForests(fs) && |ps| == |fs|
    requires forall f :: 0 <= f < |frames| ==> ValidFrame(frames[f], |ps|)
    requires forall i :: 0 <= i < |ps| ==> Joined(|ps|, frames)[i] == ps[i].ring.delivered == Flatten(fs[i])
    ensures var t := FlipAll(g, seq(|ps|, _ => Start()), Zero(), frames).1; t == SumOfAccums(ps) && TotalsOf(g, t, fs)
  {
    hide FlipAll, Joined, Profiler.Valid, TotalsOf, Flatten, SumOfAccums, FlattenAll;
    SharedTotalsAreTheSum(g, ps, frames);
    FlattenedAre(fs, Joined(|ps|, frames));
    AllThreadsAgreeWithForests(g, frames, fs);
  }

  lemma FlattenedAre(fs: seq<Forest>, logs: seq<seq<Entry>>)
    requires ValidForests(fs) && |logs| == |fs| && forall i :: 0 <= i < |fs| ==> logs[i] == Flatten(fs[i])
    ensures logs == FlattenAll(fs)
  {
    hide Flatten;
  }
}
