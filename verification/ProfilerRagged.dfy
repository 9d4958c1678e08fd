/**
 Logs that begin or end in the middle of scopes (externals/microprofile/microprofile.h): a thread may
 have entered scopes before its log begins and may be in scopes when it ends.  What such a log
 credits is what its whole scopes say.
 */
module ProfilerRagged {
  import opened Sequences
  import opened ProfilerEntry
  import opened ProfilerReplay
  import opened ProfilerThreads

  /** Whole scopes, then a LEAVE whose ENTER is not in the log. */
  datatype Tail = Tail(scopes: Forest, leave: Entry)

  /** An ENTER whose LEAVE is not in the log, then whole scopes inside it. */
  datatype Head = Head(enter: Entry, scopes: Forest)

  ghost predicate GoodTail(t: Tail) {
    ValidForest(t.scopes) && Kind(t.leave) == LOG_LEAVE && Timer(t.leave) < MAX_TIMERS && Depth(t.scopes) < 256
  }

  ghost predicate GoodHead(h: Head) {
    ValidForest(h.scopes) && Kind(h.enter) == LOG_ENTER && Timer(h.enter) < MAX_TIMERS
  }

  ghost predicate GoodTails(ts: seq<Tail>) { forall i :: 0 <= i < |ts| ==> GoodTail(ts[i]) }
  ghost predicate GoodHeads(hs: seq<Head>) { forall i :: 0 <= i < |hs| ==> GoodHead(hs[i]) }

  ghost function TailsLog(ts: seq<Tail>): (log: seq<Entry>)
    requires GoodTails(ts)
    ensures ValidLog(log)
  {
    if ts == [] then [] else Flatten(ts[0].scopes) + [ts[0].leave] + TailsLog(ts[1..])
  }

  ghost function HeadsLog(hs: seq<Head>): (log: seq<Entry>)
    requires GoodHeads(hs)
    ensures ValidLog(log)
  {
    if hs == [] then [] else [hs[0].enter] + Flatten(hs[0].scopes) + HeadsLog(hs[1..])
  }

  /** The whole scopes, in order. */
  function TailScopes(ts: seq<Tail>): seq<Forest> { if ts == [] then [] else [ts[0].scopes] + TailScopes(ts[1..]) }
  function HeadScopes(hs: seq<Head>): seq<Forest> { if hs == [] then [] else [hs[0].scopes] + HeadScopes(hs[1..]) }
  function Enters(hs: seq<Head>): seq<Entry> { if hs == [] then [] else [hs[0].enter] + Enters(hs[1..]) }

  ghost function TailGroupTime(g: Groups, ts: seq<Tail>, k: nat): int
    requires GoodTails(ts)
  {
    if ts == [] then 0 else GroupTime(g, ts[0].scopes, k) + TailGroupTime(g, ts[1..], k)
  }

  /** A group's scopes count until an ENTER of the group that stays open. */
  ghost function HeadGroupTime(g: Groups, hs: seq<Head>, k: nat): int
    requires GoodHeads(hs)
  {
    if hs == [] || g[Timer(hs[0].enter)] == k then 0
    else GroupTime(g, hs[0].scopes, k) + HeadGroupTime(g, hs[1..], k)
  }

  ghost predicate Gets(m: Totals, r: Totals, fs: seq<Forest>)
    requires ValidTotals(m) && ValidTotals(r)
  {
    forall x :: 0 <= x < MAX_TIMERS ==>
      && r.ticks[x] == m.ticks[x] + SumInclusive(fs, x)
      && r.exclusive[x] == m.exclusive[x] + SumExclusive(fs, x)
      && r.calls[x] == m.calls[x] + SumCalls(fs, x)
  }

  lemma GetsOne(m: Totals, r: Totals, f: Forest)
    requires ValidTotals(m) && ValidTotals(r) && TimersCredited(m, r, f)
    ensures Gets(m, r, [f])
  {
    forall x | 0 <= x < MAX_TIMERS
      ensures SumInclusive([f], x) == Inclusive(f, x) && SumExclusive([f], x) == Exclusive(f, x) && SumCalls([f], x) == Calls(f, x)
    {
      assert [f][1..] == [];
    }
  }

  lemma {:induction false} AllSplit(a: seq<Forest>, b: seq<Forest>, x: nat)
    ensures SumInclusive(a + b, x) == SumInclusive(a, x) + SumInclusive(b, x)
    ensures SumExclusive(a + b, x) == SumExclusive(a, x) + SumExclusive(b, x)
    ensures SumCalls(a + b, x) == SumCalls(a, x) + SumCalls(b, x)
  {
    if a == [] {
      assert a + b == b;
    } else {
      assert (a + b)[1..] == a[1..] + b && (a + b)[0] == a[0];
      AllSplit(a[1..], b, x);
    }
  }

  lemma GetsBoth(m: Totals, s: Totals, r: Totals, a: seq<Forest>, b: seq<Forest>)
    requires ValidTotals(m) && ValidTotals(s) && ValidTotals(r) && Gets(m, s, a) && Gets(s, r, b)
    ensures Gets(m, r, a + b)
  {
    forall x | 0 <= x < MAX_TIMERS
      ensures && r.ticks[x] == m.ticks[x] + SumInclusive(a + b, x)
              && r.exclusive[x] == m.exclusive[x] + SumExclusive(a + b, x)
              && r.calls[x] == m.calls[x] + SumCalls(a + b, x)
    {
      AllSplit(a, b, x);
    }
  }

  /** Nothing is open. */
  ghost predicate Idle(m: Machine) { ValidMachine(m) && m.stack == [] && forall k :: 0 <= k < MAX_GROUPS ==> m.groupPos[k] == 0 }

  /** Whole scopes replayed while nothing is open. */
  lemma IdleForest(g: Groups, m: Machine, f: Forest)
    requires Idle(m) && ValidForest(f) && Depth(f) < 256
    ensures var r := Run(g, m, Flatten(f));
            && Idle(r) && Gets(m.totals, r.totals, [f])
            && forall k :: 0 <= k < MAX_GROUPS ==> r.totals.group[k] == m.totals.group[k] + GroupTime(g, f, k)
  {
    hide TimersCredited, Gets, Run, Flatten, GroupTime;
    ReplayAgreesWithForest(g, m, f);
    GetsOne(m.totals, Run(g, m, Flatten(f)).totals, f);
  }

  /** A LEAVE with nothing open is ignored. */
  lemma StrayLeave(g: Groups, m: Machine, l: Entry)
    requires ValidMachine(m) && m.stack == [] && Kind(l) == LOG_LEAVE && Timer(l) < MAX_TIMERS
    ensures ValidLog([l]) && Run(g, m, [l]) == m
  {
    assert [l][1..] == [];
  }

  lemma {:induction false} TailsCredit(g: Groups, m: Machine, ts: seq<Tail>)
    requires Idle(m) && GoodTails(ts)
    ensures var r := Run(g, m, TailsLog(ts));
            && Idle(r) && Gets(m.totals, r.totals, TailScopes(ts))
            && forall k :: 0 <= k < MAX_GROUPS ==> r.totals.group[k] == m.totals.group[k] + TailGroupTime(g, ts, k)
    decreases |ts|
  {
    hide Idle, Run, Flatten, GroupTime, GoodTail;
    IdleHas(m);
    if ts == [] {
      NothingRuns(g, m);
      assert Gets(m.totals, m.totals, []);
    } else {
      hide Gets;
      GoodTailHas(ts[0]);
      var a, l, b := Flatten(ts[0].scopes), ts[0].leave, TailsLog(ts[1..]);
      IdleForest(g, m, ts[0].scopes);
      var s := Run(g, m, a);
      IdleHas(s);
      StrayLeave(g, s, l);
      RunAppend(g, m, a, [l]);
      RunAppend(g, m, a + [l], b);
      TailsCredit(g, s, ts[1..]);
      GetsBoth(m.totals, s.totals, Run(g, s, b).totals, [ts[0].scopes], TailScopes(ts[1..]));
    }
  }

  lemma NothingRuns(g: Groups, m: Machine)
    requires ValidMachine(m)
    ensures Run(g, m, []) == m
  {}

  lemma IdleHas(m: Machine)
    requires Idle(m)
    ensures ValidMachine(m) && m.stack == []
  {}

  lemma GoodTailHas(t: Tail)
    requires GoodTail(t)
    ensures ValidForest(t.scopes) && Kind(t.leave) == LOG_LEAVE && Timer(t.leave) < MAX_TIMERS && Depth(t.scopes) < 256
  {}

  /** The group counters are bytes: no scope lies 256 deep, counting those that stay open. */
  ghost predicate HeadsFit(n: nat, hs: seq<Head>)
    decreases |hs|
  {
    hs == [] || (n + 1 + Depth(hs[0].scopes) < 256 && HeadsFit(n + 1, hs[1..]))
  }

  ghost predicate AtMost(groupPos: seq<nat>, n: nat) { forall k :: 0 <= k < |groupPos| ==> groupPos[k] <= n }

  lemma EnterOpens(g: Groups, m: Machine, e: Entry, n: nat)
    requires ValidMachine(m) && Kind(e) == LOG_ENTER && Timer(e) < MAX_TIMERS && AtMost(m.groupPos, n) && n + 1 < 256
    ensures var s := Run(g, m, [e]);
            && s.stack == m.stack + [e] && s.totals == m.totals && AtMost(s.groupPos, n + 1)
            && forall k :: 0 <= k < MAX_GROUPS ==> s.groupPos[k] == m.groupPos[k] + (if g[Timer(e)] == k then 1 else 0)
  {
    assert [e][1..] == [] && Run(g, m, [e]) == Enter(g, m, e);
  }

  lemma ForestInside(g: Groups, s: Machine, f: Forest, n: nat)
    requires ValidMachine(s) && ValidForest(f) && AtMost(s.groupPos, n) && n + Depth(f) < 256
    ensures var r := Run(g, s, Flatten(f));
            && r.stack == s.stack && r.groupPos == s.groupPos && Gets(s.totals, r.totals, [f])
            && forall k :: 0 <= k < MAX_GROUPS ==>
                 r.totals.group[k] == s.totals.group[k] + If(s.groupPos[k] == 0, GroupTime(g, f, k))
  {
    hide TimersCredited, Gets, Flatten, GroupTime, Run;
    ReplayAgreesWithForest(g, s, f);
    GetsOne(s.totals, Run(g, s, Flatten(f)).totals, f);
  }

  /** One ENTER that stays open, and the whole scopes behind it. */
  lemma HeadCredits(g: Groups, m: Machine, h: Head, n: nat)
    requires ValidMachine(m) && GoodHead(h) && AtMost(m.groupPos, n) && n + 1 + Depth(h.scopes) < 256
    ensures var log := [h.enter] + Flatten(h.scopes);
            ValidLog(log) &&
            var r := Run(g, m, log);
            && r.stack == m.stack + [h.enter] && AtMost(r.groupPos, n + 1) && Gets(m.totals, r.totals, [h.scopes])
            && (forall k :: 0 <= k < MAX_GROUPS ==>
                  && r.groupPos[k] == m.groupPos[k] + (if g[Timer(h.enter)] == k then 1 else 0)
                  && r.totals.group[k] == m.totals.group[k]
                     + If(m.groupPos[k] == 0 && g[Timer(h.enter)] != k, GroupTime(g, h.scopes, k)))
  {
    hide Gets, Flatten, GroupTime, Run, AtMost;
    EnterOpens(g, m, h.enter, n);
    ForestInside(g, Run(g, m, [h.enter]), h.scopes, n + 1);
    RunAppend(g, m, [h.enter], Flatten(h.scopes));
  }

  lemma {:induction false} HeadsCredit(g: Groups, m: Machine, hs: seq<Head>, n: nat)
    requires ValidMachine(m) && GoodHeads(hs) && AtMost(m.groupPos, n) && HeadsFit(n, hs)
    ensures var r := Run(g, m, HeadsLog(hs));
            && r.stack == m.stack + Enters(hs) && Gets(m.totals, r.totals, HeadScopes(hs))
            && forall k :: 0 <= k < MAX_GROUPS ==>
                 r.totals.group[k] == m.totals.group[k] + If(m.groupPos[k] == 0, HeadGroupTime(g, hs, k))
    decreases |hs|
  {
    hide Run, Flatten, GroupTime, AtMost, GoodHead;
    if hs == [] {
      NothingRuns(g, m);
      assert m.stack + [] == m.stack;
      assert Gets(m.totals, m.totals, []);
    } else {
      hide Gets;
      GoodHeadHas(hs[0]);
      HeadCredits(g, m, hs[0], n);
      var a, b := [hs[0].enter] + Flatten(hs[0].scopes), HeadsLog(hs[1..]);
      var s := Run(g, m, a);
      RunAppend(g, m, a, b);
      HeadsCredit(g, s, hs[1..], n + 1);
      Assoc(m.stack, [hs[0].enter], Enters(hs[1..]));
      GetsBoth(m.totals, s.totals, Run(g, s, b).totals, [hs[0].scopes], HeadScopes(hs[1..]));
    }
  }

  lemma GoodHeadHas(h: Head)
    requires GoodHead(h)
    ensures ValidForest(h.scopes) && Timer(h.enter) < MAX_TIMERS
  {}

  /** A log cut out of the middle of a thread's life: scopes entered before it, whole scopes, scopes still
      open at its end.  Every timer gets the time and the calls of the whole scopes, every group the time of
      its outermost whole scopes, and the scopes still open are left on the stack. */
  lemma RaggedLogCredits(g: Groups, m: Machine, ts: seq<Tail>, f: Forest, hs: seq<Head>)
    requires Idle(m) && GoodTails(ts) && ValidForest(f) && Depth(f) < 256 && GoodHeads(hs) && HeadsFit(0, hs)
    ensures var log := TailsLog(ts) + (Flatten(f) + HeadsLog(hs));
            ValidLog(log) &&
            var r := Run(g, m, log);
            && r.stack == Enters(hs) && Gets(m.totals, r.totals, TailScopes(ts) + ([f] + HeadScopes(hs)))
            && forall k :: 0 <= k < MAX_GROUPS ==>
                 r.totals.group[k] == m.totals.group[k] + TailGroupTime(g, ts, k) + GroupTime(g, f, k) + HeadGroupTime(g, hs, k)
  {
    hide Gets, Run, Flatten, GroupTime, TailsLog, HeadsLog, HeadsFit, GoodTails, GoodHeads, Enters;
    var a, b, c := TailsLog(ts), Flatten(f), HeadsLog(hs);
    TailsCredit(g, m, ts);
    var s := Run(g, m, a);
    IdleForest(g, s, f);
    var t := Run(g, s, b);
    HeadsCredit(g, t, hs, 0);
    var r := Run(g, t, c);
    RunAppend(g, s, b, c);
    RunAppend(g, m, a, b + c);
    GetsBoth(s.totals, t.totals, r.totals, [f], HeadScopes(hs));
    GetsBoth(m.totals, s.totals, r.totals, TailScopes(ts), [f] + HeadScopes(hs));
    assert [] + Enters(hs) == Enters(hs);
  }
}
