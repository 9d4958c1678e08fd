/**
 The pool of thread logs and its free list (externals/microprofile/microprofile.h,
 MicroProfileCreateThreadLog, MicroProfileOnThreadCreate, MicroProfileOnThreadExit).
 A log is named by its index in the pool, which the original looks up by address.
 */
module ProfilerPool {
  import opened Sequences
  import ProfilerReplay

  const MAX_THREADS := 32

  type Tid = int

  function Zeros(): seq<int> { seq(ProfilerReplay.MAX_GROUPS, _ => 0) }

  datatype ThreadLog = ThreadLog(put: nat, get: nat, active: bool, gpu: bool, stackPos: nat,
                                 groupPos: seq<int>, groupTicks: seq<int>, freeListNext: int)

  /** A log as constructed or reset. */
  function Fresh(): ThreadLog { ThreadLog(0, 0, false, false, 0, Zeros(), Zeros(), 0) }

  /** Following freeListNext from head visits exactly the logs of the list free. */
  ghost predicate Chain(logs: seq<ThreadLog>, head: int, free: seq<nat>)
    decreases |free|
  {
    if free == [] then head == -1
    else head == free[0] && head < |logs| && Chain(logs, logs[head].freeListNext, free[1..])
  }

  lemma {:induction false} ChainFrame(logs: seq<ThreadLog>, head: int, free: seq<nat>, k: nat, log: ThreadLog)
    requires Chain(logs, head, free) && k < |logs| && k !in free
    ensures Chain(logs[k := log], head, free)
    decreases |free|
  {
    if free != [] { ChainFrame(logs, logs[head].freeListNext, free[1..], k, log); }
  }

  lemma {:induction false} ChainGrows(logs: seq<ThreadLog>, head: int, free: seq<nat>, log: ThreadLog)
    requires Chain(logs, head, free)
    ensures Chain(logs + [log], head, free)
    decreases |free|
  {
    if free != [] { ChainGrows(logs, logs[head].freeListNext, free[1..], log); }
  }

  /** The free list is acyclic and lists exactly the inactive logs, none of them the GPU log 0. */
  ghost predicate FreeListed(logs: seq<ThreadLog>, head: int, free: seq<nat>) {
    && 1 <= |logs| <= MAX_THREADS && Chain(logs, head, free) && Distinct(free)
    && (forall k: nat :: k in free ==> k < |logs|)
    && (forall k: nat :: k < |logs| ==> (k in free <==> !logs[k].active))
    && logs[0].active
    && (forall k :: 0 <= k < |logs| && !logs[k].active ==> logs[k].put == 0 && logs[k].get == 0)
  }

  ghost predicate Live(current: map<Tid, nat>, exited: set<Tid>, t: Tid) { t in current && t !in exited }

  /** Live threads own active logs, never log 0, no two of them the same, and nobody else owns one. */
  ghost predicate Owned(logs: seq<ThreadLog>, current: map<Tid, nat>, exited: set<Tid>) {
    && (forall t :: t in current ==> 0 < current[t] < |logs|)
    && (forall t :: Live(current, exited, t) ==> logs[current[t]].active)
    && (forall t, u :: Live(current, exited, t) && Live(current, exited, u) && t != u ==> current[t] != current[u])
    && (forall k :: 0 < k < |logs| && logs[k].active ==> exists t :: Live(current, exited, t) && current[t] == k)
  }

  class Pool {
    var logs: seq<ThreadLog>
    var freeHead: int
    var current: map<Tid, nat>      // each thread's own log
    ghost var free: seq<nat>        // the free list
    ghost var exited: set<Tid>      // threads whose exit has been reported

    ghost predicate Valid()
      reads this
    {
      FreeListed(logs, freeHead, free) && Owned(logs, current, exited)
    }

    /** Initialization: the GPU log is the first. */
    constructor ()
      ensures Valid() && |logs| == 1 && current == map[] && exited == {}
    {
      logs, freeHead, current := [Fresh().(active := true, gpu := true, freeListNext := -1)], -1, map[];
      free, exited := [], {};
    }

    /** MicroProfileCreateThreadLog: from the free list if possible, else a new log.  The log handed out
        was not in use, is not log 0, and holds nothing of an earlier owner. */
    method CreateThreadLog() returns (k: nat)
      requires FreeListed(logs, freeHead, free) && (free != [] || |logs| < MAX_THREADS)
      modifies this`logs, this`freeHead, this`free
      ensures FreeListed(logs, freeHead, free) && 0 < k < |logs|
      ensures k < |old(logs)| ==> !old(logs)[k].active
      ensures logs == if k < |old(logs)| then old(logs)[k := Fresh().(active := true, freeListNext := -1)]
                      else old(logs) + [Fresh().(active := true, freeListNext := -1)]
    {
      var log := Fresh();
      if freeHead != -1 {
        k := freeHead;
        assert k == free[0] && k in free;
        freeHead := logs[freeHead].freeListNext;
        free := free[1..];
        logs := logs[k := log];
      } else {
        k := |logs|;
        logs := logs + [log];
      }
      logs := logs[k := log.(freeListNext := -1, active := true)];
      ghost var l0, h0, f0 := old(logs), old(freeHead), old(free);
      if h0 != -1 {
        assert forall j: nat :: j in f0 <==> j == k || j in free;
        ChainFrame(l0, freeHead, free, k, logs[k]);
        assert logs == l0[k := logs[k]];
      } else {
        ChainGrows(l0, h0, f0, logs[k]);
        assert logs == l0 + [logs[k]];
      }
    }

    /** A new thread gets a log that no live thread has. */
    method OnThreadCreate(t: Tid)
      requires Valid() && t !in current && t !in exited && (free != [] || |logs| < MAX_THREADS)
      modifies this`logs, this`freeHead, this`free, this`current
      ensures Valid() && t in current && current == old(current)[t := current[t]]
      ensures logs[current[t]] == Fresh().(active := true, freeListNext := -1)
    {
      var k := CreateThreadLog();
      current := current[t := k];
      OwnedAfterCreate(old(logs), old(current), exited, logs, t, k);
    }

    /** MicroProfileOnThreadExit: the log goes back to the front of the free list.  The pool stays valid
        exactly when this is the thread's first exit.  A second exit makes the list run in a circle when the
        log is on it already, and when the log meanwhile belongs to another thread puts it on the list
        while that thread uses it. */
    method OnThreadExit(t: Tid)
      requires Valid()
      modifies this`logs, this`freeHead, this`free, this`exited
      ensures t !in current ==> unchanged(this)
      ensures t in current ==> free == [current[t]] + old(free) && exited == old(exited) + {t}
      ensures t in current ==> (Valid() <==> Live(current, old(exited), t))
      ensures t in current && t in old(exited) && !old(logs)[current[t]].active ==>
                forall list: seq<nat> :: !Chain(logs, freeHead, list)
      ensures t in current && t in old(exited) && old(logs)[current[t]].active ==>
                Chain(logs, freeHead, free)
                && exists u :: u != t && Live(current, exited, u) && current[u] == current[t] && !logs[current[u]].active
    {
      if t in current {
        var k := current[t];
        var log := logs[k].(freeListNext := freeHead, active := false, put := 0, get := 0,
                            groupPos := Zeros(), groupTicks := Zeros());
        ghost var l0 := logs;
        logs := logs[k := log];
        freeHead := k;
        free := [k] + free;
        exited := exited + {t};
        if t !in old(exited) {
          FreedOnce(l0, old(freeHead), old(free), k, log);
          OwnedAfterExit(l0, current, old(exited), logs, t);
        } else if k in old(free) {
          assert free[0] == k && free[1..] == old(free);
          FreedTwice(old(free), k);
          forall list: seq<nat> ensures !Chain(logs, freeHead, list) { Circle(l0, old(freeHead), old(free), k, log, list); }
        } else {
          ghost var u :| Live(current, old(exited), u) && current[u] == k;
          assert u != t && Live(current, exited, u);
          ChainFrame(l0, old(freeHead), old(free), k, log);
          assert free[1..] == old(free);
        }
      }
    }
  }

  lemma OwnedAfterCreate(l0: seq<ThreadLog>, c0: map<Tid, nat>, exited: set<Tid>, logs: seq<ThreadLog>, t: Tid, k: nat)
    requires Owned(l0, c0, exited) && t !in c0 && t !in exited && 0 < k < |logs| && logs[k].active
    requires k < |l0| ==> !l0[k].active && logs == l0[k := logs[k]]
    requires k >= |l0| ==> logs == l0 + [logs[k]]
    ensures Owned(logs, c0[t := k], exited)
  {
    var c := c0[t := k];
    forall u | Live(c, exited, u) ensures logs[c[u]].active && (u != t ==> c[u] != k && Live(c0, exited, u)) {
      if u != t { assert Live(c0, exited, u); }
    }
    forall j | 0 < j < |logs| && logs[j].active ensures exists u :: Live(c, exited, u) && c[u] == j {
      if j == k {
        assert Live(c, exited, t);
      } else {
        var u :| Live(c0, exited, u) && c0[u] == j;
        assert Live(c, exited, u);
      }
    }
  }

  lemma OwnedAfterExit(l0: seq<ThreadLog>, current: map<Tid, nat>, e0: set<Tid>, logs: seq<ThreadLog>, t: Tid)
    requires Owned(l0, current, e0) && Live(current, e0, t)
    requires |logs| == |l0| && logs == l0[current[t] := logs[current[t]]] && !logs[current[t]].active
    ensures Owned(logs, current, e0 + {t})
  {
    var e := e0 + {t};
    forall u | Live(current, e, u) ensures logs[current[u]].active && Live(current, e0, u) && u != t {
      assert Live(current, e0, u);
    }
    forall j | 0 < j < |logs| && logs[j].active ensures exists u :: Live(current, e, u) && current[u] == j {
      var u :| Live(current, e0, u) && current[u] == j;
      assert Live(current, e, u);
    }
  }

  lemma FreedOnce(l0: seq<ThreadLog>, head: int, free: seq<nat>, k: nat, log: ThreadLog)
    requires FreeListed(l0, head, free) && 0 < k < |l0| && l0[k].active
    requires !log.active && log.put == 0 && log.get == 0 && log.freeListNext == head
    ensures FreeListed(l0[k := log], k, [k] + free)
  {
    ChainFrame(l0, head, free, k, log);
    assert ([k] + free)[1..] == free;
    assert forall j: nat :: j in [k] + free <==> j == k || j in free;
  }

  lemma FreedTwice(free: seq<nat>, k: nat)
    requires k in free
    ensures !Distinct([k] + free)
  {
    var i :| 0 <= i < |free| && free[i] == k;
    assert ([k] + free)[0] == ([k] + free)[i + 1];
  }

  /** What follows k on a chain that holds it: nothing changes up to k when k's own link changes. */
  lemma {:induction false} ChainTo(l0: seq<ThreadLog>, head: int, free: seq<nat>, k: nat, log: ThreadLog, list: seq<nat>) returns (rest: seq<nat>)
    requires Chain(l0, head, free) && k in free && k < |l0| && Chain(l0[k := log], head, list)
    ensures Chain(l0[k := log], k, rest) && |rest| <= |list|
    decreases |free|
  {
    if head == k {
      rest := list;
    } else {
      rest := ChainTo(l0, l0[head].freeListNext, free[1..], k, log, list[1..]);
    }
  }

  /** A log put in front of a list it is on: no finite list is the chain from it. */
  lemma {:induction false} Circle(l0: seq<ThreadLog>, head: int, free: seq<nat>, k: nat, log: ThreadLog, list: seq<nat>)
    requires Chain(l0, head, free) && k in free && k < |l0| && log.freeListNext == head
    ensures !Chain(l0[k := log], k, list)
    decreases |list|
  {
    if Chain(l0[k := log], k, list) {
      var rest := ChainTo(l0, head, free, k, log, list[1..]);
      Circle(l0, head, free, k, log, rest);
    }
  }
}
