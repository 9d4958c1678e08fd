/**
 From put to replay: a thread's ring buffer and the 512-slot frame history that cuts it
 into frames (externals/microprofile/microprofile.h, MicroProfileLogPut, MicroProfileGetRange
 and the cursor handling of MicroProfileFlip).

 A flip is two steps here, the snapshot of the put cursor and the visit of the frame that is
 due; puts of the owning thread may come between them.
 */
module ProfilerRing {
  import opened Numbers
  import opened ProfilerEntry

  const BUFFER_SIZE := 0x4_0000
  const FRAME_HISTORY := 512
  const FRAME_DELAY := 3

  function Mod(a: nat): (r: nat)
    ensures r < BUFFER_SIZE && r == a % BUFFER_SIZE
  {
    a % BUFFER_SIZE
  }

  function Slot(p: nat): (r: nat)
    ensures r < FRAME_HISTORY && r == p % FRAME_HISTORY
  {
    p % FRAME_HISTORY
  }

  /** Where the j-th position of two consecutive ranges is. */
  function Place(s0: nat, e0: nat, s1: nat, j: nat): nat
    requires s0 <= e0
  {
    if j < e0 - s0 then s0 + j else s1 + (j - (e0 - s0))
  }

  /** The two index ranges between the cursors, the second empty unless the buffer end is crossed. */
  method GetRange(put: nat, get: nat, ghost count: nat) returns (s0: nat, e0: nat, s1: nat, e1: nat)
    requires put < BUFFER_SIZE && get < BUFFER_SIZE
    requires count < BUFFER_SIZE && put == Mod(get + count)
    ensures s0 <= e0 <= BUFFER_SIZE && s1 == 0 <= e1 <= BUFFER_SIZE
    ensures (e0 - s0) + (e1 - s1) == count
    ensures forall j: nat :: j < count ==> Place(s0, e0, s1, j) == Mod(get + j)
  {
    s0, e0, s1, e1 := 0, 0, 0, 0;
    if put > get {
      s0, e0 := get, put;
    } else if put != get {
      s0, e0 := get, get + (BUFFER_SIZE - get);
      e1 := put;
    }
  }

  /** The newest entry stored in the slot of entry a. */
  function Newest(a: nat, count: nat): (b: nat)
    requires a < count
    ensures a <= b < count && Mod(b) == Mod(a) && count <= b + BUFFER_SIZE
    ensures b == a <==> count <= a + BUFFER_SIZE
  {
    a + (count - 1 - a) / BUFFER_SIZE * BUFFER_SIZE
  }

  /** The buffer holds the last BUFFER_SIZE entries accepted. */
  ghost predicate Holds(buf: seq<Entry>, accepted: seq<Entry>) {
    && |buf| == BUFFER_SIZE
    && forall a: nat :: a < |accepted| <= a + BUFFER_SIZE ==> buf[Mod(a)] == accepted[a]
  }

  lemma HoldsAt(buf: seq<Entry>, accepted: seq<Entry>, a: nat)
    requires Holds(buf, accepted) && a < |accepted| <= a + BUFFER_SIZE
    ensures buf[Mod(a)] == accepted[a]
  {}

  lemma HoldsAfterPut(buf: seq<Entry>, accepted: seq<Entry>, e: Entry, slot: nat)
    requires Holds(buf, accepted) && slot == Mod(|accepted|)
    ensures Holds(buf[slot := e], accepted + [e])
  {
    var n := |accepted|;
    forall a: nat | a < n + 1 <= a + BUFFER_SIZE
      ensures buf[slot := e][Mod(a)] == (accepted + [e])[a]
    {
      if a < n { DistinctSlots(a, n); }
    }
  }

  lemma DistinctSlots(a: nat, b: nat)
    requires a < b < a + BUFFER_SIZE
    ensures Mod(a) != Mod(b)
  {}

  lemma NextSlot(n: nat, slot: nat)
    requires slot == Mod(n)
    ensures (slot + 1) % BUFFER_SIZE == Mod(n + 1)
  {}

  lemma FullExactly(last: nat, n: nat)
    requires last <= n <= last + (BUFFER_SIZE - 1)
    ensures Mod(n + 1) == Mod(last) <==> n == last + (BUFFER_SIZE - 1)
  {}

  /** Shifting a position by j commutes with taking slots. */
  lemma ShiftSlot(a: nat, j: nat)
    ensures Mod(Mod(a) + j) == Mod(a + j)
  {}

  /** seen is what a visit of the entries lo to hi finds: in put order, the newest entries of their slots,
      and so those entries themselves when at most BUFFER_SIZE entries have been accepted since entry lo. */
  ghost predicate FrameSeen(seen: seq<Entry>, accepted: seq<Entry>, lo: nat, hi: nat) {
    && lo <= hi <= |accepted| && |seen| == hi - lo
    && (forall j :: 0 <= j < |seen| ==> seen[j] == accepted[Newest(lo + j, |accepted|)])
    && (|accepted| <= lo + BUFFER_SIZE ==> seen == accepted[lo..hi])
  }

  /** What the two ranges hold: the newest entries of the slots of entries lo to hi. */
  lemma RangesHold(buf: seq<Entry>, accepted: seq<Entry>, lo: nat, hi: nat, s0: nat, e0: nat, s1: nat, e1: nat, seen: seq<Entry>)
    requires Holds(buf, accepted) && |buf| == BUFFER_SIZE && lo <= hi <= |accepted|
    requires s0 <= e0 <= BUFFER_SIZE && s1 <= e1 <= BUFFER_SIZE && (e0 - s0) + (e1 - s1) == hi - lo
    requires forall j: nat :: j < hi - lo ==> Place(s0, e0, s1, j) == Mod(Mod(lo) + j)
    requires seen == buf[s0..e0] + buf[s1..e1]
    ensures FrameSeen(seen, accepted, lo, hi)
  {
    hide Mod, Newest, Holds;
    forall j | 0 <= j < |seen|
      ensures seen[j] == accepted[Newest(lo + j, |accepted|)]
    {
      assert seen[j] == buf[Place(s0, e0, s1, j)];
      ShiftSlot(lo, j);
      HoldsAt(buf, accepted, Newest(lo + j, |accepted|));
    }
  }

  /** Flip by flip, at most BUFFER_SIZE - 1 entries were accepted, count in all. */
  ghost predicate Ascending(starts: seq<nat>, count: nat) {
    && starts != [] && starts[0] == 0
    && (forall p, q :: 0 <= p < |starts| && q == p + 1 && q < |starts| ==>
          starts[p] <= starts[q] <= starts[p] + (BUFFER_SIZE - 1))
    && starts[|starts| - 1] <= count <= starts[|starts| - 1] + (BUFFER_SIZE - 1)
  }

  /** Entries accepted before flip p; before the first flip there were none. */
  function StartOf(starts: seq<nat>, p: int): nat
    requires p < |starts|
  {
    if p < 0 then 0 else starts[p]
  }

  lemma AscendingBound(starts: seq<nat>, count: nat, p: nat)
    requires Ascending(starts, count) && p < |starts|
    ensures starts[p] <= count
    decreases |starts| - p
  {
    if p + 1 < |starts| {
      assert starts[p] <= starts[p + 1];
      AscendingBound(starts, count, p + 1);
    }
  }

  lemma AscendingAt(starts: seq<nat>, count: nat, p: int)
    requires Ascending(starts, count) && p < |starts|
    ensures StartOf(starts, p - 1) <= StartOf(starts, p) <= StartOf(starts, p - 1) + (BUFFER_SIZE - 1)
    ensures StartOf(starts, p) <= count
  {
    if p >= 0 { AscendingBound(starts, count, p); }
  }

  lemma AscendingFlip(starts: seq<nat>, count: nat)
    requires Ascending(starts, count)
    ensures Ascending(starts + [count], count)
  {
    var t := starts + [count];
    forall p, q | 0 <= p < |t| && q == p + 1 && q < |t|
      ensures t[p] <= t[q] <= t[p] + (BUFFER_SIZE - 1)
    {
      if q < |starts| { assert t[p] == starts[p] && t[q] == starts[q]; }
    }
  }

  /** Unless a visit came late, what has been delivered is what had been accepted before the end of the last
      frame visited: each entry exactly once, in put order. */
  ghost predicate DeliveredInOrder(accepted: seq<Entry>, starts: seq<nat>, visits: nat, delivered: seq<Entry>, intact: bool) {
    && |starts| - 2 <= visits <= |starts| - 1
    && StartOf(starts, visits - FRAME_DELAY) <= |accepted|
    && (intact ==> delivered == accepted[..StartOf(starts, visits - FRAME_DELAY)])
  }

  lemma DeliveredAfterPut(accepted: seq<Entry>, starts: seq<nat>, visits: nat, delivered: seq<Entry>, intact: bool, e: Entry)
    requires DeliveredInOrder(accepted, starts, visits, delivered, intact)
    ensures DeliveredInOrder(accepted + [e], starts, visits, delivered, intact)
  {
    var n := StartOf(starts, visits - FRAME_DELAY);
    assert (accepted + [e])[..n] == accepted[..n];
  }

  lemma DeliveredAfterFlip(accepted: seq<Entry>, starts: seq<nat>, visits: nat, delivered: seq<Entry>, intact: bool, n: nat)
    requires DeliveredInOrder(accepted, starts, visits, delivered, intact) && visits == |starts| - 1
    ensures DeliveredInOrder(accepted, starts + [n], visits, delivered, intact)
  {
    assert StartOf(starts + [n], visits - FRAME_DELAY) == StartOf(starts, visits - FRAME_DELAY);
  }

  lemma DeliveredAfterVisit(accepted: seq<Entry>, starts: seq<nat>, visits: nat, delivered: seq<Entry>, intact: bool,
                            seen: seq<Entry>, intact': bool)
    requires DeliveredInOrder(accepted, starts, visits, delivered, intact) && visits + 1 == |starts| - 1
    requires var lo, hi := StartOf(starts, visits - FRAME_DELAY), StartOf(starts, visits + 1 - FRAME_DELAY);
             lo <= hi <= |accepted| && (intact' ==> intact && seen == accepted[lo..hi])
    ensures DeliveredInOrder(accepted, starts, visits + 1, delivered + seen, intact')
  {
    var lo, hi := StartOf(starts, visits - FRAME_DELAY), StartOf(starts, visits + 1 - FRAME_DELAY);
    assert accepted[..lo] + accepted[lo..hi] == accepted[..hi];
  }

  /** The frame history: the last 512 flips, and nothing in slots not yet used. */
  ghost predicate History(slots: seq<nat>, starts: seq<nat>) {
    && |slots| == FRAME_HISTORY
    && (forall p: nat :: p < |starts| <= p + FRAME_HISTORY ==> slots[Slot(p)] == Mod(starts[p]))
    && (forall i :: |starts| <= i < FRAME_HISTORY ==> slots[i] == 0)
  }

  lemma HistoryAfterFlip(slots: seq<nat>, starts: seq<nat>, n: nat, slot: nat, cursor: nat)
    requires History(slots, starts) && slot == Slot(|starts|) && cursor == Mod(n)
    ensures History(slots[slot := cursor], starts + [n])
  {
    var p := |starts|;
    forall q: nat | q < p + 1 <= q + FRAME_HISTORY
      ensures slots[slot := cursor][Slot(q)] == Mod((starts + [n])[q])
    {
      if q < p { assert Slot(q) != Slot(p); }
    }
  }

  /** The slot d flips back from flip p. */
  lemma BackSlot(p: nat, d: nat, slot: nat)
    requires d < 5 && slot == (Slot(p) + FRAME_HISTORY - d) % FRAME_HISTORY
    ensures slot < FRAME_HISTORY
    ensures if p < d then slot == p + FRAME_HISTORY - d else slot == Slot(p - d)
  {
    var q, r := p / FRAME_HISTORY, p % FRAME_HISTORY;
    assert p == q * FRAME_HISTORY + r;
    if r >= d {
      DivMod(p - d, FRAME_HISTORY, q, r - d);
      DivMod(r + FRAME_HISTORY - d, FRAME_HISTORY, 1, r - d);
    } else {
      DivMod(r + FRAME_HISTORY - d, FRAME_HISTORY, 0, r + FRAME_HISTORY - d);
      if q > 0 { DivMod(p - d, FRAME_HISTORY, q - 1, r + FRAME_HISTORY - d); }
    }
  }

  lemma SlotBack(slots: seq<nat>, starts: seq<nat>, p: nat, d: nat, slot: nat)
    requires History(slots, starts) && p == |starts| - 1 && starts[0] == 0
    requires d < 5 && slot == (Slot(p) + FRAME_HISTORY - d) % FRAME_HISTORY
    ensures slot < |slots| && slots[slot] == if p < d then 0 else Mod(starts[p - d])
  {
    BackSlot(p, d, slot);
    hide Slot, Mod;
  }

  class LogRing {
    const log: array<Entry>
    const logStart: array<nat>
    var put: nat
    var get: nat
    var framePut: nat
    var overflow: bool

    // what the history of calls has been
    ghost var accepted: seq<Entry>    // every entry accepted so far
    ghost var starts: seq<nat>        // entries accepted before each flip; flip 0 is the beginning
    ghost var visits: nat             // flips whose visit is done
    ghost var delivered: seq<Entry>   // everything the visits have seen, in order
    ghost var intact: bool            // no visit came more than BUFFER_SIZE entries after its frame began

    ghost predicate Valid()
      reads this, log, logStart
    {
      && log.Length == BUFFER_SIZE && logStart.Length == FRAME_HISTORY && log != logStart as object
      && Ascending(starts, |accepted|)
      && put == Mod(|accepted|) && get == Mod(starts[|starts| - 1]) && framePut == Slot(|starts| - 1)
      && History(logStart[..], starts) && Holds(log[..], accepted)
      && DeliveredInOrder(accepted, starts, visits, delivered, intact)
    }

    constructor ()
      ensures Valid() && accepted == [] && starts == [0] && visits == 0 && intact && fresh(log) && fresh(logStart)
    {
      log := new Entry[BUFFER_SIZE](_ => 0);
      logStart := new nat[FRAME_HISTORY](_ => 0);
      put, get, framePut, overflow := 0, 0, 0, false;
      accepted, starts := [], [0];
      visits, delivered, intact := 0, [], true;
    }

    /** MicroProfileLogPut: refused, leaving the log alone, exactly when the frame holds BUFFER_SIZE - 1 entries. */
    method Put(e: Entry) returns (ok: bool)
      requires Valid()
      modifies this`put, this`overflow, this`accepted, log
      ensures Valid() && ok == (|old(accepted)| < starts[|starts| - 1] + (BUFFER_SIZE - 1))
      ensures accepted == if ok then old(accepted) + [e] else old(accepted)
    {
      hide Mod, Slot, History, Holds, DeliveredInOrder;
      var next := (put + 1) % BUFFER_SIZE;
      ghost var n, was := |accepted|, log[..];
      NextSlot(n, put);
      FullExactly(starts[|starts| - 1], n);
      if next == get {
        overflow := true;
        ok := false;
      } else {
        HoldsAfterPut(was, accepted, e, put);
        DeliveredAfterPut(accepted, starts, visits, delivered, intact, e);
        log[put] := e;
        assert log[..] == was[put := e];
        put := next;
        accepted := accepted + [e];
        ok := true;
      }
    }

    /** The snapshot half of a flip: the put cursor becomes the start of a new frame. */
    method Snapshot()
      requires Valid() && visits == |starts| - 1
      modifies this`get, this`framePut, this`starts, logStart
      ensures Valid() && starts == old(starts) + [|accepted|]
    {
      hide Mod, History, Holds, DeliveredInOrder, Ascending;
      ghost var was := logStart[..];
      framePut := (framePut + 1) % FRAME_HISTORY;
      HistoryAfterFlip(was, starts, |accepted|, framePut, put);
      DeliveredAfterFlip(accepted, starts, visits, delivered, intact, |accepted|);
      AscendingFlip(starts, |accepted|);
      logStart[framePut] := put;
      assert logStart[..] == was[framePut := put];
      get := put;
      starts := starts + [|accepted|];
    }

    /** The cursors of the frame that is due: the frame four flips back. */
    method Cursors() returns (putCursor: nat, getCursor: nat)
      requires Valid()
      ensures putCursor == Mod(StartOf(starts, |starts| - 1 - FRAME_DELAY))
      ensures getCursor == Mod(StartOf(starts, |starts| - 1 - FRAME_DELAY - 1))
    {
      hide History, Holds, DeliveredInOrder;
      var current := (framePut + FRAME_HISTORY - FRAME_DELAY - 1) % FRAME_HISTORY;
      var next := (current + 1) % FRAME_HISTORY;
      SlotBack(logStart[..], starts, |starts| - 1, FRAME_DELAY, next);
      SlotBack(logStart[..], starts, |starts| - 1, FRAME_DELAY + 1, current);
      return logStart[next], logStart[current];
    }

    /** The two ranges of the log that hold the frame that is due, entries lo to hi. */
    method FrameRanges(ghost lo: nat, ghost hi: nat) returns (s0: nat, e0: nat, s1: nat, e1: nat)
      requires Valid()
      requires lo == StartOf(starts, |starts| - 1 - FRAME_DELAY - 1) && hi == StartOf(starts, |starts| - 1 - FRAME_DELAY)
      ensures s0 <= e0 <= BUFFER_SIZE && s1 <= e1 <= BUFFER_SIZE && lo <= hi && (e0 - s0) + (e1 - s1) == hi - lo
      ensures forall j: nat :: j < hi - lo ==> Place(s0, e0, s1, j) == Mod(Mod(lo) + j)
      ensures FrameSeen(log[s0..e0] + log[s1..e1], accepted, lo, hi)
    {
      hide Mod, History, FrameSeen, Holds, Place, DeliveredInOrder, Ascending, Slot;
      var putCursor, getCursor := Cursors();
      AscendingAt(starts, |accepted|, |starts| - 1 - FRAME_DELAY);
      ShiftSlot(lo, hi - lo);
      s0, e0, s1, e1 := GetRange(putCursor, getCursor, hi - lo);
      ghost var buf := log[..];
      assert log[s0..e0] == buf[s0..e0] && log[s1..e1] == buf[s1..e1];
      RangesHold(buf, accepted, lo, hi, s0, e0, s1, e1, log[s0..e0] + log[s1..e1]);
    }

    /** Reads the frame that is due. */
    method ReadFrame() returns (seen: seq<Entry>)
      requires Valid()
      ensures FrameSeen(seen, accepted, StartOf(starts, |starts| - 1 - FRAME_DELAY - 1), StartOf(starts, |starts| - 1 - FRAME_DELAY))
    {
      hide FrameSeen, StartOf, Place, Mod, History, Holds, DeliveredInOrder, Ascending;
      ghost var p := |starts| - 1 - FRAME_DELAY;
      var s0, e0, s1, e1 := FrameRanges(StartOf(starts, p - 1), StartOf(starts, p));
      seen := log[s0..e0] + log[s1..e1];
    }

    /** The visiting half of a flip. */
    method Visit() returns (seen: seq<Entry>)
      requires Valid() && visits + 1 == |starts| - 1
      modifies this`visits, this`delivered, this`intact
      ensures Valid() && visits == old(visits) + 1 && delivered == old(delivered) + seen
      ensures FrameSeen(seen, accepted, StartOf(starts, visits - FRAME_DELAY - 1), StartOf(starts, visits - FRAME_DELAY))
      ensures intact == (old(intact) && |accepted| <= StartOf(starts, visits - FRAME_DELAY - 1) + BUFFER_SIZE)
    {
      hide Mod, History, Holds, DeliveredInOrder, Ascending, Newest;
      seen := ReadFrame();
      ghost var lo := StartOf(starts, visits - FRAME_DELAY);
      ghost var intact' := intact && |accepted| <= lo + BUFFER_SIZE;
      DeliveredAfterVisit(accepted, starts, visits, delivered, intact, seen, intact');
      visits := visits + 1;
      delivered := delivered + seen;
      intact := intact';
    }

    /** Equal cursors mean an empty frame: a frame never holds BUFFER_SIZE entries. */
    lemma EqualCursorsMeanEmpty(p: int)
      requires Valid() && p < |starts|
      ensures Mod(StartOf(starts, p - 1)) == Mod(StartOf(starts, p)) <==> StartOf(starts, p - 1) == StartOf(starts, p)
    {
      hide History, Holds, DeliveredInOrder, Ascending;
      AscendingAt(starts, |accepted|, p);
      var a, b := StartOf(starts, p - 1), StartOf(starts, p);
      if a < b { DistinctSlots(a, b); }
    }
  }
}
