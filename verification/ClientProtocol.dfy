/**
 The in-flight bookkeeping of ClientImpl (externals/httplib/httplib.h): threads call send, which may
 call itself again for a redirect or an authentication retry, while any thread may call stop.

 Two mutexes: the recursive request mutex is held by a thread during its whole send; the socket
 mutex guards short sections, each of which is one step here.
 */
module ClientProtocol {
  import opened Text

  type Tid = nat

  /** A call of send: before send_ marks the request, while the request is marked in flight, after send_
      has returned.  An attempt that fails in a certain way is made once more. */
  datatype Frame = Entered(attempt: nat) | InFlight(attempt: nat) | Returned(attempt: nat)

  /** holder and depth are the recursive request mutex; the last four fields are those the socket mutex
      protects; stacks are the calls of send each thread is in, innermost last. */
  datatype Client = Client(holder: Option<Tid>, depth: nat, stacks: map<Tid, seq<Frame>>,
                           inFlight: nat, from: Option<Tid>, shouldClose: bool, open: bool)

  function Initial(): Client { Client(None, 0, map[], 0, None, false, false) }

  function Stack(s: Client, t: Tid): seq<Frame> { if t in s.stacks then s.stacks[t] else [] }

  /** How connecting goes when a new connection is needed: made, not made, or given up after it was made. */
  datatype Connect = Connected | NotConnected | GivenUp

  datatype Step =
    | Lock(t: Tid)                                    // enter send: lock the request mutex
    | Begin(t: Tid, alive: bool, connect: Connect)    // first section of send_
    | HandlerClose(t: Tid)                            // the response says Connection: close
    | Finish(t: Tid, closeConnection: bool, ok: bool) // last section of send_
    | Retry(t: Tid)                                   // second attempt in the same send
    | Unlock(t: Tid)                                  // leave send
    | Stop(t: Tid)                                    // stop, by any thread at any time

  predicate TopIs(s: Client, t: Tid, p: Frame -> bool) {
    var k := Stack(s, t);
    k != [] && p(k[|k| - 1])
  }

  predicate Enabled(s: Client, a: Step) {
    match a
    case Lock(t) =>
      && (s.holder == None || s.holder == Some(t))
      && (Stack(s, t) == [] || TopIs(s, t, (f: Frame) => f.InFlight?))
    case Begin(t, alive, _) => TopIs(s, t, (f: Frame) => f.Entered?)
    case HandlerClose(t) => TopIs(s, t, (f: Frame) => f.InFlight?)
    case Finish(t, _, _) => TopIs(s, t, (f: Frame) => f.InFlight?)
    case Retry(t) => TopIs(s, t, (f: Frame) => f.Returned? && f.attempt == 1)
    case Unlock(t) => TopIs(s, t, (f: Frame) => f.Returned?)
    case Stop(_) => true
  }

  function SetTop(s: Client, t: Tid, f: Frame): Client
    requires Stack(s, t) != []
  {
    var k := Stack(s, t);
    s.(stacks := s.stacks[t := k[|k| - 1 := f]])
  }

  function Attempt(s: Client, t: Tid): nat
    requires Stack(s, t) != []
  {
    Stack(s, t)[|Stack(s, t)| - 1].attempt
  }

  /** shutdown_ssl, shutdown_socket, close_socket: what is left is a closed socket. */
  function Close(s: Client): Client { s.(open := false) }

  /** The first section of send_ up to the point where the socket is known to be connected or not. */
  function Connecting(s: Client, alive: bool, connect: Connect): Client {
    var s1 := s.(shouldClose := false);
    if s.open && alive then s1 else s1.(open := connect.Connected?)
  }

  /** The marking at the end of the first section. */
  function Mark(s: Client, t: Tid): Client
    requires Stack(s, t) != []
  {
    SetTop(s, t, InFlight(Attempt(s, t))).(inFlight := s.inFlight + 1, from := Some(t))
  }

  /** The unmarking at the start of the last section; the counter is unsigned. */
  function Unmark(s: Client, t: Tid): Client
    requires Stack(s, t) != []
  {
    var n: nat := if s.inFlight == 0 then 0xFFFF_FFFF_FFFF_FFFF else s.inFlight - 1;
    SetTop(s, t, Returned(Attempt(s, t))).(inFlight := n, from := if n == 0 then None else s.from)
  }

  function Apply(s: Client, a: Step): Client
    requires Enabled(s, a)
  {
    match a
    case Lock(t) => s.(holder := Some(t), depth := s.depth + 1, stacks := s.stacks[t := Stack(s, t) + [Entered(1)]])
    case Begin(t, alive, connect) =>
      var c := Connecting(s, alive, connect);
      if c.open then Mark(c, t) else SetTop(c, t, Returned(Attempt(s, t)))
    case HandlerClose(t) => Close(s)
    case Finish(t, closeConnection, ok) =>
      var c := Unmark(s, t);
      if c.shouldClose || closeConnection || !ok then Close(c) else c
    case Retry(t) => SetTop(s, t, Entered(2))
    case Unlock(t) =>
      var k := Stack(s, t);
      var d: nat := if s.depth == 0 then 0 else s.depth - 1;
      s.(stacks := s.stacks[t := k[..|k| - 1]], depth := d, holder := if d == 0 then None else s.holder)
    case Stop(t) => if s.inFlight > 0 then s.(shouldClose := true) else Close(s)
  }

  function Actor(a: Step): Tid { a.t }

  /** The state in which the step calls shutdown_ssl and close_socket, if it does: after the fields have
      been updated so far. */
  function ClosesIn(s: Client, a: Step): Option<Client>
    requires Enabled(s, a)
  {
    match a
    case Begin(t, alive, connect) =>
      if (s.open && !alive) || (!(s.open && alive) && connect.GivenUp?) then Some(s.(shouldClose := false)) else None
    case HandlerClose(t) => Some(s)
    case Finish(t, closeConnection, ok) =>
      var c := Unmark(s, t);
      if c.shouldClose || closeConnection || !ok then Some(c) else None
    case Stop(t) => if s.inFlight > 0 then None else Some(s)
    case _ => None
  }

  /** Marked requests among the calls of a thread. */
  function Marked(k: seq<Frame>): nat {
    if k == [] then 0 else Marked(k[..|k| - 1]) + if k[|k| - 1].InFlight? then 1 else 0
  }

  /** All calls but the innermost are waiting for the one inside them, with their request marked. */
  ghost predicate Nested(k: seq<Frame>) { forall i :: 0 <= i < |k| - 1 ==> k[i].InFlight? }

  /** What every step keeps. */
  ghost predicate Inv(s: Client) {
    && (forall t: Tid :: Some(t) != s.holder ==> Stack(s, t) == [])
    && (s.holder == None ==> s.depth == 0 && s.inFlight == 0)
    && (s.holder.Some? ==>
          var k := Stack(s, s.holder.value);
          s.depth == |k| > 0 && Nested(k) && s.inFlight == Marked(k))
    && s.from == (if s.inFlight == 0 then None else s.holder)
  }

  lemma MarkedTop(k: seq<Frame>, f: Frame)
    requires k != []
    ensures Marked(k[|k| - 1 := f]) == Marked(k[..|k| - 1]) + if f.InFlight? then 1 else 0
  {
    assert k[|k| - 1 := f][..|k| - 1] == k[..|k| - 1];
  }

  lemma MarkedPush(k: seq<Frame>, f: Frame)
    ensures Marked(k + [f]) == Marked(k) + if f.InFlight? then 1 else 0
  {
    assert (k + [f])[..|k|] == k;
  }

  lemma SetTopKeeps(s: Client, t: Tid, f: Frame, r: Client)
    requires Inv(s) && Stack(s, t) != [] && r.stacks == SetTop(s, t, f).stacks && r.holder == s.holder && r.depth == s.depth
    requires r.inFlight == Marked(Stack(s, t)[..|Stack(s, t)| - 1]) + if f.InFlight? then 1 else 0
    requires r.from == if r.inFlight == 0 then None else s.holder
    ensures Inv(r)
  {
    MarkedTop(Stack(s, t), f);
  }

  lemma StepKeepsInv(s: Client, a: Step)
    requires Inv(s) && Enabled(s, a)
    ensures Inv(Apply(s, a))
  {
    hide Marked;
    var r := Apply(s, a);
    match a
    case Lock(t) => LockKeeps(s, t, r);
    case Begin(t, alive, connect) =>
      var c := Connecting(s, alive, connect);
      TopCounts(s, t);
      SetTopKeeps(s, t, if c.open then InFlight(Attempt(s, t)) else Returned(Attempt(s, t)), r);
    case HandlerClose(t) =>
    case Finish(t, _, _) =>
      TopCounts(s, t);
      SetTopKeeps(s, t, Returned(Attempt(s, t)), r);
    case Retry(t) =>
      TopCounts(s, t);
      SetTopKeeps(s, t, Entered(2), r);
    case Unlock(t) => UnlockKeeps(s, t, r);
    case Stop(t) =>
  }

  lemma TopCounts(s: Client, t: Tid)
    requires Inv(s) && Stack(s, t) != []
    ensures var k := Stack(s, t);
            s.holder == Some(t) && s.inFlight == Marked(k[..|k| - 1]) + if k[|k| - 1].InFlight? then 1 else 0
  {}

  lemma LockKeeps(s: Client, t: Tid, r: Client)
    requires Inv(s) && Enabled(s, Lock(t)) && r == Apply(s, Lock(t))
    ensures Inv(r)
  {
    var k := Stack(s, t);
    MarkedPush(k, Entered(1));
    assert Stack(r, t) == k + [Entered(1)];
    if s.holder == None { assert k == [] && Marked(k) == 0; }
  }

  lemma UnlockKeeps(s: Client, t: Tid, r: Client)
    requires Inv(s) && Enabled(s, Unlock(t)) && r == Apply(s, Unlock(t))
    ensures Inv(r)
  {
    TopCounts(s, t);
    var k := Stack(s, t);
    assert Stack(r, t) == k[..|k| - 1];
    assert |k| == 1 ==> Marked(k[..0]) == 0;
  }

  /** s is reached by the steps, in any interleaving of the threads. */
  ghost predicate Reaches(steps: seq<Step>, s: Client)
    decreases |steps|
  {
    if steps == [] then s == Initial()
    else
      var last := steps[|steps| - 1];
      exists r :: Reaches(steps[..|steps| - 1], r) && Enabled(r, last) && s == Apply(r, last)
  }

  lemma {:induction false} ReachableInv(steps: seq<Step>, s: Client)
    requires Reaches(steps, s)
    ensures Inv(s)
    decreases |steps|
  {
    if steps != [] {
      var last := steps[|steps| - 1];
      var r :| Reaches(steps[..|steps| - 1], r) && Enabled(r, last) && s == Apply(r, last);
      ReachableInv(steps[..|steps| - 1], r);
      StepKeepsInv(r, last);
    }
  }

  /** No request of a thread other than t is in flight. */
  ghost predicate OnlyInFlightFrom(s: Client, t: Tid) { forall u: Tid :: u != t ==> Marked(Stack(s, u)) == 0 }

  /** In every interleaving, the counter is the number of marked calls of the thread holding the request
      mutex, and a socket is closed only with nothing in flight or, with requests in flight, by the very
      thread they all belong to: the assertions of shutdown_ssl and close_socket hold. */
  lemma CloseIsSafe(steps: seq<Step>, s: Client, a: Step)
    requires Reaches(steps, s) && Enabled(s, a)
    ensures s.inFlight == if s.holder == None then 0 else Marked(Stack(s, s.holder.value))
    ensures ClosesIn(s, a).Some? ==> SafeToClose(ClosesIn(s, a).value, Actor(a))
  {
    hide SafeToClose, Marked, Inv;
    ReachableInv(steps, s);
    HolderCounts(s);
    match a
    case Begin(t, alive, connect) => BeginClosesSafely(s, t, alive, connect);
    case HandlerClose(t) => HandlerClosesSafely(s, t);
    case Finish(t, closeConnection, ok) => FinishClosesSafely(s, t, closeConnection, ok);
    case Stop(t) => if s.inFlight == 0 { NobodyInFlight(s, t); }
    case Lock(_) =>
    case Retry(_) =>
    case Unlock(_) =>
  }

  /** What shutdown_ssl and close_socket assert, and that it means what their comments say. */
  ghost predicate SafeToClose(c: Client, t: Tid) {
    (c.inFlight == 0 || c.from == Some(t)) && OnlyInFlightFrom(c, t)
  }

  lemma HolderCounts(s: Client)
    requires Inv(s)
    ensures s.inFlight == if s.holder == None then 0 else Marked(Stack(s, s.holder.value))
  {}

  lemma BeginClosesSafely(s: Client, t: Tid, alive: bool, connect: Connect)
    requires Inv(s) && Enabled(s, Begin(t, alive, connect))
    ensures SafeToClose(s.(shouldClose := false), t)
  {
    hide Marked;
    TopCounts(s, t);
    OthersIdle(s, t, s.(shouldClose := false));
  }

  lemma HandlerClosesSafely(s: Client, t: Tid)
    requires Inv(s) && Enabled(s, HandlerClose(t))
    ensures SafeToClose(s, t)
  {
    hide Marked;
    TopCounts(s, t);
    OthersIdle(s, t, s);
  }

  lemma FinishClosesSafely(s: Client, t: Tid, closeConnection: bool, ok: bool)
    requires Inv(s) && Enabled(s, Finish(t, closeConnection, ok))
    ensures SafeToClose(Unmark(s, t), t)
  {
    hide Marked;
    TopCounts(s, t);
    var c := Unmark(s, t);
    assert forall u: Tid :: u != t ==> Stack(c, u) == Stack(s, u);
    OthersIdle(s, t, c);
  }

  lemma OthersIdle(s: Client, t: Tid, c: Client)
    requires Inv(s) && s.holder == Some(t) && forall u: Tid :: u != t ==> Stack(c, u) == Stack(s, u)
    ensures OnlyInFlightFrom(c, t)
  {}

  lemma NobodyInFlight(s: Client, t: Tid)
    requires Inv(s) && s.inFlight == 0
    ensures SafeToClose(s, t)
  {}

  /** The remaining assertions: marking finds requests in flight only from its own thread, and unmarking
      never takes the counter below zero. */
  lemma CountingIsSafe(steps: seq<Step>, s: Client, a: Step)
    requires Reaches(steps, s) && Enabled(s, a)
    ensures a.Begin? && s.inFlight > 1 ==> s.from == Some(Actor(a))
    ensures a.Finish? ==> s.inFlight > 0
  {
    ReachableInv(steps, s);
    match a
    case Begin(t, _, _) => TopCounts(s, t);
    case Finish(t, _, _) => TopCounts(s, t);
    case _ =>
  }

  // ----- what becomes of a stop request ------------------------------------------------

  /** r is reached from s by the steps. */
  ghost predicate Continues(s: Client, steps: seq<Step>, r: Client)
    decreases |steps|
  {
    if steps == [] then r == s
    else Enabled(s, steps[0]) && Continues(Apply(s, steps[0]), steps[1..], r)
  }

  /** After stop has been called during a request, the next request to finish closes the socket, as long as
      no send_ begins in between. */
  lemma {:induction false} StopIsHonoured(s: Client, steps: seq<Step>, r: Client, t: Tid, closeConnection: bool, ok: bool)
    requires s.shouldClose && Continues(s, steps, r) && (forall i :: 0 <= i < |steps| ==> !steps[i].Begin?)
    requires Enabled(r, Finish(t, closeConnection, ok))
    ensures ClosesIn(r, Finish(t, closeConnection, ok)).Some? && !Apply(r, Finish(t, closeConnection, ok)).open
    decreases |steps|
  {
    if steps != [] {
      StopIsHonoured(Apply(s, steps[0]), steps[1..], r, t, closeConnection, ok);
    }
  }

  /** Exactly then: a stop request is remembered, until the next one, if and only if no send_ begins. */
  lemma {:induction false} StopIsRememberedExactly(s: Client, steps: seq<Step>, r: Client)
    requires Continues(s, steps, r) && (forall i :: 0 <= i < |steps| ==> !steps[i].Stop?)
    ensures r.shouldClose <==> s.shouldClose && forall i :: 0 <= i < |steps| ==> !steps[i].Begin?
    decreases |steps|
  {
    if steps != [] {
      var later := steps[1..];
      assert forall i :: 0 < i < |steps| ==> steps[i] == later[i - 1];
      assert forall i :: 0 <= i < |later| ==> later[i] == steps[i + 1];
      StopIsRememberedExactly(Apply(s, steps[0]), later, r);
    }
  }

  // ----- when the connection is open ------------------------------------------------

  /** A send_ that makes a new connection, if it needs one. */
  predicate Connects(a: Step) { a.Begin? && a.connect.Connected? }

  /** What a step does to the connection: it is closed by exactly the calls of close_socket, and only a
      send_ can leave it open after them or open it. */
  lemma StepAndConnection(s: Client, a: Step)
    requires Enabled(s, a)
    ensures ClosesIn(s, a).Some? && !a.Begin? ==> !Apply(s, a).open
    ensures s.open && !Apply(s, a).open ==> ClosesIn(s, a).Some?
    ensures !s.open && Apply(s, a).open ==> Connects(a)
    ensures a.Begin? ==> (Apply(s, a).open <==> (s.open && a.alive) || a.connect.Connected?)
  {}

  /** Steps that close the connection for certain. */
  predicate ClosesForSure(s: Client, a: Step) {
    a.HandlerClose? || (a.Finish? && (a.closeConnection || !a.ok)) || (a.Stop? && s.inFlight == 0)
  }

  /** A closed connection stays closed until a send_ connects. */
  lemma {:induction false} ClosedStays(s: Client, steps: seq<Step>, r: Client)
    requires !s.open && Continues(s, steps, r) && forall i :: 0 <= i < |steps| ==> !Connects(steps[i])
    ensures !r.open
    decreases |steps|
  {
    if steps != [] {
      StepAndConnection(s, steps[0]);
      ClosedStays(Apply(s, steps[0]), steps[1..], r);
    }
  }

  /** A request that asked for closing or failed, a response that says so, and a stop with nothing in flight
      leave the connection closed until a send_ connects. */
  lemma CloseLasts(s: Client, a: Step, steps: seq<Step>, r: Client)
    requires Enabled(s, a) && ClosesForSure(s, a)
    requires Continues(s, [a] + steps, r) && forall i :: 0 <= i < |steps| ==> !Connects(steps[i])
    ensures !r.open
  {
    assert ([a] + steps)[1..] == steps;
    ClosedStays(Apply(s, a), steps, r);
  }

  /** A keep-alive request that succeeds leaves the connection as it was, if stop was not called since the
      last send_ began. */
  lemma FinishKeepsOpen(s: Client, begin: Step, steps: seq<Step>, m: Client, t: Tid)
    requires Enabled(s, begin) && begin.Begin? && Continues(Apply(s, begin), steps, m)
    requires forall i :: 0 <= i < |steps| ==> !steps[i].Begin? && !steps[i].Stop?
    requires Enabled(m, Finish(t, false, true))
    ensures Apply(m, Finish(t, false, true)).open == m.open
  {
    StopIsRememberedExactly(Apply(s, begin), steps, m);
  }

  lemma {:induction false} LastStep(s: Client, steps: seq<Step>, r: Client) returns (m: Client)
    requires Continues(s, steps, r) && steps != []
    ensures var k := |steps| - 1;
            Continues(s, steps[..k], m) && Enabled(m, steps[k]) && r == Apply(m, steps[k])
    decreases |steps|
  {
    hide Apply, Enabled;
    var k := |steps| - 1;
    if k == 0 {
      m := s;
      assert steps[1..] == [] && Continues(Apply(s, steps[0]), [], r);
    } else {
      var later := steps[1..];
      m := LastStep(Apply(s, steps[0]), later, r);
      assert later[|later| - 1] == steps[k];
      assert steps[..k][1..] == later[..|later| - 1];
      assert steps[..k][0] == steps[0];
    }
  }

  function Finishes(steps: seq<Step>): nat {
    if steps == [] then 0 else Finishes(steps[..|steps| - 1]) + if steps[|steps| - 1].Finish? then 1 else 0
  }

  ghost predicate StopWithin(steps: seq<Step>, k: nat) { exists j :: 0 <= j < k && j < |steps| && steps[j].Stop? }

  /** Step i of a run from s does not close the connection, as far as the steps before it tell: it is no
      response that says so, no request that failed, asked for closing or was stopped, and no stop with
      as many requests finished as were in flight. */
  ghost predicate Leaves(s: Client, steps: seq<Step>, i: nat)
    requires i < |steps|
  {
    match steps[i]
    case HandlerClose(_) => false
    case Finish(_, closeConnection, ok) => !closeConnection && ok && !s.shouldClose && !StopWithin(steps, i)
    case Stop(_) => s.inFlight != Finishes(steps[..i])
    case _ => true
  }

  lemma {:induction false} FlightsLeft(s: Client, steps: seq<Step>, r: Client)
    requires Inv(s) && Continues(s, steps, r) && forall i :: 0 <= i < |steps| ==> !steps[i].Begin?
    ensures Inv(r) && r.inFlight + Finishes(steps) == s.inFlight
    ensures r.inFlight > 0 ==> (r.shouldClose <==> s.shouldClose || StopWithin(steps, |steps|))
    decreases |steps|
  {
    hide Inv, Marked;
    if steps != [] {
      var k := |steps| - 1;
      var m := LastStep(s, steps, r);
      FlightsLeft(s, steps[..k], m);
      StepKeepsInv(m, steps[k]);
      assert steps[k].Finish? ==> m.inFlight > 0 by {
        if steps[k].Finish? { InFlightCounts(m, steps[k].t); }
      }
      assert r.inFlight == m.inFlight - if steps[k].Finish? then 1 else 0;
      assert StopWithin(steps, |steps|) <==> StopWithin(steps[..k], k) || steps[k].Stop? by { StopWithinNext(steps); }
    }
  }

  lemma StopWithinNext(steps: seq<Step>)
    requires steps != []
    ensures var k := |steps| - 1;
            (StopWithin(steps, |steps|) <==> StopWithin(steps[..k], k) || steps[k].Stop?)
            && (StopWithin(steps[..k], k) <==> StopWithin(steps, k))
  {
    var k := |steps| - 1;
    if StopWithin(steps, k) {
      var j :| 0 <= j < k && j < |steps| && steps[j].Stop?;
      assert steps[..k][j].Stop?;
    }
  }

  lemma InFlightCounts(s: Client, t: Tid)
    requires Inv(s) && TopIs(s, t, (f: Frame) => f.InFlight?)
    ensures s.inFlight > 0
  {
    TopCounts(s, t);
  }

  /** While no send_ begins, the connection stays open exactly as long as no step closes it: the steps alone
      tell which do. */
  lemma {:induction false} StaysOpenExactly(s: Client, steps: seq<Step>, r: Client)
    requires Inv(s) && Continues(s, steps, r) && forall i :: 0 <= i < |steps| ==> !steps[i].Begin?
    ensures r.open <==> s.open && forall i :: 0 <= i < |steps| ==> Leaves(s, steps, i)
    decreases |steps|
  {
    hide Inv, Marked, Leaves;
    if steps != [] {
      var k := |steps| - 1;
      var m := LastStep(s, steps, r);
      StaysOpenExactly(s, steps[..k], m);
      FlightsLeft(s, steps[..k], m);
      LeavesBefore(s, steps);
      LastLeaves(s, steps, m);
    }
  }

  lemma LeavesBefore(s: Client, steps: seq<Step>)
    requires steps != []
    ensures var k := |steps| - 1;
            (forall i :: 0 <= i < |steps| ==> Leaves(s, steps, i))
            <==> (forall i :: 0 <= i < k ==> Leaves(s, steps[..k], i)) && Leaves(s, steps, k)
  {
    var before := steps[..|steps| - 1];
    forall i | 0 <= i < |steps| - 1 ensures Leaves(s, steps, i) == Leaves(s, before, i) {
      assert before[..i] == steps[..i] && before[i] == steps[i];
      assert StopWithin(steps, i) <==> StopWithin(before, i) by {
        if StopWithin(steps, i) {
          var j :| 0 <= j < i && j < |steps| && steps[j].Stop?;
          assert before[j].Stop?;
        }
      }
    }
  }

  lemma LastLeaves(s: Client, steps: seq<Step>, m: Client)
    requires steps != [] && Enabled(m, steps[|steps| - 1]) && !steps[|steps| - 1].Begin? && Inv(m)
    requires m.inFlight + Finishes(steps[..|steps| - 1]) == s.inFlight
    requires m.inFlight > 0 ==> (m.shouldClose <==> s.shouldClose || StopWithin(steps[..|steps| - 1], |steps| - 1))
    ensures Apply(m, steps[|steps| - 1]).open <==> m.open && Leaves(s, steps, |steps| - 1)
  {
    hide Inv, Marked;
    StopWithinNext(steps);
    var last := steps[|steps| - 1];
    if last.Finish? { InFlightCounts(m, last.t); }
  }

  // ----- how often a request is tried ------------------------------------------------

  /** Attempts that a call of send has left. */
  function Left(f: Frame): nat {
    var used := if f.Entered? then f.attempt - 1 else f.attempt;
    if used < 2 then 2 - used else 0
  }

  function AllLeft(k: seq<Frame>): nat { if k == [] then 0 else AllLeft(k[..|k| - 1]) + Left(k[|k| - 1]) }

  function Sends(steps: seq<Step>, t: Tid): nat {
    if steps == [] then 0 else Sends(steps[1..], t) + if steps[0] == Lock(t) then 1 else 0
  }

  function Tries(steps: seq<Step>, t: Tid): nat {
    if steps == [] then 0 else Tries(steps[1..], t) + if steps[0].Begin? && steps[0].t == t then 1 else 0
  }

  ghost predicate AttemptsCounted(s: Client, t: Tid) { forall i :: 0 <= i < |Stack(s, t)| ==> 1 <= Stack(s, t)[i].attempt <= 2 }

  lemma AllLeftTop(k: seq<Frame>, f: Frame)
    requires k != []
    ensures AllLeft(k[|k| - 1 := f]) == AllLeft(k) - Left(k[|k| - 1]) + Left(f)
  {
    assert k[|k| - 1 := f][..|k| - 1] == k[..|k| - 1];
  }

  lemma AllLeftPush(k: seq<Frame>, f: Frame)
    ensures AllLeft(k + [f]) == AllLeft(k) + Left(f)
  {
    assert (k + [f])[..|k|] == k;
  }

  /** What a step does to the calls of a thread. */
  lemma StepOnStack(s: Client, a: Step, t: Tid)
    requires Enabled(s, a)
    ensures var k, k' := Stack(s, t), Stack(Apply(s, a), t);
            || (k' == k && !(a.t == t && (a.Lock? || a.Begin?)))
            || (a == Lock(t) && k' == k + [Entered(1)])
            || (a == Unlock(t) && k != [] && k' == k[..|k| - 1])
            || (k != [] && k' == k[|k| - 1 := k'[|k| - 1]] && a != Lock(t) && Replaces(a, t, k[|k| - 1], k'[|k| - 1]))
  {}

  predicate Replaces(a: Step, t: Tid, f: Frame, g: Frame) {
    if a.Begin? && a.t == t then f.Entered? && !g.Entered? && g.attempt == f.attempt
    else (f.InFlight? && g == Returned(f.attempt)) || (f == Returned(1) && g == Entered(2))
  }

  lemma StepTries(s: Client, a: Step, t: Tid)
    requires Enabled(s, a) && AttemptsCounted(s, t)
    ensures AttemptsCounted(Apply(s, a), t)
    ensures AllLeft(Stack(Apply(s, a), t)) + (if a.Begin? && a.t == t then 1 else 0)
            <= AllLeft(Stack(s, t)) + if a == Lock(t) then 2 else 0
  {
    hide Apply, Enabled, Stack, AllLeft;
    StepOnStack(s, a, t);
    var k := Stack(s, t);
    var k' := Stack(Apply(s, a), t);
    if a == Lock(t) {
      AllLeftPush(k, Entered(1));
    } else if a == Unlock(t) && k != [] && k' == k[..|k| - 1] {
      assert k == k[..|k| - 1] + [k[|k| - 1]];
      AllLeftPush(k[..|k| - 1], k[|k| - 1]);
    } else if k != [] && |k'| == |k| {
      AllLeftTop(k, k'[|k| - 1]);
    }
  }

  /** Every call of send makes at most two attempts: over any run a thread begins no more than twice as many
      as it has called send. */
  lemma {:induction false} TwoAttempts(s: Client, steps: seq<Step>, r: Client, t: Tid)
    requires Continues(s, steps, r) && AttemptsCounted(s, t)
    ensures Tries(steps, t) <= AllLeft(Stack(s, t)) + 2 * Sends(steps, t)
    ensures s == Initial() ==> Tries(steps, t) <= 2 * Sends(steps, t)
    decreases |steps|
  {
    hide Apply, Enabled;
    if steps != [] {
      StepTries(s, steps[0], t);
      TwoAttempts(Apply(s, steps[0]), steps[1..], r, t);
    }
  }

  /** A request of thread 0 is in flight and stop has been called. */
  function Stopped(): Client { Client(Some(0), 1, map[0 := [InFlight(1)]], 1, Some(0), true, true) }

  /** It is a state that occurs. */
  lemma StoppedIsReached()
    ensures Continues(Initial(), [Lock(0), Begin(0, false, Connected), Stop(1)], Stopped())
  {
    var steps := [Lock(0), Begin(0, false, Connected), Stop(1)];
    var a := Client(Some(0), 1, map[0 := [Entered(1)]], 0, None, false, false);
    var b := Stopped().(shouldClose := false);
    assert Apply(Initial(), Lock(0)) == a by { assert [] + [Entered(1)] == [Entered(1)]; }
    assert [Entered(1)][0 := InFlight(1)] == [InFlight(1)];
    assert Apply(a, Begin(0, false, Connected)) == b;
    assert Apply(b, Stop(1)) == Stopped();
    assert Continues(b, [Stop(1)], Stopped());
    assert steps[1..][1..] == [Stop(1)];
    assert steps[1..][0] == Begin(0, false, Connected);
    assert Continues(a, steps[1..], Stopped());
  }

  /** One more step. */
  lemma {:induction false} ContinuesStep(s: Client, steps: seq<Step>, m: Client, a: Step, r: Client)
    requires Continues(s, steps, m) && Enabled(m, a) && r == Apply(m, a)
    ensures Continues(s, steps + [a], r)
    decreases |steps|
  {
    if steps == [] {
      assert steps + [a] == [a] && [a][1..] == [];
    } else {
      assert (steps + [a])[1..] == steps[1..] + [a];
      ContinuesStep(Apply(s, steps[0]), steps[1..], m, a, r);
    }
  }

  /** A redirect made by the request that stop was meant for: send again, connect anew, finish, return. */
  function Redirect(): seq<Step> {
    [] + [Lock(0)] + [Begin(0, false, Connected)] + [Finish(0, false, true)] + [Unlock(0)]
  }

  /** Any send_ that begins clears the request, also one nested in the request stop was meant for: with a
      redirect that starts after stop and so connects anew, neither the inner nor the outer request closes
      the socket, and both have finished with the connection open. */
  lemma StopIsForgotten()
    ensures Continues(Stopped(), Redirect() + [Finish(0, false, true)],
                      Client(Some(0), 1, map[0 := [Returned(1)]], 0, None, false, true))
  {
    var d := Client(Some(0), 2, map[0 := [InFlight(1), Entered(1)]], 1, Some(0), true, true);
    var e := Client(Some(0), 2, map[0 := [InFlight(1), InFlight(1)]], 2, Some(0), false, true);
    var f := Client(Some(0), 2, map[0 := [InFlight(1), Returned(1)]], 1, Some(0), false, true);
    var h := Client(Some(0), 1, map[0 := [InFlight(1)]], 1, Some(0), false, true);
    var r := Client(Some(0), 1, map[0 := [Returned(1)]], 0, None, false, true);
    assert Apply(Stopped(), Lock(0)) == d by { assert [InFlight(1)] + [Entered(1)] == [InFlight(1), Entered(1)]; }
    assert Apply(d, Begin(0, false, Connected)) == e by { assert [InFlight(1), Entered(1)][1 := InFlight(1)] == [InFlight(1), InFlight(1)]; }
    assert Apply(e, Finish(0, false, true)) == f by { assert [InFlight(1), InFlight(1)][1 := Returned(1)] == [InFlight(1), Returned(1)]; }
    assert Apply(f, Unlock(0)) == h by { assert [InFlight(1), Returned(1)][..1] == [InFlight(1)]; }
    assert Apply(h, Finish(0, false, true)) == r by { assert [InFlight(1)][0 := Returned(1)] == [Returned(1)]; }
    ghost var s := Stopped();
    ContinuesStep(s, [], s, Lock(0), d);
    ContinuesStep(s, [] + [Lock(0)], d, Begin(0, false, Connected), e);
    ContinuesStep(s, [] + [Lock(0)] + [Begin(0, false, Connected)], e, Finish(0, false, true), f);
    ContinuesStep(s, [] + [Lock(0)] + [Begin(0, false, Connected)] + [Finish(0, false, true)], f, Unlock(0), h);
    ContinuesStep(s, Redirect(), h, Finish(0, false, true), r);
  }
}
