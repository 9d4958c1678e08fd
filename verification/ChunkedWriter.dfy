/**
 The writing side of the chunked coding (externals/httplib/httplib.h).
 */
module ChunkedWriter {
  import opened Numbers
  import opened Sequences
  import opened Text
  import opened Urls
  import opened Chunked

  // ----- what a provider does ---------------------------------------------------

  /** A call on the data sink. */
  datatype Action = Write(block: string) | Done(trailers: seq<Param>)

  /** One turn of the writing loop: whether a shutdown is noticed before it, the calls the
      content provider makes on the sink, and what it returns. */
  datatype Turn = Turn(shuttingDown: bool, actions: seq<Action>, result: bool)

  datatype Error = Success | WriteError | Canceled

  function Chunk(block: string): string { Hex(|block|) + CRLF + block + CRLF }

  function FieldLine(f: Param): string { f.0 + ": " + f.1 + CRLF }

  function FieldLines(fs: seq<Param>): string {
    if fs == [] then [] else FieldLine(fs[0]) + FieldLines(fs[1..])
  }

  function Finish(fs: seq<Param>): string { "0\r\n" + FieldLines(fs) + CRLF }

  /** The bytes a sink call puts on the wire. */
  function Emit(a: Action): string {
    match a
    case Write(b) => if b == [] then [] else Chunk(b)
    case Done(fs) => Finish(fs)
  }

  function EmitAll(acts: seq<Action>): string {
    if acts == [] then [] else Emit(acts[0]) + EmitAll(acts[1..])
  }

  /** Whether the loop may go on after these calls: the last one decides. */
  function Available(before: bool, acts: seq<Action>): bool {
    if acts == [] then before
    else match acts[|acts| - 1] case Write(b) => b != [] case Done(_) => false
  }

  /** The sink calls of all the turns the loop takes, and how it ends when no write fails.
      A provider with nothing further to say is one that returns false. */
  function Session(turns: seq<Turn>, available: bool): (seq<Action>, Error) {
    if !available then ([], Success)
    else if turns == [] then ([], Canceled)
    else if turns[0].shuttingDown then ([], Success)
    else if !turns[0].result then (turns[0].actions, Canceled)
    else
      var later := Session(turns[1..], Available(true, turns[0].actions));
      (turns[0].actions + later.0, later.1)
  }

  lemma {:induction false} EmitAllSplits(a: seq<Action>, b: seq<Action>)
    ensures EmitAll(a + b) == EmitAll(a) + EmitAll(b)
  {
    if a == [] {
      assert a + b == b;
    } else {
      assert (a + b)[1..] == a[1..] + b;
      EmitAllSplits(a[1..], b);
      Assoc(Emit(a[0]), EmitAll(a[1..]), EmitAll(b));
    }
  }

  // ----- writing ------------------------------------------------------------------

  /** The sending end: bytes accepted so far, and scripts for what is_writable answers and how
      many bytes each write takes (negative for an error). */
  class OutStream {
    var sent: string
    var writable: seq<bool>
    var script: seq<int>
    var failed: bool

    constructor (writable: seq<bool>, script: seq<int>)
      ensures sent == [] && this.writable == writable && this.script == script && !failed
    {
      sent, this.writable, this.script, failed := [], writable, script, false;
    }

    ghost predicate Steady() reads this {
      !failed && (forall i :: 0 <= i < |script| ==> script[i] >= 0)
      && (forall i :: 0 <= i < |writable| ==> writable[i])
    }

    method IsWritable() returns (r: bool)
      modifies this`writable, this`failed
      ensures failed == (old(failed) || !r)
      ensures old(Steady()) ==> Steady()
    {
      r := true;
      if writable != [] {
        r, writable := writable[0], writable[1..];
      }
      if !r { failed := true; }
    }

    method Write(data: string) returns (n: int)
      modifies this`sent, this`script, this`failed
      ensures n == -1 || 0 <= n <= |data|
      ensures failed == (old(failed) || n == -1)
      ensures sent == old(sent) + if n == -1 then [] else data[..n]
      ensures n == 0 ==> data == [] || |script| < |old(script)|
      ensures |script| <= |old(script)|
      ensures old(Steady()) ==> Steady()
    {
      n := |data|;
      if script != [] {
        var reply := script[0];
        script := script[1..];
        if reply < 0 { failed := true; assert sent + [] == sent; return -1; }
        n := Min(reply, n);
      }
      sent := sent + data[..n];
    }
  }

  /** write_data: keep writing until every byte is taken; part is what was taken. */
  method WriteData(strm: OutStream, d: string) returns (ok: bool, ghost part: string)
    modifies strm
    ensures strm.failed == (old(strm.failed) || !ok)
    ensures strm.sent == old(strm.sent) + part && part <= d && (ok ==> part == d)
    ensures old(strm.Steady()) ==> strm.Steady()
  {
    var offset := 0;
    while offset < |d|
      invariant 0 <= offset <= |d|
      invariant strm.sent == old(strm.sent) + d[..offset]
      invariant strm.failed == old(strm.failed)
      invariant old(strm.Steady()) ==> strm.Steady()
      decreases |d| - offset, |strm.script|
    {
      var length := strm.Write(d[offset..]);
      if length < 0 { assert d[..offset] + [] == d[..offset]; return false, d[..offset]; }
      assert d[..offset] + d[offset..][..length] == d[..offset + length];
      offset := offset + length;
    }
    assert d[..|d|] == d;
    return true, d;
  }

  /** The sink's write on a stream that has not failed: one chunk, or nothing for no data. */
  method SinkWrite(strm: OutStream, block: string) returns (ok: bool, ghost part: string)
    modifies strm
    ensures strm.failed == (old(strm.failed) || !ok)
    ensures strm.sent == old(strm.sent) + part && part <= Emit(Write(block)) && (ok ==> part == Emit(Write(block)))
    ensures old(strm.Steady()) ==> strm.Steady()
  {
    if block == [] {
      assert strm.sent + [] == strm.sent;
      return true, [];
    }
    var size := FromIToHex(|block|);
    var writable := strm.IsWritable();
    if !writable {
      assert strm.sent + [] == strm.sent;
      return false, [];
    }
    ok, part := WriteData(strm, size + CRLF + block + CRLF);
  }

  /** A prefix of each of the parts, one after the other. */
  ghost predicate Torn(w: string, parts: seq<string>) {
    if parts == [] then w == []
    else exists n: nat :: TornAt(w, parts, n) && Torn(w[n..], parts[1..])
  }

  ghost predicate TornAt(w: string, parts: seq<string>, n: nat)
    requires parts != []
  {
    n <= |w| && w[..n] <= parts[0]
  }

  lemma {:induction false} TornMore(w: string, parts: seq<string>, v: string, part: string)
    requires Torn(w, parts) && v <= part
    ensures Torn(w + v, parts + [part])
    decreases |parts|
  {
    var ps, u := parts + [part], w + v;
    if parts == [] {
      assert u == v && ps[1..] == [] && u[|v|..] == [] && u[..|v|] == v;
      assert TornAt(u, ps, |v|) && Torn(u[|v|..], ps[1..]);
    } else {
      var n: nat :| TornAt(w, parts, n) && Torn(w[n..], parts[1..]);
      TornMore(w[n..], parts[1..], v, part);
      assert u[n..] == w[n..] + v && u[..n] == w[..n] && ps[1..] == parts[1..] + [part];
      assert TornAt(u, ps, n);
    }
  }

  /** The writes that make up a sink call's bytes. */
  function Parts(a: Action): seq<string> {
    match a
    case Write(b) => if b == [] then [] else [Chunk(b)]
    case Done(fs) => FinishParts(fs)
  }

  function FinishParts(fs: seq<Param>): seq<string> {
    ["0\r\n"] + FieldParts(fs) + [CRLF]
  }

  function FieldParts(fs: seq<Param>): seq<string> {
    if fs == [] then [] else FieldParts(fs[..|fs| - 1]) + [FieldLine(fs[|fs| - 1])]
  }

  /** done_with_trailer: a failed write does not stop the later ones, but it is remembered. */
  method SinkDone(strm: OutStream, trailers: seq<Param>) returns (ok: bool, ghost part: string)
    modifies strm
    ensures strm.failed == (old(strm.failed) || !ok)
    ensures strm.sent == old(strm.sent) + part && Torn(part, FinishParts(trailers))
    ensures ok ==> part == Emit(Done(trailers))
    ensures old(strm.Steady()) ==> strm.Steady()
  {
    hide Torn, FieldLine;
    ok, part := WriteData(strm, "0\r\n");
    ghost var was, lines := strm.sent, FieldLines(trailers);
    assert Torn(part, ["0\r\n"] + FieldParts([])) by {
      NothingTorn();
      TornMore([], [], part, "0\r\n");
      assert [] + part == part && [] + ["0\r\n"] == ["0\r\n"] + FieldParts([]);
    }
    assert trailers[0..] == trailers && trailers[..0] == [];
    for i := 0 to |trailers|
      invariant strm.failed == (old(strm.failed) || !ok)
      invariant strm.sent == old(strm.sent) + part && Torn(part, ["0\r\n"] + FieldParts(trailers[..i]))
      invariant ok ==> part + FieldLines(trailers[i..]) == "0\r\n" + lines
      invariant old(strm.Steady()) ==> strm.Steady()
    {
      var written, more := WriteData(strm, trailers[i].0 + ": " + trailers[i].1 + CRLF);
      if !written { ok := false; }
      FieldIs(trailers[i]);
      NextField(trailers, i);
      TornMore(part, ["0\r\n"] + FieldParts(trailers[..i]), more, FieldLine(trailers[i]));
      Assoc(["0\r\n"], FieldParts(trailers[..i]), [FieldLine(trailers[i])]);
      Assoc(old(strm.sent), part, more);
      Assoc(part, more, FieldLines(trailers[i + 1..]));
      part := part + more;
    }
    assert trailers[..|trailers|] == trailers && trailers[|trailers|..] == [];
    assert ok ==> part == "0\r\n" + lines by { assert part + [] == part; }
    var written, more := WriteData(strm, CRLF);
    if !written { ok := false; }
    TornMore(part, ["0\r\n"] + FieldParts(trailers), more, CRLF);
    Assoc(old(strm.sent), part, more);
    part := part + more;
  }

  lemma NothingTorn()
    ensures Torn([], [])
  {}

  lemma FieldIs(f: Param)
    ensures FieldLine(f) == f.0 + ": " + f.1 + CRLF
  {}

  lemma NextField(fs: seq<Param>, i: nat)
    requires i < |fs|
    ensures FieldLines(fs[i..]) == FieldLine(fs[i]) + FieldLines(fs[i + 1..])
    ensures FieldParts(fs[..i + 1]) == FieldParts(fs[..i]) + [FieldLine(fs[i])]
  {
    assert fs[i..][1..] == fs[i + 1..];
    assert fs[..i + 1][..i] == fs[..i];
  }

  /** part is what is sent when the call number k is the first to fail, w being what that call sent. */
  ghost predicate BrokenAt(part: string, acts: seq<Action>, k: nat, w: string) {
    && k <= |acts| && part == EmitAll(acts[..k]) + w
    && (w == [] || (k < |acts| && Torn(w, Parts(acts[k]))))
  }

  /** All of some calls, then at most fragments of the next one. */
  ghost predicate Broken(part: string, acts: seq<Action>) { exists k: nat, w: string :: BrokenAt(part, acts, k, w) }

  lemma BrokenLater(head: seq<Action>, part: string, acts: seq<Action>)
    requires Broken(part, acts)
    ensures Broken(EmitAll(head) + part, head + acts)
  {
    hide EmitAll, Torn;
    var k: nat, w :| BrokenAt(part, acts, k, w);
    var all := head + acts;
    EmitAllSplits(head, acts[..k]);
    Assoc(EmitAll(head), EmitAll(acts[..k]), w);
    assert all[..|head| + k] == head + acts[..k];
    assert k < |acts| ==> all[|head| + k] == acts[k];
    assert BrokenAt(EmitAll(head) + part, all, |head| + k, w);
  }

  lemma BrokenShorter(part: string, acts: seq<Action>, more: seq<Action>)
    requires Broken(part, acts)
    ensures Broken(part, acts + more)
  {
    hide EmitAll, Torn;
    var k: nat, w :| BrokenAt(part, acts, k, w);
    assert (acts + more)[..k] == acts[..k];
    assert BrokenAt(part, acts + more, k, w);
  }

  lemma BrokenHere(part: string, acts: seq<Action>, k: nat, w: string)
    requires BrokenAt(part, acts, k, w)
    ensures Broken(part, acts)
  {}

  lemma BrokenWrite(block: string, w: string)
    requires w <= Emit(Write(block))
    ensures Torn(w, Parts(Write(block)))
  {
    if block != [] {
      var parts := Parts(Write(block));
      assert w[..|w|] == w && w[|w|..] == [] && parts[1..] == [];
      assert TornAt(w, parts, |w|);
    }
  }

  /** The sink calls of one turn, one at a time. */
  method Act(strm: OutStream, a: Action) returns (ok: bool, available: bool, ghost part: string)
    modifies strm
    ensures strm.failed == (old(strm.failed) || !ok)
    ensures strm.sent == old(strm.sent) + part && Torn(part, Parts(a)) && (ok ==> part == Emit(a))
    ensures available == Available(true, [a])
    ensures old(strm.Steady()) ==> strm.Steady()
  {
    hide Torn, Emit, OutStream.Steady;
    match a
    case Write(block) =>
      available := block != [];
      ok, part := SinkWrite(strm, block);
      BrokenWrite(block, part);
    case Done(trailers) =>
      available := false;
      ok, part := SinkDone(strm, trailers);
  }

  /** The provider's calls of one turn; once one fails the others do nothing. */
  method Perform(strm: OutStream, actions: seq<Action>, before: bool)
    returns (ok: bool, available: bool, ghost part: string)
    requires !strm.failed
    modifies strm
    ensures strm.failed == !ok
    ensures strm.sent == old(strm.sent) + part
    ensures if ok then part == EmitAll(actions) else Broken(part, actions)
    ensures ok ==> available == Available(before, actions)
    ensures old(strm.Steady()) ==> strm.Steady()
  {
    hide Torn, Emit, EmitAll, Broken, BrokenAt, OutStream.Steady;
    ok, available, part := true, before, [];
    ghost var was := strm.sent;
    assert actions[..0] == [] && strm.sent + [] == strm.sent;
    NothingEmitted();
    for i := 0 to |actions|
      invariant strm.failed == !ok && strm.sent == was + part
      invariant if ok then part == EmitAll(actions[..i]) else Broken(part, actions)
      invariant ok ==> available == Available(before, actions[..i])
      invariant old(strm.Steady()) ==> strm.Steady()
    {
      if ok {
        ghost var more;
        ok, available, more := Act(strm, actions[i]);
        OneMoreAction(actions, i, before, part, more, ok);
        Assoc(was, part, more);
        part := part + more;
      }
    }
    assert actions[..|actions|] == actions;
  }

  lemma NothingEmitted()
    ensures EmitAll([]) == []
  {}

  lemma OneMoreAction(actions: seq<Action>, i: nat, before: bool, part: string, more: string, ok: bool)
    requires i < |actions| && part == EmitAll(actions[..i]) && Torn(more, Parts(actions[i]))
    requires ok ==> more == Emit(actions[i])
    ensures ok ==> part + more == EmitAll(actions[..i + 1])
    ensures Broken(part + more, actions)
    ensures Available(before, actions[..i + 1]) == Available(true, [actions[i]])
  {
    var a := actions[i];
    assert actions[..i + 1] == actions[..i] + [a];
    EmitAllSplits(actions[..i], [a]);
    assert [a][1..] == [] && EmitAll([a]) == Emit(a) + [] == Emit(a);
    BrokenHere(part + more, actions, i, more);
  }

  /** write_content_chunked: on a stream that never fails, the bytes of the session; a failure is always
      reported, after all bytes of some calls and at most fragments of the next one. */
  method WriteContentChunked(strm: OutStream, turns: seq<Turn>) returns (ok: bool, error: Error, ghost part: string)
    requires !strm.failed
    modifies strm
    ensures ok == (error == Success) && strm.sent == old(strm.sent) + part
    ensures strm.failed ==> !ok && Broken(part, Session(turns, true).0)
    ensures !strm.failed ==> error == Session(turns, true).1 && part == EmitAll(Session(turns, true).0)
    ensures old(strm.Steady()) ==> strm.Steady()
  {
    hide Broken, EmitAll, OutStream.Steady;
    var available, i := true, 0;
    ghost var goal, done: seq<Action> := Session(turns, true), [];
    ghost var was := strm.sent;
    part := [];
    NothingEmitted();
    assert turns[0..] == turns && [] + goal.0 == goal.0 && strm.sent + [] == strm.sent;
    while available && i < |turns| && !turns[i].shuttingDown
      invariant 0 <= i <= |turns| && !strm.failed
      invariant strm.sent == was + part && part == EmitAll(done)
      invariant goal.0 == done + Session(turns[i..], available).0
      invariant goal.1 == Session(turns[i..], available).1
      invariant old(strm.Steady()) ==> strm.Steady()
    {
      ghost var left := turns[i..];
      assert left[1..] == turns[i + 1..];
      var writable := strm.IsWritable();
      if !writable {
        BrokenBetween(done, Session(left, true).0);
        return false, WriteError, part;
      }
      var acts := turns[i].actions;
      ghost var more;
      ok, available, more := Perform(strm, acts, true);
      ghost var later := Session(turns[i + 1..], Available(true, acts)).0;
      Assoc(was, part, more);
      part := part + more;
      TurnIsPart(done, acts, later, more, ok);
      if !turns[i].result {
        assert done + acts == goal.0;
        return false, Canceled, part;
      }
      Assoc(done, acts, later);
      if !ok { return false, WriteError, part; }
      done := done + acts;
      i := i + 1;
    }
    assert done + [] == done;
    if available && i == |turns| { return false, Canceled, part; }
    return true, Success, part;
  }

  lemma BrokenBetween(done: seq<Action>, later: seq<Action>)
    ensures Broken(EmitAll(done), done + later)
  {
    hide EmitAll, Torn;
    var part := EmitAll(done);
    assert (done + later)[..|done|] == done && part + [] == part;
    BrokenHere(part, done + later, |done|, []);
  }

  /** A turn in the middle of a session. */
  lemma TurnIsPart(done: seq<Action>, acts: seq<Action>, later: seq<Action>, more: string, ok: bool)
    requires if ok then more == EmitAll(acts) else Broken(more, acts)
    ensures ok ==> EmitAll(done) + more == EmitAll(done + acts)
    ensures !ok ==> Broken(EmitAll(done) + more, done + acts) && Broken(EmitAll(done) + more, done + acts + later)
  {
    hide Broken, EmitAll;
    if ok {
      EmitAllSplits(done, acts);
    } else {
      BrokenLater(done, more, acts);
      BrokenShorter(EmitAll(done) + more, done + acts, later);
    }
  }
}
