/**
 What the reader of the chunked coding makes of what the writer sends: the round trip, and the
 streams of writers that stop short or fail (externals/httplib/httplib.h).
 */
module ChunkedProof {
  import opened Numbers
  import opened Sequences
  import opened Text
  import opened Urls
  import opened Headers
  import opened Streams
  import opened Chunked
  import opened ChunkedWriter

  // ----- the round trip --------------------------------------------------------------

  /** A trailer field that fits on a line of its own. */
  predicate GoodField(f: Param) {
    f.0 != [] && ':' !in f.0 && LF !in f.0 && LF !in f.1 && Trimmed(f.1)
    && |f.0| + |f.1| + 4 <= HEADER_MAX_LENGTH
  }

  /** A field as it arrives: an empty value is lost, and only a Location keeps its percents. */
  function Arrives(f: Param): seq<Param> {
    if f.1 == [] then []
    else [(f.0, if EqualIgnoringCase(f.0, "Location") then f.1 else Decode(f.1, false))]
  }

  function ArriveAll(fs: seq<Param>): seq<Param> {
    if fs == [] then [] else Arrives(fs[0]) + ArriveAll(fs[1..])
  }

  /** What the other side receives of these sink calls, followed by rest: the blocks up to
      the first done or the first block whose size no unsigned long can tell. */
  function Received(acts: seq<Action>, rest: string, ulongMax: nat): Outcome {
    if acts == [] then Rejected([])
    else match acts[0]
      case Done(fs) => Complete([], ArriveAll(fs), EmitAll(acts[1..]) + rest)
      case Write(b) =>
        if b == [] then Received(acts[1..], rest, ulongMax)
        else if |b| >= ulongMax then Rejected([])
        else Prepend(b, Received(acts[1..], rest, ulongMax))
  }

  predicate GoodFields(fs: seq<Param>) { forall i :: 0 <= i < |fs| ==> GoodField(fs[i]) }

  ghost predicate GoodActions(acts: seq<Action>) {
    forall i :: 0 <= i < |acts| && acts[i].Done? ==> GoodFields(acts[i].trailers)
  }

  predicate Finished(acts: seq<Action>) { exists i :: 0 <= i < |acts| && acts[i].Done? }

  lemma FieldArrives(f: Param)
    requires GoodField(f)
    ensures TrailerField(FieldLine(f)) == Arrives(f)
  {
    hide Decode, EqualIgnoringCase, HeaderField;
    var line := f.0 + ": " + f.1;
    assert FieldLine(f)[..|line|] == line;
    if f.1 == [] { EmptyFieldReads(f.0); } else { FieldReads(f.0, f.1); }
  }

  lemma EmptyFieldReads(k: string)
    requires k != [] && ':' !in k
    ensures HeaderField(k + ": " + []) == None
  {
    hide Decode, EqualIgnoringCase;
    var line, t := k + ": " + [], k + ":";
    assert line[..|t|] == t && line[|t|..] == " ";
    TrimRightSkips(line, |t|);
    assert t[..|k|] == k && t[|k| + 1..] == [];
    IndexOfIs(t, ':', |k|);
  }

  lemma FieldReads(k: string, v: string)
    requires k != [] && ':' !in k && v != [] && Trimmed(v)
    ensures HeaderField(k + ": " + v) == Some((k, if EqualIgnoringCase(k, "Location") then v else Decode(v, false)))
  {
    hide HeaderField, Decode, EqualIgnoringCase;
    var line := k + ": " + v;
    assert line[|line|..] == [] && line[|line| - 1] == v[|v| - 1];
    assert line[..|k|] == k && line[|k|] == ':' && line[|k| + 1..|k| + 2] == " " && line[|k| + 2] == v[0];
    assert line[|k| + 2..|line|] == v;
    FieldAt(line, |line|, |k|, |k| + 2);
  }

  /** A field's line is read as one line, and it is not the blank one. */
  lemma FieldIsOneLine(f: Param, rest: string)
    requires GoodField(f)
    ensures Line(FieldLine(f) + rest) == FieldLine(f) != CRLF
    ensures AfterLine(FieldLine(f) + rest) == rest
  {
    var a := f.0 + ": " + f.1 + [CR];
    assert FieldLine(f) == a + [LF];
    LineIs(a, rest);
  }

  lemma {:induction false} FieldsArrive(fs: seq<Param>, rest: string, sofar: seq<Param>)
    requires GoodFields(fs)
    ensures ReadTrailers(FieldLines(fs) + CRLF + rest, sofar)
            == Complete([], sofar + ArriveAll(fs), rest)
    decreases |fs|
  {
    hide FieldLine, Line, AfterLine, TrailerField, Arrives, GoodField;
    var s := FieldLines(fs) + CRLF + rest;
    if fs == [] {
      assert CRLF == [CR] + [LF] && s == [CR] + [LF] + rest;
      LineIs([CR], rest);
      assert sofar + [] == sofar;
    } else {
      var later := FieldLines(fs[1..]) + CRLF + rest;
      Assoc(FieldLine(fs[0]), FieldLines(fs[1..]), CRLF);
      Assoc(FieldLine(fs[0]), FieldLines(fs[1..]) + CRLF, rest);
      FieldIsOneLine(fs[0], later);
      FieldFits(fs[0]);
      FieldArrives(fs[0]);
      FieldsArrive(fs[1..], rest, sofar + Arrives(fs[0]));
      Assoc(sofar, Arrives(fs[0]), ArriveAll(fs[1..]));
    }
  }

  lemma FieldFits(f: Param)
    requires GoodField(f)
    ensures 0 < |FieldLine(f)| <= HEADER_MAX_LENGTH
  {}

  /** A size line is one line. */
  lemma SizeIsOneLine(n: nat, rest: string)
    ensures Line(Hex(n) + CRLF + rest) == Hex(n) + CRLF
    ensures AfterLine(Hex(n) + CRLF + rest) == rest
  {
    hide Hex;
    HexIsDigits(n);
    var a := Hex(n) + [CR];
    assert Hex(n) + CRLF == a + [LF];
    LineIs(a, rest);
  }

  // ----- chunks from any writer --------------------------------------------------------

  /** A line as a writer may send it for a size of n: its digits, with 0x in front or not, then an extension. */
  lemma SizeLineWith(n: nat, ext: string, ulongMax: nat)
    requires ext != [] && HexValue(ext[0]).None? && ext[0] != 'x' && ext[0] != 'X'
    ensures Strtoul(Hex(n) + ext, ulongMax) == Some(Min(n, ulongMax))
    ensures Strtoul("0x" + Hex(n) + ext, ulongMax) == Some(Min(n, ulongMax))
  {
    hide Hex, HexValue;
    HexIsDigits(n);
    NumberOfHex(n, ext);
    var h, s := Hex(n), Hex(n) + ext;
    assert h[0] in h;
    assert HexValue(h[0]).Some?;
    assert s[0] == h[0] && (|h| > 1 ==> h[1] in h);
    assert s[1] == if |h| > 1 then h[1] else ext[0];
    DigitsAreNoMarks(h[0]);
    if |h| > 1 { DigitsAreNoMarks(h[1]); }
    assert SkipSpace(s) == s;
    var x := "0x" + h + ext;
    assert x[2..] == s && SkipSpace(x) == x;
  }

  lemma DigitsAreNoMarks(c: char)
    requires HexValue(c).Some?
    ensures !IsSpace(c) && c != '-' && c != '+' && c != 'x' && c != 'X' && c != LF
  {}

  /** Blanks and a sign may come first; a minus sign wraps the number around the unsigned long. */
  lemma SizeLineSigned(blanks: string, n: nat, ext: string, ulongMax: nat)
    requires (forall i :: 0 <= i < |blanks| ==> IsSpace(blanks[i])) && ext != []
    requires HexValue(ext[0]).None? && ext[0] != 'x' && ext[0] != 'X'
    ensures Strtoul(blanks + (Hex(n) + ext), ulongMax) == Some(Min(n, ulongMax))
    ensures Strtoul(blanks + ("+" + (Hex(n) + ext)), ulongMax) == Some(Min(n, ulongMax))
    ensures Strtoul(blanks + ("-" + (Hex(n) + ext)), ulongMax)
            == Some(if n > ulongMax then ulongMax else if n == 0 then 0 else ulongMax + 1 - n)
  {
    hide Hex, HexValue, Number;
    HexIsDigits(n);
    NumberOfHex(n, ext);
    NumberEnds(ext, n);
    var h, s := Hex(n), Hex(n) + ext;
    assert s[0] == h[0] && h[0] in h && (|h| > 1 ==> h[1] in h);
    assert s[1] == if |h| > 1 then h[1] else ext[0];
    DigitsAreNoMarks(h[0]);
    if |h| > 1 { DigitsAreNoMarks(h[1]); }
    SkipBlanks(blanks, s);
    SkipBlanks(blanks, "+" + s);
    SkipBlanks(blanks, "-" + s);
    assert ("+" + s)[1..] == s && ("-" + s)[1..] == s;
  }

  lemma NumberEnds(ext: string, n: nat)
    requires ext != [] && HexValue(ext[0]).None?
    ensures Number(ext, n) == n
  {}

  lemma SkipBlanks(blanks: string, s: string)
    requires (forall i :: 0 <= i < |blanks| ==> IsSpace(blanks[i])) && s != [] && !IsSpace(s[0])
    ensures SkipSpace(blanks + s) == s
  {
    if blanks == [] {
      assert blanks + s == s;
    } else {
      assert (blanks + s)[1..] == blanks[1..] + s;
      SkipBlanks(blanks[1..], s);
    }
  }

  /** A line that does not begin with a number, after blanks and a sign, is no size line. */
  lemma NoSize(line: string, ulongMax: nat)
    requires line == [] || (HexValue(line[0]).None? && !IsSpace(line[0]) && line[0] != '-' && line[0] != '+')
    ensures Strtoul(line, ulongMax) == None
  {}

  /** A chunk from any writer, its size line in whatever form: what follows its data must be a blank line,
      behind which reading goes on as at the start; anything else is rejected. */
  lemma AnyChunkReads(line: string, data: string, t: string, ulongMax: nat)
    requires LF !in line && Strtoul(line + [LF], ulongMax) == Some(|data|) && 0 < |data| < ulongMax
    ensures ReadChunks(line + [LF] + data + t, ulongMax)
            == if CRLF <= t then Prepend(data, ReadChunks(t[2..], ulongMax)) else Rejected(data)
  {
    hide Strtoul, Line, AfterLine, ReadFrom;
    var s := line + [LF] + data + t;
    assert s == line + [LF] + (data + t);
    LineIs(line, data + t);
    assert (data + t)[..|data|] == data && (data + t)[|data|..] == t;
    FromIsData(line + [LF], data + t, ulongMax, |data|);
    assert ReadData(|data|, data + t, ulongMax) == Prepend(data, ReadNext(t, ulongMax));
    assert data + [] == data;
    if CRLF <= t {
      assert CRLF == [CR] + [LF] && t == [CR] + [LF] + t[2..];
      LineIs([CR], t[2..]);
      assert ReadNext(t, ulongMax) == ReadChunks(t[2..], ulongMax);
    }
  }

  lemma FromIsData(line: string, s: string, ulongMax: nat, n: nat)
    requires Strtoul(line, ulongMax) == Some(n) && 0 < n < ulongMax
    ensures ReadFrom(line, s, ulongMax) == ReadData(n, s, ulongMax)
  {
    hide Strtoul;
  }

  /** The end of a body from any writer: a size line that says 0, field lines, a blank line. */
  lemma AnyFinishReads(line: string, fs: seq<Param>, rest: string, ulongMax: nat)
    requires LF !in line && Strtoul(line + [LF], ulongMax) == Some(0) && ulongMax > 0 && GoodFields(fs)
    ensures ReadChunks(line + [LF] + (FieldLines(fs) + CRLF + rest), ulongMax) == Complete([], ArriveAll(fs), rest)
  {
    hide Strtoul, Line, AfterLine;
    var later := FieldLines(fs) + CRLF + rest;
    LineIs(line, later);
    FieldsArrive(fs, rest, []);
    assert [] + ArriveAll(fs) == ArriveAll(fs);
  }

  /** A trailer line longer than 8192 bytes is rejected. */
  lemma LongTrailerIsRejected(line: string, rest: string, sofar: seq<Param>)
    requires LF !in line && |line| + 1 > HEADER_MAX_LENGTH
    ensures ReadTrailers(line + [LF] + rest, sofar) == Rejected([])
  {
    hide Line, AfterLine;
    LineIs(line, rest);
  }

  /** A line of a bare LF, or one that is no field, is skipped. */
  lemma OddTrailerIsSkipped(line: string, rest: string, sofar: seq<Param>)
    requires LF !in line && ':' !in line && line != [CR] && |line| + 1 <= HEADER_MAX_LENGTH
    ensures ReadTrailers(line + [LF] + rest, sofar) == ReadTrailers(rest, sofar)
  {
    hide Line, AfterLine, HeaderField;
    LineIs(line, rest);
    var whole := line + [LF];
    assert whole[..|line|] == line && CRLF[..1] == [CR];
    if |whole| >= 2 { NoColonNoField(whole[..|whole| - 2]); }
    assert sofar + [] == sofar;
  }

  lemma NoColonNoField(s: string)
    requires ':' !in s
    ensures HeaderField(s) == None
  {
    var t := TrimRight(s);
    TrimRightParts(s);
    assert t[..|t|] == t && ':' !in t;
    IndexOfIs(t, ':', |t|);
  }

  /** The last two bytes of a trailer line are taken for its line end, whatever they are: a line that ends
      with a bare LF loses the last byte of its value. */
  lemma BareLineEndTakesAByte(f: Param, last: char)
    requires GoodField(f)
    ensures TrailerField(f.0 + ": " + f.1 + [last] + [LF]) == Arrives(f)
  {
    hide HeaderField, Arrives;
    FieldArrives(f);
    var line := f.0 + ": " + f.1;
    assert FieldLine(f)[..|line|] == line && (line + [last] + [LF])[..|line|] == line;
  }

  lemma FinishArrives(fs: seq<Param>, rest: string, ulongMax: nat)
    requires GoodFields(fs) && ulongMax > 0
    ensures ReadChunks(Finish(fs) + rest, ulongMax) == Complete([], ArriveAll(fs), rest)
  {
    hide FieldLines, ArriveAll, Line, AfterLine, Strtoul, ReadTrailers, GoodFields;
    var tail := FieldLines(fs) + CRLF + rest;
    assert Hex(0) == "0";
    assert Finish(fs) + rest == Hex(0) + CRLF + tail;
    SizeIsOneLine(0, tail);
    SizeLine(0, ulongMax);
    FieldsArrive(fs, rest, []);
    assert [] + ArriveAll(fs) == ArriveAll(fs);
  }

  /** A chunk that is followed by more: its block is delivered and reading goes on. */
  lemma ChunkArrives(b: string, rest: string, ulongMax: nat)
    requires b != []
    ensures ReadChunks(Chunk(b) + rest, ulongMax)
            == if |b| >= ulongMax then Rejected([]) else Prepend(b, ReadChunks(rest, ulongMax))
  {
    hide Hex, Strtoul, Line, AfterLine, ReadFrom;
    var tail := b + CRLF + rest;
    var n := |b|;
    assert Chunk(b) + rest == Hex(n) + CRLF + tail;
    SizeIsOneLine(n, tail);
    SizeLine(n, ulongMax);
    ReadFromSize(Hex(n) + CRLF, n, tail, ulongMax);
    if n < ulongMax {
      assert tail[..n] == b && tail[n..] == CRLF + rest;
      assert CRLF + rest == [CR] + [LF] + rest;
      LineIs([CR], rest);
      assert Line(CRLF + rest) == CRLF;
      assert ReadNext(CRLF + rest, ulongMax) == ReadChunks(rest, ulongMax);
    }
  }

  lemma ReadFromSize(line: string, n: nat, s: string, ulongMax: nat)
    requires n > 0 && Strtoul(line, ulongMax) == Some(Min(n, ulongMax))
    ensures ReadFrom(line, s, ulongMax) == if n >= ulongMax then Rejected([]) else ReadData(n, s, ulongMax)
  {
    hide Strtoul, ReadData;
  }

  /** The reader undoes the writer for whatever calls a provider makes on the sink. */
  lemma {:induction false} ReaderSeesActions(acts: seq<Action>, rest: string, ulongMax: nat)
    requires ulongMax > 0 && GoodActions(acts)
    requires Finished(acts) || rest == []
    ensures ReadChunks(EmitAll(acts) + rest, ulongMax) == Received(acts, rest, ulongMax)
    decreases |acts|
  {
    hide ReadFrom, Finish, Chunk, Prepend, GoodFields;
    if acts == [] {
      assert EmitAll(acts) + rest == [];
    } else {
      var later := EmitAll(acts[1..]);
      Assoc(Emit(acts[0]), later, rest);
      match acts[0]
      case Done(fs) =>
        FinishArrives(fs, later + rest, ulongMax);
      case Write(b) =>
        FinishedLater(acts);
        ReaderSeesActions(acts[1..], rest, ulongMax);
        if b == [] {
          assert [] + later == later;
        } else {
          ChunkArrives(b, later + rest, ulongMax);
        }
    }
  }

  lemma FinishedNow(acts: seq<Action>)
    ensures acts == [] ==> !Finished(acts)
    ensures acts != [] && acts[0].Done? ==> Finished(acts)
  {}

  lemma FinishedLater(acts: seq<Action>)
    requires acts != [] && acts[0].Write?
    ensures Finished(acts) == Finished(acts[1..])
  {
    if Finished(acts) {
      var i :| 0 <= i < |acts| && acts[i].Done?;
      assert acts[1..][i - 1].Done?;
    }
    if Finished(acts[1..]) {
      var i :| 0 <= i < |acts[1..]| && acts[1..][i].Done?;
      assert acts[i + 1].Done?;
    }
  }

  // ----- what a provider has to keep to ------------------------------------------------

  /** The bytes of the blocks written before the first done. */
  function Blocks(acts: seq<Action>): string {
    if acts == [] || acts[0].Done? then [] else acts[0].block + Blocks(acts[1..])
  }

  /** The trailer fields given to the first done, and the calls made after it. */
  function Trailers(acts: seq<Action>): seq<Param> {
    if acts == [] then [] else if acts[0].Done? then acts[0].trailers else Trailers(acts[1..])
  }

  function Behind(acts: seq<Action>): seq<Action> {
    if acts == [] then [] else if acts[0].Done? then acts[1..] else Behind(acts[1..])
  }

  /** Every block before the first done has a size below the largest unsigned long. */
  predicate SizesFit(acts: seq<Action>, ulongMax: nat) {
    acts == [] || acts[0].Done? || (|acts[0].block| < ulongMax && SizesFit(acts[1..], ulongMax))
  }

  /** The body is received whole exactly when done was called and the sizes fit, and then it
      is all that was written, and reading stops right behind the first done; otherwise the
      reader rejects it, after a prefix of it. */
  lemma {:induction false} ReceivedExactly(acts: seq<Action>, rest: string, ulongMax: nat)
    requires ulongMax > 0
    ensures Received(acts, rest, ulongMax).Complete? <==> Finished(acts) && SizesFit(acts, ulongMax)
    ensures Received(acts, rest, ulongMax).body <= Blocks(acts)
    ensures SizesFit(acts, ulongMax) ==> Received(acts, rest, ulongMax).body == Blocks(acts)
    ensures Finished(acts) && SizesFit(acts, ulongMax) ==>
              Received(acts, rest, ulongMax).trailers == ArriveAll(Trailers(acts))
              && Received(acts, rest, ulongMax).rest == EmitAll(Behind(acts)) + rest
    decreases |acts|
  {
    hide EmitAll, ArriveAll, Finished;
    FinishedNow(acts);
    if acts != [] && acts[0].Write? {
      FinishedLater(acts);
      ReceivedExactly(acts[1..], rest, ulongMax);
    }
  }

  /** The loop ends before done is called: a shutdown is noticed, or a turn that lets it go on ends with
      nothing available, which without done is an empty write as its last call. */
  predicate StopsShort(turns: seq<Turn>) {
    && turns != []
    && (turns[0].shuttingDown
        || (turns[0].result && !Finished(turns[0].actions)
            && (!Available(true, turns[0].actions) || StopsShort(turns[1..]))))
  }

  lemma FinishedSum(a: seq<Action>, b: seq<Action>)
    ensures Finished(a + b) <==> Finished(a) || Finished(b)
  {
    if Finished(a) {
      var i :| 0 <= i < |a| && a[i].Done?;
      assert (a + b)[i].Done?;
    }
    if Finished(b) {
      var i :| 0 <= i < |b| && b[i].Done?;
      assert (a + b)[|a| + i].Done?;
    }
  }

  /** Success is reported without a terminating chunk exactly when the loop stops short. */
  lemma {:induction false} UnfinishedSuccessExactly(turns: seq<Turn>)
    ensures Session(turns, true).1 == Success && !Finished(Session(turns, true).0) <==> StopsShort(turns)
  {
    if turns != [] && !turns[0].shuttingDown && turns[0].result {
      var acts := turns[0].actions;
      var later := Session(turns[1..], Available(true, acts));
      FinishedSum(acts, later.0);
      if Available(true, acts) { UnfinishedSuccessExactly(turns[1..]); }
    }
  }

  /** Without done, nothing is available after a turn exactly when its last call was an empty write. */
  lemma NothingAvailable(acts: seq<Action>)
    requires !Finished(acts)
    ensures !Available(true, acts) <==> acts != [] && acts[|acts| - 1] == Write([])
  {
    if acts != [] { assert !acts[|acts| - 1].Done?; }
  }

  /** So a run that reports success has delivered all blocks before the first done, or stopped short, and
      then the other side rejects the body. */
  lemma SuccessExactly(turns: seq<Turn>, ulongMax: nat)
    requires ulongMax > 0 && Session(turns, true).1 == Success
    requires GoodActions(Session(turns, true).0) && SizesFit(Session(turns, true).0, ulongMax)
    ensures ReadChunks(EmitAll(Session(turns, true).0), ulongMax).Complete? <==> !StopsShort(turns)
    ensures ReadChunks(EmitAll(Session(turns, true).0), ulongMax).body == Blocks(Session(turns, true).0)
  {
    hide Session, EmitAll, ReadChunks, Received, Blocks, SizesFit, StopsShort;
    var acts := Session(turns, true).0;
    UnfinishedSuccessExactly(turns);
    ReaderSeesActions(acts, [], ulongMax);
    ReceivedExactly(acts, [], ulongMax);
    assert EmitAll(acts) + [] == EmitAll(acts);
  }

  /** An empty write that ends a turn. */
  lemma EmptyWriteTruncates(block: string, trailers: seq<Param>)
    ensures StopsShort([Turn(false, [Write(block), Write([])], true), Turn(false, [Done(trailers)], true)])
  {}

  /** An empty write that another write follows in the same turn does no harm. */
  lemma EmptyWriteInside(block: string, trailers: seq<Param>)
    requires block != []
    ensures !StopsShort([Turn(false, [Write([]), Write(block)], true), Turn(false, [Done(trailers)], true)])
  {
    var turns := [Turn(false, [Write([]), Write(block)], true), Turn(false, [Done(trailers)], true)];
    assert turns[1..][0].actions[0].Done?;
  }

  /** A shutdown between two turns. */
  lemma ShutdownTruncates(block: string, trailers: seq<Param>)
    requires block != []
    ensures StopsShort([Turn(false, [Write(block)], true), Turn(true, [Done(trailers)], true)])
  {
    var turns := [Turn(false, [Write(block)], true), Turn(true, [Done(trailers)], true)];
    assert turns[1..][0].shuttingDown;
  }

  // ----- writers that fail ---------------------------------------------------------------

  /** Any sink calls without done: their blocks, then whatever follows is read as from the start. */
  lemma {:induction false} ReadThrough(acts: seq<Action>, rest: string, ulongMax: nat)
    requires ulongMax > 0 && !Finished(acts)
    ensures SizesFit(acts, ulongMax) ==>
              ReadChunks(EmitAll(acts) + rest, ulongMax) == Prepend(Blocks(acts), ReadChunks(rest, ulongMax))
    ensures !SizesFit(acts, ulongMax) ==>
              var o := ReadChunks(EmitAll(acts) + rest, ulongMax); o.Rejected? && o.body <= Blocks(acts)
    decreases |acts|
  {
    hide ReadChunks, Chunk;
    if acts == [] {
      assert EmitAll(acts) + rest == rest;
      var o := ReadChunks(rest, ulongMax);
      assert [] + o.body == o.body;
    } else {
      var later, b := acts[1..], acts[0].block;
      FinishedLater(acts);
      ReadThrough(later, rest, ulongMax);
      Assoc(Emit(acts[0]), EmitAll(later), rest);
      if b == [] {
        assert [] + EmitAll(later) == EmitAll(later) && [] + Blocks(later) == Blocks(later);
      } else {
        ChunkArrives(b, EmitAll(later) + rest, ulongMax);
        PrependTwice(b, Blocks(later), ReadChunks(rest, ulongMax));
      }
    }
  }

  lemma {:induction false} NumberGrows(s: string, acc: nat)
    ensures Number(s, acc) >= acc
  {
    if s != [] && HexValue(s[0]).Some? { NumberGrows(s[1..], acc * 16 + HexValue(s[0]).value); }
  }

  lemma {:induction false} HexStartsNonzero(n: nat)
    requires n > 0
    ensures HexValue(Hex(n)[0]).Some? && HexValue(Hex(n)[0]).value > 0
  {
    if n >= 16 { HexStartsNonzero(n / 16); }
  }

  /** A size line cut short still tells a size other than zero. */
  lemma CutSizeLine(n: nat, w: string, ulongMax: nat)
    requires n > 0 && ulongMax > 0 && w != [] && w <= Hex(n) + CRLF
    ensures Strtoul(w, ulongMax).Some? && Strtoul(w, ulongMax).value > 0
  {
    hide Hex;
    HexIsDigits(n);
    HexStartsNonzero(n);
    var c := w[0];
    assert c == Hex(n)[0];
    assert SkipSpace(w) == w;
    assert |w| > 1 ==> w[1] == if |Hex(n)| > 1 then Hex(n)[1] else CR;
    NumberGrows(w[1..], HexValue(c).value);
  }

  /** A chunk cut short is rejected, with at most the bytes of its block that are there. */
  lemma CutChunkIsRejected(b: string, w: string, ulongMax: nat)
    requires b != [] && ulongMax > 0 && w <= Chunk(b) && w != Chunk(b)
    ensures var o := ReadChunks(w, ulongMax); o.Rejected? && o.body <= b
  {
    hide Hex, Strtoul, Line, AfterLine;
    var n := |b|;
    var head := Hex(n) + CRLF;
    if w == [] {
    } else if |w| < |head| {
      assert w <= head;
      CutLineHasNoLf(n, w);
      LastLine(w);
      CutSizeLine(n, w, ulongMax);
      assert ReadData(Strtoul(w, ulongMax).value, [], ulongMax) == Rejected([]);
      assert ReadFrom(w, [], ulongMax) == Rejected([]);
    } else {
      var s := w[|head|..];
      assert w == head + s && s <= b + CRLF;
      SizeIsOneLine(n, s);
      SizeLine(n, ulongMax);
      ReadFromSize(head, n, s, ulongMax);
      CutDataIsRejected(b, s, ulongMax);
    }
  }

  lemma CutLineHasNoLf(n: nat, w: string)
    requires w <= Hex(n) + CRLF && |w| < |Hex(n)| + 2
    ensures LF !in w
  {
    hide Hex;
    HexIsDigits(n);
    assert w <= Hex(n) + [CR];
    assert forall i :: 0 <= i < |w| ==> w[i] in Hex(n) || w[i] == CR;
  }

  lemma CutDataIsRejected(b: string, s: string, ulongMax: nat)
    requires b != [] && s <= b + CRLF && s != b + CRLF
    ensures var o := ReadData(|b|, s, ulongMax); o.Rejected? && o.body <= b
  {
    hide Line, AfterLine, ReadFrom;
    var n := |b|;
    if |s| < n {
      assert s <= b;
    } else {
      assert s[..n] == b;
      var t := s[n..];
      assert t <= CRLF && |t| < 2;
      if t != [] {
        assert t == [CR];
        LastLine(t);
      }
    }
  }

  /** A writer that fails in a write leaves a body that the other side rejects, with a prefix of the blocks. */
  lemma FailedWriteIsRejected(acts: seq<Action>, k: nat, w: string, ulongMax: nat)
    requires ulongMax > 0 && k < |acts| && acts[k].Write? && !Finished(acts[..k])
    requires w <= Emit(acts[k]) && (acts[k].block != [] ==> w != Emit(acts[k]))
    ensures var o := ReadChunks(EmitAll(acts[..k]) + w, ulongMax); o.Rejected? && o.body <= Blocks(acts[..k + 1])
  {
    hide ReadChunks, Chunk, EmitAll;
    var b := acts[k].block;
    ReadThrough(acts[..k], w, ulongMax);
    if b != [] { CutChunkIsRejected(b, w, ulongMax); } else { NothingIsRejected(ulongMax); }
    BlocksNext(acts[..k], b);
    assert acts[..k + 1] == acts[..k] + [Write(b)];
  }

  lemma NothingIsRejected(ulongMax: nat)
    ensures ReadChunks([], ulongMax) == Rejected([])
  {}

  lemma {:induction false} BlocksNext(acts: seq<Action>, b: string)
    requires !Finished(acts)
    ensures Blocks(acts + [Write(b)]) == Blocks(acts) + b
    decreases |acts|
  {
    if acts == [] {
      assert (acts + [Write(b)])[1..] == [] && b + [] == b && [] + b == b;
    } else {
      FinishedLater(acts);
      assert (acts + [Write(b)])[1..] == acts[1..] + [Write(b)];
      BlocksNext(acts[1..], b);
      Assoc(acts[0].block, Blocks(acts[1..]), b);
    }
  }

  // ----- a done that fails in part -----------------------------------------------------------

  /** The first ns[i] bytes of each part. */
  ghost predicate TakenFrom(parts: seq<string>, ns: seq<nat>) {
    |ns| == |parts| && forall i :: 0 <= i < |ns| ==> ns[i] <= |parts[i]|
  }

  ghost function Taken(parts: seq<string>, ns: seq<nat>): string
    requires TakenFrom(parts, ns)
  {
    if parts == [] then [] else parts[0][..ns[0]] + Taken(parts[1..], ns[1..])
  }

  /** What a torn write has sent is a prefix of each part. */
  lemma {:induction false} TornIsTaken(w: string, parts: seq<string>) returns (ns: seq<nat>)
    requires Torn(w, parts)
    ensures TakenFrom(parts, ns) && w == Taken(parts, ns)
    decreases |parts|
  {
    if parts == [] {
      ns := [];
    } else {
      var n: nat :| TornAt(w, parts, n) && Torn(w[n..], parts[1..]);
      assert w == w[..n] + w[n..] && parts[0][..n] == w[..n];
      hide Torn;
      var later := TornIsTaken(w[n..], parts[1..]);
      ns := [n] + later;
      assert ns[1..] == later;
    }
  }

  function LinesOf(fs: seq<Param>): (ls: seq<string>)
    ensures |ls| == |fs| && forall i :: 0 <= i < |fs| ==> ls[i] == FieldLine(fs[i])
  {
    seq(|fs|, i requires 0 <= i < |fs| => FieldLine(fs[i]))
  }

  lemma {:induction false} PartsAreLines(fs: seq<Param>)
    ensures FieldParts(fs) == LinesOf(fs)
    decreases |fs|
  {
    if fs != [] { PartsAreLines(fs[..|fs| - 1]); }
  }

  /** Where field lines were taken in part, the next whole one continues the same line.  No fragment is left
      behind the last whole line, and no line becomes too long; u bytes are pending. */
  ghost predicate EndsWhole(u: nat, fs: seq<Param>, ns: seq<nat>)
    requires |ns| == |fs|
    decreases |fs|
  {
    if fs == [] then u == 0
    else if ns[0] == |FieldLine(fs[0])| then u + ns[0] <= HEADER_MAX_LENGTH && EndsWhole(0, fs[1..], ns[1..])
    else EndsWhole(u + ns[0], fs[1..], ns[1..])
  }

  /** The fields that are read: of each line as it has come out, fragments in front of it included. */
  ghost function FieldsSeen(u: string, fs: seq<Param>, ns: seq<nat>): seq<Param>
    requires TakenFrom(LinesOf(fs), ns)
    decreases |fs|
  {
    if fs == [] then []
    else
      var line := FieldLine(fs[0]);
      assert LinesOf(fs)[0] == line && LinesOf(fs)[1..] == LinesOf(fs[1..]);
      if ns[0] == |line| then TrailerField(u + line) + FieldsSeen([], fs[1..], ns[1..])
      else FieldsSeen(u + line[..ns[0]], fs[1..], ns[1..])
  }

  ghost function AfterTear(u: string, fs: seq<Param>, ns: seq<nat>, m: nat): string
    requires TakenFrom(LinesOf(fs), ns) && m <= 2
  {
    u + (Taken(LinesOf(fs), ns) + CRLF[..m])
  }

  lemma LinesTail(fs: seq<Param>, ns: seq<nat>)
    requires fs != [] && TakenFrom(LinesOf(fs), ns)
    ensures LinesOf(fs)[1..] == LinesOf(fs[1..]) && TakenFrom(LinesOf(fs[1..]), ns[1..])
    ensures Taken(LinesOf(fs), ns) == FieldLine(fs[0])[..ns[0]] + Taken(LinesOf(fs[1..]), ns[1..])
  {
    assert LinesOf(fs)[1..] == LinesOf(fs[1..]);
  }

  lemma NothingWhole(u: string, m: nat, sofar: seq<Param>)
    requires LF !in u && m <= 2
    ensures ReadTrailers(u + CRLF[..m], sofar) == if m == 2 && u == [] then Complete([], sofar, []) else Rejected([])
  {
    hide Line, AfterLine, TrailerField;
    var s := u + CRLF[..m];
    if m == 2 {
      assert s == (u + [CR]) + [LF] + [];
      LineIs(u + [CR], []);
      if u == [] { assert s == CRLF; }
    } else {
      assert LF !in CRLF[..m];
      LastLine(s);
    }
  }

  lemma WholeLine(u: string, f: Param, rest: string)
    requires LF !in u && GoodField(f)
    ensures Line(u + FieldLine(f) + rest) == u + FieldLine(f) != CRLF && AfterLine(u + FieldLine(f) + rest) == rest
  {
    hide Line, AfterLine;
    var a := u + (f.0 + ": " + f.1 + [CR]);
    assert u + FieldLine(f) == a + [LF];
    assert a[|u| + |f.0|] == ':';
    LineIs(a, rest);
  }

  /** A torn trailer section is complete exactly when its blank line is there and no fragment stands before it. */
  lemma {:induction false} TornTrailers(u: string, fs: seq<Param>, ns: seq<nat>, m: nat, sofar: seq<Param>)
    requires GoodFields(fs) && TakenFrom(LinesOf(fs), ns) && m <= 2 && LF !in u
    ensures ReadTrailers(AfterTear(u, fs, ns, m), sofar)
            == if m == 2 && EndsWhole(|u|, fs, ns) then Complete([], sofar + FieldsSeen(u, fs, ns), []) else Rejected([])
    decreases |fs|
  {
    hide Line, AfterLine, TrailerField, FieldLine, GoodField;
    var end := CRLF[..m];
    if fs == [] {
      assert [] + end == end && sofar + [] == sofar;
      NothingWhole(u, m, sofar);
    } else {
      LinesTail(fs, ns);
      var line, later := FieldLine(fs[0]), Taken(LinesOf(fs[1..]), ns[1..]);
      var frag := line[..ns[0]];
      Assoc(frag, later, end);
      Assoc(u, frag, later + end);
      if ns[0] == |line| {
        assert frag == line && [] + (later + end) == later + end;
        WholeLine(u, fs[0], later + end);
        FieldFits(fs[0]);
        var more := TrailerField(u + line);
        TornTrailers([], fs[1..], ns[1..], m, sofar + more);
        Assoc(sofar, more, FieldsSeen([], fs[1..], ns[1..]));
      } else {
        PartialHasNoLf(fs[0], ns[0]);
        TornTrailers(u + frag, fs[1..], ns[1..], m, sofar);
      }
    }
  }

  lemma PartialHasNoLf(f: Param, n: nat)
    requires GoodField(f) && n < |FieldLine(f)|
    ensures LF !in FieldLine(f)[..n]
  {
    var a := f.0 + ": " + f.1 + [CR];
    assert FieldLine(f) == a + [LF] && FieldLine(f)[..n] == a[..n];
  }

  /** A done whose marker was taken whole, whatever was lost behind it: the other side takes the body for whole
      exactly when the final CRLF was taken and no fragment of a field stands before it. */
  lemma FailedDoneExactly(acts: seq<Action>, fs: seq<Param>, ns: seq<nat>, m: nat, ulongMax: nat)
    requires ulongMax > 0 && !Finished(acts) && SizesFit(acts, ulongMax)
    requires GoodFields(fs) && TakenFrom(LinesOf(fs), ns) && m <= 2
    ensures var o := ReadChunks(EmitAll(acts) + ("0\r\n" + AfterTear([], fs, ns, m)), ulongMax);
            o == if m == 2 && EndsWhole(0, fs, ns) then Complete(Blocks(acts), FieldsSeen([], fs, ns), []) else Rejected(Blocks(acts))
  {
    hide ReadFrom, EmitAll, Blocks, FieldsSeen, EndsWhole, SizesFit, GoodFields, AfterTear;
    var t := AfterTear([], fs, ns, m);
    var w := "0\r\n" + t;
    ReadThrough(acts, w, ulongMax);
    MarkerReads(t, ulongMax);
    TornTrailers([], fs, ns, m, []);
    assert [] + FieldsSeen([], fs, ns) == FieldsSeen([], fs, ns);
    assert Blocks(acts) + [] == Blocks(acts);
  }

  lemma MarkerReads(t: string, ulongMax: nat)
    requires ulongMax > 0
    ensures ReadChunks("0\r\n" + t, ulongMax) == ReadTrailers(t, [])
  {
    hide Line, AfterLine, Strtoul, ReadTrailers;
    assert Hex(0) == "0" && "0\r\n" + t == Hex(0) + CRLF + t;
    SizeIsOneLine(0, t);
    SizeLine(0, ulongMax);
  }

  lemma {:induction false} TakenSplits(a: seq<string>, b: seq<string>, ns: seq<nat>)
    requires TakenFrom(a + b, ns)
    ensures TakenFrom(a, ns[..|a|]) && TakenFrom(b, ns[|a|..])
    ensures Taken(a + b, ns) == Taken(a, ns[..|a|]) + Taken(b, ns[|a|..])
    decreases |a|
  {
    assert forall i :: 0 <= i < |a| ==> (a + b)[i] == a[i];
    assert forall i :: 0 <= i < |b| ==> (a + b)[|a| + i] == b[i];
    if a == [] {
      assert a + b == b && ns[0..] == ns && [] + Taken(b, ns) == Taken(b, ns);
    } else {
      assert (a + b)[1..] == a[1..] + b && ns[1..][..|a| - 1] == ns[..|a|][1..] && ns[1..][|a| - 1..] == ns[|a|..];
      TakenSplits(a[1..], b, ns[1..]);
      Assoc(a[0][..ns[0]], Taken(a[1..], ns[..|a|][1..]), Taken(b, ns[|a|..]));
    }
  }

  /** Whatever a failing done has sent: a prefix of the marker, of each field line and of the final CRLF. */
  lemma TornDoneIs(w: string, fs: seq<Param>) returns (k: nat, ns: seq<nat>, m: nat)
    requires Torn(w, Parts(Done(fs)))
    ensures k <= 3 && m <= 2 && TakenFrom(LinesOf(fs), ns) && w == "0\r\n"[..k] + AfterTear([], fs, ns, m)
  {
    hide Torn;
    PartsAreLines(fs);
    var head, ls, end := ["0\r\n"], LinesOf(fs), [CRLF];
    var all := TornIsTaken(w, head + ls + end);
    TakenSplits(head + ls, end, all);
    TakenSplits(head, ls, all[..|head + ls|]);
    var a, b, c := all[..|head + ls|][..1], all[..|head + ls|][1..], all[|head + ls|..];
    k, ns, m := a[0], b, c[0];
    assert head[1..] == [] && end[1..] == [];
    assert Taken(head, a) == "0\r\n"[..k] + [] == "0\r\n"[..k];
    assert Taken(end, c) == CRLF[..m] + [] == CRLF[..m];
    assert [] + (Taken(ls, ns) + CRLF[..m]) == Taken(ls, ns) + CRLF[..m];
    Assoc("0\r\n"[..k], Taken(ls, ns), CRLF[..m]);
  }

  /** With neither the marker nor a field line taken whole, the rest is one line and is rejected. */
  lemma TornMarkerIsRejected(fs: seq<Param>, ns: seq<nat>, k: nat, m: nat, ulongMax: nat)
    requires GoodFields(fs) && TakenFrom(LinesOf(fs), ns) && k < 3 && m <= 2
    requires forall i :: 0 <= i < |fs| ==> ns[i] < |FieldLine(fs[i])|
    ensures ReadChunks("0\r\n"[..k] + AfterTear([], fs, ns, m), ulongMax) == Rejected([])
  {
    hide FieldLine, GoodField, Line, AfterLine;
    var u := "0\r\n"[..k] + Taken(LinesOf(fs), ns);
    FragmentsHaveNoLf(fs, ns);
    assert "0\r\n"[..k] + AfterTear([], fs, ns, m) == u + CRLF[..m];
    if m == 2 {
      assert u + CRLF[..m] == (u + [CR]) + [LF] + [];
      LineIs(u + [CR], []);
    } else {
      assert LF !in CRLF[..m];
      LastLine(u + CRLF[..m]);
    }
    SingleLineIsRejected(u + CRLF[..m], ulongMax);
  }

  /** With the marker torn and a field line taken whole behind it, that line with the fragments u before it is read
      as a size line: without a number the body is rejected, with zero it goes on as behind a whole marker. */
  lemma TornMarkerReads(u: string, f: Param, fs: seq<Param>, ns: seq<nat>, m: nat, ulongMax: nat)
    requires LF !in u && GoodField(f) && GoodFields(fs) && TakenFrom(LinesOf(fs), ns) && m <= 2 && ulongMax > 0
    ensures var o := ReadChunks(u + FieldLine(f) + AfterTear([], fs, ns, m), ulongMax);
            match Strtoul(u + FieldLine(f), ulongMax)
            case None => o == Rejected([])
            case Some(n) =>
              n == 0 ==> o == if m == 2 && EndsWhole(0, fs, ns) then Complete([], FieldsSeen([], fs, ns), []) else Rejected([])
  {
    hide Strtoul, Line, AfterLine, FieldsSeen, EndsWhole, GoodFields, AfterTear, FieldLine, ReadData, ReadTrailers;
    var t := AfterTear([], fs, ns, m);
    WholeLine(u, f, t);
    FieldFits(f);
    TornTrailers([], fs, ns, m, []);
    assert [] + FieldsSeen([], fs, ns) == FieldsSeen([], fs, ns);
  }

  lemma {:induction false} FragmentsHaveNoLf(fs: seq<Param>, ns: seq<nat>)
    requires GoodFields(fs) && TakenFrom(LinesOf(fs), ns) && forall i :: 0 <= i < |fs| ==> ns[i] < |FieldLine(fs[i])|
    ensures LF !in Taken(LinesOf(fs), ns)
    decreases |fs|
  {
    hide FieldLine, GoodField;
    if fs != [] {
      LinesTail(fs, ns);
      PartialHasNoLf(fs[0], ns[0]);
      FragmentsHaveNoLf(fs[1..], ns[1..]);
    }
  }

  lemma SingleLineIsRejected(w: string, ulongMax: nat)
    requires AfterLine(w) == []
    ensures ReadChunks(w, ulongMax) == Rejected([])
  {
    hide Line, AfterLine, Strtoul;
  }

  /** An input: the field line is refused and the final CRLF taken.  The writer reports an error, and the reader
      completes the body without the trailer. */
  lemma LostTrailerLooksWhole(field: Param, ulongMax: nat)
    requires ulongMax > 0 && GoodField(field)
    ensures Torn("0\r\n" + CRLF, Parts(Done([field])))
    ensures ReadChunks("0\r\n" + CRLF, ulongMax) == Complete([], [], [])
  {
    hide FieldLine, Torn, ReadTrailers, Line, AfterLine;
    var head, line := "0\r\n", FieldLine(field);
    var p1, p2 := [head], [head, line];
    assert [] + head == head && head + [] == head && [] + p1 == p1 && p1 + [line] == p2;
    NothingTorn();
    TornMore([], [], head, head);
    TornMore(head, p1, [], line);
    TornMore(head, p2, CRLF, CRLF);
    assert [field][..0] == [] && FieldParts([field]) == [] + [line] == [line];
    assert Parts(Done([field])) == p2 + [CRLF];
    MarkerReads(CRLF, ulongMax);
    NothingWhole([], 2, []);
    assert [] + CRLF[..2] == CRLF;
  }

  /** Both sides together, over a wire that cuts writes and reads as it likes. */
  method Transfer(turns: seq<Turn>, writable: seq<bool>, writes: seq<int>, cuts: seq<int>, ulongMax: nat)
    returns (error: Error, ok: bool, body: string, trailers: seq<Param>)
    requires ulongMax > 0 && GoodActions(Session(turns, true).0)
    requires forall i :: 0 <= i < |writable| ==> writable[i]
    requires forall i :: 0 <= i < |writes| ==> writes[i] >= 0
    requires forall i :: 0 <= i < |cuts| ==> cuts[i] >= 0
    ensures error == Session(turns, true).1
    ensures ok <==> Finished(Session(turns, true).0) && SizesFit(Session(turns, true).0, ulongMax)
    ensures body <= Blocks(Session(turns, true).0)
    ensures ok ==> body == Blocks(Session(turns, true).0)
    ensures ok ==> trailers == ArriveAll(Trailers(Session(turns, true).0))
  {
    hide Session, EmitAll, ReadChunks, Received, Blocks, SizesFit;
    ghost var acts := Session(turns, true).0;
    var out := new OutStream(writable, writes);
    var written;
    ghost var part;
    written, error, part := WriteContentChunked(out, turns);
    var socket := new Socket(out.sent, cuts);
    var stream := new SocketStream(socket);
    ok, body, trailers := ReadContentChunked(stream, ulongMax);
    assert [] + EmitAll(acts) == EmitAll(acts) == EmitAll(acts) + [];
    ReaderSeesActions(acts, [], ulongMax);
    ReceivedExactly(acts, [], ulongMax);
  }
}
