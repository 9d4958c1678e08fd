/**
 What the multipart parser makes of a form that any client may have written, in whatever pieces it
 arrives: parts with arbitrary header lines.
 */
module MultipartParts {
  import opened Sequences
  import opened Text
  import opened Headers
  import opened Multipart

  /** A part as it is sent: its header lines and its content. */
  datatype Part = Part(lines: seq<string>, content: string)

  /** The header that the lines add up to, and whether each of them was accepted. */
  function HeaderAfter(lines: seq<string>): (FormHeader, bool) {
    if lines == [] then (NO_HEADER, true)
    else
      var n := |lines| - 1;
      var (h, ok) := HeaderAfter(lines[..n]);
      if ok then HeaderLine(h, lines[n]) else (h, false)
  }

  predicate Accepted(part: Part) { HeaderAfter(part.lines).1 }

  function ItemOf(part: Part): FormItem { FormItem(HeaderAfter(part.lines).0, part.content) }

  function ItemsOf(parts: seq<Part>): (r: seq<FormItem>)
    ensures |r| == |parts| && forall i :: 0 <= i < |r| ==> r[i] == ItemOf(parts[i])
  {
    seq(|parts|, i requires 0 <= i < |parts| => ItemOf(parts[i]))
  }

  ghost predicate CleanLine(line: string) {
    line != [] && |line| < HEADER_MAX_LENGTH && forall j: nat :: !OccursAt(line, CRLF, j)
  }

  /** Lines that are lines and not too long, and a content that does not hold the delimiter. */
  ghost predicate CleanPart(part: Part, boundary: string) {
    && (forall i :: 0 <= i < |part.lines| ==> CleanLine(part.lines[i]))
    && forall j: nat :: !OccursAt(part.content, Delimiter(boundary), j)
  }

  ghost predicate CleanParts(parts: seq<Part>, boundary: string) {
    && parts != [] && CR !in boundary
    && forall i :: 0 <= i < |parts| ==> CleanPart(parts[i], boundary)
  }

  ghost predicate AllAccepted(parts: seq<Part>) { forall i :: 0 <= i < |parts| ==> Accepted(parts[i]) }

  lemma {:induction false} AcceptedSoFar(lines: seq<string>, n: nat)
    requires n <= |lines| && HeaderAfter(lines).1
    ensures HeaderAfter(lines[..n]).1
    decreases |lines|
  {
    if n == |lines| {
      assert lines[..n] == lines;
    } else {
      var before := lines[..|lines| - 1];
      AcceptedSoFar(before, n);
      assert before[..n] == lines[..n];
    }
  }

  lemma NextHeader(lines: seq<string>, n: nat)
    requires n < |lines| && HeaderAfter(lines[..n]).1
    ensures HeaderAfter(lines[..n + 1]) == HeaderLine(HeaderAfter(lines[..n]).0, lines[n])
  {
    assert lines[..n + 1][..n] == lines[..n];
  }

  // ----- the text ----------------------------------------------------------------

  function LinesText(lines: seq<string>): string {
    if lines == [] then [] else lines[0] + CRLF + LinesText(lines[1..])
  }

  /** The text from header line n of part k on. */
  function HeadText(parts: seq<Part>, boundary: string, k: nat, n: nat): string
    requires k < |parts| && n <= |parts[k].lines|
    decreases |parts| - k, 2
  {
    LinesText(parts[k].lines[n..]) + (CRLF + (parts[k].content + BodyEnd(parts, boundary, k)))
  }

  function BodyEnd(parts: seq<Part>, boundary: string, k: nat): string
    requires k < |parts|
    decreases |parts| - k, 1
  {
    Delimiter(boundary) + AfterDelimiter(parts, boundary, k + 1)
  }

  /** The text after the delimiter that precedes part k, or after the last one. */
  function AfterDelimiter(parts: seq<Part>, boundary: string, k: nat): string
    requires k <= |parts|
    decreases |parts| - k, 3
  {
    if k == |parts| then DASH + CRLF else CRLF + HeadText(parts, boundary, k, 0)
  }

  /** The whole form. */
  function FormText(parts: seq<Part>, boundary: string): string
    requires parts != []
  {
    Opening(boundary) + HeadText(parts, boundary, 0, 0)
  }

  // ----- searching a text of which only a prefix has arrived ------------------

  /** The delimiter starts with a character it does not repeat, so it cannot overlap itself:
      in a + d + y its first occurrence is the one after a, and a shorter prefix holds none. */
  lemma FindInPrefix(buf: string, rest: string, a: string, d: string, y: string)
    requires d != [] && d[0] !in d[1..]
    requires forall j: nat :: !OccursAt(a, d, j)
    requires buf + rest == a + d + y
    ensures Find(buf, d) == if |buf| >= |a| + |d| then |a| else |buf|
  {
    var text := a + d + y;
    assert forall i :: 0 <= i < |buf| ==> buf[i] == text[i];
    forall j: nat | j < |a| && j + |d| <= |buf|
      ensures !OccursAt(buf, d, j)
    {
      var w := buf[j..j + |d|];
      if j + |d| <= |a| {
        assert w == a[j..j + |d|];
        assert !OccursAt(a, d, j);
      } else {
        var i := |a| - j;
        assert w[i] == d[0];
        assert d[i] in d[1..] by { assert d[i] == d[1..][i - 1]; }
      }
    }
    if |buf| >= |a| + |d| {
      assert buf[|a|..|a| + |d|] == d;
      FindIs(buf, d, |a|);
    }
  }

  lemma NoCrNoCrlf(a: string)
    requires CR !in a
    ensures forall j: nat :: !OccursAt(a, CRLF, j)
  {
    forall j: nat | j + 2 <= |a|
      ensures !OccursAt(a, CRLF, j)
    {
      assert a[j..j + 2][0] == a[j];
    }
  }

  lemma DelimiterHasNoBorder(boundary: string)
    requires CR !in boundary
    ensures Delimiter(boundary)[0] !in Delimiter(boundary)[1..]
  {
    assert Delimiter(boundary)[1..] == "\n--" + boundary;
  }

  // ----- where in the text the parser is --------------------------------------

  datatype Phase =
    | NewEntry                // before the headers of the next part
    | InHeaders(lines: nat)   // after that many header lines of the next part
    | InBody(done: nat)       // after that many content bytes of the current part
    | AtDelimiter             // after a delimiter
    | Finished

  /** The parser has read exactly up to the given phase, rest not having arrived yet; all it has read was
      accepted. */
  ghost predicate Synced(p: Parser, rest: string, parts: seq<Part>, boundary: string, ph: Phase) {
    var k := |p.files|;
    var items := ItemsOf(parts);
    && p.boundary == boundary && p.fileCount == k <= |parts| && k <= FILE_MAX_COUNT && AllAccepted(parts[..k])
    && match ph
       case NewEntry =>
         p.state == 1 && k < |parts| && p.files == items[..k] && p.buf + rest == HeadText(parts, boundary, k, 0)
       case InHeaders(lines) =>
         && p.state == 2 && k < |parts| && p.files == items[..k] && lines <= |parts[k].lines|
         && HeaderAfter(parts[k].lines[..lines]) == (p.file, true)
         && p.buf + rest == HeadText(parts, boundary, k, lines)
       case InBody(done) =>
         && p.state == 3 && 0 < k && done <= |parts[k - 1].content|
         && p.files == items[..k - 1] + [FormItem(items[k - 1].header, items[k - 1].content[..done])]
         && p.buf + rest == parts[k - 1].content[done..] + BodyEnd(parts, boundary, k - 1)
       case AtDelimiter =>
         p.state == 4 && p.files == items[..k] && p.buf + rest == AfterDelimiter(parts, boundary, k)
       case Finished =>
         && p.valid && p.files == items
         && ((p.state == 4 && |p.buf + rest| <= 2 && (|p.buf + rest| == 2 ==> p.buf + rest == CRLF))
             || (p.state == 1 && p.buf + rest == []))
  }

  /** The parser has a reason to give up: too many parts, or a header line it does not accept. */
  ghost predicate Refused(parts: seq<Part>) { |parts| > FILE_MAX_COUNT || !AllAccepted(parts) }

  // ----- one turn -------------------------------------------------------------

  /** What a turn from a synced state may do: stay in sync, or give up for a reason. */
  ghost predicate TurnKeeps(t: Turn, rest: string, parts: seq<Part>, boundary: string, ph: Phase) {
    match t
    case Go(q) => Synced(q, rest, parts, boundary, ph)
    case Stop(q, ok) =>
      if ok then Synced(q, rest, parts, boundary, ph) && (rest == [] ==> ph.Finished?) else Refused(parts)
  }

  lemma DropFront(buf: string, rest: string, a: string, y: string)
    requires buf + rest == a + y && |buf| >= |a|
    ensures buf[..|a|] == a && buf[|a|..] + rest == y
  {
    assert (buf + rest)[..|a|] == a && (buf + rest)[|a|..] == y;
  }

  /** A complete header line at the front of the buffer is taken off; a partial one is left. */
  lemma LineArrives(p: Parser, rest: string, line: string, y: string)
    requires p.buf + rest == line + CRLF + y && forall j: nat :: !OccursAt(line, CRLF, j)
    ensures Find(p.buf, CRLF) == if |p.buf| >= |line| + 2 then |line| else |p.buf|
    ensures |p.buf| >= |line| + 2 ==> p.buf[..|line|] == line && p.buf[|line| + 2..] + rest == y
  {
    FindInPrefix(p.buf, rest, line, CRLF, y);
    if |p.buf| >= |line| + 2 {
      DropFront(p.buf, rest, line + CRLF, y);
      assert p.buf[..|line| + 2][..|line|] == line;
    }
  }

  /** The next line ahead of the parser among its header lines. */
  function NextLine(part: Part, n: nat): string { if n < |part.lines| then part.lines[n] else "" }

  lemma NextLineAhead(parts: seq<Part>, boundary: string, k: nat, n: nat) returns (y: string)
    requires CleanParts(parts, boundary) && k < |parts| && n <= |parts[k].lines|
    ensures HeadText(parts, boundary, k, n) == NextLine(parts[k], n) + CRLF + y
    ensures |NextLine(parts[k], n)| < HEADER_MAX_LENGTH && forall j: nat :: !OccursAt(NextLine(parts[k], n), CRLF, j)
    ensures (NextLine(parts[k], n) == []) == (n == |parts[k].lines|)
    ensures y == if n < |parts[k].lines| then HeadText(parts, boundary, k, n + 1) else parts[k].content + BodyEnd(parts, boundary, k)
  {
    hide BodyEnd, OccursAt, Delimiter;
    var lines := parts[k].lines;
    assert CleanPart(parts[k], boundary);
    var body := parts[k].content + BodyEnd(parts, boundary, k);
    if n < |lines| {
      y := HeadText(parts, boundary, k, n + 1);
      assert CleanLine(lines[n]);
      assert lines[n..][1..] == lines[n + 1..];
      Assoc(lines[n] + CRLF, LinesText(lines[n + 1..]), CRLF + body);
    } else {
      y := body;
      assert lines[n..] == [] && [] + (CRLF + body) == CRLF + body && [] + CRLF == CRLF;
      NoCrlfInNothing();
    }
  }

  lemma NoCrlfInNothing()
    ensures forall j: nat :: !OccursAt([], CRLF, j)
  {}

  /** Where a header turn leaves the parser. */
  ghost predicate LineKeeps(t: Turn, rest: string, parts: seq<Part>, boundary: string, ph: Phase) {
    match t
    case Go(q) => ph.InHeaders? && Synced(q, rest, parts, boundary, ph)
    case Stop(q, ok) =>
      if !ok then Refused(parts)
      else Synced(q, rest, parts, boundary, ph) && ((ph.InHeaders? && rest != []) || ph.InBody?)
  }

  lemma BlankLineKeeps(p: Parser, rest: string, parts: seq<Part>, boundary: string, lines: nat)
    requires CleanParts(parts, boundary) && Synced(p, rest, parts, boundary, InHeaders(lines))
    requires lines == |parts[|p.files|].lines| && |p.buf| >= 2
    requires p.buf[2..] + rest == parts[|p.files|].content + BodyEnd(parts, boundary, |p.files|)
    ensures LineKeeps(BlankLine(p), rest, parts, boundary, InBody(0))
  {
    hide BodyEnd, CleanPart, HeaderAfter;
    var k := |p.files|;
    var items := ItemsOf(parts);
    var c := parts[k].content;
    assert c[..0] == [] && c[0..] == c;
    assert parts[k].lines[..lines] == parts[k].lines;
    assert ItemOf(parts[k]) == FormItem(p.file, c);
    if k < FILE_MAX_COUNT {
      var q := BlankLine(p).last;
      assert q.files == items[..k] + [FormItem(items[k].header, c[..0])];
      assert AllAccepted(parts[..k + 1]);
    }
  }

  lemma NotAccepted(parts: seq<Part>, k: nat, n: nat)
    requires k < |parts| && n < |parts[k].lines| && HeaderAfter(parts[k].lines[..n]).1
    requires !HeaderLine(HeaderAfter(parts[k].lines[..n]).0, parts[k].lines[n]).1
    ensures Refused(parts)
  {
    hide HeaderAfter;
    var lines := parts[k].lines;
    NextHeader(lines, n);
    if HeaderAfter(lines).1 { AcceptedSoFar(lines, n + 1); }
    assert !Accepted(parts[k]);
  }

  lemma LineTurnKeeps(p: Parser, rest: string, parts: seq<Part>, boundary: string, lines: nat) returns (ph: Phase)
    requires CleanParts(parts, boundary) && Synced(p, rest, parts, boundary, InHeaders(lines))
    ensures LineKeeps(LineTurn(p), rest, parts, boundary, ph)
    ensures Find(p.buf, CRLF) <= HEADER_MAX_LENGTH
  {
    hide HeaderLine, HeaderAfter, BodyEnd, HeadText, OccursAt, CleanParts, Refused, AllAccepted;
    var k := |p.files|;
    var y := NextLineAhead(parts, boundary, k, lines);
    var line := NextLine(parts[k], lines);
    LineArrives(p, rest, line, y);
    if |p.buf| < |line| + 2 {
      ph := InHeaders(lines);
    } else if line == [] {
      ph := InBody(0);
      BlankLineKeeps(p, rest, parts, boundary, lines);
    } else {
      ph := InHeaders(lines + 1);
      NextHeader(parts[k].lines, lines);
      if !HeaderLine(p.file, line).1 { NotAccepted(parts, k, lines); }
    }
  }

  lemma {:induction false} HeaderLinesKeep(p: Parser, rest: string, parts: seq<Part>, boundary: string, lines: nat)
      returns (ph: Phase)
    requires CleanParts(parts, boundary) && Synced(p, rest, parts, boundary, InHeaders(lines))
    ensures var (q, ok) := HeaderLines(p); LineKeeps(Stop(q, ok), rest, parts, boundary, ph)
    decreases |p.buf|
  {
    hide Synced, CleanParts, Refused, LineTurn;
    ph := LineTurnKeeps(p, rest, parts, boundary, lines);
    if LineTurn(p).Go? {
      ph := HeaderLinesKeep(LineTurn(p).next, rest, parts, boundary, ph.lines);
    }
  }

  lemma HeaderTurnKeeps(p: Parser, rest: string, parts: seq<Part>, boundary: string, lines: nat) returns (ph: Phase)
    requires CleanParts(parts, boundary) && Synced(p, rest, parts, boundary, InHeaders(lines))
    ensures TurnKeeps(HeaderTurn(p), rest, parts, boundary, ph)
  {
    hide HeaderLines, LineTurn, CleanParts, Refused, HeadText, BodyEnd, HeaderAfter;
    ph := LineTurnKeeps(p, rest, parts, boundary, lines);
    ph := HeaderLinesKeep(p, rest, parts, boundary, lines);
  }

  lemma ReceiveMore(files: seq<FormItem>, item: FormItem, more: string)
    ensures Receive(files + [item], more) == files + [item.(content := item.content + more)]
  {}

  lemma SuffixStaysClean(content: string, d: string, done: nat)
    requires done <= |content| && forall j: nat :: !OccursAt(content, d, j)
    ensures forall j: nat :: !OccursAt(content[done..], d, j)
  {
    var c := content[done..];
    forall j: nat ensures !OccursAt(c, d, j) {
      assert !OccursAt(content, d, done + j);
      assert j + |d| <= |c| ==> c[j..j + |d|] == content[done + j..done + j + |d|];
    }
  }

  /** Searching the buffer in the body phase finds the true end of the content, or nothing. */
  lemma BodySearch(p: Parser, rest: string, parts: seq<Part>, boundary: string, done: nat)
    requires CleanParts(parts, boundary) && Synced(p, rest, parts, boundary, InBody(done))
    ensures var c, d := parts[|p.files| - 1].content[done..], Delimiter(boundary);
            Find(p.buf, d) == if |p.buf| >= |c| + |d| then |c| else |p.buf|
  {
    var k := |p.files|;
    var c, d := parts[k - 1].content[done..], Delimiter(boundary);
    assert CleanPart(parts[k - 1], boundary);
    SuffixStaysClean(parts[k - 1].content, d, done);
    DelimiterHasNoBorder(boundary);
    Assoc(c, d, AfterDelimiter(parts, boundary, k));
    FindInPrefix(p.buf, rest, c, d, AfterDelimiter(parts, boundary, k));
  }

  /** The end of the content is in the buffer: all of it is handed over. */
  lemma BodyEnds(p: Parser, rest: string, parts: seq<Part>, boundary: string, done: nat)
    requires CleanParts(parts, boundary) && Synced(p, rest, parts, boundary, InBody(done))
    requires |p.buf| >= |parts[|p.files| - 1].content| - done + |Delimiter(boundary)|
    ensures TurnKeeps(BodyTurn(p), rest, parts, boundary, AtDelimiter)
  {
    hide CleanParts, CleanPart, Find, OccursAt, AfterDelimiter, Delimiter, AllAccepted, HeaderAfter, HeadText;
    var k := |p.files|;
    var items, d := ItemsOf(parts), Delimiter(boundary);
    var item := items[k - 1];
    var c, y := item.content[done..], AfterDelimiter(parts, boundary, k);
    BodySearch(p, rest, parts, boundary, done);
    Assoc(c, d, y);
    DropFront(p.buf, rest, c + d, y);
    assert p.buf[..|c|] == p.buf[..|c + d|][..|c|] == c;
    ReceiveMore(items[..k - 1], FormItem(item.header, item.content[..done]), c);
    assert item.content[..done] + c == item.content;
    assert items[..k - 1] + [item] == items[..k];
  }

  /** The end has not arrived: all but a delimiter's length is handed over, which is content only. */
  lemma BodyGoesOn(p: Parser, rest: string, parts: seq<Part>, boundary: string, done: nat, len: nat)
    requires CleanParts(parts, boundary) && Synced(p, rest, parts, boundary, InBody(done))
    requires |p.buf| < |parts[|p.files| - 1].content| - done + |Delimiter(boundary)|
    requires len == |p.buf| - |Delimiter(boundary)|
    ensures TurnKeeps(BodyTurn(p), rest, parts, boundary, InBody(done + len))
  {
    hide CleanParts, CleanPart, Find, OccursAt, AfterDelimiter, Delimiter, AllAccepted, HeaderAfter, HeadText;
    var k := |p.files|;
    var items, d := ItemsOf(parts), Delimiter(boundary);
    var item := items[k - 1];
    var c, e := item.content[done..], BodyEnd(parts, boundary, k - 1);
    BodySearch(p, rest, parts, boundary, done);
    var more, left := c[..len], item.content[done + len..];
    ContentSplits(item.content, done, len);
    Assoc(more, left, e);
    DropFront(p.buf, rest, more, left + e);
    ReceiveMore(items[..k - 1], FormItem(item.header, item.content[..done]), more);
  }

  lemma ContentSplits(content: string, done: nat, len: nat)
    requires done + len <= |content|
    ensures content[done..] == content[done..][..len] + content[done + len..]
    ensures content[..done] + content[done..][..len] == content[..done + len]
  {}

  lemma BodyTurnKeeps(p: Parser, rest: string, parts: seq<Part>, boundary: string, done: nat) returns (ph: Phase)
    requires CleanParts(parts, boundary) && Synced(p, rest, parts, boundary, InBody(done))
    ensures TurnKeeps(BodyTurn(p), rest, parts, boundary, ph)
  {
    hide CleanParts, BodyTurn, TurnKeeps, Delimiter, AfterDelimiter, Find, OccursAt;
    var d := Delimiter(boundary);
    if |p.buf| >= |parts[|p.files| - 1].content| - done + |d| {
      ph := AtDelimiter;
      BodyEnds(p, rest, parts, boundary, done);
    } else if |p.buf| >= |d| {
      var len := |p.buf| - |d|;
      ph := InBody(done + len);
      BodyGoesOn(p, rest, parts, boundary, done, len);
    } else {
      ph := InBody(done);
      BodyWaits(p, rest, parts, boundary, done);
    }
  }

  /** Less than a delimiter's length has arrived. */
  lemma BodyWaits(p: Parser, rest: string, parts: seq<Part>, boundary: string, done: nat)
    requires Synced(p, rest, parts, boundary, InBody(done)) && |p.buf| < |Delimiter(boundary)|
    ensures TurnKeeps(BodyTurn(p), rest, parts, boundary, InBody(done))
  {
    hide Find, OccursAt, Delimiter, AfterDelimiter;
    assert |BodyEnd(parts, boundary, |p.files| - 1)| >= |Delimiter(boundary)|;
  }

  lemma BoundaryTurnKeeps(p: Parser, rest: string, parts: seq<Part>, boundary: string, ph0: Phase) returns (ph: Phase)
    requires CleanParts(parts, boundary) && Synced(p, rest, parts, boundary, ph0)
    requires (ph0.AtDelimiter? || ph0.Finished?) && p.state == 4 && p.buf != []
    ensures TurnKeeps(BoundaryTurn(p), rest, parts, boundary, ph)
  {
    ph := ph0;
    var text := p.buf + rest;
    if |p.buf| >= 2 {
      assert text[..2] == p.buf[..2] && p.buf[0..2] == p.buf[..2];
      if ph0.AtDelimiter? {
        var k := |p.files|;
        if k < |parts| {
          ph := NewEntry;
          DropFront(p.buf, rest, CRLF, HeadText(parts, boundary, k, 0));
        } else {
          ph := Finished;
          assert parts[..k] == parts && ItemsOf(parts)[..k] == ItemsOf(parts);
          DropFront(p.buf, rest, DASH, CRLF);
          assert |rest| <= 2 && (|rest| == 2 ==> rest == CRLF) by {
            assert |p.buf[2..] + rest| == 2;
            assert |rest| == 2 ==> p.buf[2..] == [];
          }
          assert BoundaryTurn(p) == Go(p.(valid := true, buf := []));
          assert [] + rest == rest;
        }
      } else {
        assert text == p.buf == CRLF;
      }
    }
  }

  lemma NothingAheadIsFinished(p: Parser, parts: seq<Part>, boundary: string, ph: Phase)
    requires CleanParts(parts, boundary) && Synced(p, [], parts, boundary, ph) && p.buf == []
    ensures ph.Finished?
  {
    assert p.buf + [] == [];
  }

  /** A turn keeps the parser in step with the text, whatever has arrived so far. */
  lemma OneTurn(p: Parser, rest: string, parts: seq<Part>, boundary: string, ph: Phase) returns (ph': Phase)
    requires CleanParts(parts, boundary) && Synced(p, rest, parts, boundary, ph) && p.buf != []
    ensures TurnKeeps(Turn1(p), rest, parts, boundary, ph')
  {
    match ph
    case NewEntry => ph' := InHeaders(0);
    case InHeaders(lines) => ph' := HeaderTurnKeeps(p, rest, parts, boundary, lines);
    case InBody(done) => ph' := BodyTurnKeeps(p, rest, parts, boundary, done);
    case AtDelimiter => ph' := BoundaryTurnKeeps(p, rest, parts, boundary, ph);
    case Finished => ph' := BoundaryTurnKeeps(p, rest, parts, boundary, ph);
  }

  lemma {:induction false} RunKeeps(p: Parser, rest: string, parts: seq<Part>, boundary: string, ph: Phase)
      returns (ph': Phase)
    requires CleanParts(parts, boundary) && Synced(p, rest, parts, boundary, ph)
    ensures var (q, ok) := Run(p); TurnKeeps(Stop(q, ok), rest, parts, boundary, ph')
    decreases Rank(p)
  {
    if p.buf == [] {
      ph' := ph;
      if rest == [] { NothingAheadIsFinished(p, parts, boundary, ph); }
    } else {
      ph' := OneTurn(p, rest, parts, boundary, ph);
      if Turn1(p).Go? {
        TurnDescends(p);
        ph' := RunKeeps(Turn1(p).next, rest, parts, boundary, ph');
      }
    }
  }

  // ----- whole inputs ---------------------------------------------------------

  lemma {:induction false} FeedAllKeeps(p: Parser, pieces: seq<string>, parts: seq<Part>, boundary: string, ph: Phase)
    requires CleanParts(parts, boundary) && Synced(p, Concat(pieces), parts, boundary, ph)
    requires pieces == [] ==> ph.Finished?
    ensures var (q, ok) := FeedAll(p, pieces);
            if ok then q.valid && q.files == ItemsOf(parts) && !Refused(parts) else Refused(parts)
    decreases |pieces|
  {
    hide CleanParts, HeadText, AfterDelimiter, BodyEnd, HeaderAfter, AllAccepted;
    if pieces == [] {
      assert parts[..|parts|] == parts;
    } else {
      var rest := Concat(pieces[1..]);
      var fed := p.(buf := p.buf + pieces[0]);
      Assoc(p.buf, pieces[0], rest);
      assert Synced(fed, rest, parts, boundary, ph);
      var ph' := RunKeeps(fed, rest, parts, boundary, ph);
      var (q, ok) := Run(fed);
      if ok {
        FeedAllKeeps(q, pieces[1..], parts, boundary, ph');
      }
    }
  }

  /** The first piece: the opening delimiter is found at its start when it is all there. */
  lemma OpeningTaken(boundary: string, first: string, y: string)
    requires |first| >= |Opening(boundary)| && first <= Opening(boundary) + y
    ensures var p := Initial(boundary).(buf := first);
            OpeningTurn(p) == Go(p.(buf := first[|Opening(boundary)|..], state := 1))
  {
    var o := Opening(boundary);
    assert first[..|o|] == (o + y)[..|o|] == o;
    assert first[0..0 + |o|] == o;
    FindIs(first, o, 0);
    assert first[0..] == first;
  }

  lemma FirstPieceKeeps(parts: seq<Part>, boundary: string, first: string, rest: string) returns (ph: Phase)
    requires CleanParts(parts, boundary)
    requires first + rest == Opening(boundary) + HeadText(parts, boundary, 0, 0) && |first| >= |Opening(boundary)|
    ensures var (q, ok) := Feed(Initial(boundary), first); TurnKeeps(Stop(q, ok), rest, parts, boundary, ph)
  {
    var o, y := Opening(boundary), HeadText(parts, boundary, 0, 0);
    assert first == (o + y)[..|first|];
    OpeningTaken(boundary, first, y);
    var p := Initial(boundary).(buf := first);
    assert [] + first == first;
    var q := p.(buf := first[|o|..], state := 1);
    DropFront(first, rest, o, y);
    ph := RunKeeps(q, rest, parts, boundary, NewEntry);
    assert Run(p) == Run(q);
  }

  /** A form in pieces, cut anywhere after its opening delimiter: its items come out, in order, with their
      headers and contents, and the parser ends valid, if and only if there are at most 1024 and every
      header line is accepted. */
  lemma PartsArrive(parts: seq<Part>, boundary: string, pieces: seq<string>)
    requires CleanParts(parts, boundary) && Concat(pieces) == FormText(parts, boundary)
    requires pieces != [] && |pieces[0]| >= |Opening(boundary)|
    ensures var (q, ok) := FeedAll(Initial(boundary), pieces);
            && (ok <==> |parts| <= FILE_MAX_COUNT && AllAccepted(parts))
            && (ok ==> q.valid && q.files == ItemsOf(parts))
  {
    hide CleanParts, Synced, Feed, HeadText, AllAccepted;
    var ph := FirstPieceKeeps(parts, boundary, pieces[0], Concat(pieces[1..]));
    var (q, ok) := Feed(Initial(boundary), pieces[0]);
    if ok { FeedAllKeeps(q, pieces[1..], parts, boundary, ph); }
  }

  // ----- what the parser refuses or never finishes ------------------------------------

  /** While headers are read, more than 8192 bytes without a line end make the parser give up, whatever has
      arrived before. */
  lemma LongLineIsRefused(p: Parser, data: string)
    requires p.state == 2 && |p.buf + data| > HEADER_MAX_LENGTH
    requires forall j: nat :: j <= HEADER_MAX_LENGTH ==> !OccursAt(p.buf + data, CRLF, j)
    ensures Feed(p, data) == (p.(buf := p.buf + data), false)
  {
    hide HeaderLines;
    var text := p.buf + data;
    assert Find(text, CRLF) > HEADER_MAX_LENGTH;
  }

  /** A delimiter that is followed by neither a line end nor two dashes leaves the parser waiting for ever: it
      takes all that arrives, reports no failure, delivers nothing and never becomes valid. */
  lemma {:induction false} StuckAfterDelimiter(p: Parser, pieces: seq<string>)
    requires p.state == 4 && |p.buf| >= 2 && p.buf[..2] != CRLF && p.buf[..2] != DASH
    ensures FeedAll(p, pieces) == (p.(buf := p.buf + Concat(pieces)), true)
    decreases |pieces|
  {
    if pieces == [] {
      assert p.buf + [] == p.buf;
    } else {
      var q := p.(buf := p.buf + pieces[0]);
      assert q.buf[..2] == p.buf[..2] && q.buf[0..2] == q.buf[..2];
      assert Turn1(q) == Stop(q, true);
      StuckAfterDelimiter(q, pieces[1..]);
      Assoc(p.buf, pieces[0], Concat(pieces[1..]));
    }
  }
}
