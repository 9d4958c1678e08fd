/**
 The incremental multipart/form-data parser and its serializer
 (externals/httplib/httplib.h).

 The parser class keeps the original's fields: a numbered state, a growing buffer
 with a start and an end offset, and the header of the part being read.  The two
 callbacks it is given by the server are part of the model: the header callback
 opens a new received item and refuses the 1025th, the content callback appends to
 the item opened last.  `Run` is the parser as a function of its abstract state;
 the class is proved to compute it.
 */
module Multipart {
  import opened Sequences
  import opened Text
  import opened Urls
  import opened Headers

  const FILE_MAX_COUNT := 1024

  datatype FormHeader = FormHeader(name: string, filename: string, contentType: string)
  datatype FormItem = FormItem(header: FormHeader, content: string)

  const NO_HEADER := FormHeader("", "", "")

  /** Opening delimiter line: dash_boundary_crlf_. */
  function Opening(boundary: string): (o: string)
    ensures |o| == |boundary| + 4
  {
    DASH + boundary + CRLF
  }

  /** What ends a part: crlf_dash_boundary_. */
  function Delimiter(boundary: string): (d: string)
    ensures |d| == |boundary| + 4
  {
    CRLF + DASH + boundary
  }

  // ----- one header line ----------------------------------------------------

  /** The header after one line, and whether parsing may go on. */
  function HeaderLine(file: FormHeader, line: string): (FormHeader, bool) {
    if HeaderField(line).None? then (file, false)
    else if StartsIgnoringCase(line, CONTENT_TYPE) then
      (file.(contentType := Trim(line[|CONTENT_TYPE|..])), true)
    else
      match DispositionRest(line)
      case None => (file, true)
      case Some(rest) => DispositionFile(file, DispositionParams(rest))
  }

  function DispositionFile(file: FormHeader, params: seq<Param>): (FormHeader, bool) {
    match Lookup(params, "name")
    case None => (file, false)
    case Some(name) =>
      var plain := Lookup(params, "filename");
      var f := file.(name := name, filename := if plain.Some? then plain.value else file.filename);
      match Lookup(params, "filename*")
      case None => (f, true)
      case Some(v) =>
        if StartsIgnoringCase(v, UTF8_MARK) && |v| > |UTF8_MARK|
        then (f.(filename := Decode(v[|UTF8_MARK|..], false)), true)
        else (f, false)
  }

  method ParseHeaderLine(file: FormHeader, line: string) returns (r: FormHeader, ok: bool)
    ensures (r, ok) == HeaderLine(file, line)
  {
    r := file;
    var field := ParseHeader(line);
    if field.None? { return r, false; }
    var isType := StartWithCaseIgnore(line, CONTENT_TYPE);
    if isType {
      var left, right := TrimRange(line, |CONTENT_TYPE|, |line|);
      assert line[|CONTENT_TYPE|..|line|] == line[|CONTENT_TYPE|..];
      return r.(contentType := if left < right then line[left..right] else ""), true;
    }
    var rest := DispositionRest(line);
    if rest.Some? {
      var params := ParseDispositionParams(rest.value);
      var it := Lookup(params, "name");
      if it.None? { return r, false; }
      r := r.(name := it.value);
      it := Lookup(params, "filename");
      if it.Some? { r := r.(filename := it.value); }
      it := Lookup(params, "filename*");
      if it.Some? {
        if !(StartsIgnoringCase(it.value, UTF8_MARK) && |it.value| > |UTF8_MARK|) { return r, false; }
        var decoded := DecodeUrl(it.value[|UTF8_MARK|..], false);
        r := r.(filename := decoded);
      }
    }
    ok := true;
  }

  // ----- the parser as a function -------------------------------------------

  /** Everything that matters between two calls: buf is the unread part of the buffer. */
  datatype Parser = Parser(boundary: string, state: nat, valid: bool, file: FormHeader,
                           buf: string, files: seq<FormItem>, fileCount: nat)

  function Initial(boundary: string): Parser {
    Parser(boundary, 0, false, NO_HEADER, [], [], 0)
  }

  /** The content callback: append to the item opened last. */
  function Receive(files: seq<FormItem>, bytes: string): seq<FormItem> {
    if files == [] then files
    else
      var last := files[|files| - 1];
      files[|files| - 1 := last.(content := last.content + bytes)]
  }

  /** What one turn of a loop does: go round again, or leave with a verdict. */
  datatype Turn = Go(next: Parser) | Stop(last: Parser, ok: bool)

  /** One turn of the inner loop of the header state. */
  function LineTurn(p: Parser): (t: Turn)
    ensures t.Go? ==> |t.next.buf| < |p.buf| && t.next.state == p.state
    ensures t.Stop? && t.last.state != p.state ==> t.last.state == 3 && |t.last.buf| < |p.buf|
  {
    var pos := Find(p.buf, CRLF);
    if pos == |p.buf| then Stop(p, true)
    else if pos == 0 then BlankLine(p)
    else
      var (file, ok) := HeaderLine(p.file, p.buf[..pos]);
      if ok then Go(p.(file := file, buf := p.buf[pos + |CRLF|..])) else Stop(p.(file := file, valid := false), false)
  }

  /** The empty line after the headers: hand the header to the server and turn to the body. */
  function BlankLine(p: Parser): Turn
    requires |p.buf| >= |CRLF|
  {
    if p.fileCount == FILE_MAX_COUNT then Stop(p.(fileCount := p.fileCount + 1, valid := false), false)
    else Stop(p.(files := p.files + [FormItem(p.file, "")], fileCount := p.fileCount + 1,
                 buf := p.buf[|CRLF|..], state := 3), true)
  }

  /** The inner loop of the header state; the flag is false when parsing is given up. */
  function HeaderLines(p: Parser): (r: (Parser, bool))
    ensures r.0.state == p.state || (r.0.state == 3 && |r.0.buf| < |p.buf|)
    decreases |p.buf|
  {
    match LineTurn(p)
    case Go(q) => HeaderLines(q)
    case Stop(q, ok) => (q, ok)
  }

  function OpeningTurn(p: Parser): Turn {
    var buf := p.buf[Find(p.buf, Opening(p.boundary))..];
    if |Opening(p.boundary)| > |buf| then Stop(p.(buf := buf), true)
    else if !OccursAt(buf, Opening(p.boundary), 0) then Stop(p.(buf := buf), false)
    else Go(p.(buf := buf[|Opening(p.boundary)|..], state := 1))
  }

  function HeaderTurn(p: Parser): Turn {
    if Find(p.buf, CRLF) > HEADER_MAX_LENGTH then Stop(p, false)
    else
      var (q, ok) := HeaderLines(p);
      if !ok then Stop(q, false) else if q.state != 3 then Stop(q, true) else Go(q)
  }

  function BodyTurn(p: Parser): Turn {
    var delim := Delimiter(p.boundary);
    if |delim| > |p.buf| then Stop(p, true)
    else
      var pos := Find(p.buf, delim);
      if pos < |p.buf| then
        Go(p.(files := Receive(p.files, p.buf[..pos]), buf := p.buf[pos + |delim|..], state := 4))
      else
        var len := |p.buf| - |delim|;
        if len > 0 then Stop(p.(files := Receive(p.files, p.buf[..len]), buf := p.buf[len..]), true)
        else Stop(p, true)
  }

  function BoundaryTurn(p: Parser): Turn {
    if |CRLF| > |p.buf| then Stop(p, true)
    else if OccursAt(p.buf, CRLF, 0) then Go(p.(buf := p.buf[|CRLF|..], state := 1))
    else if OccursAt(p.buf, DASH, 0) then Go(p.(valid := true, buf := []))
    else Stop(p, true)
  }

  /** One turn of the outer loop. */
  function Turn1(p: Parser): Turn {
    if p.state == 0 then OpeningTurn(p)
    else if p.state == 1 then Go(p.(file := NO_HEADER, state := 2))
    else if p.state == 2 then HeaderTurn(p)
    else if p.state == 3 then BodyTurn(p)
    else BoundaryTurn(p)
  }

  function Rank(p: Parser): nat { 2 * |p.buf| + if p.state == 1 then 1 else 0 }

  lemma TurnDescends(p: Parser)
    requires p.buf != [] && Turn1(p).Go?
    ensures Rank(Turn1(p).next) < Rank(p)
  {}

  /** The outer loop: runs until the buffer is empty, more input is needed, or parsing fails. */
  function Run(p: Parser): (Parser, bool)
    decreases Rank(p)
  {
    if p.buf == [] then (p, true)
    else
      match Turn1(p)
      case Stop(q, ok) => (q, ok)
      case Go(q) => TurnDescends(p); Run(q)
  }

  /** One call of parse with a piece of input. */
  function Feed(p: Parser, data: string): (Parser, bool) {
    Run(p.(buf := p.buf + data))
  }

  /** Calls parse with each piece in turn, giving up at the first failure. */
  function FeedAll(p: Parser, pieces: seq<string>): (Parser, bool)
    decreases |pieces|
  {
    if pieces == [] then (p, true)
    else
      var (q, ok) := Feed(p, pieces[0]);
      if ok then FeedAll(q, pieces[1..]) else (q, false)
  }

  // ----- the parser as the original has it -----------------------------------

  class MultipartFormDataParser {
    var boundary: string
    var state: nat
    var isValid: bool
    var file: FormHeader
    var buf: seq<char>
    var spos: nat
    var epos: nat
    // the receiving server
    var files: seq<FormItem>
    var fileCount: nat

    ghost predicate Valid() reads this`buf, this`spos, this`epos { spos <= epos <= |buf| }

    ghost function View(): string
      reads this`buf, this`spos, this`epos
      requires Valid()
    {
      buf[spos..epos]
    }

    lemma ViewPrefix(n: nat)
      requires Valid() && n <= epos - spos
      ensures |View()| == epos - spos && View()[..n] == buf[spos..spos + n]
    {}

    ghost function Abs(): Parser
      reads this
      requires Valid()
    {
      Parser(boundary, state, isValid, file, View(), files, fileCount)
    }

    constructor (boundary: string)
      ensures Valid() && Abs() == Initial(boundary)
    {
      this.boundary := boundary;
      state, isValid, file := 0, false, NO_HEADER;
      buf, spos, epos := [], 0, 0;
      files, fileCount := [], 0;
    }

    /** The first loop of buf_append: slide the unread bytes to the front. */
    method Slide()
      requires Valid()
      modifies this`buf, this`spos, this`epos
      ensures Valid() && spos == 0 && View() == old(View())
    {
      var remaining := epos - spos;
      ghost var was := View();
      assert forall j :: 0 <= j < remaining ==> buf[spos + j] == was[j];
      if remaining > 0 && spos > 0 {
        for i := 0 to remaining
          invariant Valid() && spos == old(spos) && epos == old(epos)
          invariant forall j :: 0 <= j < i ==> buf[j] == was[j]
          invariant forall j :: i <= j < remaining ==> buf[spos + j] == was[j]
        {
          buf := buf[i := buf[spos + i]];
        }
      }
      assert buf[..remaining] == was;
      spos := 0;
      epos := remaining;
    }

    /** buf_append: slide, grow the buffer if needed, copy the data in. */
    method Append(data: string)
      requires Valid()
      modifies this`buf, this`spos, this`epos
      ensures Valid() && View() == old(View()) + data
    {
      Slide();
      ghost var was := View();
      if epos + |data| > |buf| {
        buf := buf + seq(epos + |data| - |buf|, _ => '\0');
      }
      assert forall j :: 0 <= j < epos ==> buf[j] == was[j];
      for i := 0 to |data|
        invariant spos == 0 && epos == |was| && epos + |data| <= |buf|
        invariant forall j :: 0 <= j < epos ==> buf[j] == was[j]
        invariant forall j :: 0 <= j < i ==> buf[epos + j] == data[j]
      {
        buf := buf[epos + i := data[i]];
      }
      SliceIs(buf, 0, was);
      SliceIs(buf, epos, data);
      SliceJoin(buf, 0, epos, epos + |data|);
      epos := epos + |data|;
    }

    /** start_with on the buffer from an absolute position. */
    method StartsWith(pos: nat, s: string) returns (r: bool)
      requires Valid() && spos <= pos <= epos
      ensures r == OccursAt(View(), s, pos - spos)
    {
      if epos - pos < |s| { return false; }
      ghost var off := pos - spos;
      SubSlice(buf, spos, epos, off, off + |s|);
      for i := 0 to |s|
        invariant buf[pos..pos + i] == s[..i]
      {
        if buf[pos + i] != s[i] {
          assert buf[pos..pos + |s|][i] != s[i];
          return false;
        }
        assert buf[pos..pos + i + 1] == buf[pos..pos + i] + [buf[pos + i]] && s[..i + 1] == s[..i] + [s[i]];
      }
      assert s[..|s|] == s;
      return true;
    }

    /** buf_start_with. */
    method BufStartsWith(s: string) returns (r: bool)
      requires Valid()
      ensures r == OccursAt(View(), s, 0)
    {
      r := StartsWith(spos, s);
    }

    /** buf_find: offset of the first occurrence, or the size of the unread part. */
    method BufFind(s: string) returns (r: nat)
      requires Valid() && s != []
      ensures r == Find(View(), s)
    {
      var off := spos;
      while off < epos
        invariant spos <= off <= epos
        invariant forall j: nat :: j < off - spos ==> !OccursAt(View(), s, j)
      {
        var pos := off;
        while pos != epos && buf[pos] != s[0]
          invariant off <= pos <= epos
          invariant forall j: nat :: j < pos - spos ==> !OccursAt(View(), s, j)
          decreases epos - pos
        {
          assert !OccursAt(View(), s, pos - spos) by { assert View()[pos - spos] == buf[pos]; }
          pos := pos + 1;
        }
        if pos == epos { return epos - spos; }
        if |s| > epos - pos { return epos - spos; }
        var here := StartsWith(pos, s);
        if here {
          FindIs(View(), s, pos - spos);
          return pos - spos;
        }
        off := pos + 1;
      }
      return epos - spos;
    }

    method Erase(n: nat)
      requires Valid() && n <= epos - spos
      modifies this`spos
      ensures Valid() && View() == old(View())[n..]
    {
      spos := spos + n;
    }

    /** The header callback of the server: open an item, unless 1024 are open already. */
    method HeaderCallback() returns (ok: bool)
      modifies this`files, this`fileCount
      ensures fileCount == old(fileCount) + 1 && ok == (old(fileCount) != FILE_MAX_COUNT)
      ensures files == if ok then old(files) + [FormItem(file, "")] else old(files)
    {
      ok := fileCount != FILE_MAX_COUNT;
      fileCount := fileCount + 1;
      if ok { files := files + [FormItem(file, "")]; }
    }

    /** One header line, already located; stop tells to leave the loop with verdict ok. */
    method ReadLine(pos: nat) returns (stop: bool, ok: bool)
      requires Valid() && state == 2 && pos == Find(View(), CRLF) < |View()|
      modifies this
      ensures Valid()
      ensures LineTurn(old(Abs())) == if stop then Stop(Abs(), ok) else Go(Abs())
    {
      hide HeaderLine, Find;
      if pos == 0 {
        ok := HeaderCallback();
        if ok {
          Erase(|CRLF|);
          state := 3;
        } else {
          isValid := false;
        }
        return true, ok;
      }
      var line := buf[spos..spos + pos];
      SlicePrefix(buf, spos, epos, pos);
      file, ok := ParseHeaderLine(file, line);
      if !ok {
        isValid := false;
        return true, false;
      }
      Erase(pos + |CRLF|);
      return false, true;
    }

    method ReadHeaders() returns (ok: bool)
      requires Valid() && state == 2
      modifies this
      ensures Valid() && (Abs(), ok) == HeaderLines(old(Abs()))
    {
      var pos := BufFind(CRLF);
      while pos < epos - spos
        invariant Valid() && state == 2 && pos == Find(View(), CRLF)
        invariant HeaderLines(Abs()) == HeaderLines(old(Abs()))
        decreases epos - spos
      {
        var stop;
        stop, ok := ReadLine(pos);
        if stop { return; }
        pos := BufFind(CRLF);
      }
      ok := true;
    }

    method ReadOpening() returns (stop: bool, ok: bool)
      requires Valid() && state == 0
      modifies this
      ensures Valid()
      ensures OpeningTurn(old(Abs())) == if stop then Stop(Abs(), ok) else Go(Abs())
    {
      hide Find, OccursAt, View, Opening;
      var open := Opening(boundary);
      ViewPrefix(0);
      var pos := BufFind(open);
      ghost var rest := View()[pos..];
      Erase(pos);
      assert View() == rest;
      ViewPrefix(0);
      if |open| > epos - spos { return true, true; }
      var here := BufStartsWith(open);
      if !here { return true, false; }
      Erase(|open|);
      state := 1;
      return false, true;
    }

    method ReadBody() returns (stop: bool)
      requires Valid() && state == 3
      modifies this
      ensures Valid()
      ensures BodyTurn(old(Abs())) == if stop then Stop(Abs(), true) else Go(Abs())
    {
      hide Find, Receive, OccursAt, View, Delimiter;
      var delim := Delimiter(boundary);
      ViewPrefix(0);
      if |delim| > epos - spos { return true; }
      var pos := BufFind(delim);
      if pos < epos - spos {
        FoundInside(View(), delim);
        ViewPrefix(pos);
        files := Receive(files, buf[spos..spos + pos]);
        Erase(pos + |delim|);
        state := 4;
        return false;
      }
      var len := epos - spos - |delim|;
      if len > 0 {
        ViewPrefix(len);
        files := Receive(files, buf[spos..spos + len]);
        Erase(len);
      }
      return true;
    }

    method ReadBoundary() returns (stop: bool)
      requires Valid() && state > 3
      modifies this
      ensures Valid()
      ensures BoundaryTurn(old(Abs())) == if stop then Stop(Abs(), true) else Go(Abs())
    {
      hide OccursAt;
      if |CRLF| > epos - spos { return true; }
      var here := BufStartsWith(CRLF);
      if here {
        Erase(|CRLF|);
        state := 1;
        return false;
      }
      var last := BufStartsWith(DASH);
      if !last { return true; }
      Erase(|DASH|);
      isValid := true;
      Erase(epos - spos);
      return false;
    }

    method Parse(data: string) returns (ok: bool)
      requires Valid()
      modifies this
      ensures Valid() && (Abs(), ok) == Feed(old(Abs()), data)
    {
      ghost var goal := Feed(Abs(), data);
      Append(data);
      while epos - spos > 0
        invariant Valid() && Run(Abs()) == goal
        decreases Rank(Abs())
      {
        ghost var before := Abs();
        var stop := false;
        ok := true;
        if state == 0 {
          stop, ok := ReadOpening();
        } else if state == 1 {
          file := NO_HEADER;
          state := 2;
        } else if state == 2 {
          var pos := BufFind(CRLF);
          if pos > HEADER_MAX_LENGTH { return false; }
          ok := ReadHeaders();
          stop := !ok || state != 3;
        } else if state == 3 {
          stop := ReadBody();
        } else {
          stop := ReadBoundary();
        }
        assert Turn1(before) == if stop then Stop(Abs(), ok) else Go(Abs());
        if stop { return; }
        TurnDescends(before);
      }
      return true;
    }
  }

  /** Receiving a request body piece by piece, as the server does. */
  method ReceiveForm(boundary: string, pieces: seq<string>) returns (ok: bool, valid: bool, files: seq<FormItem>)
    ensures var (q, fed) := FeedAll(Initial(boundary), pieces); ok == fed && valid == q.valid && files == q.files
  {
    var parser := new MultipartFormDataParser(boundary);
    ghost var goal := FeedAll(Initial(boundary), pieces);
    for i := 0 to |pieces|
      invariant parser.Valid() && fresh(parser)
      invariant FeedAll(parser.Abs(), pieces[i..]) == goal
    {
      assert pieces[i..][0] == pieces[i] && pieces[i..][1..] == pieces[i + 1..];
      ok := parser.Parse(pieces[i]);
      if !ok { return false, parser.isValid, parser.files; }
    }
    assert pieces[|pieces|..] == [];
    return true, parser.isValid, parser.files;
  }
}
