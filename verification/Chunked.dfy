/**
 The chunked transfer coding of httplib (externals/httplib/httplib.h): what a
 provider's writes put on the wire, and what the reader makes of any bytes.
 */
module Chunked {
  import opened Numbers
  import opened Sequences
  import opened Text
  import opened Urls
  import opened Headers
  import opened Streams

  const RECV_BUFSIZ := 4096

  // ----- hexadecimal sizes -----------------------------------------------------

  function HexDigit(n: nat): (c: char)
    requires n < 16
    ensures HexValue(c) == Some(n)
  {
    if n < 10 then ('0' as int + n) as char else ('a' as int + n - 10) as char
  }

  function Hex(n: nat): (s: string)
    ensures s != []
  {
    if n < 16 then [HexDigit(n)] else Hex(n / 16) + [HexDigit(n % 16)]
  }

  /** from_i_to_hex: the digits come out lowest first and are put in front. */
  method FromIToHex(n: nat) returns (ret: string)
    ensures ret == Hex(n)
  {
    ret := [HexDigit(n % 16)];
    var m := n / 16;
    while m > 0
      invariant Hex(n) == (if m > 0 then Hex(m) else []) + ret
    {
      ret := [HexDigit(m % 16)] + ret;
      m := m / 16;
    }
  }

  /** The number that the leading digits of s continue. */
  function Number(s: string, acc: nat): nat {
    if s == [] || HexValue(s[0]).None? then acc else Number(s[1..], acc * 16 + HexValue(s[0]).value)
  }

  /** strtoul in base 16, where ulongMax is the largest unsigned long: blanks, a sign, an
      optional 0x, digits; None when there is no digit, ulongMax when the number is too big. */
  function Strtoul(s: string, ulongMax: nat): Option<nat> {
    var t := SkipSpace(s);
    var u := if t != [] && (t[0] == '-' || t[0] == '+') then t[1..] else t;
    var w := if |u| > 2 && u[0] == '0' && (u[1] == 'x' || u[1] == 'X') && HexValue(u[2]).Some?
             then u[2..] else u;
    if w == [] || HexValue(w[0]).None? then None
    else
      var v := Number(w, 0);
      if v > ulongMax then Some(ulongMax)
      else if t[0] == '-' && v > 0 then Some(ulongMax + 1 - v)
      else Some(v)
  }

  lemma {:induction false} NumberOfHex(n: nat, rest: string)
    ensures Number(Hex(n) + rest, 0) == Number(rest, n)
  {
    var d := [HexDigit(n % 16)];
    assert (d + rest)[1..] == rest;
    if n >= 16 {
      NumberOfHex(n / 16, d + rest);
      Assoc(Hex(n / 16), d, rest);
    }
  }

  lemma {:induction false} HexIsDigits(n: nat)
    ensures forall c :: c in Hex(n) ==> HexValue(c).Some?
  {
    if n >= 16 { HexIsDigits(n / 16); }
  }

  /** A size line says its size, capped at the largest unsigned long. */
  lemma SizeLine(n: nat, ulongMax: nat)
    ensures Strtoul(Hex(n) + CRLF, ulongMax) == Some(Min(n, ulongMax))
  {
    hide Hex;
    HexIsDigits(n);
    NumberOfHex(n, CRLF);
    var s := Hex(n) + CRLF;
    assert s[0] == Hex(n)[0];
    assert SkipSpace(s) == s;
    assert s[1] == if |Hex(n)| > 1 then Hex(n)[1] else CR;
  }

  // ----- reading -----------------------------------------------------------------

  /** How reading a body ends: with the bytes handed to the receiver and, when the body is
      whole, the trailer fields in order and the bytes of the stream behind it. */
  datatype Outcome = Rejected(body: string) | Complete(body: string, trailers: seq<Param>, rest: string)

  function Prepend(b: string, o: Outcome): Outcome {
    match o
    case Rejected(x) => Rejected(b + x)
    case Complete(x, t, r) => Complete(b + x, t, r)
  }

  /** The field of a trailer line less its last two bytes; a shorter line has none. */
  function TrailerField(line: string): seq<Param> {
    if |line| < 2 then []
    else match HeaderField(line[..|line| - 2]) case None => [] case Some(f) => [f]
  }

  function ReadTrailers(s: string, sofar: seq<Param>): Outcome
    decreases |s|
  {
    if s == [] then Rejected([])
    else if Line(s) == CRLF then Complete([], sofar, AfterLine(s))
    else if |Line(s)| > HEADER_MAX_LENGTH then Rejected([])
    else ReadTrailers(AfterLine(s), sofar + TrailerField(Line(s)))
  }

  /** Reading goes on behind a size line. */
  function ReadFrom(line: string, s: string, ulongMax: nat): Outcome
    decreases |s|, 2
  {
    match Strtoul(line, ulongMax)
    case None => Rejected([])
    case Some(n) =>
      if n == ulongMax then Rejected([])
      else if n == 0 then ReadTrailers(s, [])
      else ReadData(n, s, ulongMax)
  }

  /** Reading goes on with the n bytes of a chunk. */
  function ReadData(n: nat, s: string, ulongMax: nat): Outcome
    decreases |s|, 1
  {
    if |s| < n then Rejected(s) else Prepend(s[..n], ReadNext(s[n..], ulongMax))
  }

  /** Reading goes on behind the data of a chunk. */
  function ReadNext(s: string, ulongMax: nat): Outcome
    decreases |s|, 0
  {
    if s == [] || Line(s) != CRLF || AfterLine(s) == [] then Rejected([])
    else ReadFrom(Line(AfterLine(s)), AfterLine(AfterLine(s)), ulongMax)
  }

  /** What the reader makes of a stream. */
  function ReadChunks(s: string, ulongMax: nat): Outcome {
    if s == [] then Rejected([]) else ReadFrom(Line(s), AfterLine(s), ulongMax)
  }

  /** read_content_with_length: pieces of at most 4096 bytes until len have come. */
  method ReadContentWithLength(stream: SocketStream, len: nat) returns (ok: bool, got: string)
    requires stream.Valid()
    modifies stream, stream.buff, stream.socket
    ensures stream.Valid() && old(stream.Pending()) == got + stream.Pending()
    ensures |got| <= len && (ok <==> |got| == len)
    ensures ok ==> stream.socket.failed == old(stream.socket.failed)
    ensures !ok && !stream.socket.failed ==> stream.Pending() == []
    ensures old(stream.socket.Steady()) ==> stream.socket.Steady()
  {
    hide SocketStream.Pending, Socket.Steady;
    got := [];
    var r: nat := 0;
    while r < len
      invariant stream.Valid() && r == |got| <= len
      invariant old(stream.Pending()) == got + stream.Pending()
      invariant stream.socket.failed == old(stream.socket.failed)
      invariant old(stream.socket.Steady()) ==> stream.socket.Steady()
    {
      var n, data := stream.Read(Min(len - r, RECV_BUFSIZ));
      if n <= 0 { return false, got; }
      Assoc(got, data, stream.Pending());
      got := got + data;
      r := r + n;
    }
    return true, got;
  }

  /** A trailer line is handed to parse_header without its last two bytes; for a line of one byte the range
      is reversed and holds no field. */
  method FieldOf(line: string) returns (fields: seq<Param>)
    ensures fields == TrailerField(line)
  {
    fields := [];
    if |line| >= 2 {
      var field := ParseHeader(line[..|line| - 2]);
      if field.Some? { fields := [field.value]; }
    }
  }

  /** The trailer loop of read_content_chunked. */
  method ReadTrailerLines(reader: LineReader) returns (ok: bool, trailers: seq<Param>)
    requires reader.Valid()
    modifies reader, reader.fixed, reader.stream, reader.stream.buff, reader.stream.socket
    ensures reader.Valid()
    ensures ok ==> reader.stream.socket.failed == old(reader.stream.socket.failed)
    ensures ok ==> ReadTrailers(old(reader.stream.Pending()), [])
                   == Complete([], trailers, reader.stream.Pending())
    ensures !ok && !reader.stream.socket.failed ==> ReadTrailers(old(reader.stream.Pending()), []) == Rejected([])
    ensures old(reader.stream.socket.Steady()) ==> reader.stream.socket.Steady()
  {
    hide SocketStream.Pending, Socket.Steady, TrailerField, Line, AfterLine, CString;
    trailers := [];
    ghost var s := reader.stream.Pending();
    ghost var whole := ReadTrailers(s, []);
    ok := reader.GetLine();
    if !ok { return; }
    var line := reader.Text();
    BlankLineIsExact(s);
    while CString(line) != CRLF
      invariant reader.Valid() && s != [] && line == Line(s) && reader.stream.Pending() == AfterLine(s)
      invariant ok && (CString(line) == CRLF <==> line == CRLF)
      invariant whole == ReadTrailers(s, trailers)
      invariant reader.stream.socket.failed == old(reader.stream.socket.failed)
      invariant old(reader.stream.socket.Steady()) ==> reader.stream.socket.Steady()
      decreases |s|
    {
      if |line| > HEADER_MAX_LENGTH { return false, trailers; }
      var fields := FieldOf(line);
      trailers := trailers + fields;
      s := AfterLine(s);
      ok := reader.GetLine();
      if !ok { return; }
      line := reader.Text();
      BlankLineIsExact(s);
    }
  }

  /** The middle of the chunk loop: the data, the line that closes it, the next size line. */
  method ReadChunk(reader: LineReader, n: nat, ghost ulongMax: nat) returns (ok: bool, got: string)
    requires reader.Valid()
    modifies reader, reader.fixed, reader.stream, reader.stream.buff, reader.stream.socket
    ensures reader.Valid()
    ensures ok ==> reader.stream.socket.failed == old(reader.stream.socket.failed)
    ensures ok ==> |reader.stream.Pending()| < |old(reader.stream.Pending())|
    ensures ok ==> ReadData(n, old(reader.stream.Pending()), ulongMax)
                   == Prepend(got, ReadFrom(reader.View(), reader.stream.Pending(), ulongMax))
    ensures !ok && !reader.stream.socket.failed ==>
              ReadData(n, old(reader.stream.Pending()), ulongMax) == Rejected(got)
    ensures got <= ReadData(n, old(reader.stream.Pending()), ulongMax).body
    ensures old(reader.stream.socket.Steady()) ==> reader.stream.socket.Steady()
  {
    hide SocketStream.Pending, Socket.Steady, Line, AfterLine, CString, ReadFrom;
    ghost var s := reader.stream.Pending();
    ok, got := ReadContentWithLength(reader.stream, n);
    ghost var t := reader.stream.Pending();
    if !ok {
      assert t == [] ==> got + t == got;
      return;
    }
    assert s[..n] == got && s[n..] == t;
    assert got + [] == got;
    ok := reader.GetLine();
    if !ok { return; }
    var line := reader.Text();
    BlankLineIsExact(t);
    if CString(line) != CRLF { return false, got; }
    ok := reader.GetLine();
  }

  /** read_content_chunked: whatever the short reads, the reader's meaning of the whole
      stream; a failing read ends it early, never with a wrong result. */
  method ReadContentChunked(stream: SocketStream, ulongMax: nat)
    returns (ok: bool, body: string, trailers: seq<Param>)
    requires stream.Valid()
    modifies stream, stream.buff, stream.socket
    ensures stream.Valid()
    ensures ok ==> ReadChunks(old(stream.Pending()), ulongMax) == Complete(body, trailers, stream.Pending())
    ensures !ok && !stream.socket.failed ==> ReadChunks(old(stream.Pending()), ulongMax) == Rejected(body)
    ensures body <= ReadChunks(old(stream.Pending()), ulongMax).body
    ensures ok ==> stream.socket.failed == old(stream.socket.failed)
    ensures old(stream.socket.Steady()) ==> stream.socket.Steady()
  {
    hide SocketStream.Pending, Socket.Steady, Line, AfterLine, Strtoul, ReadData, ReadTrailers;
    body, trailers := [], [];
    ghost var whole := ReadChunks(stream.Pending(), ulongMax);
    var reader := new LineReader(stream, 16);
    ok := reader.GetLine();
    if !ok { return; }
    while true
      invariant reader.Valid() && reader.stream == stream && fresh(reader) && fresh(reader.fixed)
      invariant whole == Prepend(body, ReadFrom(reader.View(), stream.Pending(), ulongMax))
      invariant stream.socket.failed == old(stream.socket.failed)
      invariant old(stream.socket.Steady()) ==> stream.socket.Steady()
      decreases |stream.Pending()|
    {
      var line := reader.Text();
      var chunkLen := Strtoul(line, ulongMax);
      assert body + [] == body;
      if chunkLen.None? || chunkLen.value == ulongMax { return false, body, trailers; }
      if chunkLen.value == 0 { break; }
      var got;
      ghost var was := body;
      ok, got := ReadChunk(reader, chunkLen.value, ulongMax);
      body := body + got;
      if !ok { return; }
      PrependTwice(was, got, ReadFrom(reader.View(), stream.Pending(), ulongMax));
    }
    ok, trailers := ReadTrailerLines(reader);
  }

  lemma PrependTwice(a: string, b: string, o: Outcome)
    ensures Prepend(a, Prepend(b, o)) == Prepend(a + b, o)
  {
    Assoc(a, b, o.body);
  }
}
