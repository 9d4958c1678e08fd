/**
 Byte streams (externals/httplib/httplib.h): a socket that reads short at
 will, the buffered SocketStream on top of it, and the line reader on top of that.
 */
module Streams {
  import opened Numbers
  import opened Sequences
  import opened Text

  const READ_BUFF_SIZE := 4096
  const SSIZE_MAX := 0x7FFF_FFFF_FFFF_FFFF
  const NUL := '\0'

  /** The receiving end: bytes not yet read, and a script of what each coming read does.
      A negative entry is a timeout or an error, any other entry bounds a read that still
      makes progress; past the script every read takes all it can. */
  class Socket {
    var unread: string
    var script: seq<int>
    var failed: bool

    constructor (unread: string, script: seq<int>)
      ensures this.unread == unread && this.script == script && !failed
    {
      this.unread, this.script, failed := unread, script, false;
    }

    /** No read has failed and none is going to. */
    ghost predicate Steady() reads this {
      !failed && forall i :: 0 <= i < |script| ==> script[i] >= 0
    }

    method Receive(size: nat) returns (n: int, data: string)
      modifies this
      ensures n == |data| || (n == -1 && data == [] && failed)
      ensures n <= size && (n == 0 ==> size == 0 || unread == [])
      ensures old(unread) == data + unread
      ensures n >= 0 ==> failed == old(failed)
      ensures old(Steady()) ==> Steady()
    {
      var most := Min(size, |unread|);
      var take := most;
      if script != [] {
        var reply := script[0];
        script := script[1..];
        if reply < 0 { failed := true; return -1, []; }
        if reply < most { take := if reply == 0 then 1 else reply; }
      }
      n, data := take, unread[..take];
      unread := unread[take..];
    }
  }

  class SocketStream {
    const socket: Socket
    const buff: array<char>
    var off: nat
    var contentSize: nat

    ghost predicate Valid() reads this {
      buff.Length == READ_BUFF_SIZE && off <= contentSize <= READ_BUFF_SIZE
    }

    /** What is still to be delivered: the buffered bytes, then the socket's. */
    ghost function Pending(): string reads this, buff, socket requires Valid() {
      buff[off..contentSize] + socket.unread
    }

    constructor (socket: Socket)
      ensures Valid() && this.socket == socket && fresh(buff) && Pending() == socket.unread
    {
      this.socket := socket;
      buff := new char[READ_BUFF_SIZE];
      off, contentSize := 0, 0;
    }

    /** Hand out at most size buffered bytes. */
    method Deliver(size: nat) returns (data: string)
      requires Valid()
      modifies this`off
      ensures Valid() && |data| == Min(size, contentSize - old(off))
      ensures old(Pending()) == data + Pending()
    {
      var n := Min(size, contentSize - off);
      data := buff[off..off + n];
      assert buff[off..contentSize] == data + buff[off + n..contentSize];
      Assoc(data, buff[off + n..contentSize], socket.unread);
      off := off + n;
    }

    /** Read a whole buffer's worth from the socket. */
    method Fill() returns (n: int)
      requires Valid() && off == contentSize
      modifies this, buff, socket
      ensures Valid() && Pending() == old(Pending())
      ensures off == 0 && contentSize == if n < 0 then 0 else n
      ensures n < 0 ==> n == -1 && socket.failed
      ensures n == 0 ==> old(Pending()) == []
      ensures n >= 0 ==> socket.failed == old(socket.failed)
      ensures old(socket.Steady()) ==> socket.Steady()
    {
      assert Pending() == socket.unread;
      var data;
      n, data := socket.Receive(READ_BUFF_SIZE);
      off, contentSize := 0, |data|;
      forall i | 0 <= i < |data| { buff[i] := data[i]; }
      assert buff[..contentSize] == data;
    }

    /** SocketStream::read: every byte comes out once and in the socket's order. */
    method Read(want: nat) returns (n: int, data: string)
      requires Valid()
      modifies this, buff, socket
      ensures Valid()
      ensures n == |data| || (n == -1 && data == [] && socket.failed)
      ensures n <= want && (n == 0 ==> want == 0 || old(Pending()) == [])
      ensures old(Pending()) == data + Pending()
      ensures n >= 0 ==> socket.failed == old(socket.failed)
      ensures old(socket.Steady()) ==> socket.Steady()
    {
      var size := Min(want, SSIZE_MAX);
      if off < contentSize {
        data := Deliver(size);
        return |data|, data;
      }
      if size < READ_BUFF_SIZE {
        n := Fill();
        if n <= 0 { return n, []; }
        data := Deliver(size);
        return |data|, data;
      } else {
        assert Pending() == socket.unread;
        off, contentSize := 0, 0;
        n, data := socket.Receive(size);
      }
    }
  }

  // ----- lines ------------------------------------------------------------------

  /** The first line with its LF, or everything when there is none. */
  function Line(s: string): (line: string)
    ensures |line| <= |s| && line == s[..|line|]
    ensures s != [] ==> line != []
  {
    var k := IndexOf(s, LF);
    if k < |s| then s[..k + 1] else s
  }

  function AfterLine(s: string): (rest: string)
    ensures s == Line(s) + rest
    ensures s != [] ==> |rest| < |s|
  {
    s[|Line(s)|..]
  }

  lemma LineIs(a: string, rest: string)
    requires LF !in a
    ensures Line(a + [LF] + rest) == a + [LF] && AfterLine(a + [LF] + rest) == rest
  {
    var s := a + [LF] + rest;
    assert s[..|a|] == a && s[|a|] == LF;
    IndexOfIs(s, LF, |a|);
  }

  lemma LastLine(a: string)
    requires LF !in a
    ensures Line(a) == a && AfterLine(a) == []
  {
    assert a[..|a|] == a;
    IndexOfIs(a, LF, |a|);
  }

  /** The part of a text that C's string functions see. */
  function CString(s: string): string { s[..IndexOf(s, NUL)] }

  /** Comparing a line with CRLF as C strings compares the whole line: nothing can follow
      the LF of a line. */
  lemma BlankLineIsExact(s: string)
    ensures CString(Line(s)) == CRLF <==> Line(s) == CRLF
  {
    var line := Line(s);
    if CString(line) == CRLF {
      assert line[1] == line[..2][1] == LF;
      assert s[1] == LF;
      assert IndexOf(s, LF) <= 1;
    }
    if line == CRLF { IndexOfIs(line, NUL, 2); }
  }

  class LineReader {
    const stream: SocketStream
    const fixed: array<char>
    var used: nat
    var glowable: string

    ghost predicate Valid() reads this, stream, fixed {
      stream.Valid() && fixed != stream.buff && 2 <= fixed.Length
      && used < fixed.Length
      && (glowable != [] ==> used == fixed.Length - 1)
      && (used > 0 ==> fixed[used] == NUL)
    }

    /** The line so far, in the fixed buffer until that is full and in the other one after. */
    ghost function View(): string reads this, fixed requires used <= fixed.Length {
      if glowable == [] then fixed[..used] else glowable
    }

    constructor (stream: SocketStream, bufsiz: nat)
      requires stream.Valid() && bufsiz >= 2
      ensures Valid() && this.stream == stream && fresh(fixed)
    {
      this.stream := stream;
      fixed := new char[bufsiz];
      used, glowable := 0, [];
    }

    method Append(c: char)
      requires Valid()
      modifies this, fixed
      ensures Valid() && View() == old(View()) + [c]
    {
      if used < fixed.Length - 1 {
        fixed[used] := c;
        used := used + 1;
        fixed[used] := NUL;
      } else {
        if glowable == [] {
          assert fixed[used] == NUL;
          glowable := fixed[..used];
        }
        glowable := glowable + [c];
      }
    }

    /** The line as the source's ptr() and size() give it. */
    method Text() returns (s: string)
      requires Valid()
      ensures s == View()
    {
      if glowable == [] { s := fixed[..used]; } else { s := glowable; }
    }

    /** One turn of getline: the next byte, if there is one, joins the line. */
    method GetByte() returns (n: int, c: char)
      requires Valid()
      modifies this, fixed, stream, stream.buff, stream.socket
      ensures Valid() && n <= 1
      ensures n < 0 ==> stream.socket.failed
      ensures n >= 0 ==> stream.socket.failed == old(stream.socket.failed)
      ensures n == 0 ==> old(stream.Pending()) == stream.Pending() == [] && View() == old(View())
      ensures n == 1 ==> View() == old(View()) + [c] && old(stream.Pending()) == [c] + stream.Pending()
      ensures old(stream.socket.Steady()) ==> stream.socket.Steady()
    {
      var data;
      n, data := stream.Read(1);
      c := NUL;
      if n == 1 {
        c := data[0];
        assert data == [c];
        Append(c);
      }
    }

    /** getline: one whole line unless the stream fails or has already ended. */
    method GetLine() returns (ok: bool)
      requires Valid()
      modifies this, fixed, stream, stream.buff, stream.socket
      ensures Valid()
      ensures ok ==> stream.socket.failed == old(stream.socket.failed)
      ensures ok ==> old(stream.Pending()) != [] && View() == Line(old(stream.Pending()))
                     && stream.Pending() == AfterLine(old(stream.Pending()))
      ensures !stream.socket.failed ==> ok == (old(stream.Pending()) != [])
      ensures old(stream.socket.Steady()) ==> stream.socket.Steady()
    {
      hide Line, AfterLine, SocketStream.Pending, Socket.Steady;
      used, glowable := 0, [];
      ghost var whole := stream.Pending();
      var i: nat := 0;
      while true
        invariant Valid() && i == |View()|
        invariant whole == View() + stream.Pending()
        invariant LF !in View()
        invariant stream.socket.failed == old(stream.socket.failed)
        invariant old(stream.socket.Steady()) ==> stream.socket.Steady()
        decreases |stream.Pending()|
      {
        ghost var line := View();
        var n, c := GetByte();
        if n < 0 { return false; }
        if n == 0 {
          assert line + [] == line;
          LastLine(line);
          return i != 0;
        }
        Assoc(line, [c], stream.Pending());
        i := i + 1;
        if c == LF {
          LineIs(line, stream.Pending());
          return true;
        }
      }
    }
  }
}
