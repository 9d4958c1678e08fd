/**
 Forms whose first piece cuts the opening delimiter: the waiting parser erases what it has
 of it (externals/httplib/httplib.h), so items are lost.  What arrives instead, exactly.
 */
module MultipartCuts {
  import opened Sequences
  import opened Text
  import opened Multipart
  import opened MultipartProof

  // ----- what the waiting parser sees ------------------------------------------------

  predicate Holds(piece: string, o: string) requires o != [] { Find(piece, o) < |piece| }

  /** A piece without the whole opening delimiter leaves the waiting parser as it was: the bytes
      of the delimiter it held are lost. */
  lemma UnopenedPiece(boundary: string, piece: string)
    requires !Holds(piece, Opening(boundary))
    ensures Feed(Initial(boundary), piece) == (Initial(boundary), true)
  {
    assert [] + piece == piece;
    assert piece[|piece|..] == [];
  }

  lemma OpenedPiece(boundary: string, piece: string)
    requires Holds(piece, Opening(boundary))
    ensures Feed(Initial(boundary), piece).0.state != 0
  {
    var o := Opening(boundary);
    var p := Initial(boundary).(buf := piece);
    assert [] + piece == piece;
    var k := Find(piece, o);
    SubSlice(piece, k, |piece|, 0, |o|);
    assert piece[k..|piece|] == piece[k..];
    assert Turn1(p).Go?;
    StaysOpen(Turn1(p).next);
  }

  lemma {:induction false} StaysOpen(p: Parser)
    requires p.state != 0
    ensures Run(p).0.state != 0
    decreases Rank(p)
  {
    hide BodyTurn, BoundaryTurn, HeaderTurn;
    if p.buf != [] {
      TurnStaysOpen(p);
      if Turn1(p).Go? {
        TurnDescends(p);
        StaysOpen(Turn1(p).next);
      }
    }
  }

  lemma TurnStaysOpen(p: Parser)
    requires p.state != 0
    ensures match Turn1(p) case Go(q) => q.state != 0 case Stop(q, _) => q.state != 0
  {}

  lemma {:induction false} FeedStaysOpen(p: Parser, pieces: seq<string>)
    requires p.state != 0
    ensures FeedAll(p, pieces).0.state != 0
    decreases |pieces|
  {
    if pieces != [] {
      StaysOpen(p.(buf := p.buf + pieces[0]));
      FeedStaysOpen(Feed(p, pieces[0]).0, pieces[1..]);
    }
  }

  /** The parser sees anything at all exactly when one piece holds the whole opening delimiter;
      otherwise it ends as it began, neither failing nor valid, whatever the pieces add up to. */
  lemma {:induction false} OpeningMustBeWhole(boundary: string, pieces: seq<string>)
    ensures FeedAll(Initial(boundary), pieces).0.state != 0
            <==> exists i :: 0 <= i < |pieces| && Holds(pieces[i], Opening(boundary))
    ensures FeedAll(Initial(boundary), pieces).0.state == 0
            ==> FeedAll(Initial(boundary), pieces) == (Initial(boundary), true)
    decreases |pieces|
  {
    if pieces != [] {
      var later := pieces[1..];
      if Holds(pieces[0], Opening(boundary)) {
        OpenedPiece(boundary, pieces[0]);
        FeedStaysOpen(Feed(Initial(boundary), pieces[0]).0, later);
      } else {
        UnopenedPiece(boundary, pieces[0]);
        OpeningMustBeWhole(boundary, later);
        assert forall i :: 0 < i < |pieces| ==> pieces[i] == later[i - 1];
        assert forall i :: 0 <= i < |later| ==> later[i] == pieces[i + 1];
      }
    }
  }

  /** So a form that arrives in pieces all shorter than that delimiter, such as single bytes, is lost. */
  lemma ShortPiecesAreLost(boundary: string, pieces: seq<string>)
    requires forall i :: 0 <= i < |pieces| ==> |pieces[i]| < |Opening(boundary)|
    ensures var (q, ok) := FeedAll(Initial(boundary), pieces); ok && !q.valid && q.files == []
  {
    hide FeedAll;
    OpeningMustBeWhole(boundary, pieces);
  }

  // ----- an opening that comes late ----------------------------------------------------

  /** What stands before the first opening delimiter of a piece is skipped. */
  lemma SkipsTo(boundary: string, u: string, v: string)
    requires Find(u + v, Opening(boundary)) == |u| && OccursAt(v, Opening(boundary), 0)
    ensures Feed(Initial(boundary), u + v) == Feed(Initial(boundary), v)
  {
    hide Find, Opening;
    var o, p, p' := Opening(boundary), Initial(boundary).(buf := u + v), Initial(boundary).(buf := v);
    assert [] + (u + v) == u + v && [] + v == v;
    FindIs(v, o, 0);
    assert (u + v)[|u|..] == v && v[0..] == v;
    assert Turn1(p) == Turn1(p');
  }

  /** The first nonempty piece holds the whole opening delimiter. */
  predicate OpensWhole(pieces: seq<string>, boundary: string) {
    pieces != [] && if pieces[0] == [] then OpensWhole(pieces[1..], boundary) else |pieces[0]| >= |Opening(boundary)|
  }

  /** For every good form this is enough. */
  lemma {:induction false} OpensWholeSuffices(items: seq<FormItem>, boundary: string, pieces: seq<string>)
    requires GoodForm(items, boundary) && Concat(pieces) == Serialized(items, boundary)
    requires OpensWhole(pieces, boundary)
    ensures Arrived(FeedAll(Initial(boundary), pieces), items)
    decreases |pieces|
  {
    hide GoodForm, Serialized, Opening;
    if pieces[0] == [] {
      assert [] + Concat(pieces[1..]) == Concat(pieces[1..]);
      assert Feed(Initial(boundary), []) == (Initial(boundary), true);
      OpensWholeSuffices(items, boundary, pieces[1..]);
    } else {
      MultipartRoundTrip(items, boundary, pieces);
    }
  }

  /** The given items were received, unless they are too many for the server. */
  ghost predicate Arrived(r: (Parser, bool), items: seq<FormItem>) {
    (r.1 <==> |items| <= FILE_MAX_COUNT) && (r.1 ==> r.0.valid && r.0.files == items)
  }

  /** A text is the form from item j on. */
  ghost predicate FromItem(items: seq<FormItem>, boundary: string, t: string, j: nat) {
    j < |items| && t == Serialized(items[j..], boundary)
  }

  /** The opening line occurs in the form only where an item begins. */
  ghost predicate OpensOnlyItems(items: seq<FormItem>, boundary: string) {
    var s := Serialized(items, boundary);
    forall pos: nat :: OccursAt(s, Opening(boundary), pos) ==> exists j: nat :: FromItem(items, boundary, s[pos..], j)
  }

  lemma GoodSuffix(items: seq<FormItem>, boundary: string, j: nat)
    requires GoodForm(items, boundary) && j < |items|
    ensures GoodForm(items[j..], boundary)
  {}

  lemma ItemOpens(items: seq<FormItem>, boundary: string, j: nat)
    requires j < |items|
    ensures OccursAt(Serialized(items[j..], boundary), Opening(boundary), 0)
  {
    hide Opening;
    SerializedFrom(items, boundary, j);
  }

  /** An opening found in a piece, in terms of the whole text. */
  lemma FoundInText(lost: string, piece: string, rest: string, o: string, k: nat)
    requires OccursAt(piece, o, k)
    ensures var s := lost + (piece + rest);
            OccursAt(s, o, |lost| + k) && s[|lost| + k..] == piece[k..] + rest
  {
    var s := lost + (piece + rest);
    assert s[|lost| + k..|lost| + k + |o|] == piece[k..k + |o|];
  }

  /** The first piece with an opening: the items from there on arrive. */
  lemma LateOpening(items: seq<FormItem>, boundary: string, pieces: seq<string>, k: nat, j: nat)
    requires GoodForm(items, boundary) && pieces != [] && k == Find(pieces[0], Opening(boundary)) < |pieces[0]|
    requires FromItem(items, boundary, pieces[0][k..] + Concat(pieces[1..]), j)
    ensures Arrived(FeedAll(Initial(boundary), pieces), items[j..])
  {
    hide GoodForm, Serialized, Opening, Find, Feed;
    var u, v := pieces[0][..k], pieces[0][k..];
    var o := Opening(boundary);
    FoundOccurs(pieces[0], o);
    SubSlice(pieces[0], k, |pieces[0]|, 0, |o|);
    assert pieces[0][k..|pieces[0]|] == v;
    assert u + v == pieces[0];
    SkipsTo(boundary, u, v);
    GoodSuffix(items, boundary, j);
    var pieces' := [v] + pieces[1..];
    assert pieces'[1..] == pieces[1..];
    MultipartRoundTrip(items[j..], boundary, pieces');
    assert FeedAll(Initial(boundary), pieces) == FeedAll(Initial(boundary), pieces');
  }

  lemma FoundOccurs(s: string, p: string)
    requires p != [] && Find(s, p) < |s|
    ensures OccursAt(s, p, Find(s, p))
  {}

  /** What arrives when the bytes lost have been erased already: the form from the first item on whose
      opening line lies within a piece, or nothing at all. */
  lemma {:induction false} ArrivesFrom(items: seq<FormItem>, boundary: string, pieces: seq<string>, lost: string) returns (j: nat)
    requires GoodForm(items, boundary) && OpensOnlyItems(items, boundary)
    requires lost + Concat(pieces) == Serialized(items, boundary)
    ensures j <= |items| && (j == 0 <==> lost == [] && OpensWhole(pieces, boundary))
    ensures j < |items| ==> Arrived(FeedAll(Initial(boundary), pieces), items[j..])
    ensures j == |items| ==> FeedAll(Initial(boundary), pieces) == (Initial(boundary), true)
    decreases |pieces|
  {
    hide GoodForm, Serialized, Opening, Find, Feed, OccursAt, Arrived;
    var s, o := Serialized(items, boundary), Opening(boundary);
    NotEmpty(items, boundary);
    if pieces == [] {
      assert lost + [] == lost;
      return |items|;
    }
    var piece, rest := pieces[0], Concat(pieces[1..]);
    if Holds(piece, o) {
      var k := Find(piece, o);
      FoundOccurs(piece, o);
      FoundInText(lost, piece, rest, o, k);
      var pos := |lost| + k;
      assert s == lost + (piece + rest);
      if lost == [] {
        FirstOpens(items, boundary, piece, rest);
        j := 0;
        assert s == piece + rest && items[0..] == items && piece[0..] == piece;
      } else {
        OtherForm(items, boundary, pos);
        j :| FromItem(items, boundary, s[pos..], j);
      }
      HoldsIsLong(piece, o);
      LateOpening(items, boundary, pieces, k, j);
    } else {
      UnopenedPiece(boundary, piece);
      Assoc(lost, piece, rest);
      j := ArrivesFrom(items, boundary, pieces[1..], lost + piece);
      if lost == [] && piece != [] && |piece| >= |o| {
        assert s == piece + rest;
        FirstOpens(items, boundary, piece, rest);
        assert false;
      }
    }
  }

  lemma NotEmpty(items: seq<FormItem>, boundary: string)
    requires GoodForm(items, boundary)
    ensures items != [] && Serialized(items, boundary) != []
  {}

  lemma HoldsIsLong(piece: string, o: string)
    requires o != [] && Holds(piece, o)
    ensures |piece| >= |o| > 0
  {}

  lemma FirstOpens(items: seq<FormItem>, boundary: string, piece: string, rest: string)
    requires items != [] && piece + rest == Serialized(items, boundary) && |piece| >= |Opening(boundary)|
    ensures Find(piece, Opening(boundary)) == 0
  {
    hide Opening, Find;
    var o := Opening(boundary);
    assert items[0..] == items;
    SerializedFrom(items, boundary, 0);
    assert piece[0..|o|] == (piece + rest)[..|o|] == o;
    FindIs(piece, o, 0);
  }

  lemma OtherForm(items: seq<FormItem>, boundary: string, pos: nat)
    requires 0 < pos <= |Serialized(items, boundary)|
    ensures !FromItem(items, boundary, Serialized(items, boundary)[pos..], 0)
  {
    hide Serialized;
    assert items[0..] == items;
  }

  /** A form cut within its opening delimiter and nowhere else is received without its first item, and
      the parser ends valid: nothing tells that an item is missing. */
  lemma CutLosesFirstItem(items: seq<FormItem>, boundary: string, cut: nat)
    requires GoodForm(items, boundary) && OpensOnlyItems(items, boundary)
    requires 2 <= |items| && 0 < cut < |Opening(boundary)|
    ensures var s := Serialized(items, boundary);
            cut <= |s| && Arrived(FeedAll(Initial(boundary), [s[..cut], s[cut..]]), items[1..])
  {
    hide GoodForm, Opening, Find, Feed, OccursAt, Arrived, ItemText;
    var s, o := Serialized(items, boundary), Opening(boundary);
    var a, p1 := ItemText(items[0], boundary), |ItemText(items[0], boundary)|;
    ItemIsLong(items[0], boundary);
    var first, piece := s[..cut], s[cut..];
    assert s[p1..] == Serialized(items[1..], boundary) && s == first + (piece + []);
    ItemOpens(items, boundary, 1);
    TailOccurs(s, o, p1, cut);
    HoldsExactly(piece, o, p1 - cut);
    var k := Find(piece, o);
    FoundOccurs(piece, o);
    FoundInText(first, piece, [], o, k);
    var j: nat :| FromItem(items, boundary, s[cut + k..], j);
    Shrinks(items, boundary, j);
    assert j == 1;
    ShortHoldsNothing(first, o);
    UnopenedPiece(boundary, first);
    var pieces := [first, piece];
    var later := pieces[1..];
    assert later == [piece] && later[1..] == [];
    assert piece[k..] + Concat(later[1..]) == s[cut + k..];
    LateOpening(items, boundary, later, k, 1);
  }

  lemma ShortHoldsNothing(piece: string, o: string)
    requires |piece| < |o|
    ensures !Holds(piece, o)
  {}

  lemma ItemIsLong(item: FormItem, boundary: string)
    ensures |ItemText(item, boundary)| > |Opening(boundary)|
  {}

  lemma TailOccurs(s: string, o: string, p: nat, cut: nat)
    requires cut <= p <= |s| && OccursAt(s[p..], o, 0)
    ensures OccursAt(s[cut..], o, p - cut)
  {
    assert s[cut..][p - cut..p - cut + |o|] == s[p..][0..0 + |o|];
  }

  /** An occurrence bounds the first one. */
  lemma HoldsExactly(piece: string, o: string, k: nat)
    requires o != [] && OccursAt(piece, o, k)
    ensures Holds(piece, o) && Find(piece, o) <= k
  {
    assert !(k < Find(piece, o));
  }

  /** Later items leave shorter forms. */
  lemma {:induction false} Shrinks(items: seq<FormItem>, boundary: string, j: nat)
    requires j <= |items|
    ensures |Serialized(items[j..], boundary)| + j <= |Serialized(items, boundary)|
    ensures 2 <= j ==> |Serialized(items[j..], boundary)| < |Serialized(items[1..], boundary)|
    decreases j
  {
    hide ItemText, Finish;
    if j == 0 {
      assert items[0..] == items;
    } else {
      ItemIsLong(items[0], boundary);
      assert items[1..][j - 1..] == items[j..];
      Shrinks(items[1..], boundary, j - 1);
    }
  }

  // ----- forms whose opening line occurs only where items begin --------------------------

  /** The mark --boundary occurs in no header line and no content, and the boundary is not made of dashes
      alone (or the closing line would end with an opening line). */
  ghost predicate MarkFree(items: seq<FormItem>, boundary: string) {
    && CR !in boundary && (exists i :: 0 <= i < |boundary| && boundary[i] != '-')
    && forall i :: 0 <= i < |items| ==>
         && Absent(DispositionLine(items[i].header), DASH + boundary)
         && Absent(TypeLine(items[i].header), DASH + boundary)
         && Absent(items[i].content, DASH + boundary)
  }

  ghost predicate Absent(s: string, mark: string) { forall j: nat :: !OccursAt(s, mark, j) }

  lemma CharAt(s: string, m: string, pos: nat, i: nat)
    requires OccursAt(s, m, pos) && i < |m|
    ensures pos + i < |s| && s[pos + i] == m[i]
  {
    assert s[pos..pos + |m|][i] == s[pos + i];
  }

  lemma OccursBefore(x: string, z: string, mark: string, end: string, pos: nat)
    requires OccursAt(x + z, mark + end, pos) && pos + |mark| <= |x|
    ensures OccursAt(x, mark, pos)
  {
    forall i | 0 <= i < |mark| ensures x[pos..pos + |mark|][i] == mark[i] {
      CharAt(x + z, mark + end, pos, i);
    }
  }

  lemma OccursBehind(x: string, y: string, m: string, pos: nat)
    requires OccursAt(x + y, m, pos) && pos >= |x|
    ensures OccursAt(y, m, pos - |x|) && (x + y)[pos..] == y[pos - |x|..]
  {
    forall i | 0 <= i < |m| ensures pos - |x| + i < |y| && y[pos - |x| + i] == m[i] {
      CharAt(x + y, m, pos, i);
    }
    assert y[pos - |x|..pos - |x| + |m|] == m;
  }

  /** A mark without CR and LF that is followed by CRLF stands before the end of a line or behind it. */
  lemma PeelLine(x: string, y: string, mark: string, pos: nat)
    requires mark != [] && mark[0] != LF && CR !in mark
    requires OccursAt(x + CRLF + y, mark + CRLF, pos)
    ensures if pos + |mark| <= |x| then OccursAt(x, mark, pos)
            else pos >= |x| + 2 && OccursAt(y, mark + CRLF, pos - |x| - 2) && (x + CRLF + y)[pos..] == y[pos - |x| - 2..]
  {
    hide OccursAt;
    var s, m := x + CRLF + y, mark + CRLF;
    assert s[|x|] == CR && s[|x| + 1] == LF;
    if pos + |mark| <= |x| {
      Assoc(x, CRLF, y);
      OccursBefore(x, CRLF + y, mark, CRLF, pos);
    } else if pos <= |x| {
      CharAt(s, m, pos, |x| - pos);
    } else if pos == |x| + 1 {
      CharAt(s, m, pos, 0);
    } else {
      OccursBehind(x + CRLF, y, m, pos);
    }
  }

  /** Nor does the closing line hold an opening line. */
  lemma ClosingOpensNothing(boundary: string, pos: nat)
    requires CR !in boundary && exists i :: 0 <= i < |boundary| && boundary[i] != '-'
    ensures !OccursAt(DASH + boundary + DASH + CRLF, DASH + boundary + CRLF, pos)
  {
    hide OccursAt;
    var s, m := DASH + boundary + DASH + CRLF, DASH + boundary + CRLF;
    var n := |boundary|;
    var i := LastOther(boundary);
    assert m[n + 2] == CR && m[2 + i] == boundary[i];
    assert s[4 + i] == '-' by {
      if i + 2 < n { assert s[4 + i] == boundary[i + 2]; } else { assert s[4 + i] == DASH[4 + i - (n + 2)]; }
    }
    assert forall k :: 0 <= k < n + 4 ==> s[k] != CR;
    if OccursAt(s, m, pos) {
      CharAt(s, m, pos, n + 2);
      CharAt(s, m, pos, n + 3);
      CharAt(s, m, pos, 2 + i);
    }
  }

  lemma {:induction false} LastOther(b: string) returns (i: nat)
    requires exists i :: 0 <= i < |b| && b[i] != '-'
    ensures i < |b| && b[i] != '-' && forall j :: i < j < |b| ==> b[j] == '-'
  {
    var n := |b| - 1;
    if b[n] != '-' {
      i := n;
    } else {
      var k :| 0 <= k < |b| && b[k] != '-';
      assert b[..n][k] != '-';
      i := LastOther(b[..n]);
      assert forall j :: 0 <= j < n ==> b[..n][j] == b[j];
    }
  }

  lemma {:induction false} MarkFreeOpensOnlyItems(items: seq<FormItem>, boundary: string, pos: nat) returns (j: nat)
    requires MarkFree(items, boundary) && OccursAt(Serialized(items, boundary), Opening(boundary), pos)
    ensures FromItem(items, boundary, Serialized(items, boundary)[pos..], j)
    decreases |items|
  {
    hide ItemText, OccursAt, Absent, Opening;
    var s := Serialized(items, boundary);
    if items == [] {
      OpeningIs(boundary);
      ClosingOpensNothing(boundary, pos);
      assert false;
    } else if pos == 0 {
      assert s[0..] == s && items[0..] == items;
      return 0;
    } else {
      var later := items[1..];
      var pos' := PeelItem(items[0], boundary, Serialized(later, boundary), pos);
      j := MarkFreeOpensOnlyItems(later, boundary, pos');
      assert later[j..] == items[j + 1..];
      j := j + 1;
    }
  }

  lemma OpeningIs(boundary: string)
    ensures Opening(boundary) == DASH + boundary + CRLF
  {}

  /** The lines of an item before its content. */
  function HeadLines(h: FormHeader): seq<string> {
    [DispositionLine(h)] + (if h.contentType == [] then [] else [TypeLine(h)]) + [[]]
  }

  function Lines(ls: seq<string>, rest: string): string {
    if ls == [] then rest else ls[0] + CRLF + Lines(ls[1..], rest)
  }

  lemma ItemIsLines(item: FormItem, boundary: string, next: string)
    ensures ItemText(item, boundary) + next == DASH + boundary + CRLF + Lines(HeadLines(item.header), item.content + CRLF + next)
  {
    hide DispositionLine, TypeLine, Opening;
    var h, c := item.header, item.content;
    var d, t, rest := DispositionLine(h), TypeLine(h), c + CRLF + next;
    OpeningIs(boundary);
    HeadIs(h, rest);
    RegroupItem(Opening(boundary), d, CRLF, TypeText(h), c, next);
  }

  lemma HeadIs(h: FormHeader, rest: string)
    ensures Lines(HeadLines(h), rest) == DispositionLine(h) + CRLF + (TypeText(h) + (CRLF + rest))
  {
    hide DispositionLine, TypeLine;
    var d, t := DispositionLine(h), TypeLine(h);
    var blank: seq<string> := [[]];
    assert blank[1..] == [] && [] + CRLF == CRLF;
    assert Lines(blank, rest) == CRLF + rest;
    if h.contentType == [] {
      var ls := [d] + blank;
      assert HeadLines(h) == ls && ls[1..] == blank && [] + (CRLF + rest) == CRLF + rest;
    } else {
      var ls := [d] + [t] + blank;
      assert HeadLines(h) == ls && ls[1..] == [t] + blank && ([t] + blank)[1..] == blank;
      assert Lines(ls[1..], rest) == t + CRLF + (CRLF + rest);
    }
  }

  lemma RegroupItem(o: string, d: string, e: string, t: string, c: string, next: string)
    ensures o + (d + e + (t + e)) + (c + e) + next == o + (d + e + (t + (e + (c + e + next))))
  {
    var de, ce := d + e, c + e;
    Assoc(t, e, ce + next);
    Assoc(de, t + e, ce + next);
    Assoc(o, de + (t + e), ce + next);
    Assoc(o + (de + (t + e)), ce, next);
  }

  /** Lines without the mark are no place for an opening line. */
  lemma {:induction false} PeelLines(ls: seq<string>, rest: string, mark: string, pos: nat) returns (pos': nat)
    requires mark != [] && mark[0] != LF && CR !in mark && forall i :: 0 <= i < |ls| ==> Absent(ls[i], mark)
    requires OccursAt(Lines(ls, rest), mark + CRLF, pos)
    ensures OccursAt(rest, mark + CRLF, pos') && Lines(ls, rest)[pos..] == rest[pos'..]
    decreases |ls|
  {
    hide OccursAt;
    if ls == [] {
      pos' := pos;
    } else {
      PeelLine(ls[0], Lines(ls[1..], rest), mark, pos);
      assert Absent(ls[0], mark);
      pos' := PeelLines(ls[1..], rest, mark, pos - |ls[0]| - 2);
    }
  }

  lemma NothingHoldsMark(mark: string)
    requires mark != []
    ensures Absent([], mark)
  {}

  lemma PeelItem(item: FormItem, boundary: string, next: string, pos: nat) returns (pos': nat)
    requires CR !in boundary && pos > 0 && OccursAt(ItemText(item, boundary) + next, Opening(boundary), pos)
    requires Absent(DispositionLine(item.header), DASH + boundary) && Absent(TypeLine(item.header), DASH + boundary)
    requires Absent(item.content, DASH + boundary)
    ensures OccursAt(next, Opening(boundary), pos')
    ensures (ItemText(item, boundary) + next)[pos..] == next[pos'..]
  {
    hide DispositionLine, TypeLine, OccursAt, ItemText, Lines;
    var mark, ls, body := DASH + boundary, HeadLines(item.header), item.content + CRLF + next;
    ItemIsLines(item, boundary, next);
    PeelLine(mark, Lines(ls, body), mark, pos);
    NothingHoldsMark(mark);
    var p := PeelLines(ls, body, mark, pos - |mark| - 2);
    PeelLine(item.content, next, mark, p);
    pos' := p - |item.content| - 2;
  }

  lemma MarkFreeIsEnough(items: seq<FormItem>, boundary: string)
    requires MarkFree(items, boundary)
    ensures OpensOnlyItems(items, boundary)
  {
    hide MarkFree, Serialized, FromItem;
    var s := Serialized(items, boundary);
    forall pos: nat | OccursAt(s, Opening(boundary), pos) ensures exists j: nat :: FromItem(items, boundary, s[pos..], j) {
      var j := MarkFreeOpensOnlyItems(items, boundary, pos);
    }
  }

  // ----- an example -----------------------------------------------------------------------

  function TwoItems(): seq<FormItem> {
    [FormItem(FormHeader("a", "", ""), "1"), FormItem(FormHeader("b", "", ""), "2")]
  }

  lemma AbsentWithout(s: string, mark: string, i: nat)
    requires i < |mark| && mark[i] !in s
    ensures Absent(s, mark)
  {
    forall j: nat ensures !OccursAt(s, mark, j) {
      if OccursAt(s, mark, j) { CharAt(s, mark, j, i); }
    }
  }

  lemma SmallItem(item: FormItem)
    requires item.header.filename == [] && item.header.contentType == [] && |item.header.name| == |item.content| == 1
    requires CleanName(item.header.name) && 'x' !in item.header.name && 'x' !in item.content
    ensures GoodItem(item, "x")
    ensures Absent(DispositionLine(item.header), DASH + "x") && Absent(TypeLine(item.header), DASH + "x")
    ensures Absent(item.content, DASH + "x")
  {
    AbsentWithout(DispositionLine(item.header), DASH + "x", 2);
    AbsentWithout(TypeLine(item.header), DASH + "x", 2);
    AbsentWithout(item.content, DASH + "x", 2);
  }

  /** Two items, cut after the first byte: the second arrives alone, and the parser ends valid. */
  lemma CutTwoItems()
    ensures var s := Serialized(TwoItems(), "x");
            1 <= |s| &&
            var (q, ok) := FeedAll(Initial("x"), [s[..1], s[1..]]);
            ok && q.valid && q.files == [TwoItems()[1]]
  {
    hide GoodItem, Absent, DispositionLine, TypeLine, FeedAll, Serialized, OpensOnlyItems;
    var items := TwoItems();
    SmallItem(items[0]);
    SmallItem(items[1]);
    assert "x"[0] != '-';
    MarkFreeIsEnough(items, "x");
    CutLosesFirstItem(items, "x", 1);
    assert items[1..] == [items[1]];
  }
}
