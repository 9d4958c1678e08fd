/**
 A form whose opening delimiter was cut can still be picked up anywhere an opening line occurs,
 inside a content or a header line too.  However the rest is cut and whatever it then looks
 like to the parser, not all items arrive (externals/httplib/httplib.h).
 */
module MultipartLate {
  import opened Sequences
  import opened Text
  import opened Multipart
  import opened MultipartParts
  import opened MultipartProof
  import opened MultipartCuts
  import opened MultipartRegions

  // ----- what a late parser can have ----------------------------------------------------------

  /** Some of these items are not the form's. */
  ghost predicate Bad(items: seq<FormItem>, files: seq<FormItem>) {
    exists k :: 0 <= k < |files| && (k >= |items| || files[k] != items[k])
  }

  /** Reading headers at (r, q) with k items opened: fewer than r, or as many and then inside a content. */
  ghost predicate HeaderLate(items: seq<FormItem>, boundary: string, k: nat, r: nat, q: nat)
    requires r <= |items|
  {
    if r == |items| then k < r && (q == 2 || q == |Gap(items, boundary, r)|)
    else k < r || (k == r && q > |Gap(items, boundary, r)| && CR in items[r].content)
  }

  ghost predicate DelimiterLate(items: seq<FormItem>, boundary: string, k: nat, r: nat, q: nat)
    requires r <= |items|
  {
    k < r || (k == r < |items| && q > |Gap(items, boundary, r)|)
  }

  /** In a body: what is being received is too short, or there are too few items anyway, or it is the closing line. */
  ghost predicate BodyLate(items: seq<FormItem>, boundary: string, files: seq<FormItem>, t: string, r: nat, q: nat)
    requires r <= |items| && files != []
  {
    var k, last := |files|, files[|files| - 1].content;
    if r == |items| then
      k < r || (k == r && CR in items[r - 1].content && last + t == Gap(items, boundary, r)[2..] && |t| >= |Delimiter(boundary)|)
    else
      k <= r || (k == r + 1 && q >= |Gap(items, boundary, r)|
                 && |last| + (|Region(items, boundary, r)| - q) < |items[r].content|)
  }

  ghost predicate LateBy(p: Parser, rest: string, items: seq<FormItem>, boundary: string, r: nat, q: nat)
    requires r <= |items|
  {
    if p.state == 1 || p.state == 2 then Bad(items, p.files) || HeaderLate(items, boundary, |p.files|, r, q)
    else if p.state == 3 then
      p.files != [] && (Bad(items, p.files[..|p.files| - 1]) || BodyLate(items, boundary, p.files, p.buf + rest, r, q))
    else Bad(items, p.files) || DelimiterLate(items, boundary, |p.files|, r, q)
  }

  ghost predicate Late(p: Parser, rest: string, items: seq<FormItem>, boundary: string, r: nat, q: nat) {
    p.boundary == boundary && p.state != 0 && At(items, boundary, p.buf + rest, r, q) && LateBy(p, rest, items, boundary, r, q)
  }

  /** Such a parser has not received all items. */
  lemma LateIsNotAll(p: Parser, rest: string, items: seq<FormItem>, boundary: string, r: nat, q: nat)
    requires GoodForm(items, boundary) && Late(p, rest, items, boundary, r, q)
    ensures p.files != items
  {
    hide Region, Rest, Gap;
    if p.files == items && p.state == 3 {
      assert p.files[..|p.files| - 1] == items[..|items| - 1];
      if r == |items| {
        CloseBegins(items, boundary, items[r - 1].content, p.buf + rest);
      }
    }
  }

  lemma CloseBegins(items: seq<FormItem>, boundary: string, c: string, t: string)
    requires items != [] && c + t == Gap(items, boundary, |items|)[2..] && |t| >= |Delimiter(boundary)|
    ensures CR !in c
  {
    var n := |items|;
    var front := FrontLines(items, boundary, n);
    var m := Mark(boundary) + DASH;
    assert front[1..] == [] && Lines(front, []) == m + CRLF + [] == m + CRLF;
    assert (CRLF + (m + CRLF))[2..] == m + CRLF;
    assert |c| <= 2;
    assert forall i :: 0 <= i < |c| ==> c[i] == (c + t)[i] == m[i] == '-';
  }

  // ----- every turn keeps it so ---------------------------------------------------------------

  lemma BadStays(items: seq<FormItem>, files: seq<FormItem>, more: seq<FormItem>)
    requires Bad(items, files)
    ensures Bad(items, files + more)
  {
    var k :| 0 <= k < |files| && (k >= |items| || files[k] != items[k]);
    assert (files + more)[k] == files[k];
  }

  /** Bytes taken off the buffer are taken off the text ahead. */
  lemma TakeOff(buf: string, rest: string, k: nat)
    requires k <= |buf|
    ensures (buf + rest)[k..] == buf[k..] + rest
  {}

  /** A header line, or the line end after a delimiter: on to headers at a later position. */
  lemma HeaderStep(items: seq<FormItem>, boundary: string, k: nat, t: string, r: nat, q: nat, n: nat) returns (r': nat, q': nat)
    requires GoodForm(items, boundary) && At(items, boundary, t, r, q) && 2 <= n <= |t| && t[n - 2] == CR && t[n - 1] == LF
    requires HeaderLate(items, boundary, k, r, q) || (DelimiterLate(items, boundary, k, r, q) && n == 2)
    ensures At(items, boundary, t[n..], r', q') && HeaderLate(items, boundary, k, r', q')
  {
    hide Region, Rest, Gap, GoodForm;
    r', q' := Advance(items, boundary, t, r, q, n);
    if r' == |items| { BehindLineEnd(items, boundary, t, r, q, n, q'); }
    if r' == r < |items| && k == r && n == 2 {
      InContent(items, boundary, t, r, q);
      ContentHasByte(items, boundary, t, r, q);
    }
  }

  lemma ContentHasByte(items: seq<FormItem>, boundary: string, t: string, r: nat, q: nat)
    requires At(items, boundary, t, r, q) && r < |items| && |Gap(items, boundary, r)| <= q < |Region(items, boundary, r)|
    ensures t != [] && t[0] in items[r].content
  {
    hide Rest, Gap;
    InContent(items, boundary, t, r, q);
    var x := q - |Gap(items, boundary, r)|;
    assert t[0] == items[r].content[x..][0] == items[r].content[x];
  }

  /** The blank line: a body begins. */
  lemma BlankStep(items: seq<FormItem>, boundary: string, files: seq<FormItem>, item: FormItem, t: string, r: nat, q: nat)
      returns (r': nat, q': nat)
    requires GoodForm(items, boundary) && At(items, boundary, t, r, q) && |t| >= 2 && t[0] == CR && t[1] == LF
    requires HeaderLate(items, boundary, |files|, r, q) && item.content == []
    ensures At(items, boundary, t[2..], r', q') && BodyLate(items, boundary, files + [item], t[2..], r', q')
  {
    hide Region, Rest, Gap;
    var n := |items|;
    r', q' := Advance(items, boundary, t, r, q, 2);
    if r == n {
      NoBlankAtClose(items, boundary, t, q);
    } else {
      GapFits(items, boundary, r + 1);
      GapFits(items, boundary, r);
      LineEndCrosses(items, boundary, t, r, q);
      if r' == n { EndStarts(items, boundary); }
      if r' == r && |files| == r { RegionLength(items, boundary, r); }
    }
  }

  lemma RegionLength(items: seq<FormItem>, boundary: string, r: nat)
    requires r < |items|
    ensures |Region(items, boundary, r)| == |Gap(items, boundary, r)| + |items[r].content|
  {}

  lemma NoBlankAtClose(items: seq<FormItem>, boundary: string, t: string, q: nat)
    requires At(items, boundary, t, |items|, q) && items != [] && (q == 2 || q == |Gap(items, boundary, |items|)|)
    ensures t == [] || t[0] == '-'
  {
    hide Region, Rest, Gap;
    RestEnds(items, boundary);
    RestStarts(items, boundary, |items|);
  }

  lemma EndStarts(items: seq<FormItem>, boundary: string)
    ensures Rest(items, boundary, |items|) == Gap(items, boundary, |items|)
    ensures items != [] ==> |Gap(items, boundary, |items|)| == |Delimiter(boundary)| + 4
  {
    RestEnds(items, boundary);
    var front := FrontLines(items, boundary, |items|);
    var m := Mark(boundary) + DASH;
    assert front[1..] == [] && Lines(front, []) == m + CRLF + [] == m + CRLF;
  }

  lemma RestDelimiter(items: seq<FormItem>, boundary: string, r: nat)
    requires 0 < r <= |items|
    ensures Delimiter(boundary) <= Rest(items, boundary, r)
  {
    hide ItemText, HeadLines, Serialized, Rest;
    RestStarts(items, boundary, r);
    var front := FrontLines(items, boundary, r);
    assert Lines(front, []) == front[0] + CRLF + Lines(front[1..], []);
    assert Mark(boundary) <= front[0];
    assert Delimiter(boundary) == CRLF + Mark(boundary);
    assert Delimiter(boundary) <= Gap(items, boundary, r);
  }

  /** In a content, the search finds the delimiter behind it exactly when that is all there. */
  lemma SearchInContent(items: seq<FormItem>, boundary: string, buf: string, rest: string, r: nat, q: nat)
    requires GoodForm(items, boundary) && At(items, boundary, buf + rest, r, q) && r < |items| && q >= |Gap(items, boundary, r)|
    ensures var left := |Region(items, boundary, r)| - q;
            Find(buf, Delimiter(boundary)) == if |buf| >= left + |Delimiter(boundary)| then left else |buf|
  {
    hide Rest, Gap, Find;
    InContent(items, boundary, buf + rest, r, q);
    RestDelimiter(items, boundary, r + 1);
    RegionLength(items, boundary, r);
    DelimiterHasNoBorder(boundary);
    var d, next := Delimiter(boundary), Rest(items, boundary, r + 1);
    var c := items[r].content;
    var a := c[q - |Gap(items, boundary, r)|..];
    assert GoodItem(items[r], boundary);
    SuffixStaysClean(c, d, q - |Gap(items, boundary, r)|);
    assert next == d + next[|d|..];
    Assoc(a, d, next[|d|..]);
    FindInPrefix(buf, rest, a, d, next[|d|..]);
  }

  /** The delimiter found by a body that has not reached its region's content lies past the gap. */
  lemma FoundPastGap(items: seq<FormItem>, boundary: string, buf: string, rest: string, r: nat, q: nat, k: nat)
    requires GoodForm(items, boundary) && At(items, boundary, buf + rest, r, q) && q <= |Gap(items, boundary, r)|
    requires OccursAt(buf, Delimiter(boundary), k)
    ensures q + k + |Delimiter(boundary)| > |Gap(items, boundary, r)|
  {
    hide Rest, Gap, Delimiter, OccursAt;
    var d, g := Delimiter(boundary), Gap(items, boundary, r);
    InGap(items, boundary, buf + rest, r, q);
    NoDelimiterInGap(items, boundary, r, q + k);
    if q + k + |d| <= |g| { OccursInGap(buf, rest, g, q, d, k); }
  }

  lemma OccursInGap(buf: string, rest: string, g: string, q: nat, d: string, k: nat)
    requires q <= |g| && g[q..] <= buf + rest && OccursAt(buf, d, k) && q + k + |d| <= |g|
    ensures OccursAt(g, d, q + k)
  {
    forall i | 0 <= i < |d| ensures g[q + k..q + k + |d|][i] == d[i] {
      CharAt(buf, d, k, i);
      assert g[q + k + i] == g[q..][k + i] == (buf + rest)[k + i];
    }
  }

  lemma ReceiveLast(files: seq<FormItem>, bytes: string)
    requires files != []
    ensures var f := Receive(files, bytes);
            |f| == |files| && f[..|f| - 1] == files[..|files| - 1]
            && f[|f| - 1].content == files[|files| - 1].content + bytes
  {}

  lemma TooShortIsBad(items: seq<FormItem>, files: seq<FormItem>, r: nat)
    requires r < |items| && |files| == r + 1 && files[r].content != items[r].content
    ensures Bad(items, files)
  {
    assert files[r] != items[r];
  }

  lemma BadPrefixIsBad(items: seq<FormItem>, files: seq<FormItem>)
    requires files != [] && Bad(items, files[..|files| - 1])
    ensures Bad(items, files)
  {
    BadStays(items, files[..|files| - 1], [files[|files| - 1]]);
    assert files[..|files| - 1] + [files[|files| - 1]] == files;
  }

  /** A body that ends: what was received is wrong, or the position is late still. */
  lemma BodyEndStep(items: seq<FormItem>, boundary: string, files: seq<FormItem>, buf: string, rest: string, r: nat, q: nat, k: nat)
      returns (r': nat, q': nat)
    requires GoodForm(items, boundary) && At(items, boundary, buf + rest, r, q) && files != []
    requires BodyLate(items, boundary, files, buf + rest, r, q)
    requires k == Find(buf, Delimiter(boundary)) < |buf| && k + |Delimiter(boundary)| <= |buf|
    ensures At(items, boundary, (buf + rest)[k + |Delimiter(boundary)|..], r', q')
    ensures Bad(items, Receive(files, buf[..k])) || DelimiterLate(items, boundary, |files|, r', q')
  {
    hide Region, Rest, Gap, Find, Delimiter;
    var d, f := Delimiter(boundary), Receive(files, buf[..k]);
    r', q' := Advance(items, boundary, buf + rest, r, q, k + |d|);
    FoundOccurs(buf, d);
    ReceiveLast(files, buf[..k]);
    if q <= |Gap(items, boundary, r)| { FoundPastGap(items, boundary, buf, rest, r, q, k); }
    if r == |items| {
      RestEnds(items, boundary);
    } else if q >= |Gap(items, boundary, r)| {
      SearchInContent(items, boundary, buf, rest, r, q);
      if |files| == r + 1 { TooShortIsBad(items, f, r); }
    }
  }

  /** A body that goes on. */
  lemma BodyMoreStep(items: seq<FormItem>, boundary: string, files: seq<FormItem>, buf: string, rest: string, r: nat, q: nat, len: nat)
      returns (r': nat, q': nat)
    requires GoodForm(items, boundary) && At(items, boundary, buf + rest, r, q) && files != []
    requires BodyLate(items, boundary, files, buf + rest, r, q)
    requires Find(buf, Delimiter(boundary)) == |buf| && len == |buf| - |Delimiter(boundary)|
    ensures At(items, boundary, (buf + rest)[len..], r', q')
    ensures BodyLate(items, boundary, Receive(files, buf[..len]), (buf + rest)[len..], r', q')
  {
    hide Region, Rest, Gap, Find, Delimiter;
    r', q' := Advance(items, boundary, buf + rest, r, q, len);
    ReceiveLast(files, buf[..len]);
    if r == |items| {
      RestEnds(items, boundary);
      assert (buf + rest) == buf[..len] + (buf + rest)[len..];
      Assoc(files[|files| - 1].content, buf[..len], (buf + rest)[len..]);
    } else if q >= |Gap(items, boundary, r)| {
      SearchInContent(items, boundary, buf, rest, r, q);
    }
  }

  lemma LineTurnLate(p: Parser, rest: string, items: seq<FormItem>, boundary: string, r: nat, q: nat) returns (r': nat, q': nat)
    requires GoodForm(items, boundary) && Late(p, rest, items, boundary, r, q) && p.state == 2
    ensures match LineTurn(p)
            case Go(n) => Late(n, rest, items, boundary, r', q') && n.state == 2
            case Stop(n, ok) => ok ==> Late(n, rest, items, boundary, r', q') && (n.state == 2 || n.state == 3)
  {
    hide Region, Rest, Gap, GoodForm, Find, HeaderLine, HeaderLate, BodyLate, Bad, At;
    r', q' := r, q;
    var pos, t := Find(p.buf, CRLF), p.buf + rest;
    if pos < |p.buf| {
      FoundOccurs(p.buf, CRLF);
      CharAt(p.buf, CRLF, pos, 0);
      CharAt(p.buf, CRLF, pos, 1);
      TakeOff(p.buf, rest, pos + 2);
      RegionExists(items, boundary, t, r, q);
      if pos > 0 {
        if Bad(items, p.files) {
          r', q' := Advance(items, boundary, t, r, q, pos + 2);
        } else {
          r', q' := HeaderStep(items, boundary, |p.files|, t, r, q, pos + 2);
        }
      } else {
        var item := FormItem(p.file, "");
        assert (p.files + [item])[..|p.files|] == p.files;
        if Bad(items, p.files) {
          r', q' := Advance(items, boundary, t, r, q, 2);
        } else {
          r', q' := BlankStep(items, boundary, p.files, item, t, r, q);
        }
      }
    }
  }

  lemma RegionExists(items: seq<FormItem>, boundary: string, t: string, r: nat, q: nat)
    requires At(items, boundary, t, r, q)
    ensures r <= |items|
  {}

  lemma {:induction false} HeaderLinesLate(p: Parser, rest: string, items: seq<FormItem>, boundary: string, r: nat, q: nat)
      returns (r': nat, q': nat)
    requires GoodForm(items, boundary) && Late(p, rest, items, boundary, r, q) && p.state == 2
    ensures var (n, ok) := HeaderLines(p); ok ==> Late(n, rest, items, boundary, r', q')
    decreases |p.buf|
  {
    hide LineTurn, Late, GoodForm;
    r', q' := LineTurnLate(p, rest, items, boundary, r, q);
    if LineTurn(p).Go? { r', q' := HeaderLinesLate(LineTurn(p).next, rest, items, boundary, r', q'); }
  }

  lemma BodyTurnLate(p: Parser, rest: string, items: seq<FormItem>, boundary: string, r: nat, q: nat) returns (r': nat, q': nat)
    requires GoodForm(items, boundary) && Late(p, rest, items, boundary, r, q) && p.state == 3
    ensures match BodyTurn(p)
            case Go(n) => Late(n, rest, items, boundary, r', q')
            case Stop(n, ok) => ok ==> Late(n, rest, items, boundary, r', q')
  {
    hide Region, Rest, Gap, GoodForm, Find, BodyLate, DelimiterLate, Bad, At, Delimiter, Receive;
    r', q' := r, q;
    var d, t, pos := Delimiter(boundary), p.buf + rest, Find(p.buf, Delimiter(boundary));
    RegionExists(items, boundary, t, r, q);
    if |d| <= |p.buf| {
      if pos < |p.buf| {
        FoundInside(p.buf, d);
        TakeOff(p.buf, rest, pos + |d|);
        ReceiveLast(p.files, p.buf[..pos]);
        if Bad(items, p.files[..|p.files| - 1]) {
          r', q' := Advance(items, boundary, t, r, q, pos + |d|);
          BadPrefixIsBad(items, Receive(p.files, p.buf[..pos]));
        } else {
          r', q' := BodyEndStep(items, boundary, p.files, p.buf, rest, r, q, pos);
        }
      } else if |p.buf| > |d| {
        var len := |p.buf| - |d|;
        TakeOff(p.buf, rest, len);
        ReceiveLast(p.files, p.buf[..len]);
        if Bad(items, p.files[..|p.files| - 1]) {
          r', q' := Advance(items, boundary, t, r, q, len);
        } else {
          r', q' := BodyMoreStep(items, boundary, p.files, p.buf, rest, r, q, len);
        }
      }
    }
  }

  lemma BoundaryTurnLate(p: Parser, rest: string, items: seq<FormItem>, boundary: string, r: nat, q: nat) returns (r': nat, q': nat)
    requires GoodForm(items, boundary) && Late(p, rest, items, boundary, r, q) && p.state > 3
    ensures match BoundaryTurn(p)
            case Go(n) => Late(n, rest, items, boundary, r', q')
            case Stop(n, ok) => ok ==> Late(n, rest, items, boundary, r', q')
  {
    hide Region, Rest, Gap, GoodForm, Bad, At, OccursAt, HeaderLate;
    r', q' := r, q;
    var t := p.buf + rest;
    RegionExists(items, boundary, t, r, q);
    if |p.buf| >= 2 {
      if OccursAt(p.buf, CRLF, 0) {
        CharAt(p.buf, CRLF, 0, 0);
        CharAt(p.buf, CRLF, 0, 1);
        TakeOff(p.buf, rest, 2);
        if Bad(items, p.files) {
          r', q' := Advance(items, boundary, t, r, q, 2);
        } else {
          r', q' := HeaderStep(items, boundary, |p.files|, t, r, q, 2);
        }
        RegionExists(items, boundary, t[2..], r', q');
      } else if OccursAt(p.buf, DASH, 0) {
        TakeOff(p.buf, rest, |p.buf|);
        assert p.buf[|p.buf|..] == [];
        r', q' := Advance(items, boundary, t, r, q, |p.buf|);
        RegionExists(items, boundary, t[|p.buf|..], r', q');
      }
    }
  }

  lemma TurnLate(p: Parser, rest: string, items: seq<FormItem>, boundary: string, r: nat, q: nat) returns (r': nat, q': nat)
    requires GoodForm(items, boundary) && Late(p, rest, items, boundary, r, q)
    ensures match Turn1(p)
            case Go(n) => Late(n, rest, items, boundary, r', q')
            case Stop(n, ok) => ok ==> Late(n, rest, items, boundary, r', q')
  {
    hide GoodForm, BodyTurn, BoundaryTurn, HeaderLines, At, HeaderLate, BodyLate, DelimiterLate, Bad, Find;
    if p.state == 1 {
      r', q' := r, q;
    } else if p.state == 2 {
      r', q' := HeaderLinesLate(p, rest, items, boundary, r, q);
    } else if p.state == 3 {
      r', q' := BodyTurnLate(p, rest, items, boundary, r, q);
    } else {
      r', q' := BoundaryTurnLate(p, rest, items, boundary, r, q);
    }
  }

  lemma {:induction false} RunLate(p: Parser, rest: string, items: seq<FormItem>, boundary: string, r: nat, q: nat) returns (r': nat, q': nat)
    requires GoodForm(items, boundary) && Late(p, rest, items, boundary, r, q)
    ensures var (n, ok) := Run(p); ok ==> Late(n, rest, items, boundary, r', q')
    decreases Rank(p)
  {
    hide GoodForm, Turn1, Late;
    if p.buf == [] {
      r', q' := r, q;
    } else {
      r', q' := TurnLate(p, rest, items, boundary, r, q);
      if Turn1(p).Go? {
        TurnDescends(p);
        r', q' := RunLate(Turn1(p).next, rest, items, boundary, r', q');
      }
    }
  }

  /** However the rest arrives, a late parser does not receive all items. */
  lemma {:induction false} FeedAllLate(p: Parser, pieces: seq<string>, items: seq<FormItem>, boundary: string, r: nat, q: nat)
    requires GoodForm(items, boundary) && Late(p, Concat(pieces), items, boundary, r, q)
    ensures var (n, ok) := FeedAll(p, pieces); ok ==> n.files != items
    decreases |pieces|
  {
    hide GoodForm, At, LateBy, Run;
    if pieces == [] {
      LateIsNotAll(p, [], items, boundary, r, q);
    } else {
      var rest, fed := Concat(pieces[1..]), p.(buf := p.buf + pieces[0]);
      Assoc(p.buf, pieces[0], rest);
      SameLate(p, Concat(pieces), fed, rest, items, boundary, r, q);
      var r', q' := RunLate(fed, rest, items, boundary, r, q);
      if Run(fed).1 { FeedAllLate(Run(fed).0, pieces[1..], items, boundary, r', q'); }
    }
  }

  lemma SameLate(p: Parser, rest: string, p': Parser, rest': string, items: seq<FormItem>, boundary: string, r: nat, q: nat)
    requires Late(p, rest, items, boundary, r, q) && p.buf + rest == p'.buf + rest' && p' == p.(buf := p'.buf)
    ensures Late(p', rest', items, boundary, r, q)
  {
    hide At, HeaderLate, BodyLate, DelimiterLate, Bad;
  }

  // ----- where an opening line can occur -----------------------------------------------------

  lemma OpeningChars(boundary: string, s: string, pos: nat)
    requires CR !in boundary && OccursAt(s, Opening(boundary), pos)
    ensures var n := |boundary| + 2;
            && pos + n + 2 <= |s| && s[pos] == '-' && s[pos + n] == CR && s[pos + n + 1] == LF
            && forall j :: pos <= j < pos + n ==> s[j] != CR
  {
    var o, n := Opening(boundary), |boundary| + 2;
    assert forall i :: 0 <= i < n ==> o[i] != CR;
    assert s[pos..pos + |o|] == o;
    assert forall i :: 0 <= i < |o| ==> s[pos + i] == o[i];
    forall j | pos <= j < pos + n ensures s[j] != CR { assert s[pos + (j - pos)] == o[j - pos]; }
  }

  /** In the closing line an opening line can only be its end. */
  lemma OpeningAtClose(items: seq<FormItem>, boundary: string, s: string, pos: nat)
    requires GoodForm(items, boundary) && s == Rest(items, boundary, |items|) && OccursAt(s, Opening(boundary), pos)
    ensures pos + |Opening(boundary)| == |s|
  {
    hide Rest, OccursAt;
    EndStarts(items, boundary);
    OpeningChars(boundary, s, pos);
    CloseChars(items, boundary, pos + |boundary| + 2);
  }

  lemma GapEnds(items: seq<FormItem>, boundary: string, r: nat)
    requires r < |items|
    ensures var g := Gap(items, boundary, r); |g| >= 2 && g[|g| - 1] == LF
  {
    var h := items[r].header;
    HeadIs(h, []);
    var front := FrontLines(items, boundary, r);
    assert front[1..] == HeadLines(h);
    assert CRLF + [] == CRLF;
  }

  /** Behind an opening line, anywhere but within the first item's header: headers are read late. */
  lemma {:induction false} Located(items: seq<FormItem>, boundary: string, r: nat, pos: nat) returns (r': nat, q': nat)
    requires GoodForm(items, boundary) && r <= |items| && OccursAt(Rest(items, boundary, r), Opening(boundary), pos)
    requires r == 0 ==> pos + |Opening(boundary)| > |Gap(items, boundary, 0)|
    ensures At(items, boundary, Rest(items, boundary, r)[pos + |Opening(boundary)|..], r', q')
    ensures HeaderLate(items, boundary, 0, r', q')
    decreases |items| - r
  {
    hide Region, Rest, Gap, OccursAt;
    var s, n := Rest(items, boundary, r), |boundary| + 2;
    var e := pos + |Opening(boundary)|;
    RegionFits(items, boundary, r);
    GapFits(items, boundary, r);
    OpeningChars(boundary, s, pos);
    if r == |items| {
      OpeningAtClose(items, boundary, s, pos);
      EndStarts(items, boundary);
      RestEnds(items, boundary);
      r', q' := r, e;
    } else if e <= |Region(items, boundary, r)| {
      r', q' := r, e;
      if r == 0 { OpeningInContent(items, boundary, s, pos); }
    } else {
      var size := |Region(items, boundary, r)|;
      RestSplits(items, boundary, r);
      RestStarts(items, boundary, r + 1);
      RegionFits(items, boundary, r + 1);
      GapFits(items, boundary, r + 1);
      var next := Rest(items, boundary, r + 1);
      assert s[size] == CR;
      DropPast(Region(items, boundary, r), next, e);
      if pos >= size {
        OccursBehind(Region(items, boundary, r), next, Opening(boundary), pos);
        r', q' := Located(items, boundary, r + 1, pos - size);
      } else {
        assert size >= pos + n;
        r', q' := r + 1, 2;
      }
    }
  }

  lemma OpeningInContent(items: seq<FormItem>, boundary: string, s: string, pos: nat)
    requires items != [] && CR !in boundary && s == Rest(items, boundary, 0) && OccursAt(s, Opening(boundary), pos)
    requires |Gap(items, boundary, 0)| < pos + |Opening(boundary)| <= |Region(items, boundary, 0)|
    ensures CR in items[0].content
  {
    hide Rest, Gap, OccursAt;
    var g, c := Gap(items, boundary, 0), items[0].content;
    OpeningChars(boundary, s, pos);
    RestSplits(items, boundary, 0);
    GapEnds(items, boundary, 0);
    var x := pos + |boundary| + 2;
    assert s[|g| - 1] == g[|g| - 1];
    assert x >= |g|;
    assert s[x] == c[x - |g|];
  }

  // ----- an opening line that ends a header line of the first item ------------------------------

  /** What follows the header lines of the first item. */
  function Behind(items: seq<FormItem>, boundary: string): string
    requires items != []
  {
    CRLF + (items[0].content + Rest(items, boundary, 1))
  }

  lemma FirstItemIs(items: seq<FormItem>, boundary: string)
    requires items != []
    ensures var h := items[0].header;
            && Rest(items, boundary, 0)
               == Mark(boundary) + CRLF + (DispositionLine(h) + CRLF + (TypeText(h) + Behind(items, boundary)))
            && |Gap(items, boundary, 0)| == |boundary| + |DispositionLine(h)| + |TypeText(h)| + 8
  {
    hide DispositionLine, TypeText, HeadLines, Serialized;
    var h, c, next := items[0].header, items[0].content, Rest(items, boundary, 1);
    var m, ls := Mark(boundary), HeadLines(h);
    RestSplits(items, boundary, 0);
    HeadIs(h, []);
    HeadIs(h, c + next);
    LinesThen(ls, c + next);
    var front := [m] + ls;
    assert front[1..] == ls && Gap(items, boundary, 0) == [] + (m + CRLF + Lines(ls, [])) == m + CRLF + Lines(ls, []);
    Assoc(m + CRLF, Lines(ls, []), c + next);
    Assoc(m + CRLF + Lines(ls, []), c, next);
  }

  lemma EndOfLine(x: string, y: string, mark: string, pos: nat)
    requires CR !in x && OccursAt(x + CRLF + y, mark + CRLF, pos) && pos + |mark| <= |x|
    ensures pos + |mark| == |x| && (x + CRLF + y)[pos + |mark| + 2..] == y
  {
    hide OccursAt;
    var s := x + CRLF + y;
    CharAt(s, mark + CRLF, pos, |mark|);
    assert forall i :: 0 <= i < |x| ==> s[i] == x[i];
    DropPast(x + CRLF, y, |x| + 2);
  }

  lemma DashesAreInNames(h: FormHeader, mark: string, pos: nat)
    requires |mark| >= 2 && mark[0] == '-' && mark[1] == '-' && OccursAt(DispositionLine(h), mark, pos)
    ensures h.name != [] || h.filename != []
  {
    if h.name == [] && h.filename == [] {
      var line := DispositionLine(h);
      CharAt(line, mark, pos, 0);
      CharAt(line, mark, pos, 1);
      PlainLineHasNoDashes(h, pos);
    }
  }

  lemma PlainLineHasNoDashes(h: FormHeader, i: nat)
    requires h.name == [] && h.filename == [] && i + 1 < |DispositionLine(h)|
    ensures DispositionLine(h)[i] != '-' || DispositionLine(h)[i + 1] != '-'
  {
    assert DispositionLine(h) == "Content-Disposition: form-data; name=\"\"";
  }

  lemma OpeningInHeader(items: seq<FormItem>, boundary: string, pos: nat) returns (typed: bool)
    requires GoodForm(items, boundary) && OccursAt(Rest(items, boundary, 0), Opening(boundary), pos)
    requires 0 < pos && pos + |Opening(boundary)| <= |Gap(items, boundary, 0)|
    ensures var u, h := Rest(items, boundary, 0)[pos + |Opening(boundary)|..], items[0].header;
            if typed then u == Behind(items, boundary) && h.contentType != []
            else u == TypeText(h) + Behind(items, boundary) && (h.name != [] || h.filename != [])
  {
    hide DispositionLine, TypeLine, OccursAt, Rest, Gap, Behind;
    var h, m, x := items[0].header, Mark(boundary), Behind(items, boundary);
    var d, t := DispositionLine(h), TypeText(h);
    assert GoodItem(items[0], boundary);
    LinesAreLines(h);
    FirstItemIs(items, boundary);
    assert Opening(boundary) == m + CRLF;
    var y2 := t + x;
    var y1 := d + CRLF + y2;
    var s := m + CRLF + y1;
    OpeningChars(boundary, s, pos);
    PeelLine(m, y1, m, pos);
    var p1 := pos - |m| - 2;
    DropTwice(s, y1, pos, p1, |m| + 2);
    PeelLine(d, y2, m, p1);
    if p1 + |m| <= |d| {
      EndOfLine(d, y2, m, p1);
      DashesAreInNames(h, m, p1);
      typed := false;
    } else {
      var p2 := p1 - |d| - 2;
      DropTwice(y1, y2, p1, p2, |m| + 2);
      var l := TypeLine(h);
      assert h.contentType != [];
      assert y2 == l + CRLF + x;
      PeelLine(l, x, m, p2);
      assert |t| == |l| + 2;
      EndOfLine(l, x, m, p2);
      typed := true;
    }
  }

  lemma DropTwice(s: string, y: string, pos: nat, p: nat, k: nat)
    requires pos + k <= |s| && p + k <= |y| && s[pos..] == y[p..]
    ensures s[pos + k..] == y[p + k..]
  {
    DropMore(s, pos, k);
    DropMore(y, p, k);
  }

  /** Entering the header state makes no difference once there is anything to read. */
  lemma {:induction false} EntersHeaders(p: Parser, pieces: seq<string>)
    requires p.state == 1 && p.file == NO_HEADER && p.buf == [] && Concat(pieces) != []
    ensures FeedAll(p, pieces) == FeedAll(p.(state := 2), pieces)
    decreases |pieces|
  {
    hide HeaderTurn;
    var first := pieces[0];
    assert [] + first == first;
    if first == [] {
      assert [] + Concat(pieces[1..]) == Concat(pieces[1..]);
      EntersHeaders(p, pieces[1..]);
    } else {
      assert Turn1(p.(buf := first)) == Go(p.(buf := first, state := 2));
      assert Run(p.(buf := first)) == Run(p.(buf := first, state := 2));
    }
  }

  /** The form with other header lines in its first item. */
  function Relined(items: seq<FormItem>, lines: seq<string>): seq<Part>
    requires items != []
  {
    PartsOf(items)[0 := Part(lines, items[0].content)]
  }

  /** The lines of a header that holds a content type at most. */
  function TypeLines(h: FormHeader): seq<string> { if h.contentType == [] then [] else [TypeLine(h)] }

  lemma TypeLinesAre(h: FormHeader)
    requires h.name == [] && h.filename == [] && Trimmed(h.contentType)
    ensures HeaderAfter(TypeLines(h)) == (h, true) && LinesText(TypeLines(h)) == TypeText(h)
  {
    hide HeaderLine, TypeLine;
    if h.contentType != [] {
      var lines := [TypeLine(h)];
      assert lines[..0] == [] && lines[1..] == [];
      TypeLineParses(NO_HEADER, h);
      assert TypeLine(h) + CRLF + [] == TypeLine(h) + CRLF;
    }
  }

  lemma RelinedIsClean(items: seq<FormItem>, boundary: string, h: FormHeader)
    requires GoodForm(items, boundary) && (h.contentType == [] || h.contentType == items[0].header.contentType)
    ensures CleanParts(Relined(items, TypeLines(h)), boundary)
  {
    hide CleanPart, GoodItem;
    FormIsCleanParts(items, boundary);
    FirstIsClean(items[0], boundary, h);
  }

  lemma FirstIsClean(item: FormItem, boundary: string, h: FormHeader)
    requires GoodItem(item, boundary) && (h.contentType == [] || h.contentType == item.header.contentType)
    ensures CleanPart(Part(TypeLines(h), item.content), boundary)
  {
    LinesAreLines(item.header);
    NoCrNoCrlf(TypeLine(item.header));
  }

  lemma SameBehind(items: seq<FormItem>, boundary: string, lines: seq<string>)
    requires items != []
    ensures BodyEnd(Relined(items, lines), boundary, 0) == Rest(items, boundary, 1)
  {
    hide Serialized, HeadText, BodyEnd, PartOf;
    if 1 < |items| { SerializedAs(items, Relined(items, lines), boundary, 1); }
    BodyEndAs(items, Relined(items, lines), boundary, 0);
  }

  /** Picked up behind the first item's disposition or type line: the first item arrives without the header
      fields before it, and so is another item. */
  lemma HeaderLinesLost(items: seq<FormItem>, boundary: string, pieces: seq<string>, h: FormHeader)
    requires GoodForm(items, boundary) && h.name == [] && h.filename == [] && h != items[0].header
    requires h.contentType == [] || h.contentType == items[0].header.contentType
    requires Concat(pieces) == TypeText(h) + Behind(items, boundary)
    ensures var (n, ok) := FeedAll(Initial(boundary).(state := 1), pieces); ok ==> n.files != items
  {
    hide FeedAll, BodyEnd, Rest, TypeLine, TypeLines, TypeText, GoodForm, CleanParts, HeaderAfter, PartOf;
    NotEmpty(items, boundary);
    var p := Initial(boundary).(state := 1);
    EntersHeaders(p, pieces);
    TypeIsTrimmed(items, boundary);
    TypeLinesAre(h);
    RelinedIsClean(items, boundary, h);
    SyncedBehind(items, boundary, Concat(pieces), h);
    var parts := Relined(items, TypeLines(h));
    FeedAllKeeps(p.(state := 2), pieces, parts, boundary, InHeaders(0));
    assert ItemsOf(parts)[0] == ItemOf(parts[0]);
    assert ItemsOf(parts)[0].header == h;
  }

  lemma TypeIsTrimmed(items: seq<FormItem>, boundary: string)
    requires GoodForm(items, boundary)
    ensures items != [] && Trimmed(items[0].header.contentType)
  {
    assert GoodItem(items[0], boundary);
  }

  /** A parser that enters the header state behind the first item's disposition or type line is in step with
      the form less that line. */
  lemma SyncedBehind(items: seq<FormItem>, boundary: string, text: string, h: FormHeader)
    requires items != [] && text == TypeText(h) + Behind(items, boundary) && LinesText(TypeLines(h)) == TypeText(h)
    ensures Synced(Initial(boundary).(state := 2), text, Relined(items, TypeLines(h)), boundary, InHeaders(0))
  {
    hide TypeText, TypeLines, Rest, BodyEnd;
    var parts, lines := Relined(items, TypeLines(h)), TypeLines(h);
    SameBehind(items, boundary, lines);
    assert lines[0..] == lines && lines[..0] == [] && parts[..0] == [] && ItemsOf(parts)[..0] == [];
    assert [] + text == text;
  }

  // ----- the exact round trip ---------------------------------------------------------------------

  /** Behind an opening line that is not the form's first. */
  lemma LateStart(items: seq<FormItem>, boundary: string, pos: nat, pieces: seq<string>)
    requires GoodForm(items, boundary) && 0 < pos && OccursAt(Rest(items, boundary, 0), Opening(boundary), pos)
    requires Concat(pieces) == Rest(items, boundary, 0)[pos + |Opening(boundary)|..]
    ensures var (n, ok) := FeedAll(Initial(boundary).(state := 1), pieces); ok ==> n.files != items
  {
    hide FeedAll, Rest, Gap, OccursAt, Opening;
    var h := items[0].header;
    if pos + |Opening(boundary)| <= |Gap(items, boundary, 0)| {
      var typed := OpeningInHeader(items, boundary, pos);
      if typed {
        assert [] + Behind(items, boundary) == Behind(items, boundary);
        HeaderLinesLost(items, boundary, pieces, NO_HEADER);
      } else {
        HeaderLinesLost(items, boundary, pieces, FormHeader("", "", h.contentType));
      }
    } else {
      var r, q := Located(items, boundary, 0, pos);
      var p := Initial(boundary).(state := 1);
      assert [] + Concat(pieces) == Concat(pieces);
      assert Late(p, Concat(pieces), items, boundary, r, q);
      FeedAllLate(p, pieces, items, boundary, r, q);
    }
  }

  /** Feeding a piece with an opening line: what stands behind it is fed to a parser that has just found it. */
  lemma OpensAt(boundary: string, pieces: seq<string>, k: nat)
    requires pieces != [] && k == Find(pieces[0], Opening(boundary)) < |pieces[0]|
    ensures k + |Opening(boundary)| <= |pieces[0]|
    ensures FeedAll(Initial(boundary), pieces)
            == FeedAll(Initial(boundary).(state := 1), [pieces[0][k + |Opening(boundary)|..]] + pieces[1..])
  {
    hide Opening, Find, OccursAt, Feed;
    var o, piece := Opening(boundary), pieces[0];
    var u, v := piece[..k], piece[k..];
    FoundInside(piece, o);
    FoundOccurs(piece, o);
    StartsThere(piece, o, k);
    assert u + v == piece;
    SkipsTo(boundary, u, v);
    var y := v[|o|..];
    FeedOpened(boundary, v, y);
    DropMore(piece, k, |o|);
    var pieces' := [y] + pieces[1..];
    assert pieces'[1..] == pieces[1..];
  }

  lemma FeedOpened(boundary: string, v: string, y: string)
    requires v == Opening(boundary) + y
    ensures Feed(Initial(boundary), v) == Feed(Initial(boundary).(state := 1), y)
  {
    hide Opening, OpeningTurn;
    OpeningTaken(boundary, v, y);
    var p := Initial(boundary).(buf := v);
    assert [] + v == v && [] + y == y && v[|Opening(boundary)|..] == y;
    assert Turn1(p) == Go(p.(buf := y, state := 1));
  }

  lemma StartsThere(piece: string, o: string, k: nat)
    requires OccursAt(piece, o, k)
    ensures k + |o| <= |piece| && OccursAt(piece[k..], o, 0) && piece[k..] == o + piece[k..][|o|..]
  {
    var v := piece[k..];
    assert v[0..0 + |o|] == piece[k..k + |o|] == o;
  }

  /** The first piece holds an opening line, and it is not the form's first. */
  lemma PickedUpLate(items: seq<FormItem>, boundary: string, pieces: seq<string>, lost: string)
    requires GoodForm(items, boundary) && lost + Concat(pieces) == Serialized(items, boundary)
    requires pieces != [] && Holds(pieces[0], Opening(boundary)) && (lost != [] || Find(pieces[0], Opening(boundary)) > 0)
    ensures var (n, ok) := FeedAll(Initial(boundary), pieces); ok ==> n.files != items
  {
    hide GoodForm, Serialized, Opening, Find, OccursAt, FeedAll, Rest, Concat;
    var piece, later, o := pieces[0], pieces[1..], Opening(boundary);
    var k, rest := Find(piece, o), Concat(later);
    ConcatStep(pieces);
    FoundOccurs(piece, o);
    FoundInText(lost, piece, rest, o, k);
    RestIsForm(items, boundary);
    OpensAt(boundary, pieces, k);
    var y := piece[k + |o|..];
    TextBehind(lost, piece, rest, k + |o|);
    ConcatStep([y] + later);
    assert ([y] + later)[1..] == later;
    var at := |lost| + k;
    assert at + |o| == |lost| + (k + |o|);
    LateStart(items, boundary, at, [y] + later);
  }

  lemma ConcatStep(pieces: seq<string>)
    requires pieces != []
    ensures Concat(pieces) == pieces[0] + Concat(pieces[1..])
  {}

  lemma RestIsForm(items: seq<FormItem>, boundary: string)
    ensures Rest(items, boundary, 0) == Serialized(items, boundary)
  {
    hide Serialized;
    assert items[0..] == items && [] + Serialized(items, boundary) == Serialized(items, boundary);
  }

  lemma FirstIsWhole(pieces: seq<string>, boundary: string)
    requires pieces != [] && Holds(pieces[0], Opening(boundary)) && Find(pieces[0], Opening(boundary)) == 0
    ensures OpensWhole(pieces, boundary)
  {
    hide Find;
    HoldsIsLong(pieces[0], Opening(boundary));
  }

  /** When the first nonempty piece cuts the opening delimiter, or bytes were lost before, not all items arrive. */
  lemma {:induction false} CutLoses(items: seq<FormItem>, boundary: string, pieces: seq<string>, lost: string)
    requires GoodForm(items, boundary) && lost + Concat(pieces) == Serialized(items, boundary)
    requires lost != [] || !OpensWhole(pieces, boundary)
    ensures var (n, ok) := FeedAll(Initial(boundary), pieces); ok ==> n.files != items
    decreases |pieces|
  {
    hide GoodForm, Serialized, Opening, Find, OccursAt, Feed;
    NotEmpty(items, boundary);
    if pieces != [] {
      var piece, rest, o := pieces[0], Concat(pieces[1..]), Opening(boundary);
      if Holds(piece, o) {
        if Find(piece, o) == 0 { FirstIsWhole(pieces, boundary); }
        PickedUpLate(items, boundary, pieces, lost);
      } else {
        UnopenedPiece(boundary, piece);
        Assoc(lost, piece, rest);
        CutLoses(items, boundary, pieces[1..], lost + piece);
      }
    }
  }

  lemma TextBehind(lost: string, piece: string, rest: string, k: nat)
    requires k <= |piece|
    ensures (lost + (piece + rest))[|lost| + k..] == piece[k..] + rest
  {}

  /** The round trip, exactly and for every good form: all items are received if and only if they are at most
      1024 and the first nonempty piece holds the whole opening delimiter. */
  lemma RoundTripExactly(items: seq<FormItem>, boundary: string, pieces: seq<string>)
    requires GoodForm(items, boundary) && Concat(pieces) == Serialized(items, boundary)
    ensures var (q, ok) := FeedAll(Initial(boundary), pieces);
            ok && q.files == items <==> |items| <= FILE_MAX_COUNT && OpensWhole(pieces, boundary)
    ensures var (q, ok) := FeedAll(Initial(boundary), pieces); ok && q.files == items ==> q.valid
  {
    hide FeedAll, Serialized, GoodForm, OpensWhole;
    if OpensWhole(pieces, boundary) {
      OpensWholeSuffices(items, boundary, pieces);
    } else {
      assert [] + Concat(pieces) == Concat(pieces);
      CutLoses(items, boundary, pieces, []);
    }
  }
}
