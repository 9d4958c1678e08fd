/**
 The text of a serialized form in regions: what stands before each content, the content, and the
 closing line; and positions in it.
 */
module MultipartRegions {
  import opened Sequences
  import opened Text
  import opened Multipart
  import opened MultipartProof
  import opened MultipartCuts

  // ----- the text in regions ---------------------------------------------------------

  function Mark(boundary: string): string { DASH + boundary }

  /** The lines that stand before the content of item r, or at the end of the form. */
  function FrontLines(items: seq<FormItem>, boundary: string, r: nat): seq<string>
    requires r <= |items|
  {
    if r == |items| then [Mark(boundary) + DASH] else [Mark(boundary)] + HeadLines(items[r].header)
  }

  function Sep(r: nat): string { if r == 0 then [] else CRLF }

  /** The form from item r on, with the line end before it. */
  function Rest(items: seq<FormItem>, boundary: string, r: nat): string
    requires r <= |items|
  {
    Sep(r) + Serialized(items[r..], boundary)
  }

  /** What stands between two contents. */
  function Gap(items: seq<FormItem>, boundary: string, r: nat): string
    requires r <= |items|
  {
    Sep(r) + Lines(FrontLines(items, boundary, r), [])
  }

  function ContentOf(items: seq<FormItem>, r: nat): string
    requires r <= |items|
  {
    if r == |items| then [] else items[r].content
  }

  function Region(items: seq<FormItem>, boundary: string, r: nat): string
    requires r <= |items|
  {
    Gap(items, boundary, r) + ContentOf(items, r)
  }

  lemma {:induction false} LinesThen(ls: seq<string>, rest: string)
    ensures Lines(ls, rest) == Lines(ls, []) + rest
    decreases |ls|
  {
    if ls != [] {
      LinesThen(ls[1..], rest);
      Assoc(ls[0] + CRLF, Lines(ls[1..], []), rest);
    }
  }

  lemma RestSplits(items: seq<FormItem>, boundary: string, r: nat)
    requires r < |items|
    ensures Rest(items, boundary, r) == Region(items, boundary, r) + Rest(items, boundary, r + 1)
  {
    hide ItemText, HeadLines, Finish;
    var item, next := items[r], Serialized(items[r + 1..], boundary);
    var ls, m := HeadLines(item.header), Mark(boundary);
    var front := [m] + ls;
    assert items[r..][0] == item && items[r..][1..] == items[r + 1..] && front[1..] == ls;
    ItemIsLines(item, boundary, next);
    assert Serialized(items[r..], boundary) == Lines(front, item.content + CRLF + next);
    LinesThen(front, item.content + CRLF + next);
    Assoc(item.content, CRLF, next);
    Assoc(Lines(front, []), item.content, CRLF + next);
    Assoc(Sep(r), Lines(front, []), item.content);
    Assoc(Sep(r), Lines(front, []) + item.content, CRLF + next);
  }

  lemma RestEnds(items: seq<FormItem>, boundary: string)
    ensures Rest(items, boundary, |items|) == Gap(items, boundary, |items|) == Region(items, boundary, |items|)
  {
    var n := |items|;
    assert items[n..] == [];
    var front := FrontLines(items, boundary, n);
    assert front[1..] == [] && Lines(front, []) == Mark(boundary) + DASH + CRLF + [];
    assert Gap(items, boundary, n) + [] == Gap(items, boundary, n);
  }

  lemma RestStarts(items: seq<FormItem>, boundary: string, r: nat)
    requires 0 < r <= |items|
    ensures |Rest(items, boundary, r)| >= |Gap(items, boundary, r)| >= |boundary| + 6
    ensures Rest(items, boundary, r)[0] == CR && Rest(items, boundary, r)[1] == LF && Rest(items, boundary, r)[2] == '-'
    ensures Gap(items, boundary, r) <= Rest(items, boundary, r)
  {
    hide ItemText, HeadLines, Serialized;
    if r < |items| { RestSplits(items, boundary, r); } else { RestEnds(items, boundary); }
    var front := FrontLines(items, boundary, r);
    assert front[0][0] == '-' && |front[0]| >= |boundary| + 2;
    assert Lines(front, []) == front[0] + CRLF + Lines(front[1..], []);
  }

  // ----- no delimiter begins in a gap and ends in it -----------------------------------

  lemma LineDelimiter(x: string, y: string, d: string, pos: nat)
    requires |d| > 2 && d[0] == CR && d[1] == LF && CR !in x && OccursAt(x + CRLF + y, d, pos)
    ensures (pos == |x| && |y| >= |d| - 2 && y[0] == d[2]) || (pos >= |x| + 2 && OccursAt(y, d, pos - |x| - 2))
  {
    hide OccursAt;
    var s := x + CRLF + y;
    assert s[|x|] == CR && s[|x| + 1] == LF && forall i :: 0 <= i < |x| ==> s[i] == x[i];
    CharAt(s, d, pos, 0);
    if pos == |x| {
      CharAt(s, d, pos, 2);
      CharAt(s, d, pos, |d| - 1);
    } else if pos >= |x| + 2 {
      OccursBehind(x + CRLF, y, d, pos);
    }
  }

  /** Lines without CR of which only the first may start with a dash. */
  ghost predicate CleanLines(ls: seq<string>) {
    && (forall i :: 0 <= i < |ls| ==> CR !in ls[i])
    && (forall i :: 1 <= i < |ls| ==> ls[i] == [] || ls[i][0] != '-')
  }

  lemma {:induction false} NoDelimiterInLines(ls: seq<string>, d: string, pos: nat)
    requires CleanLines(ls) && |d| > 2 && d[0] == CR && d[1] == LF && d[2] == '-'
    ensures !OccursAt(Lines(ls, []), d, pos)
    decreases |ls|
  {
    if ls != [] && OccursAt(Lines(ls, []), d, pos) {
      var y := Lines(ls[1..], []);
      LineDelimiter(ls[0], y, d, pos);
      assert CleanLines(ls[1..]);
      if pos >= |ls[0]| + 2 { NoDelimiterInLines(ls[1..], d, pos - |ls[0]| - 2); }
    }
  }

  lemma FrontIsClean(items: seq<FormItem>, boundary: string, r: nat)
    requires GoodForm(items, boundary) && r <= |items|
    ensures CleanLines(FrontLines(items, boundary, r))
  {
    if r < |items| {
      assert GoodItem(items[r], boundary);
      LinesAreLines(items[r].header);
    }
  }

  /** Behind its first byte, no delimiter lies within a gap. */
  lemma NoDelimiterInGap(items: seq<FormItem>, boundary: string, r: nat, x: nat)
    requires GoodForm(items, boundary) && r <= |items| && (r > 0 ==> x > 0)
    ensures !OccursAt(Gap(items, boundary, r), Delimiter(boundary), x)
  {
    hide FrontLines, GoodForm;
    var d, t := Delimiter(boundary), Lines(FrontLines(items, boundary, r), []);
    FrontIsClean(items, boundary, r);
    if OccursAt(Gap(items, boundary, r), d, x) {
      if r == 0 {
        assert [] + t == t;
        NoDelimiterInLines(FrontLines(items, boundary, r), d, x);
      } else {
        assert [] + CRLF + t == CRLF + t;
        LineDelimiter([], t, d, x);
        NoDelimiterInLines(FrontLines(items, boundary, r), d, x - 2);
      }
    }
  }

  // ----- positions ------------------------------------------------------------------------

  /** The text ahead is the form from byte q of region r on. */
  ghost predicate At(items: seq<FormItem>, boundary: string, t: string, r: nat, q: nat) {
    && r <= |items| && (r > 0 ==> q > 0) && q <= |Region(items, boundary, r)| <= |Rest(items, boundary, r)|
    && t == Rest(items, boundary, r)[q..]
  }

  lemma RegionFits(items: seq<FormItem>, boundary: string, r: nat)
    requires r <= |items|
    ensures |Region(items, boundary, r)| <= |Rest(items, boundary, r)| && Region(items, boundary, r) <= Rest(items, boundary, r)
  {
    hide Region, Rest, Gap;
    if r < |items| { RestSplits(items, boundary, r); } else { RestEnds(items, boundary); }
  }

  lemma DropMore(t: string, q: nat, k: nat)
    requires q + k <= |t|
    ensures t[q..][k..] == t[q + k..]
  {}

  lemma DropPast(a: string, b: string, k: nat)
    requires |a| <= k <= |a| + |b|
    ensures (a + b)[k..] == b[k - |a|..]
  {}

  /** Reading k bytes on stays in the region or goes to a later one; a short step goes to the next at most. */
  lemma {:induction false} Advance(items: seq<FormItem>, boundary: string, t: string, r: nat, q: nat, k: nat) returns (r': nat, q': nat)
    requires At(items, boundary, t, r, q) && k <= |t|
    ensures At(items, boundary, t[k..], r', q')
    ensures if q + k <= |Region(items, boundary, r)| then r' == r && q' == q + k else r' > r
    ensures r < |items| && |Region(items, boundary, r)| < q + k <= |Region(items, boundary, r)| + |Gap(items, boundary, r + 1)| ==>
              r' == r + 1 && q' == q + k - |Region(items, boundary, r)|
    decreases |items| - r
  {
    hide Region, Rest, Gap;
    var here := Rest(items, boundary, r);
    var size := |Region(items, boundary, r)|;
    DropMore(here, q, k);
    if q + k <= size {
      r', q' := r, q + k;
    } else {
      EndIsEnd(items, boundary, r);
      RestSplits(items, boundary, r);
      RegionFits(items, boundary, r + 1);
      GapFits(items, boundary, r + 1);
      var next := Rest(items, boundary, r + 1);
      DropPast(Region(items, boundary, r), next, q + k);
      var over := q + k - size;
      if over <= |Region(items, boundary, r + 1)| {
        r', q' := r + 1, over;
      } else {
        DropMore(next, 1, over - 1);
        r', q' := Advance(items, boundary, next[1..], r + 1, 1, over - 1);
      }
    }
  }

  lemma EndIsEnd(items: seq<FormItem>, boundary: string, r: nat)
    requires r <= |items|
    ensures |Rest(items, boundary, r)| > |Region(items, boundary, r)| ==> r < |items|
  {
    hide Region, Rest, Gap;
    RestEnds(items, boundary);
  }

  lemma GapFits(items: seq<FormItem>, boundary: string, r: nat)
    requires r <= |items|
    ensures |Gap(items, boundary, r)| <= |Region(items, boundary, r)|
    ensures 0 < r ==> |Gap(items, boundary, r)| >= |boundary| + 6
  {
    hide Gap;
    if r > 0 { RestStarts(items, boundary, r); }
  }

  /** In a content the text ahead is the rest of the content, then the next delimiter. */
  lemma InContent(items: seq<FormItem>, boundary: string, t: string, r: nat, q: nat)
    requires At(items, boundary, t, r, q) && r < |items| && q >= |Gap(items, boundary, r)|
    ensures var c := items[r].content;
            var x := q - |Gap(items, boundary, r)|;
            x <= |c| && t == c[x..] + Rest(items, boundary, r + 1)
  {
    hide Rest, Gap;
    RestSplits(items, boundary, r);
    var c, g := items[r].content, Gap(items, boundary, r);
    Assoc(g, c, Rest(items, boundary, r + 1));
    DropPast(g, c + Rest(items, boundary, r + 1), q);
    var x := q - |g|;
    assert (c + Rest(items, boundary, r + 1))[x..] == c[x..] + Rest(items, boundary, r + 1);
  }

  /** Before it, the text ahead begins with the rest of the gap. */
  lemma InGap(items: seq<FormItem>, boundary: string, t: string, r: nat, q: nat)
    requires At(items, boundary, t, r, q) && q <= |Gap(items, boundary, r)|
    ensures Gap(items, boundary, r)[q..] <= t && (r == |items| ==> t == Gap(items, boundary, r)[q..])
  {
    hide Rest, Gap;
    RegionFits(items, boundary, r);
    RestEnds(items, boundary);
    var g, s := Gap(items, boundary, r), Rest(items, boundary, r);
    assert g <= s by { assert g <= Region(items, boundary, r); }
    assert s == g + s[|g|..];
    assert s[q..] == g[q..] + s[|g|..];
  }

  lemma {:induction false} EndIsInside(items: seq<FormItem>, boundary: string, r: nat)
    requires r <= |items|
    ensures |Rest(items, boundary, r)| >= |Gap(items, boundary, |items|)|
    ensures r < |items| ==> |Rest(items, boundary, r)| >= |Region(items, boundary, r)| + |Gap(items, boundary, |items|)|
    decreases |items| - r
  {
    hide Region, Rest, Gap;
    if r < |items| {
      RestSplits(items, boundary, r);
      EndIsInside(items, boundary, r + 1);
    } else {
      RestEnds(items, boundary);
    }
  }

  /** A line end does not straddle a content and the delimiter behind it. */
  lemma LineEndCrosses(items: seq<FormItem>, boundary: string, t: string, r: nat, q: nat)
    requires At(items, boundary, t, r, q) && r < |items| && |t| >= 2 && t[1] == LF
    ensures q + 1 != |Region(items, boundary, r)|
    ensures q == |Region(items, boundary, r)| ==> t == Rest(items, boundary, r + 1)
  {
    hide Region, Rest, Gap;
    RestSplits(items, boundary, r);
    RestStarts(items, boundary, r + 1);
    var here, next := Region(items, boundary, r), Rest(items, boundary, r + 1);
    assert q < |here| ==> (here + next)[q..] == here[q..] + next;
    assert (here + next)[|here|..] == next;
  }

  lemma CloseChars(items: seq<FormItem>, boundary: string, x: nat)
    requires GoodForm(items, boundary) && 0 < x && x + 1 < |Gap(items, boundary, |items|)|
    requires Gap(items, boundary, |items|)[x] == CR
    ensures x + 2 == |Gap(items, boundary, |items|)|
  {
    var n := |items|;
    var front := FrontLines(items, boundary, n);
    var m := Mark(boundary) + DASH;
    assert front[1..] == [] && Lines(front, []) == m + CRLF + [] == m + CRLF;
    assert Gap(items, boundary, n) == CRLF + (m + CRLF);
  }

  /** In the closing line, a position behind a line end is that behind the first or behind the last. */
  lemma BehindLineEnd(items: seq<FormItem>, boundary: string, t: string, r: nat, q: nat, k: nat, q': nat)
    requires GoodForm(items, boundary) && At(items, boundary, t, r, q) && 2 <= k <= |t| && t[k - 2] == CR && t[k - 1] == LF
    requires At(items, boundary, t[k..], |items|, q')
    ensures q' == 2 || q' == |Gap(items, boundary, |items|)|
  {
    hide Region, Rest, Gap;
    var n, u := |items|, t[k - 2..];
    var g := Gap(items, boundary, n);
    var r2, q2 := Advance(items, boundary, t, r, q, k - 2);
    assert u[2..] == t[k..] && u[0] == CR && u[1] == LF;
    RestEnds(items, boundary);
    if r2 == n {
      assert u == g[q2..] && g[q2] == CR;
      CloseChars(items, boundary, q2);
    } else {
      var r3, q3 := Advance(items, boundary, u, r2, q2, 2);
      GapFits(items, boundary, r2 + 1);
      EndIsInside(items, boundary, r3);
      if q2 + 2 > |Region(items, boundary, r2)| {
        assert r3 == r2 + 1 && q3 <= 2;
        GapFits(items, boundary, r3);
        LineEndCrosses(items, boundary, u, r2, q2);
      }
    }
  }
}
