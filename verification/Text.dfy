/**
 Character-level helpers shared by the HTTP components: substring search,
 blank trimming, delimiter splitting and case folding.  Every loop of the
 original is a method here, proved against the function that specifies it.
 */
module Text {
  import opened Sequences

  datatype Option<+T> = None | Some(value: T)

  const CR := '\r'
  const LF := '\n'
  const CRLF: string := "\r\n"
  const DASH: string := "--"

  // ----- substring search -------------------------------------------------

  predicate OccursAt(s: string, p: string, i: nat) {
    i + |p| <= |s| && s[i..i + |p|] == p
  }

  /** Index of the first occurrence of p, or |s| when there is none. */
  function Find(s: string, p: string): (r: nat)
    requires p != []
    ensures r <= |s|
    ensures r < |s| ==> OccursAt(s, p, r)
    ensures forall j: nat :: j < r ==> !OccursAt(s, p, j)
  {
    FindFrom(s, p, 0)
  }

  function FindFrom(s: string, p: string, i: nat): (r: nat)
    requires p != [] && i <= |s|
    ensures i <= r <= |s|
    ensures r < |s| ==> OccursAt(s, p, r)
    ensures forall j: nat :: i <= j < r ==> !OccursAt(s, p, j)
    decreases |s| - i
  {
    if i == |s| || OccursAt(s, p, i) then i else FindFrom(s, p, i + 1)
  }

  lemma FoundInside(s: string, p: string)
    requires p != [] && Find(s, p) < |s|
    ensures Find(s, p) + |p| <= |s|
  {}

  lemma FindIs(s: string, p: string, r: nat)
    requires p != [] && OccursAt(s, p, r)
    requires forall j: nat :: j < r ==> !OccursAt(s, p, j)
    ensures Find(s, p) == r
  {
    assert !(Find(s, p) < r);
    assert !(r < Find(s, p));
  }

  /** Index of the first c, or |s| when there is none. */
  function IndexOf(s: string, c: char): (k: nat)
    ensures k <= |s|
  {
    if s == [] || s[0] == c then 0 else 1 + IndexOf(s[1..], c)
  }

  lemma IndexOfMeans(s: string, c: char)
    ensures var k := IndexOf(s, c); c !in s[..k] && (k < |s| ==> s[k] == c)
  {}

  lemma IndexOfIs(s: string, c: char, k: nat)
    requires k <= |s| && c !in s[..k] && (k < |s| ==> s[k] == c)
    ensures IndexOf(s, c) == k
  {
    IndexOfMeans(s, c);
    assert !(IndexOf(s, c) < k);
    assert !(k < IndexOf(s, c));
  }

  // ----- trimming ---------------------------------------------------------

  predicate IsBlank(c: char) { c == ' ' || c == '\t' }

  predicate AllBlank(s: string) { forall i :: 0 <= i < |s| ==> IsBlank(s[i]) }

  /** No blank at either end (an empty string qualifies). */
  predicate Trimmed(s: string) {
    s == [] || (!IsBlank(s[0]) && !IsBlank(s[|s| - 1]))
  }

  function TrimLeft(s: string): string {
    if s != [] && IsBlank(s[0]) then TrimLeft(s[1..]) else s
  }

  function TrimRight(s: string): string {
    if s != [] && IsBlank(s[|s| - 1]) then TrimRight(s[..|s| - 1]) else s
  }

  function Trim(s: string): string {
    TrimRight(TrimLeft(s))
  }

  lemma TrimLeftSkips(s: string, k: nat)
    requires k <= |s| && AllBlank(s[..k])
    requires k == |s| || !IsBlank(s[k])
    ensures TrimLeft(s) == s[k..]
  {
    if k > 0 {
      assert s[0] == s[..k][0];
      assert s[1..][..k - 1] == s[..k][1..];
      TrimLeftSkips(s[1..], k - 1);
    }
  }

  lemma TrimRightSkips(s: string, k: nat)
    requires k <= |s| && AllBlank(s[k..])
    requires k == 0 || !IsBlank(s[k - 1])
    ensures TrimRight(s) == s[..k]
  {
    if k < |s| {
      assert s[|s| - 1] == s[k..][|s| - 1 - k];
      assert s[..|s| - 1][k..] == s[k..][..|s| - 1 - k];
      TrimRightSkips(s[..|s| - 1], k);
      assert s[..|s| - 1][..k] == s[..k];
    } else {
      assert s[..k] == s;
    }
  }

  lemma {:induction false} TrimKeeps(s: string)
    ensures Trimmed(s) ==> Trim(s) == s
    ensures |Trim(s)| <= |s|
    ensures forall c :: c in Trim(s) ==> c in s
    ensures Trimmed(Trim(s))
  {
    TrimLeftParts(s);
    TrimRightParts(TrimLeft(s));
  }

  lemma TrimLeftParts(s: string)
    ensures |TrimLeft(s)| <= |s| && TrimLeft(s) == s[|s| - |TrimLeft(s)|..]
    ensures TrimLeft(s) == [] || !IsBlank(TrimLeft(s)[0])
  {}

  lemma TrimRightParts(s: string)
    ensures |TrimRight(s)| <= |s| && TrimRight(s) == s[..|TrimRight(s)|]
    ensures TrimRight(s) == [] || !IsBlank(TrimRight(s)[|TrimRight(s)| - 1])
  {}

  lemma TrimIs(piece: string, a: nat, b: nat)
    requires a < b <= |piece| && AllBlank(piece[..a]) && AllBlank(piece[b..])
    requires !IsBlank(piece[a]) && !IsBlank(piece[b - 1])
    ensures Trim(piece) == piece[a..b]
  {
    TrimLeftSkips(piece, a);
    var t := piece[a..];
    assert t[b - a..] == piece[b..] && t[b - a - 1] == piece[b - 1];
    TrimRightSkips(t, b - a);
    assert t[..b - a] == piece[a..b];
  }

  lemma TrimBlank(piece: string)
    requires AllBlank(piece)
    ensures Trim(piece) == []
  {
    assert piece[..|piece|] == piece;
    TrimLeftSkips(piece, |piece|);
  }

  /** The index pair computed for the piece s[beg..end] of a longer text: the left
      scan is bounded by the end of the whole text, not of the piece. */
  method TrimRange(s: string, beg: nat, end: nat) returns (left: nat, right: nat)
    requires beg <= end <= |s|
    ensures right <= |s|
    ensures left < right ==> beg <= left && right <= end && s[left..right] == Trim(s[beg..end])
    ensures left >= right ==> Trim(s[beg..end]) == []
  {
    hide Trim;
    left, right := beg, end;
    while left < |s| && IsBlank(s[left])
      invariant beg <= left <= |s|
      invariant forall i :: beg <= i < left ==> IsBlank(s[i])
    {
      left := left + 1;
    }
    while right > 0 && IsBlank(s[right - 1])
      invariant right <= end
      invariant forall i :: right <= i < end ==> IsBlank(s[i])
    {
      right := right - 1;
    }
    ghost var piece := s[beg..end];
    if left < end {
      assert left < right;
      ghost var a, b := left - beg, right - beg;
      assert AllBlank(piece[..a]) && AllBlank(piece[b..]);
      TrimIs(piece, a, b);
      SubSlice(s, beg, end, a, b);
    } else {
      assert AllBlank(piece);
      TrimBlank(piece);
    }
  }

  // ----- splitting --------------------------------------------------------

  function Keep(piece: string): seq<string> {
    if Trim(piece) == [] then [] else [Trim(piece)]
  }

  /** The trimmed nonempty pieces of cur + s, where cur holds no further delimiter to cut at. */
  function Pieces(cur: string, s: string, d: char): (r: seq<string>)
    decreases |s|
  {
    if s == [] then Keep(cur)
    else if s[0] == d then Keep(cur) + Pieces([], s[1..], d)
    else Pieces(cur + [s[0]], s[1..], d)
  }

  method Split(s: string, d: char) returns (out: seq<string>)
    ensures out == Pieces([], s, d)
  {
    hide Trim;
    out := [];
    var i, beg := 0, 0;
    assert s[0..] == s;
    while i < |s|
      invariant 0 <= beg <= i <= |s|
      invariant out + Pieces(s[beg..i], s[i..], d) == Pieces([], s, d)
    {
      ghost var cur, rest := s[beg..i], s[i + 1..];
      assert s[i..][1..] == rest;
      if s[i] == d {
        Assoc(out, Keep(cur), Pieces([], rest, d));
        var left, right := TrimRange(s, beg, i);
        if left < right { out := out + [s[left..right]]; } else { assert out + [] == out; }
        beg := i + 1;
        assert s[beg..i + 1] == [];
      } else {
        assert cur + [s[i]] == s[beg..i + 1];
      }
      i := i + 1;
    }
    assert s[i..] == [];
    if i != 0 {
      var left, right := TrimRange(s, beg, i);
      if left < right { out := out + [s[left..right]]; } else { assert out + [] == out; }
    } else {
      TrimBlank([]);
    }
  }

  /** Cutting at a delimiter that is really there. */
  lemma {:induction false} PiecesCut(cur: string, a: string, rest: string, d: char)
    requires d !in a
    ensures Pieces(cur, a + [d] + rest, d) == Keep(cur + a) + Pieces([], rest, d)
    decreases |a|
  {
    var s := a + [d] + rest;
    if a == [] {
      assert s[1..] == rest && cur + a == cur;
    } else {
      assert s[1..] == a[1..] + [d] + rest;
      assert cur + [a[0]] + a[1..] == cur + a;
      PiecesCut(cur + [a[0]], a[1..], rest, d);
    }
  }

  lemma {:induction false} PiecesWhole(cur: string, a: string, d: char)
    requires d !in a
    ensures Pieces(cur, a, d) == Keep(cur + a)
    decreases |a|
  {
    if a == [] {
      assert cur + a == cur;
    } else {
      assert cur + [a[0]] + a[1..] == cur + a;
      PiecesWhole(cur + [a[0]], a[1..], d);
    }
  }

  /** Pieces are nonempty, trimmed, delimiter-free and made of the text's characters. */
  lemma {:induction false} PiecesAreClean(cur: string, s: string, d: char)
    requires d !in cur
    ensures forall p :: p in Pieces(cur, s, d) ==>
              p != [] && Trimmed(p) && d !in p && forall c :: c in p ==> c in cur + s
    decreases |s|
  {
    TrimKeeps(cur);
    if s != [] {
      if s[0] == d {
        PiecesAreClean([], s[1..], d);
      } else {
        PiecesAreClean(cur + [s[0]], s[1..], d);
      }
    }
  }

  /** A key=value text: the first piece is the key, the last later piece the value. */
  function KeyValue(kv: string): (string, string) {
    var ps := Pieces([], kv, '=');
    if ps == [] then ("", "") else (ps[0], if |ps| > 1 then ps[|ps| - 1] else "")
  }

  method SplitKeyValue(kv: string) returns (key: string, val: string)
    ensures (key, val) == KeyValue(kv)
  {
    PiecesAreClean([], kv, '=');
    var ps := Split(kv, '=');
    key, val := "", "";
    for i := 0 to |ps|
      invariant i == 0 ==> key == "" && val == ""
      invariant i > 0 ==> key == ps[0] && val == if i > 1 then ps[i - 1] else ""
    {
      if key == [] { key := ps[i]; } else { val := ps[i]; }
    }
  }

  lemma KeyValueOf(k: string, v: string)
    requires k != [] && Trimmed(k) && Trimmed(v) && '=' !in k && '=' !in v
    ensures KeyValue(k + "=" + v) == (k, v)
  {
    PiecesCut([], k, v, '=');
    PiecesWhole([], v, '=');
    assert [] + k == k && [] + v == v;
    assert k + "=" + v == k + ['='] + v;
    TrimKeeps(k);
    TrimKeeps(v);
  }

  function TrimQuotes(s: string): string {
    if |s| >= 2 && s[0] == '"' && s[|s| - 1] == '"' then s[1..|s| - 1] else s
  }

  // ----- case folding -----------------------------------------------------

  function Lower(c: char): char {
    if 'A' <= c <= 'Z' then (c as int + 32) as char else c
  }

  predicate StartsIgnoringCase(a: string, b: string) {
    |a| >= |b| && forall i :: 0 <= i < |b| ==> Lower(a[i]) == Lower(b[i])
  }
}
