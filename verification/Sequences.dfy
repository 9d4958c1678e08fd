/**
 Sequence algebra: the few equations that proofs about texts and logs keep using.
 */
module Sequences {

  lemma Assoc<T>(a: seq<T>, b: seq<T>, c: seq<T>)
    ensures (a + b) + c == a + (b + c)
  {}

  lemma SubSlice<T>(s: seq<T>, a: nat, b: nat, c: nat, d: nat)
    requires a <= b <= |s| && c <= d <= b - a
    ensures s[a..b][c..d] == s[a + c..a + d]
  {
    var t := s[a..b];
    forall i | 0 <= i < d - c ensures t[c..d][i] == s[a + c..a + d][i] {
      assert t[c..d][i] == t[c + i] == s[a + (c + i)];
      assert s[a + c..a + d][i] == s[a + c + i];
    }
  }

  lemma SlicePrefix<T>(s: seq<T>, a: nat, b: nat, n: nat)
    requires a <= b <= |s| && n <= b - a
    ensures s[a..b][..n] == s[a..a + n]
  {}

  lemma SliceIs<T>(s: seq<T>, a: nat, t: seq<T>)
    requires a + |t| <= |s| && forall j :: 0 <= j < |t| ==> s[a + j] == t[j]
    ensures s[a..a + |t|] == t
  {
    var u := s[a..a + |t|];
    assert |u| == |t| && forall j :: 0 <= j < |t| ==> u[j] == s[a + j] == t[j];
  }

  lemma SliceJoin<T>(s: seq<T>, a: nat, b: nat, c: nat)
    requires a <= b <= c <= |s|
    ensures s[a..b] + s[b..c] == s[a..c]
  {}

  function Concat<T>(pieces: seq<seq<T>>): seq<T> {
    if pieces == [] then [] else pieces[0] + Concat(pieces[1..])
  }

  ghost predicate Distinct<T>(s: seq<T>) { forall i, j :: 0 <= i < j < |s| ==> s[i] != s[j] }
}
