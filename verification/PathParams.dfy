/**
 Route patterns with path parameters: PathParamsMatcher (externals/httplib/httplib.h).
 */
module PathParams {
  import opened Sequences
  import opened Text

  const MARKER := ':'
  const SEPARATOR := '/'

  /** std::string::find of a character, with the length standing for npos. */
  function FindFrom(s: string, c: char, pos: nat): (k: nat)
    ensures pos <= |s| ==> pos <= k <= |s| && k == pos + IndexOf(s[pos..], c)
    ensures pos > |s| ==> k == |s|
  {
    if pos > |s| then |s| else pos + IndexOf(s[pos..], c)
  }

  datatype Matcher = Matcher(fragments: seq<string>, names: seq<string>)

  /** A pattern taken apart at its first parameter: the text before it, its name, what follows the
      separator after the name, and whether there is such a separator. */
  datatype Cut = NoParam | Param(before: string, name: string, slash: bool, rest: string)

  function CutAt(p: string): (c: Cut)
    ensures c.Param? ==> |c.rest| < |p| && (!c.slash ==> c.rest == [])
  {
    var m := IndexOf(p, MARKER);
    if m == |p| then NoParam
    else
      var q := p[m + 1..];
      var k := IndexOf(q, SEPARATOR);
      if k < |q| then Param(p[..m], q[..k], true, q[k + 1..]) else Param(p[..m], q, false, [])
  }

  /** What the constructor computes. */
  function Compile(p: string): Matcher
    decreases |p|
  {
    match CutAt(p)
    case NoParam => Matcher(if p == [] then [] else [p], [])
    case Param(before, name, _, rest) =>
      var m := Compile(rest);
      Matcher([before] + m.fragments, [name] + m.names)
  }

  /** The rest of a string from a position, None one past the end. */
  function From(s: string, pos: nat): Option<string> { if pos <= |s| then Some(s[pos..]) else None }

  function OrEmpty(o: Option<string>): string { match o case None => "" case Some(s) => s }

  lemma Later(s: string, a: nat, b: nat)
    requires a + b <= |s|
    ensures s[a..][b..] == s[a + b..]
  {}

  /** One turn of the constructor's loop: the next parameter from position from on, if there is one. */
  method NextParam(pattern: string, from: nat) returns (found: bool, before: string, name: string, next: nat)
    requires from <= |pattern| + 1
    ensures var c := CutAt(OrEmpty(From(pattern, from)));
            && found == c.Param?
            && (found ==> from < next <= |pattern| + 1 && c == Param(before, name, next <= |pattern|, OrEmpty(From(pattern, next))))
  {
    hide CutAt, IndexOf;
    var marker := FindFrom(pattern, MARKER, from);
    if marker == |pattern| {
      NoCut(OrEmpty(From(pattern, from)));
      return false, "", "", 0;
    }
    var start := marker + 1;
    var sep := FindFrom(pattern, SEPARATOR, start);
    CutAtIs(pattern, from, marker, sep);
    return true, pattern[from..marker], pattern[start..sep], sep + 1;
  }

  lemma NoCut(p: string)
    requires IndexOf(p, MARKER) == |p|
    ensures CutAt(p).NoParam?
  {}

  /** The cut in terms of positions in the whole pattern. */
  lemma CutAtIs(pattern: string, from: nat, marker: nat, sep: nat)
    requires from <= marker < sep <= |pattern|
    requires IndexOf(pattern[from..], MARKER) == marker - from
    requires IndexOf(pattern[marker + 1..], SEPARATOR) == sep - (marker + 1)
    ensures CutAt(pattern[from..])
            == Param(pattern[from..marker], pattern[marker + 1..sep], sep < |pattern|, OrEmpty(From(pattern, sep + 1)))
  {
    hide IndexOf;
    var left, q := pattern[from..], pattern[marker + 1..];
    assert left[..marker - from] == pattern[from..marker];
    Later(pattern, from, marker - from + 1);
    assert q[..sep - (marker + 1)] == pattern[marker + 1..sep];
    if sep < |pattern| { Later(pattern, marker + 1, sep - marker); } else { assert pattern[marker + 1..sep] == q; }
  }

  method Construct(pattern: string) returns (m: Matcher)
    ensures m == Compile(pattern)
  {
    hide CutAt;
    var lastParamEnd := 0;
    var fragments: seq<string>, names: seq<string> := [], [];
    assert pattern[0..] == pattern;
    while true
      invariant lastParamEnd <= |pattern| + 1
      invariant var r := Compile(OrEmpty(From(pattern, lastParamEnd)));
                Compile(pattern) == Matcher(fragments + r.fragments, names + r.names)
      decreases |pattern| + 1 - lastParamEnd
    {
      var found, before, name, next := NextParam(pattern, lastParamEnd);
      if !found { break; }
      ghost var r := Compile(OrEmpty(From(pattern, next)));
      Assoc(fragments, [before], r.fragments);
      Assoc(names, [name], r.names);
      fragments := fragments + [before];
      names := names + [name];
      lastParamEnd := next;
    }
    if lastParamEnd < |pattern| { fragments := fragments + [pattern[lastParamEnd..]]; }
    m := Matcher(fragments, names);
  }

  // ----- matching -----------------------------------------------------------------

  /** strncmp(path, fragment, |fragment|) == 0: a NUL in both ends the comparison. */
  predicate SamePrefix(path: string, fragment: string) {
    if fragment == [] then true
    else path != [] && path[0] == fragment[0] && (fragment[0] == '\0' || SamePrefix(path[1..], fragment[1..]))
  }

  lemma {:induction false} SamePrefixIsPrefix(path: string, fragment: string)
    requires '\0' !in fragment
    ensures SamePrefix(path, fragment) <==> fragment <= path
  {
    if fragment != [] && path != [] {
      SamePrefixIsPrefix(path[1..], fragment[1..]);
      assert fragment == [fragment[0]] + fragment[1..] && path == [path[0]] + path[1..];
    }
  }

  /** The values captured from the rest of a path.  None stands for the position one past the end,
      which the last parameter leaves when no separator follows it. */
  function Captures(m: Matcher, rest: Option<string>): Option<seq<string>>
    decreases |m.fragments|
  {
    if m.fragments == [] then
      if rest.None? || rest.value == [] then Some([]) else None
    else
      var f := m.fragments[0];
      if rest.None? || |f| > |rest.value| || !SamePrefix(rest.value, f) then None
      else
        var after := rest.value[|f|..];
        if m.names == [] then Captures(Matcher(m.fragments[1..], []), Some(after))
        else
          var k := IndexOf(after, SEPARATOR);
          var next := if k < |after| then Some(after[k + 1..]) else None;
          match Captures(Matcher(m.fragments[1..], m.names[1..]), next)
          case None => None
          case Some(values) => Some([after[..k]] + values)
  }

  /** The captures as a map; for a repeated name the first value stays. */
  function Params(params: map<string, string>, names: seq<string>, values: seq<string>): map<string, string>
    decreases |values|
  {
    if values == [] || names == [] then params
    else Params(if names[0] in params then params else params[names[0] := values[0]], names[1..], values[1..])
  }

  /** Compares a fragment with the path at a position. */
  method TakeFragment(path: string, pos: nat, fragment: string) returns (ok: bool, next: nat)
    requires pos <= |path| + 1
    ensures var rest := From(path, pos);
            && ok == Fits(rest, fragment)
            && (ok ==> next <= |path| && From(path, next) == Some(rest.value[|fragment|..]))
  {
    hide SamePrefix;
    if pos + |fragment| > |path| { return false, 0; }
    if !SamePrefix(path[pos..], fragment) { return false, 0; }
    next := pos + |fragment|;
    assert path[pos..][|fragment|..] == path[next..];
    ok := true;
  }

  /** Takes the value up to the next separator and skips the separator. */
  method TakeValue(path: string, pos: nat) returns (value: string, next: nat)
    requires pos <= |path|
    ensures var after := path[pos..];
            var k := IndexOf(after, SEPARATOR);
            && value == after[..k] && next <= |path| + 1
            && From(path, next) == if k < |after| then Some(after[k + 1..]) else None
  {
    var sep := FindFrom(path, SEPARATOR, pos);
    assert path[pos..sep] == path[pos..][..sep - pos];
    assert sep < |path| ==> path[pos..][sep - pos + 1..] == path[sep + 1..];
    return path[pos..sep], sep + 1;
  }

  /** The elements from index i on, none when i is past the end. */
  function Tail<T>(s: seq<T>, i: nat): (r: seq<T>) { if i < |s| then s[i..] else [] }

  lemma TailStep<T>(s: seq<T>, i: nat)
    ensures Tail(s, i) == if i < |s| then [s[i]] + Tail(s, i + 1) else []
  {
    if i < |s| { assert s[i..] == [s[i]] + s[i + 1..]; }
  }

  /** The map that results from captures taken on top of params. */
  function Filled(m: Matcher, rest: Option<string>, params: map<string, string>): Option<map<string, string>> {
    match Captures(m, rest)
    case None => None
    case Some(values) => Some(Params(params, m.names, values))
  }

  predicate Fits(rest: Option<string>, fragment: string) {
    rest.Some? && |fragment| <= |rest.value| && SamePrefix(rest.value, fragment)
  }

  lemma FilledNothing(m: Matcher, rest: Option<string>, params: map<string, string>)
    requires m.fragments != [] && !Fits(rest, m.fragments[0])
    ensures Filled(m, rest, params) == None
  {}

  /** A fixed text with no parameter behind it. */
  lemma FilledFixed(m: Matcher, rest: Option<string>, params: map<string, string>)
    requires m.fragments != [] && m.names == [] && Fits(rest, m.fragments[0])
    ensures Filled(m, rest, params) == Filled(Matcher(m.fragments[1..], []), Some(rest.value[|m.fragments[0]|..]), params)
  {}

  /** A fixed text and a parameter. */
  lemma FilledParam(m: Matcher, rest: Option<string>, params: map<string, string>, value: string, next: Option<string>)
    requires m.fragments != [] && m.names != [] && Fits(rest, m.fragments[0])
    requires var after := rest.value[|m.fragments[0]|..];
             var k := IndexOf(after, SEPARATOR);
             value == after[..k] && next == if k < |after| then Some(after[k + 1..]) else None
    ensures Filled(m, rest, params)
            == Filled(Matcher(m.fragments[1..], m.names[1..]), next,
                      if m.names[0] in params then params else params[m.names[0] := value])
  {
    hide IndexOf, SamePrefix;
    var later := Captures(Matcher(m.fragments[1..], m.names[1..]), next);
    if later.Some? { assert ([value] + later.value)[1..] == later.value; }
  }

  method Match(m: Matcher, path: string) returns (ok: bool, params: map<string, string>)
    ensures ok == Captures(m, Some(path)).Some?
    ensures ok ==> params == Params(map[], m.names, Captures(m, Some(path)).value)
  {
    hide Tail, SamePrefix, IndexOf, Filled, Captures, Params;
    params := map[];
    var pos := 0;
    ghost var left := m;
    FilledIs(m, Some(path), params);
    ghost var goal := Filled(m, Some(path), params);
    assert path[0..] == path;
    WholeFrom(m.fragments);
    WholeFrom(m.names);
    for i := 0 to |m.fragments|
      invariant 0 <= pos <= |path| + 1
      invariant left == Matcher(Tail(m.fragments, i), Tail(m.names, i))
      invariant goal == Filled(left, From(path, pos), params)
    {
      ghost var rest, later := From(path, pos), Matcher(Tail(m.fragments, i + 1), Tail(m.names, i + 1));
      TailStep(m.fragments, i);
      TailStep(m.names, i);
      TailStep(m.names, i + 1);
      assert left.fragments[1..] == later.fragments;
      assert left.names == [] ==> later.names == [];
      assert left.names != [] ==> left.names[1..] == later.names;
      var fits, next := TakeFragment(path, pos, m.fragments[i]);
      if !fits {
        FilledNothing(left, rest, params);
        return false, params;
      }
      if i < |m.names| {
        var value;
        value, pos := TakeValue(path, next);
        FilledParam(left, rest, params, value, From(path, pos));
        if m.names[i] !in params { params := params[m.names[i] := value]; }
      } else {
        FilledFixed(left, rest, params);
        pos := next;
      }
      left := later;
    }
    TailStep(m.fragments, |m.fragments|);
    FilledAtEnd(left, From(path, pos), params);
    ok := pos >= |path|;
  }

  lemma FilledAtEnd(m: Matcher, rest: Option<string>, params: map<string, string>)
    requires m.fragments == []
    ensures Filled(m, rest, params) == if rest.None? || rest.value == [] then Some(params) else None
  {}

  lemma FilledIs(m: Matcher, rest: Option<string>, params: map<string, string>)
    ensures Filled(m, rest, params).Some? == Captures(m, rest).Some?
    ensures Captures(m, rest).Some? ==> Filled(m, rest, params) == Some(Params(params, m.names, Captures(m, rest).value))
  {}

  lemma WholeFrom<T>(s: seq<T>)
    ensures Tail(s, 0) == s
  {}

  // ----- matching against instantiation ---------------------------------------------

  /** A pattern with its parameters replaced, in order, by values. */
  function Instance(p: string, values: seq<string>): string
    requires |values| == |Compile(p).names|
    decreases |p|
  {
    match CutAt(p)
    case NoParam => p
    case Param(before, _, slash, rest) =>
      before + values[0] + (if slash then "/" + Instance(rest, values[1..]) else "")
  }

  /** How a pattern ends: with fixed text, with a parameter, or with a parameter and a separator. */
  datatype Ending = Fixed | Open | Closed

  function EndingOf(p: string): Ending
    decreases |p|
  {
    match CutAt(p)
    case NoParam => Fixed
    case Param(_, _, slash, rest) => if !slash then Open else if rest == [] then Closed else EndingOf(rest)
  }

  /** The path is the instance, up to one trailing separator after a final parameter. */
  predicate IsInstance(p: string, values: seq<string>, path: string)
    requires |values| == |Compile(p).names|
  {
    || path == Instance(p, values)
    || (EndingOf(p).Open? && path == Instance(p, values) + "/")
    || (EndingOf(p).Closed? && path + "/" == Instance(p, values))
  }

  ghost predicate SlashFree(values: seq<string>) { forall i :: 0 <= i < |values| ==> SEPARATOR !in values[i] }

  /** The value taken after a fixed text, and what is left behind it. */
  function ValueOf(path: string, before: string): string
    requires before <= path
  {
    path[|before|..][..IndexOf(path[|before|..], SEPARATOR)]
  }

  function NextOf(path: string, before: string): Option<string>
    requires before <= path
  {
    var after := path[|before|..];
    var k := IndexOf(after, SEPARATOR);
    if k < |after| then Some(after[k + 1..]) else None
  }

  lemma CapturesUnfold(before: string, name: string, m: Matcher, path: string)
    requires '\0' !in before
    ensures Captures(Matcher([before] + m.fragments, [name] + m.names), Some(path)) ==
            if !(before <= path) then None
            else match Captures(m, NextOf(path, before))
                 case None => None
                 case Some(values) => Some([ValueOf(path, before)] + values)
  {
    hide SamePrefix, IndexOf;
    SamePrefixIsPrefix(path, before);
    var whole := Matcher([before] + m.fragments, [name] + m.names);
    assert Matcher(whole.fragments[1..], whole.names[1..]) == m;
  }

  /** The value is v exactly when v is free of separators and follows the fixed text up to the end of the
      path or up to a separator. */
  lemma TakesExactly(before: string, v: string, path: string)
    ensures before <= path && ValueOf(path, before) == v <==>
            SEPARATOR !in v && (path == before + v || before + v + "/" <= path)
    ensures SEPARATOR !in v && path == before + v ==> NextOf(path, before) == None
    ensures SEPARATOR !in v && before + v + "/" <= path ==> NextOf(path, before) == Some(path[|before + v + "/"|..])
  {
    if before <= path {
      TakesAfter(path[|before|..], v);
      var after := path[|before|..];
      assert path == before + after;
      assert path == before + v <==> after == v;
      PrefixBehind(before, v + "/", path);
      assert before + v + "/" == before + (v + "/");
    }
  }

  lemma PrefixBehind(a: string, b: string, path: string)
    requires a <= path
    ensures a + b <= path <==> b <= path[|a|..]
    ensures a + b <= path ==> path[|a + b|..] == path[|a|..][|b|..]
  {
    assert path == a + path[|a|..];
    if b <= path[|a|..] { assert path == a + b + path[|a|..][|b|..]; }
    if a + b <= path { assert path == a + b + path[|a + b|..]; }
  }

  lemma TakesAfter(after: string, v: string)
    ensures var k := IndexOf(after, SEPARATOR);
            && (after[..k] == v <==> SEPARATOR !in v && (after == v || v + "/" <= after))
            && (SEPARATOR !in v && after == v ==> k == |after|)
            && (SEPARATOR !in v && v + "/" <= after ==> k == |v| < |after| && after[k + 1..] == after[|v + "/"|..])
  {
    hide IndexOf;
    TakenIsValue(after);
    if SEPARATOR !in v {
      if after == v { ValueToEnd(v); }
      if v + "/" <= after { ValueToSeparator(after, v); }
    }
  }

  lemma TakenIsValue(after: string)
    ensures var v := after[..IndexOf(after, SEPARATOR)]; SEPARATOR !in v && (after == v || v + "/" <= after)
  {
    hide IndexOf;
    IndexOfMeans(after, SEPARATOR);
    var k := IndexOf(after, SEPARATOR);
    if k < |after| { assert after[..k] + "/" == after[..k + 1]; } else { assert after[..k] == after; }
  }

  lemma ValueToEnd(v: string)
    requires SEPARATOR !in v
    ensures IndexOf(v, SEPARATOR) == |v| && v[..|v|] == v
  {
    hide IndexOf;
    assert v[..|v|] == v;
    IndexOfIs(v, SEPARATOR, |v|);
  }

  lemma ValueToSeparator(after: string, v: string)
    requires SEPARATOR !in v && v + "/" <= after
    ensures IndexOf(after, SEPARATOR) == |v| < |after| && after[..|v|] == v
  {
    hide IndexOf;
    var w := v + "/";
    assert after[|v|] == w[|v|] == SEPARATOR;
    assert after[..|v|] == w[..|v|] == v;
    IndexOfIs(after, SEPARATOR, |v|);
  }

  /** A single final parameter. */
  lemma FinalParam(before: string, name: string, path: string, values: seq<string>)
    requires '\0' !in before
    ensures Captures(Matcher([before], [name]), Some(path)) == Some(values) <==>
            |values| == 1 && SlashFree(values) && (path == before + values[0] || path == before + values[0] + "/")
  {
    hide ValueOf, NextOf, SamePrefix;
    var m := Matcher([], []);
    CapturesUnfold(before, name, m, path);
    assert [before] + [] == [before] && [name] + [] == [name];
    var none: seq<string> := [];
    if before <= path { assert [ValueOf(path, before)] + none == [ValueOf(path, before)]; }
    if |values| == 1 {
      var v := values[0];
      TakesExactly(before, v, path);
      assert values == [v];
      var long := before + v + "/";
      assert path == long <==> long <= path && path[|long|..] == [];
      assert path == before + v ==> !(long <= path);
    }
  }

  lemma NoneLeft(m: Matcher)
    requires m.fragments != []
    ensures Captures(m, None) == None
  {}

  /** A parameter with more of the pattern after it. */
  lemma InnerParam(before: string, name: string, m: Matcher, path: string, values: seq<string>)
    requires '\0' !in before && m.fragments != []
    ensures Captures(Matcher([before] + m.fragments, [name] + m.names), Some(path)) == Some(values) <==>
            && values != [] && SEPARATOR !in values[0] && before + values[0] + "/" <= path
            && Captures(m, Some(path[|before + values[0] + "/"|..])) == Some(values[1..])
  {
    hide ValueOf, NextOf, SamePrefix, Captures;
    CapturesUnfold(before, name, m, path);
    NoneLeft(m);
    if values != [] {
      TakesExactly(before, values[0], path);
      assert values == [values[0]] + values[1..];
    }
  }

  lemma {:induction false} MoreToCompile(p: string)
    requires p != []
    ensures Compile(p).fragments != []
  {}

  /** Patterns after a parameter: equal prefixes can be dropped. */
  lemma DropPrefix(prefix: string, path: string, text: string)
    ensures path == prefix + text <==> prefix <= path && path[|prefix|..] == text
    ensures path + "/" == prefix + text && text != [] <==> prefix <= path && path[|prefix|..] + "/" == text
  {
    if prefix <= path { assert path == prefix + path[|prefix|..]; }
    if path + "/" == prefix + text && text != [] {
      assert prefix == (prefix + text)[..|prefix|] == (path + "/")[..|prefix|] == path[..|prefix|];
      assert text == (path + "/")[|prefix|..] == path[|prefix|..] + "/";
    }
    if prefix <= path && path[|prefix|..] + "/" == text {
      assert path + "/" == prefix + (path[|prefix|..] + "/");
    }
  }

  /** A pattern without NUL matches a path and captures values exactly when the values are free of
      separators and the path is the pattern's instance with them, up to one trailing separator where
      the pattern ends with a parameter. */
  lemma {:induction false} MatchesExactlyInstances(p: string, path: string, values: seq<string>)
    requires '\0' !in p
    ensures Captures(Compile(p), Some(path)) == Some(values) <==>
            |values| == |Compile(p).names| && SlashFree(values) && IsInstance(p, values, path)
    decreases |p|
  {
    hide CutAt, Captures, IndexOf, IsInstance;
    match CutAt(p)
    case NoParam => FixedPattern(p, path, values);
    case Param(before, name, slash, rest) =>
      CutIsPart(p);
      if rest == [] {
        FinalParam(before, name, path, values);
        FinalInstance(p, before, name, slash, path, values);
      } else {
        MoreToCompile(rest);
        InnerParam(before, name, Compile(rest), path, values);
        if values != [] {
          var prefix := before + values[0] + "/";
          if prefix <= path { MatchesExactlyInstances(rest, path[|prefix|..], values[1..]); }
          InnerInstance(p, before, name, rest, path, values);
        }
      }
  }

  lemma CutIsPart(p: string)
    requires CutAt(p).Param?
    ensures forall c :: c in CutAt(p).before || c in CutAt(p).rest ==> c in p
  {}

  lemma FixedPattern(p: string, path: string, values: seq<string>)
    requires '\0' !in p && CutAt(p).NoParam?
    ensures Captures(Compile(p), Some(path)) == Some(values) <==>
            |values| == |Compile(p).names| && SlashFree(values) && IsInstance(p, values, path)
  {
    SamePrefixIsPrefix(path, p);
    if p != [] {
      assert Compile(p) == Matcher([p], []);
      if p <= path { assert path == p + path[|p|..]; }
    }
  }

  lemma FinalInstance(p: string, before: string, name: string, slash: bool, path: string, values: seq<string>)
    requires CutAt(p) == Param(before, name, slash, [])
    ensures Compile(p) == Matcher([before], [name])
    ensures |values| == 1 ==>
              (IsInstance(p, values, path) <==> path == before + values[0] || path == before + values[0] + "/")
  {
    assert Compile([]) == Matcher([], []);
    assert [before] + [] == [before] && [name] + [] == [name];
    if |values| == 1 {
      assert values[1..] == [];
      var short := before + values[0];
      if slash {
        assert Instance(p, values) == short + ("/" + Instance([], [])) == short + "/";
        assert path + "/" == short + "/" <==> path == short by {
          if path + "/" == short + "/" { assert (path + "/")[..|path|] == (short + "/")[..|short|]; }
        }
      } else {
        assert Instance(p, values) == short + "" == short;
      }
    }
  }

  lemma InnerInstanceIs(p: string, before: string, name: string, rest: string, values: seq<string>)
    requires CutAt(p) == Param(before, name, true, rest) && rest != [] && values != []
    ensures Compile(p) == Matcher([before] + Compile(rest).fragments, [name] + Compile(rest).names)
    ensures EndingOf(p) == EndingOf(rest)
    ensures |values| == |Compile(p).names| ==>
              |values[1..]| == |Compile(rest).names|
              && Instance(p, values) == before + values[0] + "/" + Instance(rest, values[1..])
  {
    hide CutAt;
    if |values| == |Compile(p).names| { Assoc(before + values[0], "/", Instance(rest, values[1..])); }
  }

  lemma InnerInstance(p: string, before: string, name: string, rest: string, path: string, values: seq<string>)
    requires CutAt(p) == Param(before, name, true, rest) && rest != [] && values != []
    ensures Compile(p) == Matcher([before] + Compile(rest).fragments, [name] + Compile(rest).names)
    ensures |values| == |Compile(p).names| ==>
              var prefix := before + values[0] + "/";
              (IsInstance(p, values, path) <==> prefix <= path && IsInstance(rest, values[1..], path[|prefix|..]))
  {
    hide Instance, EndingOf, CutAt, Compile;
    InnerInstanceIs(p, before, name, rest, values);
    if |values| == |Compile(p).names| {
      var prefix, text := before + values[0] + "/", Instance(rest, values[1..]);
      if EndingOf(rest).Closed? { ClosedIsLong(rest, values[1..]); }
      DropPrefix(prefix, path, text);
      DropPrefix(prefix, path, text + "/");
      Assoc(prefix, text, "/");
    }
  }

  lemma {:induction false} ClosedIsLong(p: string, values: seq<string>)
    requires EndingOf(p).Closed? && |values| == |Compile(p).names|
    ensures Instance(p, values) != []
  {}

  // ----- the captures as a map ---------------------------------------------------

  /** Position of the first occurrence of a name. */
  function FirstOf(names: seq<string>, name: string): (k: nat)
    requires name in names
    ensures k < |names| && names[k] == name && forall j :: 0 <= j < k ==> names[j] != name
  {
    if names[0] == name then 0 else 1 + FirstOf(names[1..], name)
  }

  /** The map holds the names and what was there before; a name has its old value, or else the value of its
      first occurrence. */
  lemma {:induction false} ParamsAreFirst(params: map<string, string>, names: seq<string>, values: seq<string>)
    requires |names| == |values|
    ensures var r := Params(params, names, values);
            && (forall n :: n in r <==> n in params || n in names)
            && (forall n :: n in r ==> r[n] == if n in params then params[n] else values[FirstOf(names, n)])
    decreases |names|
  {
    if names != [] {
      var p1 := if names[0] in params then params else params[names[0] := values[0]];
      ParamsAreFirst(p1, names[1..], values[1..]);
    }
  }

  /** A repeated name keeps its first value. */
  lemma FirstValueStays(names: seq<string>, values: seq<string>, i: nat)
    requires |names| == |values| && i < |names|
    ensures var r := Params(map[], names, values);
            names[i] in r && r[names[i]] == values[FirstOf(names, names[i])]
  {
    ParamsAreFirst(map[], names, values);
  }

  /** Every name maps to its own capture exactly when equal names have equal captures; distinct names do. */
  lemma ParamsAreCaptures(names: seq<string>, values: seq<string>)
    requires |names| == |values|
    ensures var r := Params(map[], names, values);
            (forall i :: 0 <= i < |names| ==> names[i] in r && r[names[i]] == values[i])
            <==> (forall i, j :: 0 <= i < j < |names| && names[i] == names[j] ==> values[i] == values[j])
  {
    hide Params, FirstOf;
    var r := Params(map[], names, values);
    if forall i, j :: 0 <= i < j < |names| && names[i] == names[j] ==> values[i] == values[j] {
      forall i | 0 <= i < |names| ensures names[i] in r && r[names[i]] == values[i] {
        FirstValueStays(names, values, i);
        FirstIsFirst(names, i);
      }
    }
  }

  lemma FirstIsFirst(names: seq<string>, i: nat)
    requires i < |names|
    ensures FirstOf(names, names[i]) <= i && names[FirstOf(names, names[i])] == names[i]
  {}

  lemma CutInner(before: string, name: string, rest: string)
    requires MARKER !in before && SEPARATOR !in name
    ensures CutAt(before + ":" + (name + "/" + rest)) == Param(before, name, true, rest)
  {
    var p, q := before + ":" + (name + "/" + rest), name + "/" + rest;
    assert p[..|before|] == before && p[|before| + 1..] == q;
    IndexOfIs(p, MARKER, |before|);
    assert q[..|name|] == name && q[|name| + 1..] == rest;
    IndexOfIs(q, SEPARATOR, |name|);
  }

  lemma CutFinal(before: string, name: string)
    requires MARKER !in before && SEPARATOR !in name
    ensures CutAt(before + ":" + name) == Param(before, name, false, [])
  {
    var p := before + ":" + name;
    assert p[..|before|] == before && p[|before| + 1..] == name && name[..|name|] == name;
    IndexOfIs(p, MARKER, |before|);
    IndexOfIs(name, SEPARATOR, |name|);
  }

  /** A pattern /:name/:name, such as "/:a/:a", is accepted, and of the two values of a path that matches it the
      first is kept. */
  lemma RepeatedName(name: string, v: string, w: string)
    requires SEPARATOR !in name && SEPARATOR !in v && SEPARATOR !in w && '\0' !in name
    ensures var p := "/" + ":" + (name + "/" + ([] + ":" + name));
            && Compile(p) == Matcher(["/", ""], [name, name])
            && Captures(Compile(p), Some("/" + v + ("/" + w))) == Some([v, w])
            && Params(map[], Compile(p).names, [v, w]) == map[name := v]
  {
    hide CutAt, Captures, IndexOf;
    var rest := [] + ":" + name;
    var p := "/" + ":" + (name + "/" + rest);
    CutInner("/", name, rest);
    CutFinal([], name);
    assert CutAt([]).NoParam? by { NoCut([]); }
    assert Compile([]) == Matcher([], []);
    assert Compile(rest) == Matcher([[]], [name]);
    assert Compile(p) == Matcher(["/"] + [[]], [name] + [name]);
    var values := [v, w];
    assert values[1..] == [w] && [w][0] == w;
    assert Instance(rest, [w]) == [] + w + "" == w;
    assert Instance(p, values) == "/" + v + ("/" + w);
    MatchesExactlyInstances(p, "/" + v + ("/" + w), values);
    var names := [name, name];
    assert names[1..] == [name] && [name][1..] == [] && [w][1..] == [];
    assert Params(map[name := v], [name], [w]) == map[name := v];
  }
}
