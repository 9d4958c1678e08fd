/**
 Forms as clients other than the library's own write them: header names in any letter case, gaps of
 any length, parameters in any order, quoted or not, file names in the UTF-8 form of RFC 5987, and
 header lines the server has no use for.  What the parser makes of each line is stated by what the
 line says.
 */
module MultipartForeign {
  import opened Sequences
  import opened Text
  import opened Urls
  import opened Headers
  import opened Multipart
  import opened MultipartParts

  // ----- parameters ------------------------------------------------------------------

  /** A text as it is, or a byte string behind UTF-8'' and percent-encoded. */
  datatype Value = Plain(v: string) | Extended(mark: string, v: string)

  datatype RawParam = RawParam(key: string, value: Value, quoted: bool)

  ghost predicate GoodParam(p: RawParam) {
    && p.key != [] && Trimmed(p.key) && p.key[0] != '"'
    && '=' !in p.key && ';' !in p.key && CR !in p.key && LF !in p.key
    && match p.value
       case Plain(v) =>
         && '=' !in v && ';' !in v && CR !in v && LF !in v
         && (!p.quoted ==> v != [] && Trimmed(v) && v[0] != '"')
         && (p.key == "filename*" ==> !StartsIgnoringCase(v, UTF8_MARK))
       case Extended(mark, v) => IsBytes(v) && EqualIgnoringCase(mark, UTF8_MARK)
  }

  ghost function ValueText(p: RawParam): string
    requires GoodParam(p)
  {
    match p.value
    case Plain(v) => v
    case Extended(mark, v) => mark + Encode(v)
  }

  ghost function ParamLine(p: RawParam): string
    requires GoodParam(p)
  {
    p.key + "=" + if p.quoted then "\"" + ValueText(p) + "\"" else ValueText(p)
  }

  ghost predicate GoodParams(ps: seq<RawParam>) { forall i :: 0 <= i < |ps| ==> GoodParam(ps[i]) }

  ghost function JoinParams(ps: seq<RawParam>): string
    requires GoodParams(ps)
  {
    if ps == [] then [] else if |ps| == 1 then ParamLine(ps[0]) else ParamLine(ps[0]) + (";" + (" " + JoinParams(ps[1..])))
  }

  /** The first parameter with the key. */
  function First(ps: seq<RawParam>, key: string): (k: nat)
    ensures k <= |ps| && (k < |ps| ==> ps[k].key == key)
    ensures forall j :: 0 <= j < k ==> ps[j].key != key
  {
    if ps == [] || ps[0].key == key then 0 else 1 + First(ps[1..], key)
  }

  lemma ValueIsClean(p: RawParam)
    requires GoodParam(p)
    ensures var v := ValueText(p);
            && '=' !in v && ';' !in v && CR !in v && LF !in v
            && (!p.quoted ==> v != [] && Trimmed(v) && v[0] != '"')
  {
    hide Encode;
    if p.value.Extended? {
      var mark, e := p.value.mark, Encode(p.value.v);
      EncodedAlphabet(p.value.v);
      MarkIsClean(mark);
      var v := mark + e;
      assert v[0] == mark[0];
      assert v[|v| - 1] == if e == [] then mark[|mark| - 1] else e[|e| - 1];
      assert e != [] ==> e[|e| - 1] in e;
    }
  }

  /** Letter case leaves characters that are no letters as they are. */
  lemma SameButForCase(a: string, b: string, c: char)
    requires EqualIgnoringCase(a, b) && Lower(c) == c && !('a' <= c <= 'z') && c !in b
    ensures c !in a
  {
    forall i | 0 <= i < |a| ensures a[i] != c { assert Lower(a[i]) == Lower(b[i]) && b[i] in b; }
  }

  lemma MarkIsClean(mark: string)
    requires EqualIgnoringCase(mark, UTF8_MARK)
    ensures |mark| == 7 && '=' !in mark && ';' !in mark && CR !in mark && LF !in mark
    ensures !IsBlank(mark[0]) && mark[0] != '"' && !IsBlank(mark[6])
  {
    SameButForCase(mark, UTF8_MARK, '=');
    SameButForCase(mark, UTF8_MARK, ';');
    SameButForCase(mark, UTF8_MARK, CR);
    SameButForCase(mark, UTF8_MARK, LF);
    assert Lower(mark[0]) == 'u' && Lower(mark[6]) == '\'';
  }

  /** One parameter is read as its key and its value. */
  lemma ParamReads(p: RawParam)
    requires GoodParam(p)
    ensures var t := ParamLine(p); ';' !in t && CR !in t && LF !in t && Keep(t) == [t] && Keep(" " + t) == [t]
    ensures ParamLine(p) != [] && ParamLine(p)[0] == p.key[0]
    ensures forall ps :: AddParam(ps, ParamLine(p)) == ps + [(p.key, ValueText(p))]
  {
    hide ValueText, GoodParam;
    ParamHasKey(p);
    ValueIsClean(p);
    var t, v := ParamLine(p), ValueText(p);
    var q := if p.quoted then "\"" + v + "\"" else v;
    assert p.quoted ==> q[0] == '"' && q[|q| - 1] == '"' && q[1..|q| - 1] == v;
    KeyValueOf(p.key, q);
    assert t[0] == p.key[0] && t[|t| - 1] == q[|q| - 1];
    TrimKeeps(t);
    assert (" " + t)[1..] == t;
    TrimLeftSkips(" " + t, 1);
    TrimLeftSkips(t, 0);
  }

  lemma ParamHasKey(p: RawParam)
    requires GoodParam(p)
    ensures p.key != [] && Trimmed(p.key) && p.key[0] != '"' && '=' !in p.key && ';' !in p.key && CR !in p.key && LF !in p.key
  {}

  ghost function ParamLines(ps: seq<RawParam>): seq<string>
    requires GoodParams(ps)
  {
    if ps == [] then [] else [ParamLine(ps[0])] + ParamLines(ps[1..])
  }

  lemma {:induction false} ParamsSplit(ps: seq<RawParam>, lead: string)
    requires GoodParams(ps) && (lead == "" || lead == " ")
    ensures Pieces([], lead + JoinParams(ps), ';') == ParamLines(ps)
    ensures CR !in JoinParams(ps) && LF !in JoinParams(ps)
    ensures ps == [] ==> JoinParams(ps) == []
    ensures ps != [] ==> JoinParams(ps) != [] && JoinParams(ps)[0] == ps[0].key[0]
    decreases |ps|
  {
    hide ParamLine, Trim, GoodParam;
    if ps == [] {
      assert lead + [] == lead;
      PiecesWhole([], lead, ';');
      assert [] + lead == lead;
      TrimBlank(lead);
    } else {
      ParamReads(ps[0]);
      var t := ParamLine(ps[0]);
      LeadKept(lead, t);
      if |ps| == 1 {
        PiecesWhole([], lead + t, ';');
        assert ParamLines(ps[1..]) == [];
      } else {
        var later := " " + JoinParams(ps[1..]);
        ParamsSplit(ps[1..], " ");
        assert lead + (t + (";" + later)) == (lead + t) + [';'] + later;
        PiecesCut([], lead + t, later, ';');
      }
    }
  }

  lemma LeadKept(lead: string, t: string)
    requires (lead == "" || lead == " ") && ';' !in t && Keep(t) == [t] && Keep(" " + t) == [t]
    ensures [] + (lead + t) == lead + t && ';' !in lead + t && Keep(lead + t) == [t]
  {
    assert lead == "" ==> lead + t == t;
  }

  lemma LookupAppend(ps: seq<Param>, x: Param, key: string)
    ensures Lookup(ps + [x], key)
            == if Lookup(ps, key).Some? then Lookup(ps, key) else if x.0 == key then Some(x.1) else None
  {
    if ps != [] {
      assert (ps + [x])[1..] == ps[1..] + [x];
      LookupAppend(ps[1..], x, key);
    }
  }

  /** Equal texts have equal keys. */
  lemma SameLineSameKey(p: RawParam, q: RawParam)
    requires GoodParam(p) && GoodParam(q) && ParamLine(p) == ParamLine(q)
    ensures p.key == q.key
  {
    hide GoodParam, ParamLine, ValueText;
    ParamReads(p);
    ParamReads(q);
    assert AddParam([], ParamLine(p)) == [] + [(p.key, ValueText(p))] == [] + [(q.key, ValueText(q))];
    assert ([] + [(p.key, ValueText(p))])[0] == ([] + [(q.key, ValueText(q))])[0];
  }

  ghost predicate SeenHaveKeys(acc: seq<Param>, seen: set<string>, ps: seq<RawParam>)
    requires GoodParams(ps)
  {
    forall i :: 0 <= i < |ps| && ParamLine(ps[i]) in seen ==> Lookup(acc, ps[i].key).Some?
  }

  ghost function FirstText(ps: seq<RawParam>, key: string): Option<string>
    requires GoodParams(ps)
  {
    var k := First(ps, key);
    if k < |ps| then Some(ValueText(ps[k])) else None
  }

  lemma FirstTextNext(ps: seq<RawParam>, key: string)
    requires GoodParams(ps) && ps != []
    ensures FirstText(ps, key) == if ps[0].key == key then Some(ValueText(ps[0])) else FirstText(ps[1..], key)
  {
    hide ValueText;
  }

  lemma SeenKeepKeys(acc: seq<Param>, seen: set<string>, ps: seq<RawParam>, acc': seq<Param>, seen': set<string>)
    requires GoodParams(ps) && ps != [] && SeenHaveKeys(acc, seen, ps)
    requires if ParamLine(ps[0]) in seen then acc' == acc && seen' == seen
             else acc' == acc + [(ps[0].key, ValueText(ps[0]))] && seen' == seen + {ParamLine(ps[0])}
    ensures SeenHaveKeys(acc', seen', ps[1..])
  {
    hide ParamLine, ValueText, GoodParam;
    var later := ps[1..];
    forall i | 0 <= i < |later| && ParamLine(later[i]) in seen' ensures Lookup(acc', later[i].key).Some? {
      assert later[i] == ps[i + 1];
      if ParamLine(ps[0]) !in seen {
        LookupAppend(acc, (ps[0].key, ValueText(ps[0])), later[i].key);
        if ParamLine(later[i]) == ParamLine(ps[0]) { SameLineSameKey(later[i], ps[0]); }
      }
    }
  }

  /** Looking a key up among the parameters read finds the first value given for it. */
  lemma {:induction false} ParamsRead(acc: seq<Param>, seen: set<string>, ps: seq<RawParam>, key: string)
    requires GoodParams(ps) && SeenHaveKeys(acc, seen, ps)
    ensures Lookup(AddParams(acc, seen, ParamLines(ps)), key)
            == if Lookup(acc, key).Some? then Lookup(acc, key) else FirstText(ps, key)
    decreases |ps|
  {
    hide ParamLine, ValueText, GoodParam, SeenHaveKeys, AddParam, FirstText;
    if ps == [] {
      assert FirstText(ps, key) == None by { NoFirstText(key); }
    } else {
      var t, x := ParamLine(ps[0]), (ps[0].key, ValueText(ps[0]));
      ParamReads(ps[0]);
      assert ParamLines(ps)[0] == t && ParamLines(ps)[1..] == ParamLines(ps[1..]);
      FirstTextNext(ps, key);
      LookupAppend(acc, x, key);
      if t in seen {
        SeenKeepKeys(acc, seen, ps, acc, seen);
        SeenFirst(acc, seen, ps);
        ParamsRead(acc, seen, ps[1..], key);
      } else {
        SeenKeepKeys(acc, seen, ps, acc + [x], seen + {t});
        ParamsRead(acc + [x], seen + {t}, ps[1..], key);
      }
    }
  }

  lemma NoFirstText(key: string)
    ensures FirstText([], key) == None
  {}

  lemma SeenFirst(acc: seq<Param>, seen: set<string>, ps: seq<RawParam>)
    requires GoodParams(ps) && ps != [] && SeenHaveKeys(acc, seen, ps) && ParamLine(ps[0]) in seen
    ensures Lookup(acc, ps[0].key).Some?
  {}

  // ----- header lines ----------------------------------------------------------------

  /** The lines a part may have.  The last three are no header fields. */
  datatype Field =
    | Disposition(head: string, gap: string, kind: string, gap2: string, params: seq<RawParam>)
    | ContentType(head: string, gap: string, value: string)
    | Other(key: string, value: string)
    | Colonless(text: string)
    | Valueless(key: string, gap: string)
    | Keyless(value: string)

  ghost predicate GoodField(f: Field) {
    match f
    case Disposition(head, gap, kind, gap2, params) =>
      && EqualIgnoringCase(head, DISPOSITION) && EqualIgnoringCase(kind, FORM_DATA)
      && AllBlank(gap) && AllBlank(gap2) && GoodParams(params) && (params != [] ==> !IsSpace(params[0].key[0]))
    case ContentType(head, gap, value) =>
      EqualIgnoringCase(head, CONTENT_TYPE) && AllBlank(gap) && value != [] && Trimmed(value)
    case Other(key, value) =>
      && key != [] && ':' !in key && value != [] && Trimmed(value) && !IsSpace(value[0])
      && !EqualIgnoringCase(key, "Content-Type")
      && (EqualIgnoringCase(key, "Content-Disposition") ==> !StartsIgnoringCase(value, FORM_DATA))
    case Colonless(text) => ':' !in text
    case Valueless(key, gap) => ':' !in key && AllBlank(gap)
    case Keyless(value) => true
  }

  ghost function LineOf(f: Field): string
    requires GoodField(f)
  {
    match f
    case Disposition(head, gap, kind, gap2, params) => head + (gap + (kind + (gap2 + JoinParams(params))))
    case ContentType(head, gap, value) => head + (gap + value)
    case Other(key, value) => key + (": " + value)
    case Colonless(text) => text
    case Valueless(key, gap) => key + (":" + gap)
    case Keyless(value) => ":" + value
  }

  /** What a line does to the header, or None when the form is refused for it. */
  ghost function Effect(h: FormHeader, f: Field): Option<FormHeader>
    requires GoodField(f)
  {
    match f
    case ContentType(_, _, value) => Some(h.(contentType := value))
    case Other(_, _) => Some(h)
    case Disposition(_, _, _, _, params) =>
      var n, file, ext := First(params, "name"), First(params, "filename"), First(params, "filename*");
      if n == |params| then None
      else
        var named := h.(name := ValueText(params[n]));
        if ext < |params| then
          match params[ext].value
          case Plain(_) => None
          case Extended(_, v) => if v == [] then None else Some(named.(filename := v))
        else if file < |params| then Some(named.(filename := ValueText(params[file])))
        else Some(named)
    case _ => None
  }

  lemma SkipGap(gap: string, s: string)
    requires AllBlank(gap) && (s == [] || !IsSpace(s[0]))
    ensures SkipSpace(gap + s) == s
  {
    if gap == [] {
      assert gap + s == s;
    } else {
      assert (gap + s)[1..] == gap[1..] + s;
      SkipGap(gap[1..], s);
    }
  }

  /** A line with a name, a colon and something behind it is a header field. */
  lemma FieldIsThere(line: string, k: nat, i: nat)
    requires 0 < k < i < |line| && ':' !in line[..k] && line[k] == ':' && !IsBlank(line[i])
    ensures HeaderField(line).Some?
  {
    hide HeaderField, Decode, EqualIgnoringCase;
    var end := LastNonBlank(line, i);
    var p := NextNonBlank(line, k + 1, i);
    FieldAt(line, end, k, p);
  }

  lemma LastNonBlank(line: string, i: nat) returns (end: nat)
    requires i < |line| && !IsBlank(line[i])
    ensures i < end <= |line| && AllBlank(line[end..]) && !IsBlank(line[end - 1])
  {
    end := |line|;
    while IsBlank(line[end - 1])
      invariant i < end <= |line| && AllBlank(line[end..])
      decreases end
    {
      end := end - 1;
    }
  }

  lemma NextNonBlank(line: string, from: nat, i: nat) returns (p: nat)
    requires from <= i < |line| && !IsBlank(line[i])
    ensures from <= p <= i && AllBlank(line[from..p]) && !IsBlank(line[p])
  {
    p := from;
    while IsBlank(line[p])
      invariant from <= p <= i && AllBlank(line[from..p])
      decreases i - p
    {
      assert line[from..p + 1] == line[from..p] + [line[p]];
      p := p + 1;
    }
  }

  lemma HeadIs(head: string, known: string, rest: string)
    requires EqualIgnoringCase(head, known)
    ensures StartsIgnoringCase(head + rest, known) && (head + rest)[|known|..] == rest
  {}

  /** The colon of a known name is where it belongs. */
  lemma ColonOf(head: string, known: string, rest: string)
    requires EqualIgnoringCase(head, known) && |known| > 0 && known[|known| - 1] == ':' && ':' !in known[..|known| - 1]
    ensures var k := |known| - 1; (head + rest)[k] == ':' && ':' !in (head + rest)[..k]
  {
    var k := |known| - 1;
    assert Lower(head[k]) == Lower(known[k]);
    assert EqualIgnoringCase(head[..k], known[..k]);
    SameButForCase(head[..k], known[..k], ':');
    assert (head + rest)[..k] == head[..k];
  }

  lemma KnownNames()
    ensures |DISPOSITION| == 20 && DISPOSITION[19] == ':' && DISPOSITION[..19] == "Content-Disposition" && ':' !in DISPOSITION[..19]
    ensures |CONTENT_TYPE| == 13 && CONTENT_TYPE[12] == ':' && CONTENT_TYPE[..12] == "Content-Type" && ':' !in CONTENT_TYPE[..12]
  {}

  /** The parameters of a disposition line are found behind it. */
  lemma DispositionIs(head: string, gap: string, kind: string, gap2: string, t: string)
    requires EqualIgnoringCase(head, DISPOSITION) && EqualIgnoringCase(kind, FORM_DATA) && AllBlank(gap) && AllBlank(gap2)
    requires CR !in t && LF !in t && (t == [] || !IsSpace(t[0]))
    ensures var line := head + (gap + (kind + (gap2 + t)));
            && HeaderField(line).Some? && !StartsIgnoringCase(line, CONTENT_TYPE) && DispositionRest(line) == Some(t)
  {
    hide HeaderField;
    var tail := kind + (gap2 + t);
    var line := head + (gap + tail);
    KnownNames();
    ColonOf(head, DISPOSITION, gap + tail);
    assert Lower(kind[0]) == 'f';
    var i := |head| + |gap|;
    assert line[i] == tail[0] == kind[0];
    FieldIsThere(line, 19, i);
    assert line[8] == head[8] && Lower(head[8]) == 'd';
    HeadIs(head, DISPOSITION, gap + tail);
    SkipGap(gap, tail);
    HeadIs(kind, FORM_DATA, gap2 + t);
    SkipGap(gap2, t);
  }

  lemma NothingSeen(ps: seq<RawParam>)
    requires GoodParams(ps)
    ensures SeenHaveKeys([], {}, ps)
  {}

  lemma ParamsMean(params: seq<RawParam>, key: string)
    requires GoodParams(params)
    ensures Lookup(DispositionParams(JoinParams(params)), key) == FirstText(params, key)
  {
    hide AddParams, ParamLines, GoodParams, FirstText, SeenHaveKeys, JoinParams, Pieces;
    ParamsSplit(params, "");
    assert "" + JoinParams(params) == JoinParams(params);
    NothingSeen(params);
    ParamsRead([], {}, params, key);
  }

  /** The file name in its UTF-8 form. */
  lemma ExtendedReads(p: RawParam)
    requires GoodParam(p) && p.value.Extended?
    ensures var t, v := ValueText(p), p.value.v;
            StartsIgnoringCase(t, UTF8_MARK) && (|t| > |UTF8_MARK| <==> v != []) && Decode(t[|UTF8_MARK|..], false) == v
  {
    hide Encode, Decode;
    var x := p.value;
    HeadIs(x.mark, UTF8_MARK, Encode(x.v));
    EncodedAlphabet(x.v);
    DecodeInvertsEncode(x.v, false);
  }

  lemma DispositionReads(h: FormHeader, f: Field)
    requires GoodField(f) && f.Disposition?
    ensures var (r, ok) := DispositionFile(h, DispositionParams(JoinParams(f.params)));
            if Effect(h, f).Some? then ok && r == Effect(h, f).value else !ok
  {
    hide DispositionParams, JoinParams, ValueText, Decode, StartsIgnoringCase;
    var params := f.params;
    ParamsMean(params, "name");
    ParamsMean(params, "filename");
    ParamsMean(params, "filename*");
    var ext := First(params, "filename*");
    if ext < |params| {
      assert GoodParam(params[ext]);
      PlainOrExtended(params[ext]);
      if params[ext].value.Extended? { ExtendedReads(params[ext]); }
    }
  }

  lemma PlainOrExtended(p: RawParam)
    requires GoodParam(p) && p.key == "filename*"
    ensures p.value.Plain? ==> !StartsIgnoringCase(ValueText(p), UTF8_MARK)
  {}

  lemma TypeReads(h: FormHeader, head: string, gap: string, value: string)
    requires EqualIgnoringCase(head, CONTENT_TYPE) && AllBlank(gap) && value != [] && Trimmed(value)
    ensures HeaderLine(h, head + (gap + value)) == (h.(contentType := value), true)
  {
    hide HeaderField, DispositionRest, DispositionFile;
    var line := head + (gap + value);
    KnownNames();
    ColonOf(head, CONTENT_TYPE, gap + value);
    assert line[|head| + |gap|] == value[0];
    FieldIsThere(line, 12, |head| + |gap|);
    HeadIs(head, CONTENT_TYPE, gap + value);
    var v := gap + value;
    assert v[..|gap|] == gap && v[|gap|..] == value && v[|v|..] == [] && v[|v| - 1] == value[|value| - 1];
    TrimIs(v, |gap|, |v|);
    assert v[|gap|..|v|] == value && line[|CONTENT_TYPE|..] == v;
  }

  /** A line that begins like a known one has that name. */
  lemma NameOf(key: string, rest: string, known: string)
    requires ':' !in key && |known| > 0 && known[|known| - 1] == ':' && ':' !in known[..|known| - 1]
    requires StartsIgnoringCase(key + (":" + rest), known)
    ensures EqualIgnoringCase(key, known[..|known| - 1])
  {
    var line, k := key + (":" + rest), |known| - 1;
    forall i | 0 <= i < k ensures line[i] != ':' {
      assert Lower(line[i]) == Lower(known[i]) && known[i] in known[..k];
    }
    assert Lower(line[k]) == Lower(known[k]) && line[|key|] == ':';
    forall i | 0 <= i < |key| ensures line[i] != ':' { assert line[i] == key[i] && key[i] in key; }
    assert |key| == k;
    forall i | 0 <= i < k ensures Lower(key[i]) == Lower(known[..k][i]) { assert line[i] == key[i]; }
  }

  lemma OtherReads(h: FormHeader, key: string, value: string)
    requires GoodField(Other(key, value))
    ensures HeaderLine(h, key + (": " + value)) == (h, true)
  {
    hide HeaderField, DispositionFile, EqualIgnoringCase;
    var line := key + (": " + value);
    assert line == key + (":" + (" " + value));
    assert line[..|key|] == key && line[|key|] == ':' && line[|key| + 2] == value[0];
    FieldIsThere(line, |key|, |key| + 2);
    KnownNames();
    if StartsIgnoringCase(line, CONTENT_TYPE) { NameOf(key, " " + value, CONTENT_TYPE); }
    if StartsIgnoringCase(line, DISPOSITION) { OtherDisposition(key, value); }
  }

  lemma OtherDisposition(key: string, value: string)
    requires GoodField(Other(key, value)) && StartsIgnoringCase(key + (": " + value), DISPOSITION)
    ensures DispositionRest(key + (": " + value)) == None
  {
    var line := key + (": " + value);
    KnownNames();
    assert line == key + (":" + (" " + value));
    NameOf(key, " " + value, DISPOSITION);
    assert line[|DISPOSITION|..] == " " + value;
    SkipGap(" ", value);
  }

  lemma NoFieldReads(f: Field)
    requires GoodField(f) && (f.Colonless? || f.Valueless? || f.Keyless?)
    ensures HeaderField(LineOf(f)) == None
  {
    hide Decode, EqualIgnoringCase;
    var line := LineOf(f);
    var t := TrimRight(line);
    TrimRightParts(line);
    match f
    case Colonless(text) =>
      assert t[..|t|] == t && ':' !in t;
      IndexOfIs(t, ':', |t|);
    case Valueless(key, gap) =>
      var c := key + ":";
      assert line[..|c|] == c && line[|c|..] == gap;
      TrimRightSkips(line, |c|);
      assert c[..|key|] == key;
      IndexOfIs(c, ':', |key|);
      assert c[|key| + 1..] == [];
    case Keyless(value) =>
      if t != [] {
        assert t[0] == ':';
        IndexOfIs(t, ':', 0);
      }
  }

  /** Every such line does what it says. */
  lemma LineReads(h: FormHeader, f: Field)
    requires GoodField(f)
    ensures var (r, ok) := HeaderLine(h, LineOf(f));
            if Effect(h, f).Some? then ok && r == Effect(h, f).value else !ok
  {
    hide DispositionFile, DispositionParams, HeaderField, EqualIgnoringCase, DispositionRest, GoodParams, JoinParams;
    match f
    case Disposition(head, gap, kind, gap2, params) =>
      ParamsSplit(params, "");
      DispositionIs(head, gap, kind, gap2, JoinParams(params));
      DispositionReads(h, f);
    case ContentType(head, gap, value) => TypeReads(h, head, gap, value);
    case Other(key, value) => OtherReads(h, key, value);
    case Colonless(text) => NoFieldReads(f);
    case Valueless(key, gap) => NoFieldReads(f);
    case Keyless(value) => NoFieldReads(f);
  }

  // ----- whole forms -----------------------------------------------------------------

  datatype ForeignItem = ForeignItem(fields: seq<Field>, content: string)

  ghost predicate GoodFields(fs: seq<Field>) { forall i :: 0 <= i < |fs| ==> GoodField(fs[i]) }

  /** What all lines do to an empty header. */
  ghost function Meant(fs: seq<Field>): Option<FormHeader>
    requires GoodFields(fs)
  {
    if fs == [] then Some(FormHeader("", "", ""))
    else
      match Meant(fs[..|fs| - 1])
      case None => None
      case Some(h) => Effect(h, fs[|fs| - 1])
  }

  ghost function WithoutOthers(fs: seq<Field>): seq<Field> {
    if fs == [] then []
    else
      var last := fs[|fs| - 1];
      WithoutOthers(fs[..|fs| - 1]) + if last.Other? then [] else [last]
  }

  /** Lines the server has no use for change nothing, wherever they stand and however many there are. */
  lemma {:induction false} OthersMeanNothing(fs: seq<Field>)
    requires GoodFields(fs)
    ensures GoodFields(WithoutOthers(fs)) && Meant(WithoutOthers(fs)) == Meant(fs)
    decreases |fs|
  {
    hide GoodField;
    if fs != [] {
      var n := |fs| - 1;
      OthersMeanNothing(fs[..n]);
      var before := WithoutOthers(fs[..n]);
      if fs[n].Other? {
        assert before + [] == before;
      } else {
        assert (before + [fs[n]])[..|before|] == before;
      }
    }
  }

  ghost function Lines(fs: seq<Field>): (r: seq<string>)
    requires GoodFields(fs)
    ensures |r| == |fs| && forall i :: 0 <= i < |r| ==> r[i] == LineOf(fs[i])
  {
    seq(|fs|, i requires 0 <= i < |fs| => LineOf(fs[i]))
  }

  lemma {:induction false} LinesMean(fs: seq<Field>)
    requires GoodFields(fs)
    ensures var (h, ok) := HeaderAfter(Lines(fs)); if Meant(fs).Some? then ok && h == Meant(fs).value else !ok
    decreases |fs|
  {
    hide HeaderLine, Effect, LineOf, GoodField;
    if fs != [] {
      var n := |fs| - 1;
      LinesMean(fs[..n]);
      assert Lines(fs)[..n] == Lines(fs[..n]);
      if Meant(fs[..n]).Some? { LineReads(Meant(fs[..n]).value, fs[n]); }
    }
  }

  ghost function Sent(xs: seq<ForeignItem>): (r: seq<Part>)
    requires forall i :: 0 <= i < |xs| ==> GoodFields(xs[i].fields)
    ensures |r| == |xs| && forall i :: 0 <= i < |r| ==> r[i] == Part(Lines(xs[i].fields), xs[i].content)
  {
    seq(|xs|, i requires 0 <= i < |xs| => Part(Lines(xs[i].fields), xs[i].content))
  }

  /** Lines of the kinds above that are lines and not too long, and contents without the delimiter. */
  ghost predicate GoodForeign(xs: seq<ForeignItem>, boundary: string) {
    && xs != [] && CR !in boundary && (forall i :: 0 <= i < |xs| ==> GoodFields(xs[i].fields))
    && (forall i, j :: 0 <= i < |xs| && 0 <= j < |xs[i].fields| ==> CleanLine(LineOf(xs[i].fields[j])))
    && forall i, j: nat :: 0 <= i < |xs| ==> !OccursAt(xs[i].content, Delimiter(boundary), j)
  }

  lemma ForeignIsClean(xs: seq<ForeignItem>, boundary: string, i: nat)
    requires GoodForeign(xs, boundary) && i < |xs|
    ensures CleanPart(Sent(xs)[i], boundary)
  {
    hide GoodField, LineOf, CleanLine, OccursAt;
  }

  /** A form of any such items, in pieces cut anywhere after the opening delimiter: the items arrive, in
      order, with the headers their lines say, and the parser ends valid, if and only if there are at most
      1024 and no line is one the form is refused for. */
  lemma ForeignArrives(xs: seq<ForeignItem>, boundary: string, pieces: seq<string>)
    requires GoodForeign(xs, boundary)
    requires Concat(pieces) == FormText(Sent(xs), boundary) && pieces != [] && |pieces[0]| >= |Opening(boundary)|
    ensures var (q, ok) := FeedAll(Initial(boundary), pieces);
            && (ok <==> |xs| <= FILE_MAX_COUNT && forall i :: 0 <= i < |xs| ==> Meant(xs[i].fields).Some?)
            && (ok ==> q.valid && |q.files| == |xs|
                       && forall i :: 0 <= i < |xs| ==> q.files[i] == FormItem(Meant(xs[i].fields).value, xs[i].content))
  {
    hide FeedAll, FormText, HeaderAfter, Meant, GoodFields, CleanPart, CleanLine, LineOf, OccursAt;
    var parts := Sent(xs);
    forall i | 0 <= i < |xs|
      ensures CleanPart(parts[i], boundary) && (Accepted(parts[i]) <==> Meant(xs[i].fields).Some?)
      ensures Accepted(parts[i]) ==> ItemOf(parts[i]) == FormItem(Meant(xs[i].fields).value, xs[i].content)
    {
      ForeignIsClean(xs, boundary, i);
      LinesMean(xs[i].fields);
    }
    PartsArrive(parts, boundary, pieces);
  }
}
