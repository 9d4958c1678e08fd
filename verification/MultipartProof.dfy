/**
 Serializing a form and parsing it back, in whatever pieces it arrives.
 */
module MultipartProof {
  import opened Sequences
  import opened Text
  import opened Urls
  import opened Headers
  import opened Multipart
  import opened MultipartParts

  // ----- the serializer -----------------------------------------------------

  function Quoted(s: string): string { "\"" + s + "\"" }

  const NAME_KEY: string := "name"
  const FILENAME_KEY: string := "filename"

  /** The parameters of the disposition line. */
  function ParamText(h: FormHeader): string {
    PairOf(NAME_KEY, h.name)
    + if h.filename == [] then [] else ";" + (" " + PairOf(FILENAME_KEY, h.filename))
  }

  function DispositionLine(h: FormHeader): string {
    DISPOSITION + (" " + (FORM_DATA + (" " + ParamText(h))))
  }

  function TypeLine(h: FormHeader): string { CONTENT_TYPE + (" " + h.contentType) }

  function TypeText(h: FormHeader): string {
    if h.contentType == [] then [] else TypeLine(h) + CRLF
  }

  /** serialize_multipart_formdata_item_begin. */
  function ItemBegin(h: FormHeader, boundary: string): string {
    Opening(boundary) + (DispositionLine(h) + CRLF + (TypeText(h) + CRLF))
  }

  function ItemEnd(): string { CRLF }

  function Finish(boundary: string): string { DASH + boundary + DASH + CRLF }

  function ItemText(item: FormItem, boundary: string): string {
    ItemBegin(item.header, boundary) + (item.content + ItemEnd())
  }

  function Serialized(items: seq<FormItem>, boundary: string): string {
    if items == [] then Finish(boundary) else ItemText(items[0], boundary) + Serialized(items[1..], boundary)
  }

  method Serialize(items: seq<FormItem>, boundary: string) returns (body: string)
    ensures body == Serialized(items, boundary)
  {
    body := [];
    for i := 0 to |items|
      invariant body + Serialized(items[i..], boundary) == Serialized(items, boundary)
    {
      ghost var rest := items[i..];
      assert rest[0] == items[i] && rest[1..] == items[i + 1..];
      Assoc(body, ItemText(items[i], boundary), Serialized(rest[1..], boundary));
      Assoc(body, ItemBegin(items[i].header, boundary), items[i].content + ItemEnd());
      body := body + ItemBegin(items[i].header, boundary);
      body := body + (items[i].content + ItemEnd());
    }
    assert items[|items|..] == [];
    body := body + Finish(boundary);
  }

  // ----- which forms are covered --------------------------------------------

  predicate CleanName(s: string) {
    CR !in s && LF !in s && ';' !in s && '=' !in s
  }

  ghost predicate GoodItem(item: FormItem, boundary: string) {
    && CleanName(item.header.name) && CleanName(item.header.filename)
    && CR !in item.header.contentType && Trimmed(item.header.contentType)
    && |DispositionLine(item.header)| < HEADER_MAX_LENGTH && |TypeLine(item.header)| < HEADER_MAX_LENGTH
    && forall j: nat :: !OccursAt(item.content, Delimiter(boundary), j)
  }

  ghost predicate GoodForm(items: seq<FormItem>, boundary: string) {
    && items != [] && CR !in boundary
    && forall i :: 0 <= i < |items| ==> GoodItem(items[i], boundary)
  }

  // ----- header lines ---------------------------------------------------------

  lemma SkipOneSpace(s: string)
    requires s != [] && !IsSpace(s[0])
    ensures SkipSpace(" " + s) == s
  {
    assert (" " + s)[1..] == s;
  }

  lemma StartsWithItself(a: string, b: string)
    ensures StartsIgnoringCase(a + b, a) && (a + b)[|a|..] == b
  {}

  lemma CapturedRestOf(head: string, kind: string, t: string)
    requires kind != [] && !IsSpace(kind[0]) && t != [] && !IsSpace(t[0]) && CR !in t && LF !in t
    ensures CapturedRest(head + (" " + (kind + (" " + t))), head, kind) == Some(t)
  {
    SkipOneSpace(t);
    SkipOneSpace(kind + (" " + t));
    StartsWithItself(head, " " + (kind + (" " + t)));
    StartsWithItself(kind, " " + t);
  }

  predicate CleanKey(k: string) {
    k != [] && Trimmed(k) && k[0] != '"' && '=' !in k && ';' !in k
  }

  function PairOf(key: string, v: string): string { key + "=" + Quoted(v) }

  lemma KeepQuotedPair(key: string, v: string)
    requires CleanKey(key) && CleanName(v)
    ensures var t := PairOf(key, v); ';' !in t && Keep(t) == [t] && Keep(" " + t) == [t]
    ensures forall ps :: AddParam(ps, PairOf(key, v)) == ps + [(key, v)]
  {
    var t := PairOf(key, v);
    var q := Quoted(v);
    assert q[0] == '"' && q[|q| - 1] == '"' && q[1..|q| - 1] == v;
    assert '=' !in q && ';' !in q;
    KeyValueOf(key, q);
    assert t[|t| - 1] == '"';
    TrimKeeps(t);
    assert (" " + t)[1..] == t;
    TrimLeftSkips(" " + t, 1);
    TrimLeftSkips(t, 0);
  }

  lemma OneParam(k: string, v: string)
    requires CleanKey(k) && CleanName(v)
    ensures DispositionParams(PairOf(k, v)) == [(k, v)]
  {
    var t := PairOf(k, v);
    KeepQuotedPair(k, v);
    PiecesWhole([], t, ';');
    assert [] + t == t;
    assert AddParams([], {}, [t]) == AddParams(AddParam([], t), {t}, []);
  }

  lemma AddTwo(t: string, t': string, p: Param, p': Param)
    requires t != t' && AddParam([], t) == [p] && AddParam([p], t') == [p, p']
    ensures AddParams([], {}, [t] + [t']) == [p, p']
  {
    assert ([t] + [t'])[1..] == [t'];
    assert AddParams([p], {} + {t}, [t']) == AddParams([p, p'], {} + {t} + {t'}, []);
  }

  lemma TwoParams(k: string, v: string, k': string, v': string)
    requires CleanKey(k) && CleanName(v) && CleanKey(k') && CleanName(v') && k[0] != k'[0]
    ensures DispositionParams(PairOf(k, v) + (";" + (" " + PairOf(k', v')))) == [(k, v), (k', v')]
  {
    var t, t' := PairOf(k, v), PairOf(k', v');
    KeepQuotedPair(k, v);
    KeepQuotedPair(k', v');
    assert [(k, v)] + [(k', v')] == [(k, v), (k', v')];
    assert t[0] == k[0] && t'[0] == k'[0];
    AddTwo(t, t', (k, v), (k', v'));
    TwoPieces(t, t');
  }

  lemma TwoPieces(t: string, t': string)
    requires ';' !in t && ';' !in t' && Keep(t) == [t] && Keep(" " + t') == [t']
    ensures Pieces([], t + (";" + (" " + t')), ';') == [t] + [t']
  {
    Assoc(t, ";", " " + t');
    PiecesCut([], t, " " + t', ';');
    PiecesWhole([], " " + t', ';');
    assert [] + t == t && [] + (" " + t') == " " + t';
  }

  lemma ParamTextParses(h: FormHeader)
    requires CleanName(h.name) && CleanName(h.filename)
    ensures DispositionParams(ParamText(h)) ==
            if h.filename == [] then [(NAME_KEY, h.name)] else [(NAME_KEY, h.name), (FILENAME_KEY, h.filename)]
  {
    if h.filename == [] {
      assert ParamText(h) == PairOf(NAME_KEY, h.name);
      OneParam(NAME_KEY, h.name);
    } else {
      TwoParams(NAME_KEY, h.name, FILENAME_KEY, h.filename);
    }
  }

  lemma LookupTwo(k: string, v: string, k': string, v': string, key: string)
    ensures Lookup([(k, v)], key) == if key == k then Some(v) else None
    ensures Lookup([(k, v), (k', v')], key) == if key == k then Some(v) else if key == k' then Some(v') else None
  {
    assert [(k, v), (k', v')][1..] == [(k', v')];
    assert Lookup([(k', v')], key) == if key == k' then Some(v') else None;
  }

  lemma DispositionLineIsHeader(h: FormHeader)
    ensures HeaderField(DispositionLine(h)).Some?
    ensures !StartsIgnoringCase(DispositionLine(h), CONTENT_TYPE)
  {
    var line := DispositionLine(h);
    assert line[|line| - 1] == '"';
    assert TrimRight(line) == line;
    assert line[19] == ':' && ':' !in line[..19] by { assert line[..19] == DISPOSITION[..19]; }
    IndexOfIs(line, ':', 19);
    var v := line[20..];
    assert v == " " + (FORM_DATA + (" " + ParamText(h)));
    assert v[1] == 'f';
    TrimLeftSkips(v, 1);
    assert Lower(line[8]) != Lower(CONTENT_TYPE[8]) by { assert line[8] == DISPOSITION[8]; }
  }

  lemma ParamsGiveFile(h: FormHeader, ps: seq<Param>)
    requires ps == if h.filename == [] then [(NAME_KEY, h.name)] else [(NAME_KEY, h.name), (FILENAME_KEY, h.filename)]
    ensures DispositionFile(NO_HEADER, ps) == (FormHeader(h.name, h.filename, ""), true)
  {
    LookupTwo(NAME_KEY, h.name, FILENAME_KEY, h.filename, "name");
    LookupTwo(NAME_KEY, h.name, FILENAME_KEY, h.filename, "filename");
    LookupTwo(NAME_KEY, h.name, FILENAME_KEY, h.filename, "filename*");
  }

  lemma ParamTextIsOneLine(h: FormHeader)
    requires CleanName(h.name) && CleanName(h.filename)
    ensures CR !in ParamText(h) && LF !in ParamText(h) && ParamText(h)[0] == 'n'
  {
    var n, f := PairOf(NAME_KEY, h.name), PairOf(FILENAME_KEY, h.filename);
    PairIsOneLine(NAME_KEY, h.name);
    PairIsOneLine(FILENAME_KEY, h.filename);
    assert CR !in (";" + (" " + f)) && LF !in (";" + (" " + f));
    assert n[0] == NAME_KEY[0];
  }

  lemma PairIsOneLine(key: string, v: string)
    requires CR !in key && LF !in key && CleanName(v)
    ensures CR !in PairOf(key, v) && LF !in PairOf(key, v)
  {}

  /** The disposition line gives back name and filename. */
  lemma DispositionLineParses(h: FormHeader)
    requires CleanName(h.name) && CleanName(h.filename)
    ensures HeaderLine(NO_HEADER, DispositionLine(h)) == (FormHeader(h.name, h.filename, ""), true)
  {
    var ps := DispositionParams(ParamText(h));
    assert DispositionFile(NO_HEADER, ps) == (FormHeader(h.name, h.filename, ""), true) by {
      ParamTextParses(h);
      ParamsGiveFile(h, ps);
    }
    assert DispositionRest(DispositionLine(h)) == Some(ParamText(h)) by {
      ParamTextIsOneLine(h);
      CapturedRestOf(DISPOSITION, FORM_DATA, ParamText(h));
    }
    DispositionLineIsHeader(h);
  }

  lemma TypeLineParses(file: FormHeader, h: FormHeader)
    requires h.contentType != [] && Trimmed(h.contentType)
    ensures HeaderLine(file, TypeLine(h)) == (file.(contentType := h.contentType), true)
  {
    var line := TypeLine(h);
    StartsWithItself(CONTENT_TYPE, " " + h.contentType);
    var v := " " + h.contentType;
    assert v[1..] == h.contentType;
    TrimLeftSkips(v, 1);
    TrimKeeps(h.contentType);
    TrimLeftSkips(h.contentType, 0);
    assert line[|line| - 1] == h.contentType[|h.contentType| - 1];
    assert TrimRight(line) == line;
    assert line[..12] == CONTENT_TYPE[..12] && line[12] == ':' && ':' !in CONTENT_TYPE[..12];
    IndexOfIs(line, ':', 12);
  }

  /** Header lines hold no CR, and only the empty line is empty. */
  lemma LinesAreLines(h: FormHeader)
    requires CleanName(h.name) && CleanName(h.filename) && CR !in h.contentType
    ensures CR !in DispositionLine(h) && CR !in TypeLine(h)
    ensures DispositionLine(h) != [] && TypeLine(h) != []
  {
    ParamTextIsOneLine(h);
    NoCrInSum(" ", ParamText(h));
    NoCrInSum(FORM_DATA, " " + ParamText(h));
    NoCrInSum(" ", FORM_DATA + (" " + ParamText(h)));
    NoCrInSum(DISPOSITION, " " + (FORM_DATA + (" " + ParamText(h))));
    NoCrInSum(" ", h.contentType);
    NoCrInSum(CONTENT_TYPE, " " + h.contentType);
  }

  lemma NoCrInSum(a: string, b: string)
    requires CR !in a && CR !in b
    ensures CR !in a + b && |a + b| == |a| + |b|
  {}

  // ----- the round trip -------------------------------------------------------

  /** The header lines of an item. */
  function LinesOf(h: FormHeader): seq<string> {
    [DispositionLine(h)] + if h.contentType == [] then [] else [TypeLine(h)]
  }

  function PartOf(item: FormItem): Part { Part(LinesOf(item.header), item.content) }

  function PartsOf(items: seq<FormItem>): (r: seq<Part>)
    ensures |r| == |items| && forall i :: 0 <= i < |r| ==> r[i] == PartOf(items[i])
  {
    seq(|items|, i requires 0 <= i < |items| => PartOf(items[i]))
  }

  /** The lines are accepted and give back the header. */
  lemma LinesGiveHeader(h: FormHeader)
    requires CleanName(h.name) && CleanName(h.filename) && Trimmed(h.contentType)
    ensures HeaderAfter(LinesOf(h)) == (h, true)
  {
    hide HeaderLine, DispositionLine, TypeLine;
    var d := [DispositionLine(h)];
    assert d[..0] == [] && HeaderAfter(d) == HeaderLine(NO_HEADER, d[0]);
    DispositionLineParses(h);
    if h.contentType == [] {
      assert LinesOf(h) == d;
    } else {
      assert LinesOf(h)[..1] == d;
      TypeLineParses(FormHeader(h.name, h.filename, ""), h);
    }
  }

  lemma ItemIsCleanPart(item: FormItem, boundary: string)
    requires GoodItem(item, boundary)
    ensures CleanPart(PartOf(item), boundary) && Accepted(PartOf(item)) && ItemOf(PartOf(item)) == item
  {
    hide DispositionLine, TypeLine, HeaderAfter;
    var h := item.header;
    LinesGiveHeader(h);
    LinesAreLines(h);
    NoCrNoCrlf(DispositionLine(h));
    NoCrNoCrlf(TypeLine(h));
  }

  lemma FormIsCleanParts(items: seq<FormItem>, boundary: string)
    requires GoodForm(items, boundary)
    ensures CleanParts(PartsOf(items), boundary) && AllAccepted(PartsOf(items)) && ItemsOf(PartsOf(items)) == items
  {
    hide GoodItem, CleanPart, Accepted, ItemOf, PartOf;
    forall i | 0 <= i < |items|
      ensures CleanPart(PartOf(items[i]), boundary) && Accepted(PartOf(items[i])) && ItemOf(PartOf(items[i])) == items[i]
    {
      ItemIsCleanPart(items[i], boundary);
    }
  }

  lemma LinesTextIs(h: FormHeader)
    ensures LinesText(LinesOf(h)) == DispositionLine(h) + CRLF + TypeText(h)
  {
    hide DispositionLine, TypeLine;
    var lines := LinesOf(h);
    var later := if h.contentType == [] then [] else [TypeLine(h)];
    assert lines[1..] == later && lines[0] == DispositionLine(h);
    if h.contentType != [] {
      assert later[1..] == [];
      assert LinesText(later) == TypeLine(h) + CRLF + [] == TypeText(h);
    }
  }

  lemma Regroup(o: string, d: string, t: string, e: string, c: string, next: string)
    ensures o + (d + (t + e)) + (c + e) + next == o + (d + t + (e + (c + (e + next))))
  {}

  lemma RegroupDelimiter(e: string, d: string, b: string, x: string, y: string)
    ensures e + (d + b + x + y) == e + d + b + (x + y)
  {}

  lemma {:induction false} SerializedAs(items: seq<FormItem>, parts: seq<Part>, boundary: string, k: nat)
    requires k < |items| == |parts| && forall i :: k <= i < |items| ==> parts[i] == PartOf(items[i])
    ensures Serialized(items[k..], boundary) == Opening(boundary) + HeadText(parts, boundary, k, 0)
    decreases |items| - k
  {
    hide DispositionLine, TypeText, LinesOf, HeadText;
    var rest := items[k..];
    assert rest[0] == items[k] && rest[1..] == items[k + 1..];
    var h, c := items[k].header, items[k].content;
    var next := Serialized(items[k + 1..], boundary);
    if k + 1 < |items| { SerializedAs(items, parts, boundary, k + 1); }
    BodyEndAs(items, parts, boundary, k);
    HeadTextAs(parts, boundary, k, h);
    Regroup(Opening(boundary), DispositionLine(h) + CRLF, TypeText(h), CRLF, c, next);
  }

  lemma HeadTextAs(parts: seq<Part>, boundary: string, k: nat, h: FormHeader)
    requires k < |parts| && parts[k].lines == LinesOf(h)
    ensures HeadText(parts, boundary, k, 0)
            == DispositionLine(h) + CRLF + TypeText(h) + (CRLF + (parts[k].content + BodyEnd(parts, boundary, k)))
  {
    hide DispositionLine, TypeText, LinesOf, BodyEnd;
    LinesTextIs(h);
    assert parts[k].lines[0..] == LinesOf(h);
  }

  lemma BodyEndAs(items: seq<FormItem>, parts: seq<Part>, boundary: string, k: nat)
    requires k < |items| == |parts|
    requires k + 1 < |items| ==>
               Serialized(items[k + 1..], boundary) == Opening(boundary) + HeadText(parts, boundary, k + 1, 0)
    ensures BodyEnd(parts, boundary, k) == CRLF + Serialized(items[k + 1..], boundary)
  {
    hide HeadText, ItemText;
    if k + 1 == |items| {
      assert items[k + 1..] == [];
      RegroupDelimiter(CRLF, DASH, boundary, DASH, CRLF);
    } else {
      RegroupDelimiter(CRLF, DASH, boundary, CRLF, HeadText(parts, boundary, k + 1, 0));
    }
  }

  lemma SerializedFrom(items: seq<FormItem>, boundary: string, k: nat)
    requires k < |items|
    ensures Serialized(items[k..], boundary) == Opening(boundary) + HeadText(PartsOf(items), boundary, k, 0)
  {
    SerializedAs(items, PartsOf(items), boundary, k);
  }

  /** Serialize, cut into pieces anywhere after the opening delimiter, parse: exactly the items come
      out, in order, with their headers and contents, and the parser ends valid.  It fails exactly
      when the server's limit of 1024 items is exceeded. */
  lemma MultipartRoundTrip(items: seq<FormItem>, boundary: string, pieces: seq<string>)
    requires GoodForm(items, boundary)
    requires Concat(pieces) == Serialized(items, boundary)
    requires pieces != [] && |pieces[0]| >= |Opening(boundary)|
    ensures var (q, ok) := FeedAll(Initial(boundary), pieces);
            && (ok <==> |items| <= FILE_MAX_COUNT)
            && (ok ==> q.valid && q.files == items)
  {
    hide GoodItem, FeedAll, CleanParts, AllAccepted, HeadText, Serialized;
    assert items[0..] == items;
    SerializedFrom(items, boundary, 0);
    FormIsCleanParts(items, boundary);
    PartsArrive(PartsOf(items), boundary, pieces);
  }
}
