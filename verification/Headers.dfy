/**
 Header lines: the generic "key: value" field parser, and the parameters of a
 Content-Disposition line (externals/httplib/httplib.h).
 */
module Headers {
  import opened Text
  import opened Urls

  const HEADER_MAX_LENGTH := 8192

  predicate EqualIgnoringCase(a: string, b: string) {
    |a| == |b| && StartsIgnoringCase(a, b)
  }

  /** The same letter in either case, or the same character. */
  predicate SameLetter(c: char, d: char) {
    c == d || ('a' <= c <= 'z' && c as int == d as int + 32) || ('a' <= d <= 'z' && d as int == c as int + 32)
  }

  /** Comparing with letter case ignored is comparing letters. */
  lemma CaseIsIgnored(a: string, b: string)
    ensures StartsIgnoringCase(a, b) <==> |a| >= |b| && forall i :: 0 <= i < |b| ==> SameLetter(a[i], b[i])
  {
    forall i | 0 <= i < |a| && i < |b| ensures Lower(a[i]) == Lower(b[i]) <==> SameLetter(a[i], b[i]) {
      LetterCase(a[i], b[i]);
    }
  }

  lemma LetterCase(c: char, d: char)
    ensures Lower(c) == Lower(d) <==> SameLetter(c, d)
  {}

  /** The key and decoded value of a header line, or None when the line is rejected. */
  function HeaderField(line: string): Option<(string, string)> {
    var t := TrimRight(line);
    var k := IndexOf(t, ':');
    if k == |t| then None
    else
      var value := TrimLeft(t[k + 1..]);
      if value == [] || k == 0 then None
      else Some((t[..k], if EqualIgnoringCase(t[..k], "Location") then value else Decode(value, false)))
  }

  /** The field in terms of positions: where the trailing blanks begin, where the colon is, and where the
      value starts. */
  lemma FieldAt(line: string, end: nat, k: nat, p: nat)
    requires k < p <= end <= |line| && AllBlank(line[end..]) && !IsBlank(line[end - 1])
    requires ':' !in line[..k] && line[k] == ':' && AllBlank(line[k + 1..p]) && (p < end ==> !IsBlank(line[p]))
    ensures HeaderField(line)
            == if p == end || k == 0 then None
               else Some((line[..k], if EqualIgnoringCase(line[..k], "Location") then line[p..end] else Decode(line[p..end], false)))
  {
    hide Decode, EqualIgnoringCase;
    TrimRightSkips(line, end);
    var t := line[..end];
    assert t[..k] == line[..k];
    IndexOfIs(t, ':', k);
    var v := t[k + 1..];
    assert v[..p - k - 1] == line[k + 1..p];
    TrimLeftSkips(v, p - k - 1);
    assert v[p - k - 1..] == line[p..end];
  }

  lemma NoField(line: string, end: nat)
    requires end <= |line| && AllBlank(line[end..]) && (end > 0 ==> !IsBlank(line[end - 1])) && ':' !in line[..end]
    ensures HeaderField(line) == None
  {
    TrimRightSkips(line, end);
    var t := line[..end];
    assert t[..end] == t;
    IndexOfIs(t, ':', end);
  }

  method ParseHeader(line: string) returns (field: Option<(string, string)>)
    ensures field == HeaderField(line)
  {
    hide HeaderField, Decode, EqualIgnoringCase;
    var end := |line|;
    while 0 < end && IsBlank(line[end - 1])
      invariant 0 <= end <= |line|
      invariant AllBlank(line[end..])
    {
      end := end - 1;
    }
    var p := 0;
    while p < end && line[p] != ':'
      invariant 0 <= p <= end
      invariant ':' !in line[..p]
    {
      p := p + 1;
    }
    if p == end {
      NoField(line, end);
      return None;
    }
    var keyEnd := p;
    p := p + 1;
    while p < end && IsBlank(line[p])
      invariant keyEnd < p <= end
      invariant AllBlank(line[keyEnd + 1..p])
    {
      assert line[keyEnd + 1..p + 1] == line[keyEnd + 1..p] + [line[p]];
      p := p + 1;
    }
    FieldAt(line, end, keyEnd, p);
    if p < end {
      if keyEnd == 0 { return None; }
      var key := line[..keyEnd];
      var val := line[p..end];
      if !EqualIgnoringCase(key, "Location") { val := DecodeUrl(val, false); }
      return Some((key, val));
    }
    return None;
  }

  method StartWithCaseIgnore(a: string, b: string) returns (r: bool)
    ensures r == StartsIgnoringCase(a, b)
  {
    if |a| < |b| { return false; }
    for i := 0 to |b|
      invariant forall j :: 0 <= j < i ==> Lower(a[j]) == Lower(b[j])
    {
      if Lower(a[i]) != Lower(b[i]) { return false; }
    }
    return true;
  }

  // ----- Content-Disposition ------------------------------------------------

  predicate IsSpace(c: char) {
    c == ' ' || c == '\t' || c == '\n' || c == '\r' || c as int == 11 || c as int == 12
  }

  function SkipSpace(s: string): string {
    if s != [] && IsSpace(s[0]) then SkipSpace(s[1..]) else s
  }

  const DISPOSITION: string := "Content-Disposition:"
  const FORM_DATA: string := "form-data;"
  const CONTENT_TYPE: string := "Content-Type:"
  const UTF8_MARK: string := "UTF-8''"

  /** The text captured by the pattern Content-Disposition: form-data; (rest), letter case ignored;
      the captured rest must stay on one line. */
  function DispositionRest(line: string): Option<string> {
    CapturedRest(line, DISPOSITION, FORM_DATA)
  }

  function CapturedRest(line: string, head: string, kind: string): Option<string> {
    if !StartsIgnoringCase(line, head) then None
    else
      var s := SkipSpace(line[|head|..]);
      if !StartsIgnoringCase(s, kind) then None
      else
        var rest := SkipSpace(s[|kind|..]);
        if CR in rest || LF in rest then None else Some(rest)
  }

  function AddParam(ps: seq<Param>, kv: string): seq<Param> {
    var (k, v) := KeyValue(kv);
    if k == [] then ps else ps + [(TrimQuotes(k), TrimQuotes(v))]
  }

  function AddParams(ps: seq<Param>, seen: set<string>, kvs: seq<string>): seq<Param>
    decreases |kvs|
  {
    if kvs == [] then ps
    else if kvs[0] in seen then AddParams(ps, seen, kvs[1..])
    else AddParams(AddParam(ps, kvs[0]), seen + {kvs[0]}, kvs[1..])
  }

  /** The disposition parameters in the order they are met. */
  function DispositionParams(s: string): seq<Param> {
    AddParams([], {}, Pieces([], s, ';'))
  }

  method ParseDispositionParams(s: string) returns (params: seq<Param>)
    ensures params == DispositionParams(s)
  {
    params := [];
    var cache: set<string> := {};
    var kvs := Split(s, ';');
    for i := 0 to |kvs|
      invariant AddParams(params, cache, kvs[i..]) == DispositionParams(s)
    {
      assert kvs[i..][1..] == kvs[i + 1..];
      if kvs[i] !in cache {
        cache := cache + {kvs[i]};
        var key, val := SplitKeyValue(kvs[i]);
        if key != [] { params := params + [(TrimQuotes(key), TrimQuotes(val))]; }
      }
    }
    assert kvs[|kvs|..] == [];
  }

  /** The value of the first parameter with this key. */
  function Lookup(ps: seq<Param>, key: string): Option<string> {
    if ps == [] then None
    else if ps[0].0 == key then Some(ps[0].1)
    else Lookup(ps[1..], key)
  }
}
