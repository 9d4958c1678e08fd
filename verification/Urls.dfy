/**
 Percent encoding and query strings (externals/httplib/httplib.h).
 Strings are byte strings: a char with a code below 256 stands for one byte.
 */
module Urls {
  import opened Sequences
  import opened Text

  ghost predicate IsBytes(s: string) { forall i :: 0 <= i < |s| ==> s[i] as int < 256 }

  // ----- hexadecimal digits -----------------------------------------------

  function HexValue(c: char): Option<nat> {
    if '0' <= c <= '9' then Some(c as int - '0' as int)
    else if 'A' <= c <= 'F' then Some(c as int - 'A' as int + 10)
    else if 'a' <= c <= 'f' then Some(c as int - 'a' as int + 10)
    else None
  }

  /** The value of exactly cnt hexadecimal digits at the front of s, on top of acc. */
  function HexPrefix(s: string, cnt: nat, acc: nat): (r: Option<nat>)
    ensures r.Some? ==> cnt <= |s|
    decreases cnt
  {
    if cnt == 0 then Some(acc)
    else if s == [] || HexValue(s[0]).None? then None
    else HexPrefix(s[1..], cnt - 1, acc * 16 + HexValue(s[0]).value)
  }

  method FromHex(s: string, start: nat, cnt: nat) returns (r: Option<nat>)
    requires cnt > 0
    ensures r == if start >= |s| then None else HexPrefix(s[start..], cnt, 0)
  {
    if start >= |s| { return None; }
    var i: nat, val: nat := start, 0;
    ghost var goal := HexPrefix(s[start..], cnt, 0);
    for k := 0 to cnt
      invariant i == start + k <= |s|
      invariant goal == HexPrefix(s[i..], cnt - k, val)
    {
      // One past the end the original reads the terminating NUL, which is no digit.
      if i == |s| || HexValue(s[i]).None? { return None; }
      assert s[i..][1..] == s[i + 1..];
      val := val * 16 + HexValue(s[i]).value;
      i := i + 1;
    }
    return Some(val);
  }

  function ToUtf8(code: nat): (r: string)
    ensures |r| <= 4 && (code < 0x10000 ==> |r| <= 3)
  {
    if code < 0x80 then [code as char]
    else if code < 0x800 then
      [(0xC0 + code / 0x40 % 0x20) as char, (0x80 + code % 0x40) as char]
    else if code < 0xD800 || 0xE000 <= code < 0x10000 then
      [(0xE0 + code / 0x1000 % 0x10) as char, (0x80 + code / 0x40 % 0x40) as char, (0x80 + code % 0x40) as char]
    else if code < 0xE000 then []
    else if code < 0x110000 then
      [(0xF0 + code / 0x40000 % 8) as char, (0x80 + code / 0x1000 % 0x40) as char,
       (0x80 + code / 0x40 % 0x40) as char, (0x80 + code % 0x40) as char]
    else []
  }

  // ----- decode_url ---------------------------------------------------------

  /** The bytes one decoding step appends and how many input bytes it takes. */
  function DecodeStep(s: string, plus: bool): (r: (string, nat))
    requires s != []
    ensures 1 <= r.1 <= |s|
    ensures |r.0| <= r.1
  {
    if s[0] == '%' && |s| > 1 then
      if s[1] == 'u' then
        var v := if |s| > 2 then HexPrefix(s[2..], 4, 0) else None;
        if v.Some? then (HexBound(s[2..], 4); (ToUtf8(v.value), 6)) else ("%", 1)
      else
        var v := HexPrefix(s[1..], 2, 0);
        if v.Some? then (HexBound(s[1..], 2); ([v.value as char], 3)) else ("%", 1)
    else if plus && s[0] == '+' then (" ", 1)
    else ([s[0]], 1)
  }

  lemma HexBound(s: string, cnt: nat)
    requires cnt == 2 || cnt == 4
    requires HexPrefix(s, cnt, 0).Some?
    ensures cnt == 2 ==> HexPrefix(s, cnt, 0).value < 0x100
    ensures cnt == 4 ==> HexPrefix(s, cnt, 0).value < 0x10000
  {
    var v, rest := TwoDigits(s, cnt, 0);
    if cnt == 4 {
      var v4, _ := TwoDigits(rest, 2, v);
    }
  }

  /** Two digits taken off a longer run. */
  lemma TwoDigits(s: string, cnt: nat, acc: nat) returns (v: nat, rest: string)
    requires cnt >= 2 && HexPrefix(s, cnt, acc).Some?
    ensures acc * 256 <= v < acc * 256 + 256
    ensures HexPrefix(s, cnt, acc) == HexPrefix(rest, cnt - 2, v)
  {
    var d0 := HexValue(s[0]).value;
    var s1 := s[1..];
    assert HexPrefix(s, cnt, acc) == HexPrefix(s1, cnt - 1, acc * 16 + d0);
    var d1 := HexValue(s1[0]).value;
    v, rest := (acc * 16 + d0) * 16 + d1, s1[1..];
  }

  function Decode(s: string, plus: bool): (r: string)
    ensures |r| <= |s|
    decreases |s|
  {
    if s == [] then []
    else
      var step := DecodeStep(s, plus);
      step.0 + Decode(s[step.1..], plus)
  }

  /** The body of the decoding loop at position i. */
  method DecodeAt(s: string, i: nat, plus: bool) returns (bytes: string, used: nat)
    requires i < |s|
    ensures (bytes, used) == DecodeStep(s[i..], plus)
  {
    hide ToUtf8, HexPrefix, HexValue;
    if s[i] == '%' && i + 1 < |s| {
      if s[i + 1] == 'u' {
        var v := FromHex(s, i + 2, 4);
        assert i + 2 < |s| ==> s[i..][2..] == s[i + 2..];
        if v.Some? { return ToUtf8(v.value), 6; }
      } else {
        var v := FromHex(s, i + 1, 2);
        assert s[i..][1..] == s[i + 1..];
        if v.Some? {
          HexBound(s[i + 1..], 2);
          return [v.value as char], 3;
        }
      }
      return [s[i]], 1;
    }
    return if plus && s[i] == '+' then " " else [s[i]], 1;
  }

  method DecodeUrl(s: string, plus: bool) returns (result: string)
    ensures result == Decode(s, plus)
  {
    hide DecodeStep;
    result := [];
    var i := 0;
    while i < |s|
      invariant 0 <= i <= |s|
      invariant result + Decode(s[i..], plus) == Decode(s, plus)
    {
      var bytes, used := DecodeAt(s, i, plus);
      assert s[i..][used..] == s[i + used..];
      Assoc(result, bytes, Decode(s[i + used..], plus));
      result := result + bytes;
      i := i + used;
    }
    assert s[i..] == [];
  }

  // ----- encode_query_param -------------------------------------------------

  predicate Unreserved(c: char) {
    || 'a' <= c <= 'z' || 'A' <= c <= 'Z' || '0' <= c <= '9'
    || c == '-' || c == '_' || c == '.' || c == '!' || c == '~' || c == '*' || c == '\'' || c == '(' || c == ')'
  }

  function UpperHexDigit(n: nat): (c: char)
    requires n < 16
    ensures HexValue(c) == Some(n) && Unreserved(c) && c != 'u'
  {
    if n < 10 then ('0' as int + n) as char else ('A' as int + n - 10) as char
  }

  function EncodeChar(c: char): string
    requires c as int < 256
  {
    if Unreserved(c) then [c]
    else ['%', UpperHexDigit(c as int / 16), UpperHexDigit(c as int % 16)]
  }

  function Encode(v: string): string
    requires IsBytes(v)
  {
    if v == [] then [] else EncodeChar(v[0]) + Encode(v[1..])
  }

  method EncodeQueryParam(v: string) returns (escaped: string)
    requires IsBytes(v)
    ensures escaped == Encode(v)
  {
    escaped := [];
    for i := 0 to |v|
      invariant escaped + Encode(v[i..]) == Encode(v)
    {
      assert v[i..][1..] == v[i + 1..];
      ghost var before := escaped;
      if Unreserved(v[i]) {
        escaped := escaped + [v[i]];
      } else {
        var code := v[i] as int;
        escaped := escaped + ['%', UpperHexDigit(code / 16), UpperHexDigit(code % 16)];
      }
      Assoc(before, EncodeChar(v[i]), Encode(v[i + 1..]));
    }
    assert v[|v|..] == [];
  }

  lemma DecodeEncodedChar(c: char, rest: string, plus: bool)
    requires c as int < 256
    ensures Decode(EncodeChar(c) + rest, plus) == [c] + Decode(rest, plus)
  {
    var s := EncodeChar(c) + rest;
    if Unreserved(c) {
      assert s[1..] == rest;
    } else {
      var hi, lo := UpperHexDigit(c as int / 16), UpperHexDigit(c as int % 16);
      assert s[1..][0] == hi && s[1..][1..][0] == lo;
      assert HexPrefix(s[1..][1..], 1, c as int / 16) == Some(c as int);
      assert HexPrefix(s[1..], 2, 0) == Some(c as int);
      assert DecodeStep(s, plus) == ([c], 3);
      assert s[3..] == rest;
    }
  }

  /** decode_url undoes encode_query_param on every byte string, under either plus flag. */
  lemma {:induction false} DecodeInvertsEncode(v: string, plus: bool)
    requires IsBytes(v)
    ensures Decode(Encode(v), plus) == v
  {
    if v != [] {
      DecodeEncodedChar(v[0], Encode(v[1..]), plus);
      DecodeInvertsEncode(v[1..], plus);
    }
  }

  /** Encoded text holds unreserved characters and '%' only. */
  lemma {:induction false} EncodedAlphabet(v: string)
    requires IsBytes(v)
    ensures forall c :: c in Encode(v) ==> Unreserved(c) || c == '%'
    ensures (Encode(v) == []) == (v == [])
  {
    if v != [] {
      EncodedAlphabet(v[1..]);
    }
  }

  // ----- escapes the encoder does not write --------------------------------------

  /** The code point at the front of a text and its length in bytes, by section 3 of RFC 3629: the lead byte
      tells the length, every further byte adds six bits. */
  function FromUtf8(s: string): Option<(nat, nat)> {
    if s == [] then None
    else
      var b := s[0] as int;
      if b < 0x80 then Some((b, 1))
      else if 0xC0 <= b < 0xE0 then Continued(s, 1, b - 0xC0, 1)
      else if 0xE0 <= b < 0xF0 then Continued(s, 2, b - 0xE0, 1)
      else if 0xF0 <= b < 0xF8 then Continued(s, 3, b - 0xF0, 1)
      else None
  }

  function Continued(s: string, more: nat, acc: nat, at: nat): Option<(nat, nat)>
    decreases more
  {
    if more == 0 then Some((acc, at))
    else if at >= |s| || !(0x80 <= s[at] as int < 0xC0) then None
    else Continued(s, more - 1, acc * 0x40 + (s[at] as int - 0x80), at + 1)
  }

  predicate IsScalar(code: nat) { code < 0xD800 || 0xE000 <= code < 0x110000 }

  lemma OneMore(s: string, more: nat, acc: nat, at: nat, total: nat)
    requires more > 0 && at < |s| && s[at] as int == 0x80 + total % 0x40 && acc == total / 0x40
    ensures Continued(s, more, acc, at) == Continued(s, more - 1, total, at + 1)
  {}

  lemma Quotients(code: nat)
    requires code < 0x110000
    ensures code / 0x1000 == code / 0x40 / 0x40 && code / 0x40000 == code / 0x1000 / 0x40
    ensures code < 0x800 ==> code / 0x40 % 0x20 == code / 0x40
    ensures code < 0x10000 ==> code / 0x1000 % 0x10 == code / 0x1000
    ensures code / 0x40000 % 8 == code / 0x40000
  {}

  lemma TwoBytes(s: string, code: nat)
    requires 0x80 <= code < 0x800 && |s| >= 2 && s[0] as int == 0xC0 + code / 0x40 && s[1] as int == 0x80 + code % 0x40
    ensures FromUtf8(s) == Some((code, 2))
  {
    hide Continued;
    OneMore(s, 1, code / 0x40, 1, code);
    NoMore(s, code, 2);
  }

  lemma ThreeBytes(s: string, code: nat)
    requires 0x800 <= code < 0x10000 && |s| >= 3 && s[0] as int == 0xE0 + code / 0x1000
    requires s[1] as int == 0x80 + code / 0x40 % 0x40 && s[2] as int == 0x80 + code % 0x40
    ensures FromUtf8(s) == Some((code, 3))
  {
    hide Continued;
    Quotients(code);
    OneMore(s, 2, code / 0x1000, 1, code / 0x40);
    OneMore(s, 1, code / 0x40, 2, code);
    NoMore(s, code, 3);
  }

  lemma FourBytes(s: string, code: nat)
    requires 0x10000 <= code < 0x110000 && |s| >= 4 && s[0] as int == 0xF0 + code / 0x40000
    requires s[1] as int == 0x80 + code / 0x1000 % 0x40 && s[2] as int == 0x80 + code / 0x40 % 0x40 && s[3] as int == 0x80 + code % 0x40
    ensures FromUtf8(s) == Some((code, 4))
  {
    hide Continued;
    Quotients(code);
    OneMore(s, 3, code / 0x40000, 1, code / 0x1000);
    OneMore(s, 2, code / 0x1000, 2, code / 0x40);
    OneMore(s, 1, code / 0x40, 3, code);
    NoMore(s, code, 4);
  }

  /** The bytes of every code point but a surrogate read back as that code point, and nothing is written for
      any other number. */
  lemma Utf8ReadsBack(code: nat, rest: string)
    ensures IsScalar(code) ==> FromUtf8(ToUtf8(code) + rest) == Some((code, |ToUtf8(code)|))
    ensures !IsScalar(code) ==> ToUtf8(code) == []
  {
    if IsScalar(code) {
      Quotients(code);
      var u := ToUtf8(code);
      var s := u + rest;
      assert forall i :: 0 <= i < |u| ==> s[i] == u[i];
      if code >= 0x10000 { FourBytes(s, code); } else if code >= 0x800 { ThreeBytes(s, code); } else if code >= 0x80 { TwoBytes(s, code); }
    }
  }

  lemma NoMore(s: string, acc: nat, at: nat)
    ensures Continued(s, 0, acc, at) == Some((acc, at))
  {}

  predicate IsHex(c: char) { HexValue(c).Some? }

  /** One unit of an encoded text: a character that stands for itself, a plus sign, a byte in two digits of
      either letter case, or a code in four. */
  datatype Escape = Itself(c: char) | Plus | Octet(hi: char, lo: char) | Unicode(d3: char, d2: char, d1: char, d0: char)

  predicate GoodEscape(e: Escape) {
    match e
    case Itself(c) => c != '%' && c != '+'
    case Plus => true
    case Octet(hi, lo) => IsHex(hi) && IsHex(lo)
    case Unicode(d3, d2, d1, d0) => IsHex(d3) && IsHex(d2) && IsHex(d1) && IsHex(d0)
  }

  function Written(e: Escape): string {
    match e
    case Itself(c) => [c]
    case Plus => "+"
    case Octet(hi, lo) => ['%', hi, lo]
    case Unicode(d3, d2, d1, d0) => ['%', 'u', d3, d2, d1, d0]
  }

  function Meant(e: Escape, plus: bool): string
    requires GoodEscape(e)
  {
    match e
    case Itself(c) => [c]
    case Plus => if plus then " " else "+"
    case Octet(hi, lo) => [(16 * HexValue(hi).value + HexValue(lo).value) as char]
    case Unicode(d3, d2, d1, d0) =>
      ToUtf8(0x1000 * HexValue(d3).value + 0x100 * HexValue(d2).value + 0x10 * HexValue(d1).value + HexValue(d0).value)
  }

  function WrittenAll(es: seq<Escape>): string { if es == [] then [] else Written(es[0]) + WrittenAll(es[1..]) }

  function MeantAll(es: seq<Escape>, plus: bool): string
    requires forall i :: 0 <= i < |es| ==> GoodEscape(es[i])
  {
    if es == [] then [] else Meant(es[0], plus) + MeantAll(es[1..], plus)
  }

  lemma HexTwo(s: string, cnt: nat, acc: nat)
    requires cnt >= 2 && |s| >= 2 && IsHex(s[0]) && IsHex(s[1])
    ensures HexPrefix(s, cnt, acc) == HexPrefix(s[2..], cnt - 2, (acc * 16 + HexValue(s[0]).value) * 16 + HexValue(s[1]).value)
  {
    var t := s[1..];
    assert t[0] == s[1] && t[1..] == s[2..];
    assert HexPrefix(s, cnt, acc) == HexPrefix(t, cnt - 1, acc * 16 + HexValue(s[0]).value);
  }

  lemma OctetStep(hi: char, lo: char, rest: string, plus: bool)
    requires GoodEscape(Octet(hi, lo))
    ensures DecodeStep(['%', hi, lo] + rest, plus) == (Meant(Octet(hi, lo), plus), 3)
  {
    hide ToUtf8, HexValue;
    var s := ['%', hi, lo] + rest;
    HexIsNotU(hi);
    assert s[1..][0] == hi && s[1..][1] == lo;
    HexTwo(s[1..], 2, 0);
  }

  lemma UnicodeStep(d3: char, d2: char, d1: char, d0: char, rest: string, plus: bool)
    requires GoodEscape(Unicode(d3, d2, d1, d0))
    ensures DecodeStep(['%', 'u', d3, d2, d1, d0] + rest, plus) == (Meant(Unicode(d3, d2, d1, d0), plus), 6)
  {
    hide ToUtf8, HexValue;
    var s := ['%', 'u', d3, d2, d1, d0] + rest;
    var t := s[2..];
    assert t[0] == d3 && t[1] == d2 && t[2..][0] == d1 && t[2..][1] == d0;
    HexTwo(t, 4, 0);
    HexTwo(t[2..], 2, HexValue(d3).value * 16 + HexValue(d2).value);
  }

  lemma DecodeEscape(e: Escape, rest: string, plus: bool)
    requires GoodEscape(e)
    ensures Decode(Written(e) + rest, plus) == Meant(e, plus) + Decode(rest, plus)
  {
    hide ToUtf8, HexValue, HexPrefix;
    var w := Written(e);
    var s := w + rest;
    assert s[|w|..] == rest;
    match e
    case Itself(c) =>
    case Plus =>
    case Octet(hi, lo) => OctetStep(hi, lo, rest, plus);
    case Unicode(d3, d2, d1, d0) => UnicodeStep(d3, d2, d1, d0, rest, plus);
  }

  lemma HexIsNotU(c: char)
    requires IsHex(c)
    ensures c != 'u'
  {}

  /** decode_url reads every text made of such units as what they mean: digits of either letter case, %uXXXX
      as the bytes of the code, and a plus sign as a blank where a form is read and as itself elsewhere. */
  lemma {:induction false} DecodeReadsEscapes(es: seq<Escape>, plus: bool)
    requires forall i :: 0 <= i < |es| ==> GoodEscape(es[i])
    ensures Decode(WrittenAll(es), plus) == MeantAll(es, plus)
  {
    hide Decode, Written, Meant, GoodEscape;
    if es == [] {
      assert Decode([], plus) == [] by { DecodeNothing(plus); }
    } else {
      DecodeEscape(es[0], WrittenAll(es[1..]), plus);
      DecodeReadsEscapes(es[1..], plus);
    }
  }

  lemma DecodeNothing(plus: bool)
    ensures Decode([], plus) == []
  {}

  /** And a percent sign that begins no such unit stands for itself. */
  lemma LonePercent(rest: string, plus: bool)
    requires !(|rest| >= 2 && IsHex(rest[0]) && IsHex(rest[1]))
    requires !(|rest| >= 5 && rest[0] == 'u' && forall i :: 1 <= i < 5 ==> IsHex(rest[i]))
    ensures Decode("%" + rest, plus) == "%" + Decode(rest, plus)
  {
    hide ToUtf8, HexPrefix, IsHex;
    var s := "%" + rest;
    assert s[1..] == rest;
    HexExactly(rest, 2, 0);
    if rest != [] && rest[0] == 'u' {
      assert s[2..] == rest[1..];
      HexExactly(rest[1..], 4, 0);
      assert forall i :: 0 <= i < |rest| - 1 ==> rest[1..][i] == rest[i + 1];
    }
  }

  lemma {:induction false} HexExactly(s: string, cnt: nat, acc: nat)
    ensures HexPrefix(s, cnt, acc).Some? <==> cnt <= |s| && forall i :: 0 <= i < cnt ==> IsHex(s[i])
    decreases cnt
  {
    if cnt > 0 && s != [] && IsHex(s[0]) {
      var t := s[1..];
      HexExactly(t, cnt - 1, acc * 16 + HexValue(s[0]).value);
      assert forall i :: 0 <= i < |t| ==> t[i] == s[i + 1];
      assert cnt <= |s| && (forall i :: 0 <= i < cnt - 1 ==> IsHex(t[i])) ==> forall i :: 0 <= i < cnt ==> IsHex(s[i]) by {
        assert forall i :: 1 <= i < |s| ==> s[i] == t[i - 1];
      }
    }
  }

  // ----- query strings ------------------------------------------------------

  type Param = (string, string)

  /** std::less on byte strings. */
  predicate Less(a: string, b: string) {
    if b == [] then false
    else if a == [] then true
    else if a[0] != b[0] then a[0] < b[0]
    else Less(a[1..], b[1..])
  }

  /** A multimap in iteration order: keys never descend. */
  predicate Ordered(ps: seq<Param>) {
    forall i :: 0 < i < |ps| ==> !Less(ps[i].0, ps[i - 1].0)
  }

  /** multimap::emplace: a new pair goes after the pairs whose key is not greater. */
  function Emplace(ps: seq<Param>, p: Param): seq<Param> {
    if ps == [] || !Less(p.0, ps[|ps| - 1].0) then ps + [p]
    else Emplace(ps[..|ps| - 1], p) + [ps[|ps| - 1]]
  }

  function PairText(p: Param): string
    requires IsBytes(p.1)
  {
    p.0 + "=" + Encode(p.1)
  }

  function QueryText(ps: seq<Param>): string
    requires forall i :: 0 <= i < |ps| ==> IsBytes(ps[i].1)
    decreases |ps|, 0
  {
    if ps == [] then [] else PairText(ps[0]) + QueryTail(ps[1..])
  }

  function QueryTail(ps: seq<Param>): string
    requires forall i :: 0 <= i < |ps| ==> IsBytes(ps[i].1)
    decreases |ps|, 1
  {
    if ps == [] then [] else "&" + QueryText(ps)
  }

  method ParamsToQuery(ps: seq<Param>) returns (query: string)
    requires forall i :: 0 <= i < |ps| ==> IsBytes(ps[i].1)
    ensures query == QueryText(ps)
  {
    query := [];
    for i := 0 to |ps|
      invariant i == 0 ==> query == []
      invariant i > 0 ==> query + QueryTail(ps[i..]) == QueryText(ps)
    {
      ghost var rest := ps[i..];
      assert rest[1..] == ps[i + 1..] && rest[0] == ps[i];
      assert i == 0 ==> rest == ps;
      if i != 0 {
        Assoc(query, "&", QueryText(rest));
        query := query + "&";
      }
      Assoc(query, PairText(ps[i]), QueryTail(rest[1..]));
      var e := EncodeQueryParam(ps[i].1);
      Assoc(query, ps[i].0, "=");
      Assoc(query, ps[i].0 + "=", e);
      query := query + ps[i].0 + "=" + e;
    }
    assert ps[|ps|..] == [];
  }

  /** What parsing adds for one trimmed k=v text not seen before. */
  function AddPair(ps: seq<Param>, kv: string): seq<Param> {
    var (k, v) := KeyValue(kv);
    if k == [] then ps else Emplace(ps, (Decode(k, true), Decode(v, true)))
  }

  function AddPairs(ps: seq<Param>, seen: set<string>, kvs: seq<string>): seq<Param>
    decreases |kvs|
  {
    if kvs == [] then ps
    else if kvs[0] in seen then AddPairs(ps, seen, kvs[1..])
    else AddPairs(AddPair(ps, kvs[0]), seen + {kvs[0]}, kvs[1..])
  }

  function ParseQuery(s: string): seq<Param> {
    AddPairs([], {}, Pieces([], s, '&'))
  }

  method ParseQueryText(s: string) returns (params: seq<Param>)
    ensures params == ParseQuery(s)
  {
    params := [];
    var cache: set<string> := {};
    var kvs := Split(s, '&');
    for i := 0 to |kvs|
      invariant AddPairs(params, cache, kvs[i..]) == ParseQuery(s)
    {
      assert kvs[i..][1..] == kvs[i + 1..];
      if kvs[i] !in cache {
        cache := cache + {kvs[i]};
        var key, val := SplitKeyValue(kvs[i]);
        if key != [] {
          var k := DecodeUrl(key, true);
          var v := DecodeUrl(val, true);
          params := Emplace(params, (k, v));
        }
      }
    }
    assert kvs[|kvs|..] == [];
  }

  /** The keys that survive: nonempty, free of '&' and '=', trimmed, and unchanged by decoding. */
  predicate PlainKey(k: string) {
    k != [] && '&' !in k && '=' !in k && Trimmed(k) && Decode(k, true) == k
  }

  /** Keys made without '%', '+' and blanks are plain. */
  lemma {:induction false} SimpleKeysArePlain(k: string)
    requires k != [] && '&' !in k && '=' !in k && '%' !in k && '+' !in k && ' ' !in k && '\t' !in k
    ensures PlainKey(k)
  {
    DecodeIsIdentity(k);
  }

  lemma {:induction false} DecodeIsIdentity(k: string)
    requires '%' !in k && '+' !in k
    ensures Decode(k, true) == k
  {
    if k != [] {
      DecodeIsIdentity(k[1..]);
    }
  }

  lemma EncodedIsClean(v: string)
    requires IsBytes(v)
    ensures Trimmed(Encode(v)) && '=' !in Encode(v) && '&' !in Encode(v)
  {
    hide Encode;
    EncodedAlphabet(v);
    var e := Encode(v);
    assert e != [] ==> e[0] in e && e[|e| - 1] in e;
  }

  lemma PairTextParses(p: Param)
    requires IsBytes(p.1) && PlainKey(p.0)
    ensures '&' !in PairText(p) && Keep(PairText(p)) == [PairText(p)]
    ensures KeyValue(PairText(p)) == (p.0, Encode(p.1))
    ensures Decode(Encode(p.1), true) == p.1
  {
    EncodedIsClean(p.1);
    KeyValueOf(p.0, Encode(p.1));
    TrimKeeps(PairText(p));
    DecodeInvertsEncode(p.1, true);
  }

  ghost predicate PlainParams(ps: seq<Param>) {
    forall i :: 0 <= i < |ps| ==> IsBytes(ps[i].1) && PlainKey(ps[i].0)
  }

  function PairTexts(ps: seq<Param>): (r: seq<string>)
    requires forall i :: 0 <= i < |ps| ==> IsBytes(ps[i].1)
    ensures |r| == |ps| && forall i :: 0 <= i < |r| ==> r[i] == PairText(ps[i])
  {
    if ps == [] then [] else [PairText(ps[0])] + PairTexts(ps[1..])
  }

  lemma {:induction false} QueryPieces(ps: seq<Param>)
    requires PlainParams(ps)
    ensures Pieces([], QueryText(ps), '&') == PairTexts(ps)
  {
    if ps == [] {
    } else {
      PairTextParses(ps[0]);
      var t := PairText(ps[0]);
      assert [] + t == t;
      if |ps| == 1 {
        PiecesWhole([], t, '&');
        assert PairTexts(ps[1..]) == [] && QueryText(ps) == t;
      } else {
        Assoc(t, "&", QueryText(ps[1..]));
        PiecesCut([], t, QueryText(ps[1..]), '&');
        QueryPieces(ps[1..]);
      }
    }
  }

  /** Equal texts come from equal pairs. */
  lemma PairTextInjective(p: Param, q: Param)
    requires IsBytes(p.1) && PlainKey(p.0) && IsBytes(q.1) && PlainKey(q.0)
    requires PairText(p) == PairText(q)
    ensures p == q
  {
    PairTextParses(p);
    PairTextParses(q);
  }

  lemma AddPlainPair(ps: seq<Param>, n: nat)
    requires n < |ps| && Ordered(ps) && IsBytes(ps[n].1) && PlainKey(ps[n].0)
    ensures AddPair(ps[..n], PairText(ps[n])) == ps[..n + 1]
  {
    PairTextParses(ps[n]);
    assert n > 0 ==> ps[..n][n - 1] == ps[n - 1];
    assert ps[..n] + [ps[n]] == ps[..n + 1];
  }

  lemma {:induction false} AddPairsAppends(ps: seq<Param>, n: nat, seen: set<string>)
    requires PlainParams(ps) && Ordered(ps) && Distinct(ps) && n <= |ps|
    requires forall t :: t in seen ==> exists i :: 0 <= i < n && t == PairText(ps[i])
    ensures AddPairs(ps[..n], seen, PairTexts(ps[n..])) == ps
    decreases |ps| - n
  {
    hide PlainKey, PairText, AddPair, IsBytes, Ordered;
    var kvs := PairTexts(ps[n..]);
    if n == |ps| {
      assert ps[..n] == ps;
    } else {
      assert ps[n..][1..] == ps[n + 1..];
      var t := PairText(ps[n]);
      assert kvs[0] == t && kvs[1..] == PairTexts(ps[n + 1..]);
      forall i | 0 <= i < n ensures PairText(ps[i]) != t {
        if PairText(ps[i]) == t { PairTextInjective(ps[i], ps[n]); }
      }
      AddPlainPair(ps, n);
      AddPairsAppends(ps, n + 1, seen + {t});
    }
  }

  lemma AddPairsCount(ps: seq<Param>, seen: set<string>, kvs: seq<string>)
    ensures |AddPairs(ps, seen, kvs)| <= |ps| + |kvs|
    ensures (exists i, j :: 0 <= i < j < |kvs| && kvs[i] == kvs[j]) || (exists i :: 0 <= i < |kvs| && kvs[i] in seen)
            ==> |AddPairs(ps, seen, kvs)| < |ps| + |kvs|
    decreases |kvs|
  {
    if kvs != [] {
      EmplaceCount(ps, (Decode(KeyValue(kvs[0]).0, true), Decode(KeyValue(kvs[0]).1, true)));
      if kvs[0] in seen {
        AddPairsCount(ps, seen, kvs[1..]);
      } else {
        AddPairsCount(AddPair(ps, kvs[0]), seen + {kvs[0]}, kvs[1..]);
        if i, j :| 0 <= i < j < |kvs| && kvs[i] == kvs[j] {
          if i == 0 {
            assert kvs[1..][j - 1] in seen + {kvs[0]};
          } else {
            assert kvs[1..][i - 1] == kvs[1..][j - 1];
          }
        } else if i :| 0 <= i < |kvs| && kvs[i] in seen {
          assert kvs[1..][i - 1] in seen + {kvs[0]};
        }
      }
    }
  }

  lemma EmplaceCount(ps: seq<Param>, p: Param)
    ensures |Emplace(ps, p)| == |ps| + 1
  {}

  /** Over plain keys, a multimap survives the trip through a query string exactly when no
      pair occurs twice: repeated k=v texts are parsed once. */
  lemma QueryRoundTrip(ps: seq<Param>)
    requires PlainParams(ps) && Ordered(ps)
    ensures ParseQuery(QueryText(ps)) == ps <==> Distinct(ps)
  {
    hide QueryText, AddPairs, Pieces, PlainKey;
    QueryPieces(ps);
    if Distinct(ps) {
      assert ps[..0] == [] && ps[0..] == ps;
      AddPairsAppends(ps, 0, {});
    } else {
      var i, j :| 0 <= i < j < |ps| && ps[i] == ps[j];
      var kvs := PairTexts(ps);
      assert kvs[i] == kvs[j];
      AddPairsCount([], {}, kvs);
    }
  }

  // ----- parsing in any order ----------------------------------------------------

  /** std::less compares byte by byte: at the first difference, or by length. */
  lemma LessIsLexicographic(a: string, b: string)
    ensures Less(a, b) <==> exists k :: 0 <= k < |b| && k <= |a| && a[..k] == b[..k] && (k == |a| || a[k] < b[k])
  {
    if Less(a, b) {
      var k := LessAt(a, b);
    }
    if k :| 0 <= k < |b| && k <= |a| && a[..k] == b[..k] && (k == |a| || a[k] < b[k]) {
      LessFrom(a, b, k);
    }
  }

  lemma {:induction false} LessAt(a: string, b: string) returns (k: nat)
    requires Less(a, b)
    ensures k < |b| && k <= |a| && a[..k] == b[..k] && (k == |a| || a[k] < b[k])
  {
    if a == [] || a[0] != b[0] {
      k := 0;
    } else {
      var j := LessAt(a[1..], b[1..]);
      k := j + 1;
      assert a[..k] == [a[0]] + a[1..][..j] && b[..k] == [b[0]] + b[1..][..j];
    }
  }

  lemma {:induction false} LessFrom(a: string, b: string, k: nat)
    requires k < |b| && k <= |a| && a[..k] == b[..k] && (k == |a| || a[k] < b[k])
    ensures Less(a, b)
    decreases k
  {
    if k > 0 {
      assert a[0] == a[..k][0] == b[..k][0] == b[0];
      assert a[1..][..k - 1] == a[..k][1..] && b[1..][..k - 1] == b[..k][1..];
      LessFrom(a[1..], b[1..], k - 1);
    }
  }

  /** Keys are comparable and the order is strict. */
  lemma {:induction false} LessIsStrict(a: string, b: string)
    ensures !(Less(a, b) && Less(b, a)) && (!Less(a, b) && !Less(b, a) ==> a == b)
  {
    if a != [] && b != [] && a[0] == b[0] {
      LessIsStrict(a[1..], b[1..]);
      assert a == [a[0]] + a[1..] && b == [b[0]] + b[1..];
    }
  }

  lemma {:induction false} LessIsTransitive(a: string, b: string, c: string)
    requires !Less(b, a) && !Less(c, b)
    ensures !Less(c, a)
  {
    if a != [] && c != [] && a[0] == c[0] && b != [] && a[0] == b[0] {
      LessIsTransitive(a[1..], b[1..], c[1..]);
    }
  }

  /** The pairs with the given key, in order. */
  function PairsOf(ps: seq<Param>, key: string): seq<Param> {
    if ps == [] then []
    else PairsOf(ps[..|ps| - 1], key) + if ps[|ps| - 1].0 == key then [ps[|ps| - 1]] else []
  }

  lemma PairsOfAppend(ps: seq<Param>, p: Param, key: string)
    ensures PairsOf(ps + [p], key) == PairsOf(ps, key) + if p.0 == key then [p] else []
  {
    assert (ps + [p])[..|ps|] == ps;
  }

  /** Inserting keeps the keys sorted and goes behind the pairs with the same key. */
  lemma {:induction false} EmplaceSorts(ps: seq<Param>, p: Param)
    requires Ordered(ps)
    ensures Ordered(Emplace(ps, p)) && Emplace(ps, p) != []
    ensures var last := Emplace(ps, p)[|Emplace(ps, p)| - 1]; last == p || (ps != [] && last == ps[|ps| - 1])
    decreases |ps|
  {
    if ps != [] && Less(p.0, ps[|ps| - 1].0) {
      var n := |ps| - 1;
      EmplaceSorts(ps[..n], p);
      LessIsStrict(p.0, ps[n].0);
      var r := Emplace(ps[..n], p);
      assert n > 0 ==> ps[..n][n - 1] == ps[n - 1];
    }
  }

  lemma {:induction false} EmplaceAdds(ps: seq<Param>, p: Param, key: string)
    ensures PairsOf(Emplace(ps, p), key) == PairsOf(ps, key) + if p.0 == key then [p] else []
    decreases |ps|
  {
    hide PairsOf, Less;
    if ps == [] || !Less(p.0, ps[|ps| - 1].0) {
      PairsOfAppend(ps, p, key);
    } else {
      var n := |ps| - 1;
      EmplaceAdds(ps[..n], p, key);
      PairsOfAppend(Emplace(ps[..n], p), ps[n], key);
      LessIsStrict(p.0, ps[n].0);
      assert ps == ps[..n] + [ps[n]];
      PairsOfAppend(ps[..n], ps[n], key);
      if ps[n].0 == key { Assoc(PairsOf(ps[..n], key), [], [ps[n]]); }
    }
  }

  /** The pairs without those that occurred before. */
  function Once(ps: seq<Param>): seq<Param> {
    if ps == [] then []
    else
      var n := |ps| - 1;
      Once(ps[..n]) + if ps[n] in ps[..n] then [] else [ps[n]]
  }

  ghost predicate SeenAre(seen: set<string>, ps: seq<Param>, n: nat)
    requires PlainParams(ps) && n <= |ps|
  {
    forall t :: t in seen <==> exists i :: 0 <= i < n && t == PairText(ps[i])
  }

  lemma SeenMeans(seen: set<string>, ps: seq<Param>, n: nat)
    requires PlainParams(ps) && n < |ps| && SeenAre(seen, ps, n)
    ensures PairText(ps[n]) in seen <==> ps[n] in ps[..n]
  {
    hide PlainKey, PairText, IsBytes;
    if PairText(ps[n]) in seen {
      var i :| 0 <= i < n && PairText(ps[n]) == PairText(ps[i]);
      PairTextInjective(ps[i], ps[n]);
      assert ps[..n][i] == ps[n];
    }
    if ps[n] in ps[..n] {
      var i :| 0 <= i < n && ps[..n][i] == ps[n];
      assert PairText(ps[n]) == PairText(ps[i]);
    }
  }

  lemma SeenNext(seen: set<string>, ps: seq<Param>, n: nat)
    requires PlainParams(ps) && n < |ps| && SeenAre(seen, ps, n)
    ensures SeenAre(seen + {PairText(ps[n])}, ps, n + 1)
    ensures PairText(ps[n]) in seen ==> SeenAre(seen, ps, n + 1)
  {
    hide PlainKey, PairText, IsBytes;
  }

  lemma OnceNext(ps: seq<Param>, n: nat)
    requires n < |ps|
    ensures Once(ps[..n + 1]) == Once(ps[..n]) + if ps[n] in ps[..n] then [] else [ps[n]]
  {
    assert ps[..n + 1][..n] == ps[..n];
  }

  /** What has been read so far: sorted, and for each key the pairs of the text, each once and in order. */
  ghost predicate Holds(acc: seq<Param>, ps: seq<Param>, n: nat)
    requires n <= |ps|
  {
    Ordered(acc) && forall key :: PairsOf(acc, key) == PairsOf(Once(ps[..n]), key)
  }

  lemma HoldsNext(acc: seq<Param>, ps: seq<Param>, n: nat)
    requires PlainParams(ps) && n < |ps| && Holds(acc, ps, n)
    ensures if ps[n] in ps[..n] then Holds(acc, ps, n + 1) else Holds(AddPair(acc, PairText(ps[n])), ps, n + 1)
  {
    hide PlainKey, PairText, IsBytes, Ordered, Once, Emplace, PairsOf;
    OnceNext(ps, n);
    if ps[n] in ps[..n] {
      assert Once(ps[..n]) + [] == Once(ps[..n]);
    } else {
      PairTextParses(ps[n]);
      PlainIsItself(ps[n].0);
      assert AddPair(acc, PairText(ps[n])) == Emplace(acc, ps[n]);
      EmplaceSorts(acc, ps[n]);
      forall key ensures PairsOf(Emplace(acc, ps[n]), key) == PairsOf(Once(ps[..n + 1]), key) {
        EmplaceAdds(acc, ps[n], key);
        PairsOfAppend(Once(ps[..n]), ps[n], key);
      }
    }
  }

  lemma PlainIsItself(k: string)
    requires PlainKey(k)
    ensures k != [] && Decode(k, true) == k
  {}

  lemma {:induction false} AddPairsHold(acc: seq<Param>, seen: set<string>, ps: seq<Param>, n: nat)
    requires PlainParams(ps) && n <= |ps| && Holds(acc, ps, n) && SeenAre(seen, ps, n)
    ensures Holds(AddPairs(acc, seen, PairTexts(ps[n..])), ps, |ps|)
    decreases |ps| - n
  {
    hide PlainKey, PairText, IsBytes, Holds, SeenAre, AddPair;
    if n < |ps| {
      assert ps[n..][1..] == ps[n + 1..] && ps[n..][0] == ps[n];
      assert PairTexts(ps[n..])[0] == PairText(ps[n]) && PairTexts(ps[n..])[1..] == PairTexts(ps[n + 1..]);
      SeenMeans(seen, ps, n);
      SeenNext(seen, ps, n);
      HoldsNext(acc, ps, n);
      if ps[n] in ps[..n] {
        AddPairsHold(acc, seen, ps, n + 1);
      } else {
        AddPairsHold(AddPair(acc, PairText(ps[n])), seen + {PairText(ps[n])}, ps, n + 1);
      }
    }
  }

  /** The query text of any pairs with plain keys, in whatever order, is parsed into a multimap: keys sorted,
      and for each key its pairs in the order of the text, repeated pairs once. */
  lemma QueryIsAMultimap(ps: seq<Param>)
    requires PlainParams(ps)
    ensures var r := ParseQuery(QueryText(ps)); Ordered(r) && forall key :: PairsOf(r, key) == PairsOf(Once(ps), key)
  {
    hide PlainKey, IsBytes, AddPairs, Pieces, QueryText;
    QueryPieces(ps);
    assert ps[0..] == ps && ps[..0] == [] && ps[..|ps|] == ps;
    AddPairsHold([], {}, ps, 0);
  }
}
