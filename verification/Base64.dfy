/**
 base64_encode (externals/httplib/httplib.h) with its 32-bit accumulator, against the
 encoding of section 4 of RFC 4648 and a decoder for it.
 */
module Base64 {
  import opened Numbers

  const UPPER: string := "ABCDEFGHIJKLMNOPQRSTUVWXYZ"
  const LOWER: string := "abcdefghijklmnopqrstuvwxyz"
  const OTHERS: string := "0123456789+/"

  type Digit = d: nat | d < 64

  // ----- the encoding ---------------------------------------------------------

  /** The four digits of a 24-bit group x y z. */
  function D1(x: Byte): Digit { x / 4 }
  function D2(x: Byte, y: Byte): Digit { x % 4 * 16 + y / 16 }
  function D3(y: Byte, z: Byte): Digit { y % 16 * 4 + z / 64 }
  function D4(z: Byte): Digit { z % 64 }

  /** The digits of RFC 4648, section 4, without padding: each group of 24 bits gives four; a last group of
      8 or 16 bits is filled with zero bits and gives two or three. */
  function Digits(s: seq<Byte>): (r: seq<Digit>)
    decreases |s|
  {
    if s == [] then []
    else if |s| == 1 then [D1(s[0]), D2(s[0], 0)]
    else if |s| == 2 then [D1(s[0]), D2(s[0], s[1]), D3(s[1], 0)]
    else [D1(s[0]), D2(s[0], s[1]), D3(s[1], s[2]), D4(s[2])] + Digits(s[3..])
  }

  function Padding(n: nat): string { if n % 3 == 0 then "" else if n % 3 == 1 then "==" else "=" }

  /** The character at index d of the lookup table. */
  function Symbol(d: Digit): char {
    if d < 26 then UPPER[d] else if d < 52 then LOWER[d - 26] else OTHERS[d - 52]
  }

  function Symbols(ds: seq<Digit>): (r: string)
    ensures |r| == |ds| && forall i :: 0 <= i < |ds| ==> r[i] == Symbol(ds[i])
  {
    seq(|ds|, i requires 0 <= i < |ds| => Symbol(ds[i]))
  }

  function Encoded(s: seq<Byte>): string { Symbols(Digits(s)) + Padding(|s|) }

  /** The digits complete after s, without the one that would flush pending bits. */
  function Complete(s: seq<Byte>): (r: seq<Digit>)
    decreases |s|
  {
    if s == [] then []
    else if |s| == 1 then [D1(s[0])]
    else if |s| == 2 then [D1(s[0]), D2(s[0], s[1])]
    else [D1(s[0]), D2(s[0], s[1]), D3(s[1], s[2]), D4(s[2])] + Complete(s[3..])
  }

  /** What one more byte completes. */
  function Next(s: seq<Byte>, b: Byte): seq<Digit> {
    if |s| % 3 == 0 then [D1(b)]
    else if |s| % 3 == 1 then [D2(s[|s| - 1], b)]
    else [D3(s[|s| - 1], b), D4(b)]
  }

  /** The digit that flushes what is pending. */
  function Flush(s: seq<Byte>): seq<Digit> {
    if |s| % 3 == 0 then [] else if |s| % 3 == 1 then [D2(s[|s| - 1], 0)] else [D3(s[|s| - 1], 0)]
  }

  lemma TailIsAlike(s: seq<Byte>, b: Byte)
    requires |s| >= 3
    ensures Next(s[3..], b) == Next(s, b) && Flush(s[3..]) == Flush(s)
  {
    hide D1, D2, D3, D4;
  }

  lemma {:induction false} CompleteNext(s: seq<Byte>, b: Byte)
    ensures Complete(s + [b]) == Complete(s) + Next(s, b)
    decreases |s|
  {
    hide D1, D2, D3, D4;
    var t := s + [b];
    if |s| < 3 {
      assert |s| == 2 ==> t[3..] == [];
    } else {
      assert t[3..] == s[3..] + [b];
      CompleteNext(s[3..], b);
      TailIsAlike(s, b);
    }
  }

  lemma {:induction false} FlushCompletes(s: seq<Byte>)
    ensures Digits(s) == Complete(s) + Flush(s)
    decreases |s|
  {
    hide D1, D2, D3, D4;
    if |s| >= 3 {
      FlushCompletes(s[3..]);
      TailIsAlike(s, 0);
    }
  }

  // ----- the loop ---------------------------------------------------------------

  /** val = (val << 8) + c in 32 bits. */
  function Shifted(val: int, c: Byte): int { Wrap32(Wrap32(val * 256) + c) }

  lemma Low8(x: int, q: int, r: int) requires x == q * 256 + r && 0 <= r < 256 ensures x % 256 == r {}
  lemma Low10(x: int, q: int, r: int) requires x == q * 1024 + r && 0 <= r < 1024 ensures x % 1024 == r {}
  lemma Low12(x: int, q: int, r: int) requires x == q * 4096 + r && 0 <= r < 4096 ensures x % 4096 == r {}

  /** A wrapped value differs from the true one by a multiple of 2^32. */
  lemma WrapOffset(x: int) returns (k: int)
    ensures Wrap32(x) == x + k * TWO_32
  {
    k := (Wrap32(x) - x) / TWO_32;
  }

  /** Bits shifted out are lost, but the bits still pending keep their place below the new byte. */
  lemma ShiftKeepsPending(val: int, c: Byte)
    ensures Shifted(val, c) % 256 == c
    ensures Shifted(val, c) % 1024 == val % 4 * 256 + c
    ensures Shifted(val, c) % 4096 == val % 16 * 256 + c
  {
    hide Wrap32;
    var k := WrapOffset(val * 256);
    var l := WrapOffset(Wrap32(val * 256) + c);
    var r, m := Shifted(val, c), k + l;
    assert r == val * 256 + c + m * TWO_32;
    Low8(r, val + m * 0x100_0000, c);
    Low10(r, val / 4 + m * 0x40_0000, val % 4 * 256 + c);
    Low12(r, val / 16 + m * 0x10_0000, val % 16 * 256 + c);
  }

  lemma FlushValue(val: int)
    ensures Wrap32(val * 256) / 16 % 64 == val % 4 * 16
    ensures Wrap32(val * 256) / 64 % 64 == val % 16 * 4
  {
    hide Wrap32;
    var k := WrapOffset(val * 256);
    var a := Wrap32(val * 256);
    Low10(a, val / 4 + k * 0x40_0000, val % 4 * 256);
    Low12(a, val / 16 + k * 0x10_0000, val % 16 * 256);
    SixBitsOfLow(a);
  }

  /** Six bits depend only on the low bits they are taken from. */
  lemma SixBitsOfLow(x: int)
    ensures x / 4 % 64 == x % 256 / 4 && x / 16 % 64 == x % 1024 / 16 && x / 64 % 64 == x % 4096 / 64
    ensures x % 4 == x % 256 % 4 && x % 16 == x % 256 % 16 && x % 64 == x % 256 % 64
  {
    Bits2To8(x, x / 256, x % 256);
    Bits4To10(x, x / 1024, x % 1024);
    Bits6To12(x, x / 4096, x % 4096);
  }

  lemma Bits2To8(x: int, q: int, r: nat)
    requires x == q * 256 + r && r < 256
    ensures x / 4 % 64 == r / 4 && x % 4 == r % 4 && x % 16 == r % 16 && x % 64 == r % 64
  {
    Quotient4(x, q, r);
    Low2(x, q * 64, r);
    Low4(x, q * 16, r);
    Low6(x, q * 4, r);
  }

  lemma Quotient4(x: int, q: int, r: nat) requires x == q * 256 + r && r < 256 ensures x / 4 % 64 == r / 4 {
    assert x / 4 == q * 64 + r / 4;
  }
  lemma Low2(x: int, q: int, r: int) requires x == q * 4 + r ensures x % 4 == r % 4 {}
  lemma Low4(x: int, q: int, r: int) requires x == q * 16 + r ensures x % 16 == r % 16 {}
  lemma Low6(x: int, q: int, r: int) requires x == q * 64 + r ensures x % 64 == r % 64 {}

  lemma Bits4To10(x: int, q: int, r: nat)
    requires x == q * 1024 + r && r < 1024
    ensures x / 16 % 64 == r / 16
  {
    assert x / 16 == q * 64 + r / 16;
  }

  lemma Bits6To12(x: int, q: int, r: nat)
    requires x == q * 4096 + r && r < 4096
    ensures x / 64 % 64 == r / 64
  {
    assert x / 64 == q * 64 + r / 64;
  }

  /** (x >> n) & 0x3F, for the shifts that occur. */
  function SixBits(x: int, n: nat): Digit
    requires n == 0 || n == 2 || n == 4 || n == 6
  {
    (if n == 0 then x else if n == 2 then x / 4 else if n == 4 then x / 16 else x / 64) % 64
  }

  /** The accumulator after the bytes s: its low bits are the pending ones, whatever is above them. */
  ghost predicate Accumulates(val: int, valb: int, s: seq<Byte>) {
    && valb == |s| % 3 * 2 - 6
    && (|s| % 3 == 1 ==> val % 4 == s[|s| - 1] % 4) && (|s| % 3 == 2 ==> val % 16 == s[|s| - 1] % 16)
  }

  lemma Accumulate(val: int, valb: int, s: seq<Byte>, c: Byte)
    requires Accumulates(val, valb, s)
    ensures var v := Shifted(val, c);
            && (|s| % 3 == 0 ==> [SixBits(v, 2)] == Next(s, c))
            && (|s| % 3 == 1 ==> [SixBits(v, 4)] == Next(s, c))
            && (|s| % 3 == 2 ==> [SixBits(v, 6), SixBits(v, 0)] == Next(s, c))
            && Accumulates(v, (|s| + 1) % 3 * 2 - 6, s + [c])
  {
    ShiftKeepsPending(val, c);
    SixBitsOfLow(Shifted(val, c));
    hide Shifted;
    assert (s + [c])[|s|] == c;
  }

  method Base64Encode(input: seq<Byte>) returns (out: string)
    ensures out == Encoded(input)
  {
    hide Symbols, Symbol, Shifted, SixBits, Complete, Digits, Next;
    var ds: seq<Digit> := [];
    var val, valb := 0, -6;
    NothingYet();
    for i := 0 to |input|
      invariant Accumulates(val, valb, input[..i]) && ds == Complete(input[..i])
    {
      ghost var s := input[..i];
      assert input[..i + 1] == s + [input[i]];
      Accumulate(val, valb, s, input[i]);
      CompleteNext(s, input[i]);
      val := Shifted(val, input[i]);
      valb := valb + 8;
      ghost var first := valb;
      ghost var before := ds;
      while valb >= 0
        invariant first == |s| % 3 * 2 + 2
        invariant valb == first || (valb == first - 6 && ds == before + [SixBits(val, first)])
                  || (first == 6 && valb == -6 && ds == before + [SixBits(val, 6)] + [SixBits(val, 0)])
        invariant valb == first ==> ds == before
      {
        ds := ds + [SixBits(val, valb)];
        valb := valb - 6;
      }
      assert ds == before + Next(s, input[i]);
    }
    assert input[..|input|] == input;
    FlushCompletes(input);
    if valb > -6 {
      FlushValue(val);
      ds := ds + [if valb == -4 then Wrap32(val * 256) / 16 % 64 else Wrap32(val * 256) / 64 % 64];
    } else {
      assert ds + [] == ds;
    }
    assert ds == Digits(input);
    DigitCount(input);
    out := Symbols(ds);
    out := Pad(out, input);
  }

  lemma NothingYet()
    ensures Complete([]) == [] && Accumulates(0, -6, [])
  {}

  /** The padding loop. */
  method Pad(symbols: string, ghost input: seq<Byte>) returns (out: string)
    requires |symbols| == |Digits(input)|
    ensures out == symbols + Padding(|input|)
  {
    PaddedLength(input);
    hide Digits, Padding;
    ghost var goal := symbols + Padding(|input|);
    out := symbols;
    while |out| % 4 != 0
      invariant |symbols| <= |out| <= |goal| && out == goal[..|out|]
      decreases |goal| - |out|
    {
      assert goal[|out|] == Padding(|input|)[|out| - |symbols|];
      assert goal[..|out| + 1] == out + [goal[|out|]];
      out := out + "=";
    }
    OneMultiple(|out|, |goal|);
  }

  lemma PaddedLength(s: seq<Byte>)
    ensures (|Digits(s)| + |Padding(|s|)|) % 4 == 0 && |Padding(|s|)| < 4
    ensures forall i :: 0 <= i < |Padding(|s|)| ==> Padding(|s|)[i] == '='
  {
    DigitCount(s);
  }

  lemma OneMultiple(a: nat, b: nat)
    requires a % 4 == 0 && b % 4 == 0 && a <= b < a + 4
    ensures a == b
  {}

  lemma {:induction false} DigitCount(s: seq<Byte>)
    ensures |Digits(s)| == |s| / 3 * 4 + (if |s| % 3 == 0 then 0 else |s| % 3 + 1)
    decreases |s|
  {
    if |s| >= 3 {
      DigitCount(s[3..]);
      assert |s| / 3 == |s[3..]| / 3 + 1 && |s| % 3 == |s[3..]| % 3;
    }
  }

  /** The encoding of n bytes has 4 * ceil(n / 3) characters. */
  lemma EncodedLength(s: seq<Byte>)
    ensures |Encoded(s)| == (|s| + 2) / 3 * 4
  {
    hide Digits, Symbol;
    DigitCount(s);
  }

  // ----- decoding -----------------------------------------------------------------

  function DigitOf(c: char): nat {
    if 'A' <= c <= 'Z' then c as int - 'A' as int
    else if 'a' <= c <= 'z' then c as int - 'a' as int + 26
    else if '0' <= c <= '9' then c as int - '0' as int + 52
    else if c == '+' then 62
    else if c == '/' then 63
    else 64
  }

  function First(a: nat, b: nat): Byte requires a < 64 && b < 64 { a * 4 + b / 16 }
  function Second(b: nat, c: nat): Byte requires b < 64 && c < 64 { b % 16 * 16 + c / 4 }
  function Third(c: nat, d: nat): Byte requires c < 64 && d < 64 { c % 4 * 64 + d }

  /** Bytes of a digit sequence, four digits at a time. */
  function DecodeDigits(ds: seq<Digit>): seq<Byte>
    decreases |ds|
  {
    if |ds| < 2 then []
    else if |ds| == 2 then [First(ds[0], ds[1])]
    else if |ds| == 3 then [First(ds[0], ds[1]), Second(ds[1], ds[2])]
    else [First(ds[0], ds[1]), Second(ds[1], ds[2]), Third(ds[2], ds[3])] + DecodeDigits(ds[4..])
  }

  /** The digits of a text up to its padding. */
  function DigitsOf(text: string): seq<Digit> {
    if text == [] || DigitOf(text[0]) == 64 then [] else [DigitOf(text[0])] + DigitsOf(text[1..])
  }

  function Decoded(text: string): seq<Byte> { DecodeDigits(DigitsOf(text)) }

  lemma UpperAt(d: nat) requires d < 26 ensures UPPER[d] as int == 'A' as int + d {}
  lemma LowerAt(d: nat) requires d < 26 ensures LOWER[d] as int == 'a' as int + d {}
  lemma OthersAt(d: nat) requires d < 10 ensures OTHERS[d] as int == '0' as int + d {}

  /** The three parts make up one table. */
  lemma SymbolIsLookup(d: Digit)
    ensures (UPPER + LOWER + OTHERS)[d] == Symbol(d)
  {
    LookupAt(UPPER, LOWER, OTHERS, d);
  }

  lemma LookupAt(a: string, b: string, c: string, d: nat)
    requires d < |a| + |b| + |c|
    ensures (a + b + c)[d] == if d < |a| then a[d] else if d < |a| + |b| then b[d - |a|] else c[d - |a| - |b|]
  {}

  lemma LookupInverse(d: Digit)
    ensures DigitOf(Symbol(d)) == d
  {
    if d < 26 {
      UpperAt(d);
    } else if d < 52 {
      LowerAt(d - 26);
    } else if d < 62 {
      OthersAt(d - 52);
    }
  }

  lemma PaddingIsNoDigit()
    ensures DigitOf('=') == 64
  {}

  lemma {:induction false} DigitsOfSymbols(ds: seq<Digit>, pad: string)
    requires pad == [] || pad[0] == '='
    ensures DigitsOf(Symbols(ds) + pad) == ds
  {
    hide Symbol, DigitOf;
    var text := Symbols(ds) + pad;
    if ds == [] {
      PaddingIsNoDigit();
      assert text == pad;
    } else {
      LookupInverse(ds[0]);
      assert text[1..] == Symbols(ds[1..]) + pad;
      DigitsOfSymbols(ds[1..], pad);
    }
  }

  lemma GroupInverts(x: Byte, y: Byte, z: Byte)
    ensures First(D1(x), D2(x, y)) == x && Second(D2(x, y), D3(y, z)) == y && Third(D3(y, z), D4(z)) == z
  {}

  lemma {:induction false} DecodeDigitsInverts(s: seq<Byte>)
    ensures DecodeDigits(Digits(s)) == s
    decreases |s|
  {
    hide D1, D2, D3, D4, First, Second, Third;
    if |s| == 1 {
      GroupInverts(s[0], 0, 0);
    } else if |s| == 2 {
      GroupInverts(s[0], s[1], 0);
    } else if |s| >= 3 {
      GroupInverts(s[0], s[1], s[2]);
      DecodeDigitsInverts(s[3..]);
      assert Digits(s)[4..] == Digits(s[3..]);
      assert s == [s[0], s[1], s[2]] + s[3..];
    }
  }

  /** A decoder recovers every byte string from its encoding. */
  lemma DecodedEncoded(s: seq<Byte>)
    ensures Decoded(Encoded(s)) == s
  {
    DigitsOfSymbols(Digits(s), Padding(|s|));
    DecodeDigitsInverts(s);
  }
}
