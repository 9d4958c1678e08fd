/**
 The 64-bit log entries of microprofile: two bits of kind, fourteen bits of timer index,
 forty-eight bits of tick (externals/microprofile/microprofile.h).
 */
module ProfilerEntry {
  import opened Numbers

  const TWO_14 := 0x4000
  const TWO_47 := 0x8000_0000_0000
  const TWO_48 := 0x1_0000_0000_0000
  const TWO_62 := 0x4000_0000_0000_0000
  const TWO_63 := 0x8000_0000_0000_0000

  const LOG_LEAVE := 0
  const LOG_ENTER := 1

  type Entry = e: nat | e < TWO_64

  /** Fields of an entry: shifts and masks written as division and remainder. */
  function Kind(e: Entry): nat { e / TWO_62 }
  function Timer(e: Entry): nat { e / TWO_48 % TWO_14 }
  function Tick(e: Entry): nat { e % TWO_48 }

  function MakeEntry(kind: nat, token: nat, tick: int): (e: Entry)
    requires kind < 4
    ensures Kind(e) == kind && Timer(e) == token % TWO_14 && Tick(e) == tick % TWO_48
  {
    kind * TWO_62 + token % TWO_14 * TWO_48 + tick % TWO_48
  }

  function ToSigned64(x: nat): int
    requires x < TWO_64
  {
    if x < TWO_63 then x else x - TWO_64
  }

  /** Both entries shifted left by 16, subtracted modulo 2^64, taken as signed, shifted back. */
  function TickDifference(start: Entry, end: Entry): int {
    ToSigned64((end * TWO_16 % TWO_64 - start * TWO_16 % TWO_64) % TWO_64) / TWO_16
  }

  /** The representative of d modulo 2^48 that lies in [-2^47, 2^47). */
  function Wrap48(d: int): int {
    var r := d % TWO_48;
    if r < TWO_47 then r else r - TWO_48
  }

  lemma ShiftDropsHighBits(e: Entry)
    ensures e * TWO_16 % TWO_64 == Tick(e) * TWO_16
  {
    assert e == e / TWO_48 * TWO_48 + Tick(e);
    assert e * TWO_16 == e / TWO_48 * TWO_64 + Tick(e) * TWO_16;
  }

  lemma DifferenceOfTicks(start: Entry, end: Entry)
    ensures TickDifference(start, end) == Wrap48(Tick(end) - Tick(start))
  {
    ShiftDropsHighBits(start);
    ShiftDropsHighBits(end);
    var d := Tick(end) - Tick(start);
    assert (d * TWO_16) % TWO_64 == (d % TWO_48) * TWO_16;
  }

  /** The computed difference is the true number of ticks exactly when that number is below 2^47,
      however often the 48-bit tick counter has wrapped. */
  lemma TickDifferenceExact(kind: nat, token: nat, from: int, kind': nat, token': nat, to: int)
    requires kind < 4 && kind' < 4
    ensures TickDifference(MakeEntry(kind, token, from), MakeEntry(kind', token', to)) == to - from
            <==> -TWO_47 <= to - from < TWO_47
  {
    DifferenceOfTicks(MakeEntry(kind, token, from), MakeEntry(kind', token', to));
    hide TickDifference, MakeEntry;
    WrapOfDifference(from, to);
    Wrap48Exact(to - from);
  }

  lemma Wrap48Exact(d: int)
    ensures Wrap48(d) == d <==> -TWO_47 <= d < TWO_47
  {
    if -TWO_47 <= d < TWO_47 { assert d % TWO_48 == if d >= 0 then d else d + TWO_48; }
  }

  lemma WrapOfDifference(from: int, to: int)
    ensures Wrap48(to % TWO_48 - from % TWO_48) == Wrap48(to - from)
  {
    var q := to / TWO_48 - from / TWO_48;
    assert to - from == q * TWO_48 + (to % TWO_48 - from % TWO_48);
  }
}
