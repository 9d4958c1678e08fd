/**
 Option parsing with permutation (externals/getopt/getopt.c, the narrow-character half).

 `GetoptData` and the array of arguments are updated in place as in the original.  The
 pure functions of the first half describe how one option element is read; they see
 only the arguments from the current one on.
 */
module Getopt {
  import opened Numbers
  import opened Sequences
  import opened Text

  datatype Ordering = RequireOrder | Permute | ReturnInOrder

  /** flag stands for the address of the variable to set, when there is one. */
  datatype LongOption = LongOption(name: string, hasArg: int, flag: Option<int>, val: int)

  /** optstring is the option string without its leading '-' or '+'. */
  datatype Config = Config(optstring: string, longopts: Option<seq<LongOption>>, longOnly: bool)

  /** With long_only, -1 is how process_long_option says that the text is no long option: after an option that
      returns -1 the original goes on to read the argument behind it, which need not exist. */
  ghost predicate ValidConfig(cfg: Config) {
    cfg.longOnly && cfg.longopts.Some? ==> forall o :: o in cfg.longopts.value && o.flag.None? ==> o.val != -1
  }

  /** What one call reports; optopt, longind and flag are None when left as they were. */
  datatype Report = Report(code: int, optarg: Option<string>, optopt: Option<int>,
                           longind: Option<nat>, flag: Option<(int, int)>)

  function Plain(code: int, optarg: Option<string>): Report { Report(code, optarg, None, None, None) }
  function Complaint(code: int, optopt: int): Report { Report(code, None, Some(optopt), None, None) }

  const QUESTION := '?' as int
  const COLON := ':' as int

  /** How reading one option went: the report, how many arguments it used up, and the unread rest
      of the current argument.  Fallback: not a long option after all, try it as a short one. */
  datatype Reading = Reading(report: Report, used: nat, next: Option<string>) | Fallback

  predicate Pending(next: Option<string>) { next.Some? && next.value != [] }

  /** C indexing: the character after the end is NUL. */
  function At(s: string, i: nat): char { if i < |s| then s[i] else '\0' }

  function MissingArgument(cfg: Config): int { if At(cfg.optstring, 0) == ':' then COLON else QUESTION }

  // ----- long options -------------------------------------------------------

  function Exact(opts: seq<LongOption>, name: string): (k: nat)
    ensures k <= |opts| && (k < |opts| ==> opts[k].name == name)
    ensures forall j :: 0 <= j < k ==> opts[j].name != name
  {
    if opts == [] || opts[0].name == name then 0 else 1 + Exact(opts[1..], name)
  }

  function FirstAbbreviated(opts: seq<LongOption>, name: string): (k: nat)
    ensures k <= |opts| && (k < |opts| ==> name <= opts[k].name)
    ensures forall j :: 0 <= j < k ==> !(name <= opts[j].name)
  {
    if opts == [] || name <= opts[0].name then 0 else 1 + FirstAbbreviated(opts[1..], name)
  }

  predicate SameEffect(a: LongOption, b: LongOption) {
    a.hasArg == b.hasArg && a.flag == b.flag && a.val == b.val
  }

  /** Some later option is abbreviated by name as well and differs from the first. */
  predicate Ambiguous(opts: seq<LongOption>, name: string, longOnly: bool) {
    var k := FirstAbbreviated(opts, name);
    exists j :: k < j < |opts| && name <= opts[j].name && (longOnly || !SameEffect(opts[k], opts[j]))
  }

  /** process_long_option: rest is argv[optind..], next the text after the dashes. */
  function ReadLong(cfg: Config, rest: seq<string>, next: string, longOnly: bool): (r: Reading)
    requires cfg.longopts.Some? && rest != [] && (longOnly ==> |rest[0]| > 1)
    ensures r.Fallback? ==> longOnly && rest[0][1] != '-'
    ensures r.Reading? ==> 1 <= r.used <= |rest| && !Pending(r.next)
  {
    var opts := cfg.longopts.value;
    var end := IndexOf(next, '=');
    var name := next[..end];
    var exact := Exact(opts, name);
    if exact == |opts| && Ambiguous(opts, name, longOnly) then Reading(Complaint(QUESTION, 0), 1, Some(""))
    else
      var k := if exact < |opts| then exact else FirstAbbreviated(opts, name);
      if k == |opts| then
        if !longOnly || rest[0][1] == '-' || (next != [] && next[0] !in cfg.optstring)
        then Reading(Complaint(QUESTION, 0), 1, None)
        else Fallback
      else if end < |next| && opts[k].hasArg == 0 then Reading(Complaint(QUESTION, opts[k].val), 1, None)
      else if end < |next| then Reading(Chosen(opts[k], k, Some(next[end + 1..])), 1, None)
      else if opts[k].hasArg == 1 then
        if |rest| > 1 then Reading(Chosen(opts[k], k, Some(rest[1])), 2, None)
        else Reading(Complaint(MissingArgument(cfg), opts[k].val), 1, None)
      else Reading(Chosen(opts[k], k, None), 1, None)
  }

  function Chosen(o: LongOption, k: nat, optarg: Option<string>): Report {
    match o.flag
    case None => Report(o.val, optarg, None, Some(k), None)
    case Some(f) => Report(0, optarg, None, Some(k), Some((f, o.val)))
  }

  // ----- short options ------------------------------------------------------

  /** One short option: next is the unread rest of rest[0], and not empty. */
  function ReadShort(cfg: Config, rest: seq<string>, next: string): (r: Reading)
    requires rest != [] && next != []
    ensures r.Reading? && r.used <= |rest|
    ensures r.used == 0 ==> Pending(r.next) && |r.next.value| < |next|
    ensures r.used > 0 ==> !Pending(r.next)
  {
    var c, more := next[0], next[1..];
    var step := if more == [] then 1 else 0;
    var t := IndexOf(cfg.optstring, c);
    if t == |cfg.optstring| || c == ':' || c == ';' then Reading(Complaint(QUESTION, c as int), step, Some(more))
    else if c == 'W' && At(cfg.optstring, t + 1) == ';' && cfg.longopts.Some? then
      if more != [] then ReadLong(cfg, rest, more, false)
      else if |rest| == 1 then Reading(Complaint(MissingArgument(cfg), c as int), 1, Some(""))
      else
        var r := ReadLong(cfg, rest[1..], rest[1], false);
        Reading(r.report, 1 + r.used, r.next)
    else if At(cfg.optstring, t + 1) != ':' then Reading(Plain(c as int, None), step, Some(more))
    else if more != [] then Reading(Plain(c as int, Some(more)), 1, None)
    else if At(cfg.optstring, t + 2) == ':' then Reading(Plain(c as int, None), 1, None)
    else if |rest| == 1 then Reading(Complaint(MissingArgument(cfg), c as int), 1, None)
    else Reading(Plain(c as int, Some(rest[1])), 2, None)
  }

  predicate IsOption(arg: string) { |arg| > 1 && arg[0] == '-' }

  /** A fresh option element, other than "--". */
  function ReadElement(cfg: Config, rest: seq<string>): (r: Reading)
    requires rest != [] && IsOption(rest[0])
    ensures r.Reading? && r.used <= |rest|
    ensures r.used == 0 ==> Pending(r.next) && |r.next.value| < |rest[0]|
    ensures r.used > 0 ==> !Pending(r.next)
  {
    var arg := rest[0];
    if cfg.longopts.Some? && arg[1] == '-' then ReadLong(cfg, rest, arg[2..], cfg.longOnly)
    else if cfg.longopts.Some? && cfg.longOnly && (|arg| > 2 || arg[1] !in cfg.optstring) then
      var r := ReadLong(cfg, rest, arg[1..], true);
      if r.Reading? then r else ReadShort(cfg, rest, arg[1..])
    else ReadShort(cfg, rest, arg[1..])
  }

  // ----- a plain scan -----------------------------------------------------------

  function Stripped(optstring: string): string {
    if At(optstring, 0) == '-' || At(optstring, 0) == '+' then optstring[1..] else optstring
  }

  function OrderingOf(optstring: string, posixlyCorrect: bool): Ordering {
    if At(optstring, 0) == '-' then ReturnInOrder
    else if At(optstring, 0) == '+' || posixlyCorrect then RequireOrder
    else Permute
  }

  /** How many arguments come before the next option element. */
  function Skip(args: seq<string>): (k: nat)
    ensures k <= |args| && (k < |args| ==> IsOption(args[k]))
    ensures forall j :: 0 <= j < k ==> !IsOption(args[j])
  {
    if args == [] || IsOption(args[0]) then 0 else 1 + Skip(args[1..])
  }

  /** The next event of a left-to-right scan of rest: either the options end, leaving more option
      elements and then operands, or skipped operands are followed by a reading. */
  datatype Event = End(opts: seq<string>, operands: seq<string>) | Hit(skipped: nat, reading: Reading)

  /** The event at the front of ahead, when no argument is half read and operands have been skipped. */
  function AheadEvent(cfg: Config, ord: Ordering, ahead: seq<string>, next: Option<string>): (e: Event)
    requires !Pending(next)
    ensures e.Hit? ==> e.skipped == 0 && e.reading.Reading? && ahead != [] && e.reading.used <= |ahead|
    ensures e.Hit? && Pending(e.reading.next) ==> e.reading.used == 0
  {
    if ahead == [] then End([], [])
    else if ahead[0] == "--" then End(["--"], ahead[1..])
    else if IsOption(ahead[0]) then Hit(0, ReadElement(cfg, ahead))
    else if ord.RequireOrder? then End([], ahead)
    else Hit(0, Reading(Plain(1, Some(ahead[0])), 1, next))
  }

  function NextEvent(cfg: Config, ord: Ordering, rest: seq<string>, next: Option<string>): (e: Event)
    requires Pending(next) ==> rest != []
    ensures e.Hit? ==> e.reading.Reading? && e.skipped + e.reading.used <= |rest|
    ensures e.Hit? && Pending(e.reading.next) ==> e.reading.used == 0 && e.skipped < |rest|
  {
    if Pending(next) then Hit(0, ReadShort(cfg, rest, next.value))
    else
      var k := Skipped(ord, rest);
      Behind(rest[..k], AheadEvent(cfg, ord, rest[k..], next))
  }

  /** The event seen from before the skipped operands. */
  function Behind(skipped: seq<string>, e: Event): Event {
    match e
    case End(opts, operands) => End(opts, skipped + operands)
    case Hit(_, r) => Hit(|skipped|, r)
  }

  function Skipped(ord: Ordering, rest: seq<string>): (k: nat)
    ensures k <= |rest|
  {
    if ord.Permute? then Skip(rest) else 0
  }

  /** Unread characters, counting one more for the end of each argument. */
  function Unread(rest: seq<string>, next: Option<string>): nat {
    if rest == [] then 0
    else (if Pending(next) then |next.value| else |rest[0]| + 1) + Unread(rest[1..], None)
  }

  lemma {:induction false} UnreadAfterDropping(rest: seq<string>, k: nat)
    requires k <= |rest|
    ensures Unread(rest[k..], None) <= Unread(rest, None) && (k > 0 ==> Unread(rest[k..], None) < Unread(rest, None))
    decreases k
  {
    if k == 0 {
      assert rest[0..] == rest;
    } else {
      assert rest[1..][k - 1..] == rest[k..];
      UnreadAfterDropping(rest[1..], k - 1);
    }
  }

  lemma NotPendingIsNone(rest: seq<string>, next: Option<string>)
    requires !Pending(next)
    ensures Unread(rest, next) == Unread(rest, None)
  {}

  /** A reading uses up arguments and leaves none half read, or leaves less of the current one. */
  ghost predicate Progress(rest: seq<string>, next: Option<string>, k: nat, r: Reading) {
    && r.Reading? && k + r.used <= |rest| && (Pending(next) ==> k == 0 && rest != [])
    && if r.used > 0 then !Pending(r.next)
       else Pending(r.next) && k < |rest| && |r.next.value| < if Pending(next) then |next.value| else |rest[k]| + 1
  }

  lemma HitProgresses(cfg: Config, ord: Ordering, rest: seq<string>, next: Option<string>)
    requires Pending(next) ==> rest != []
    ensures var e := NextEvent(cfg, ord, rest, next); e.Hit? ==> Progress(rest, next, e.skipped, e.reading)
  {
    hide ReadShort, ReadElement, Skip, IsOption;
    if !Pending(next) {
      var k := Skipped(ord, rest);
      var ahead := rest[k..];
      if ahead != [] { assert ahead[0] == rest[k]; }
    }
  }

  lemma ProgressConsumes(rest: seq<string>, next: Option<string>, k: nat, r: Reading)
    requires Progress(rest, next, k, r)
    ensures Unread(rest[k + r.used..], r.next) < Unread(rest, next)
  {
    if r.used == 0 {
      if Pending(next) {
        assert rest[0..] == rest;
      } else {
        NotPendingIsNone(rest, next);
        UnreadAfterDropping(rest, k);
      }
    } else {
      NotPendingIsNone(rest[k + r.used..], r.next);
      if Pending(next) {
        assert rest[1..][r.used - 1..] == rest[r.used..];
        UnreadAfterDropping(rest[1..], r.used - 1);
      } else {
        NotPendingIsNone(rest, next);
        UnreadAfterDropping(rest, k + r.used);
      }
    }
  }

  /** Every reading consumes characters, so a scan ends. */
  lemma HitConsumes(cfg: Config, ord: Ordering, rest: seq<string>, next: Option<string>)
    requires Pending(next) ==> rest != []
    ensures var e := NextEvent(cfg, ord, rest, next);
            e.Hit? ==> Unread(rest[e.skipped + e.reading.used..], e.reading.next) < Unread(rest, next)
  {
    hide NextEvent, Unread;
    HitProgresses(cfg, ord, rest, next);
    var e := NextEvent(cfg, ord, rest, next);
    if e.Hit? { ProgressConsumes(rest, next, e.skipped, e.reading); }
  }

  datatype Scanned = Scanned(reports: seq<Report>, opts: seq<string>, operands: seq<string>)

  /** The whole scan: the reports in order, the arguments that belong to options (and "--"), and the
      operands, each in their original order. */
  function Scan(cfg: Config, ord: Ordering, rest: seq<string>, next: Option<string>): Scanned
    requires Pending(next) ==> rest != []
    decreases Unread(rest, next)
  {
    match NextEvent(cfg, ord, rest, next)
    case End(opts, operands) => Scanned([], opts, operands)
    case Hit(k, r) =>
      HitConsumes(cfg, ord, rest, next);
      var s := Scan(cfg, ord, rest[k + r.used..], r.next);
      Scanned([r.report] + s.reports, rest[k..k + r.used] + s.opts, rest[..k] + s.operands)
  }

  /** w is a merge of a and b: both occur in it, in order, and nothing else does. */
  ghost predicate Merges(w: seq<string>, a: seq<string>, b: seq<string>)
    decreases |w|
  {
    if w == [] then a == [] && b == []
    else || (a != [] && w[0] == a[0] && Merges(w[1..], a[1..], b))
         || (b != [] && w[0] == b[0] && Merges(w[1..], a, b[1..]))
  }

  lemma {:induction false} MergePrefix(p: seq<string>, w: seq<string>, a: seq<string>, b: seq<string>)
    requires Merges(w, a, b)
    ensures Merges(p + w, p + a, b) && Merges(p + w, a, p + b)
  {
    if p == [] {
      assert p + w == w && p + a == a && p + b == b;
    } else {
      MergePrefix(p[1..], w, a, b);
      assert (p + w)[1..] == p[1..] + w && (p + a)[1..] == p[1..] + a && (p + b)[1..] == p[1..] + b;
    }
  }

  lemma {:induction false} MergeIsPermutation(w: seq<string>, a: seq<string>, b: seq<string>)
    requires Merges(w, a, b)
    ensures multiset(w) == multiset(a + b)
    decreases |w|
  {
    if w != [] {
      assert w == [w[0]] + w[1..];
      if a != [] && w[0] == a[0] && Merges(w[1..], a[1..], b) {
        MergeIsPermutation(w[1..], a[1..], b);
        assert a + b == [a[0]] + (a[1..] + b);
      } else {
        MergeIsPermutation(w[1..], a, b[1..]);
        assert a + b == a + [b[0]] + b[1..];
        assert multiset(a + b) == multiset(a) + multiset{b[0]} + multiset(b[1..]);
        assert multiset(a + b[1..]) == multiset(a) + multiset(b[1..]);
      }
    }
  }

  lemma {:induction false} AllOf(w: seq<string>)
    ensures Merges(w, [], w) && Merges(w, w, [])
  {
    if w != [] { AllOf(w[1..]); }
  }

  lemma MergeInTheMiddle(rest: seq<string>, k: nat, m: nat, opts: seq<string>, operands: seq<string>)
    requires k <= m <= |rest| && Merges(rest[m..], opts, operands)
    ensures Merges(rest, rest[k..m] + opts, rest[..k] + operands)
  {
    MergePrefix(rest[k..m], rest[m..], opts, operands);
    assert rest[k..m] + rest[m..] == rest[k..];
    MergePrefix(rest[..k], rest[k..], rest[k..m] + opts, operands);
    assert rest[..k] + rest[k..] == rest;
  }

  /** What is left at the end of the options: at most one "--", then operands. */
  lemma EndSorts(cfg: Config, ord: Ordering, rest: seq<string>, next: Option<string>)
    requires (Pending(next) ==> rest != []) && NextEvent(cfg, ord, rest, next).End?
    ensures var e := NextEvent(cfg, ord, rest, next); Merges(rest, e.opts, e.operands)
  {
    var e := NextEvent(cfg, ord, rest, next);
    var k := Skipped(ord, rest);
    if e.opts == [] {
      AllOf(rest);
      assert e.operands == rest;
    } else {
      AllOf(rest[k + 1..]);
      assert rest[k..k + 1] == ["--"] && rest[k..][1..] == rest[k + 1..];
      MergeInTheMiddle(rest, k, k + 1, [], rest[k + 1..]);
      assert ["--"] + [] == ["--"];
    }
  }

  /** The scan only sorts the arguments into two heaps: each keeps the original order. */
  lemma {:induction false} ScanMerges(cfg: Config, ord: Ordering, rest: seq<string>, next: Option<string>)
    requires Pending(next) ==> rest != []
    ensures var s := Scan(cfg, ord, rest, next); Merges(rest, s.opts, s.operands)
    decreases Unread(rest, next)
  {
    hide NextEvent, Merges, Unread;
    match NextEvent(cfg, ord, rest, next)
    case End(opts, operands) => EndSorts(cfg, ord, rest, next);
    case Hit(k, r) =>
      HitConsumes(cfg, ord, rest, next);
      var t := Scan(cfg, ord, rest[k + r.used..], r.next);
      ScanMerges(cfg, ord, rest[k + r.used..], r.next);
      MergeInTheMiddle(rest, k, k + r.used, t.opts, t.operands);
  }

  /** The results of a call as its caller sees them: optopt keeps its value unless set. */
  datatype Seen = Seen(code: int, optarg: Option<string>, optopt: int, longind: Option<nat>, flag: Option<(int, int)>)

  function SeenOf(r: Report, optopt: int): Seen {
    Seen(r.code, r.optarg, match r.optopt case None => optopt case Some(c) => c, r.longind, r.flag)
  }

  function SeenAll(reports: seq<Report>, optopt: int): seq<Seen> {
    if reports == [] then []
    else [SeenOf(reports[0], optopt)] + SeenAll(reports[1..], SeenOf(reports[0], optopt).optopt)
  }

  /** The reports before the first that a caller takes for the end. */
  function Until(reports: seq<Report>): seq<Report> {
    if reports == [] || reports[0].code == -1 then [] else [reports[0]] + Until(reports[1..])
  }

  lemma {:induction false} UntilExactly(reports: seq<Report>)
    ensures Until(reports) == reports <==> forall i :: 0 <= i < |reports| ==> reports[i].code != -1
    ensures Until(reports) <= reports
  {
    if reports != [] {
      var later := reports[1..];
      UntilExactly(later);
      assert reports == [reports[0]] + later;
      assert ([reports[0]] + Until(later))[1..] == Until(later);
    }
  }

  // ----- the state and the rotation --------------------------------------------

  /** Swaps two disjoint stretches of the same length, element by element. */
  method SwapStretches(argv: array<string>, p: nat, q: nat, len: nat)
    requires p + len <= q && q + len <= argv.Length
    modifies argv
    ensures Swapped(old(argv[..]), argv[..], p, q, len)
  {
    for i := 0 to len
      invariant forall j :: 0 <= j < argv.Length ==> argv[j] == old(argv[..])[SwapSource(p, q, i, j)]
    {
      var tem := argv[p + i];
      argv[p + i] := argv[q + i];
      argv[q + i] := tem;
    }
  }

  /** Position i after swapping the stretches of length len at p and q reads from here. */
  function SwapSource(p: nat, q: nat, len: nat, i: int): int
    requires p <= q
  {
    if p <= i < p + len then i + (q - p) else if q <= i < q + len then i - (q - p) else i
  }

  ghost predicate Swapped(s: seq<string>, t: seq<string>, p: nat, q: nat, len: nat) {
    && p + len <= q && q + len <= |s| == |t|
    && forall i :: 0 <= i < |s| ==> t[i] == s[SwapSource(p, q, len, i)]
  }

  /** What [f, i) will hold once [bottom, middle) and [middle, top) have changed places. */
  ghost function Arranged(s: seq<string>, f: nat, bottom: nat, middle: nat, top: nat, i: nat): seq<string>
    requires f <= bottom <= middle <= top <= i <= |s|
  {
    s[f..bottom] + (s[middle..top] + s[bottom..middle]) + s[top..i]
  }

  /** The first branch of exchange: the shorter lower block goes to the top, its final place. */
  lemma SwapIntoTop(s: seq<string>, t: seq<string>, f: nat, bottom: nat, middle: nat, top: nat, i: nat)
    requires f <= bottom <= middle <= top <= i <= |s| && middle - bottom < top - middle
    requires Swapped(s, t, bottom, top - (middle - bottom), middle - bottom)
    ensures Arranged(t, f, bottom, middle, top - (middle - bottom), i) == Arranged(s, f, bottom, middle, top, i)
    ensures t[..f] == s[..f] && t[i..] == s[i..]
  {
    var cut := top - (middle - bottom);
    TopSlices(s, t, f, bottom, middle, top, i, cut);
    hide Swapped, Arranged;
    var a, low, m1, m2, e := s[f..bottom], s[bottom..middle], s[middle..cut], s[cut..top], s[top..i];
    SliceJoin(t, cut, top, i);
    SliceJoin(s, middle, cut, top);
    ArrangedIs(t, f, bottom, middle, cut, i, a, m1, m2, low + e);
    ArrangedIs(s, f, bottom, middle, top, i, a, m1 + m2, low, e);
    RegroupTop(a, m1, m2, low, e);
  }

  lemma TopSlices(s: seq<string>, t: seq<string>, f: nat, bottom: nat, middle: nat, top: nat, i: nat, cut: nat)
    requires f <= bottom <= middle <= cut <= top <= i <= |s| && top - cut == middle - bottom
    requires Swapped(s, t, bottom, cut, top - cut)
    ensures t[f..bottom] == s[f..bottom] && t[bottom..middle] == s[cut..top] && t[middle..cut] == s[middle..cut]
    ensures t[cut..top] == s[bottom..middle] && t[top..i] == s[top..i]
    ensures t[..f] == s[..f] && t[i..] == s[i..]
  {
    forall j | 0 <= j < middle - bottom ensures t[bottom..middle][j] == s[cut..top][j] && t[cut..top][j] == s[bottom..middle][j] {
      assert t[bottom + j] == s[SwapSource(bottom, cut, top - cut, bottom + j)];
      assert t[cut + j] == s[SwapSource(bottom, cut, top - cut, cut + j)];
    }
  }

  lemma ArrangedIs(s: seq<string>, f: nat, bottom: nat, middle: nat, top: nat, i: nat,
                   a: seq<string>, high: seq<string>, low: seq<string>, e: seq<string>)
    requires f <= bottom <= middle <= top <= i <= |s|
    requires s[f..bottom] == a && s[middle..top] == high && s[bottom..middle] == low && s[top..i] == e
    ensures Arranged(s, f, bottom, middle, top, i) == a + (high + low) + e
  {}

  lemma RegroupTop(a: seq<string>, m1: seq<string>, m2: seq<string>, low: seq<string>, e: seq<string>)
    ensures a + (m1 + m2) + (low + e) == a + (m1 + m2 + low) + e
  {
    Assoc(a + (m1 + m2), low, e);
    Assoc(a, m1 + m2, low);
  }

  /** The second branch: the shorter upper block goes to the bottom, its final place. */
  lemma SwapIntoBottom(s: seq<string>, t: seq<string>, f: nat, bottom: nat, middle: nat, top: nat, i: nat)
    requires f <= bottom <= middle <= top <= i <= |s| && top - middle <= middle - bottom
    requires Swapped(s, t, bottom, middle, top - middle)
    ensures Arranged(t, f, bottom + (top - middle), middle, top, i) == Arranged(s, f, bottom, middle, top, i)
    ensures t[..f] == s[..f] && t[i..] == s[i..]
  {
    var cut := bottom + (top - middle);
    BottomSlices(s, t, f, bottom, middle, top, i, cut);
    hide Swapped, Arranged;
    var a, l1, l2, high, e := s[f..bottom], s[bottom..cut], s[cut..middle], s[middle..top], s[top..i];
    SliceJoin(t, f, bottom, cut);
    SliceJoin(s, bottom, cut, middle);
    ArrangedIs(t, f, cut, middle, top, i, a + high, l1, l2, e);
    ArrangedIs(s, f, bottom, middle, top, i, a, high, l1 + l2, e);
    Assoc(a, high, l1 + l2);
  }

  lemma BottomSlices(s: seq<string>, t: seq<string>, f: nat, bottom: nat, middle: nat, top: nat, i: nat, cut: nat)
    requires f <= bottom <= cut <= middle <= top <= i <= |s| && cut - bottom == top - middle
    requires Swapped(s, t, bottom, middle, top - middle)
    ensures t[f..bottom] == s[f..bottom] && t[bottom..cut] == s[middle..top]
    ensures t[middle..top] == s[bottom..cut] && t[cut..middle] == s[cut..middle] && t[top..i] == s[top..i]
    ensures t[..f] == s[..f] && t[i..] == s[i..]
  {
    forall j | 0 <= j < cut - bottom ensures t[bottom..cut][j] == s[middle..top][j] && t[middle..top][j] == s[bottom..cut][j] {
      assert t[bottom + j] == s[SwapSource(bottom, middle, top - middle, bottom + j)];
      assert t[middle + j] == s[SwapSource(bottom, middle, top - middle, middle + j)];
    }
  }

  /** s with [f, l) and [l, i) exchanged. */
  ghost function Rotated(s: seq<string>, f: nat, l: nat, i: nat): seq<string>
    requires f <= l <= i <= |s|
  {
    s[..f] + (s[l..i] + s[f..l]) + s[i..]
  }

  lemma NothingMoved(s: seq<string>, f: nat, l: nat, i: nat)
    requires f <= l <= i <= |s|
    ensures Rotating(s, s, f, l, i, f, l, i)
  {
    assert s[f..f] == [] && s[i..i] == [];
  }

  /** Between two turns of the loop: outside [f, i) nothing has changed, and finishing the remaining
      exchange of [bottom, middle) and [middle, top) finishes the whole. */
  ghost predicate Rotating(was: seq<string>, cur: seq<string>, f: nat, l: nat, i: nat, bottom: nat, middle: nat, top: nat) {
    && f <= l <= i <= |was| == |cur| && f <= bottom <= middle <= top <= i
    && cur[..f] == was[..f] && cur[i..] == was[i..]
    && Arranged(cur, f, bottom, middle, top, i) == was[l..i] + was[f..l]
  }

  lemma TopTurn(was: seq<string>, s: seq<string>, t: seq<string>, f: nat, l: nat, i: nat, bottom: nat, middle: nat, top: nat,
                top': nat)
    requires Rotating(was, s, f, l, i, bottom, middle, top) && middle - bottom < top - middle
    requires top' == top - (middle - bottom) && Swapped(s, t, bottom, top', middle - bottom)
    ensures Rotating(was, t, f, l, i, bottom, middle, top')
  {
    SwapIntoTop(s, t, f, bottom, middle, top, i);
  }

  lemma BottomTurn(was: seq<string>, s: seq<string>, t: seq<string>, f: nat, l: nat, i: nat, bottom: nat, middle: nat, top: nat,
                   bottom': nat)
    requires Rotating(was, s, f, l, i, bottom, middle, top) && top - middle <= middle - bottom
    requires bottom' == bottom + (top - middle) && Swapped(s, t, bottom, middle, top - middle)
    ensures Rotating(was, t, f, l, i, bottom', middle, top)
  {
    SwapIntoBottom(s, t, f, bottom, middle, top, i);
  }

  /** With one block used up, the stretch is as it should be. */
  lemma NothingLeftToSwap(s: seq<string>, f: nat, bottom: nat, middle: nat, top: nat, i: nat)
    requires f <= bottom <= middle <= top <= i <= |s| && (top == middle || middle == bottom)
    ensures s == s[..f] + Arranged(s, f, bottom, middle, top, i) + s[i..]
  {
    var low, high := s[bottom..middle], s[middle..top];
    assert high + low == s[bottom..top] by {
      if top == middle { assert high == [] && high + low == low; } else { assert low == [] && high + low == high; }
    }
    SliceJoin(s, f, bottom, top);
    SliceJoin(s, f, top, i);
    SliceJoin(s, 0, f, i);
    assert s == s[..i] + s[i..];
  }

  lemma RotationDone(was: seq<string>, cur: seq<string>, f: nat, l: nat, i: nat, bottom: nat, middle: nat, top: nat)
    requires Rotating(was, cur, f, l, i, bottom, middle, top) && (top == middle || middle == bottom)
    ensures cur == Rotated(was, f, l, i)
  {
    hide Arranged;
    NothingLeftToSwap(cur, f, bottom, middle, top, i);
  }

  /** The arguments in the middle of a run over orig that began at start: the arguments read so far were
      the option elements opts and the operands operands; the operands stand after the first n option
      elements, and everything from position i on is untouched. */
  ghost function Mixed(orig: seq<string>, start: nat, opts: seq<string>, n: nat, operands: seq<string>, i: nat): seq<string>
    requires start <= |orig| && n <= |opts| && i <= |orig|
  {
    orig[..start] + (opts[..n] + operands + opts[n..]) + orig[i..]
  }

  /** Exchanging the operands with the option elements after them moves them to the end. */
  lemma RotateMixed(orig: seq<string>, start: nat, opts: seq<string>, n: nat, operands: seq<string>, i: nat)
    requires start <= |orig| && n <= |opts| && i == start + |opts| + |operands| <= |orig|
    ensures Rotated(Mixed(orig, start, opts, n, operands, i), start + n, start + n + |operands|, i)
            == Mixed(orig, start, opts, |opts|, operands, i)
  {
    RotateParts(orig[..start], opts[..n], operands, opts[n..], orig[i..]);
    assert opts == opts[..n] + opts[n..] && opts[..|opts|] == opts && opts[|opts|..] == [];
    assert opts + operands + [] == opts + operands;
  }

  lemma RotateParts(a: seq<string>, b: seq<string>, c: seq<string>, d: seq<string>, e: seq<string>)
    ensures Rotated(a + (b + c + d) + e, |a| + |b|, |a| + |b| + |c|, |a| + |b| + |c| + |d|) == a + (b + d + c) + e
  {
    var s := a + (b + c + d) + e;
    var f, l, i := |a| + |b|, |a| + |b| + |c|, |a| + |b| + |c| + |d|;
    assert s[..f] == a + b && s[f..l] == c && s[l..i] == d && s[i..] == e;
    Assoc(a, b, d + c);
    Assoc(b, d, c);
  }

  /** Operands met next join the block that stands last. */
  lemma AbsorbOperands(orig: seq<string>, start: nat, opts: seq<string>, operands: seq<string>, i: nat, i': nat,
                       operands': seq<string>)
    requires start <= |orig| && start + |opts| + |operands| == i <= i' <= |orig|
    requires operands' == operands + orig[i..][..i' - i]
    ensures Mixed(orig, start, opts, |opts|, operands, i) == Mixed(orig, start, opts, |opts|, operands', i')
  {
    assert opts[|opts|..] == [];
    assert orig[i..][..i' - i] + orig[i'..] == orig[i..];
  }

  /** Option elements used up next stand after the operands. */
  lemma AbsorbOptions(orig: seq<string>, start: nat, opts: seq<string>, n: nat, operands: seq<string>, i: nat, i': nat,
                      opts': seq<string>)
    requires start <= |orig| && n <= |opts| && start + |opts| + |operands| == i <= i' <= |orig|
    requires opts' == opts + orig[i..][..i' - i]
    ensures Mixed(orig, start, opts, n, operands, i) == Mixed(orig, start, opts', n, operands, i')
  {
    assert orig[i..][..i' - i] + orig[i'..] == orig[i..];
    assert opts'[n..] == opts[n..] + orig[i..][..i' - i] && opts'[..n] == opts[..n];
  }

  lemma MixedWithout(orig: seq<string>, start: nat, opts: seq<string>, n: nat, n': nat, operands: seq<string>, i: nat)
    requires start <= |orig| && n <= |opts| && n' <= |opts| && i <= |orig| && operands == []
    ensures Mixed(orig, start, opts, n, operands, i) == Mixed(orig, start, opts, n', operands, i)
  {
    assert opts[..n] + operands + opts[n..] == opts == opts[..n'] + operands + opts[n'..];
  }

  lemma GatheredIs(orig: seq<string>, start: nat, opts: seq<string>, operands: seq<string>, i: nat)
    requires start <= |orig| && i <= |orig|
    ensures Mixed(orig, start, opts, |opts|, operands, i) == orig[..start] + opts + (operands + orig[i..])
  {
    assert opts[..|opts|] == opts && opts[|opts|..] == [];
    assert opts + operands + [] == opts + operands;
    Assoc(orig[..start], opts, operands);
    Assoc(orig[..start] + opts, operands, orig[i..]);
  }

  lemma UnreadIsOriginal(orig: seq<string>, start: nat, opts: seq<string>, n: nat, operands: seq<string>, i: nat)
    requires start <= |orig| && n <= |opts| && i == start + |opts| + |operands| <= |orig|
    ensures var m := Mixed(orig, start, opts, n, operands, i); |m| == |orig| && m[i..] == orig[i..]
  {}

  lemma SkipIs(rest: seq<string>, k: nat)
    requires k <= |rest| && (k < |rest| ==> IsOption(rest[k]))
    requires forall j :: 0 <= j < k ==> !IsOption(rest[j])
    ensures Skip(rest) == k
  {
    assert !(Skip(rest) < k);
    assert !(k < Skip(rest));
  }

  class GetoptData {
    var optind: nat
    var optopt: int
    var optarg: Option<string>
    var initialized: bool
    var nextchar: Option<string>
    var ordering: Ordering
    var firstNonopt: nat
    var lastNonopt: nat

    /** exchange: rotate the block of non-options behind the options that follow it. */
    method Exchange(argv: array<string>)
      requires firstNonopt <= lastNonopt <= optind <= argv.Length
      modifies argv, this`firstNonopt, this`lastNonopt
      ensures argv[..] == Rotated(old(argv[..]), old(firstNonopt), old(lastNonopt), optind)
      ensures firstNonopt == old(firstNonopt) + (optind - old(lastNonopt)) && lastNonopt == optind
    {
      hide Rotating, Rotated, Swapped;
      var bottom: nat, middle: nat, top: nat := firstNonopt, lastNonopt, optind;
      ghost var f, l, i := firstNonopt, lastNonopt, optind;
      ghost var was := argv[..];
      NothingMoved(was, f, l, i);
      while top > middle && middle > bottom
        invariant firstNonopt == f && lastNonopt == l && optind == i && middle == l
        invariant bottom <= middle <= top <= argv.Length
        invariant Rotating(was, argv[..], f, l, i, bottom, middle, top)
        decreases top - bottom
      {
        ghost var before, after := argv[..], [];
        if top - middle > middle - bottom {
          var len := middle - bottom;
          SwapStretches(argv, bottom, top - len, len);
          after := argv[..];
          var top' := top - len;
          TopTurn(was, before, after, f, l, i, bottom, middle, top, top');
          top := top';
        } else {
          var len := top - middle;
          SwapStretches(argv, bottom, middle, len);
          after := argv[..];
          var bottom' := bottom + len;
          BottomTurn(was, before, after, f, l, i, bottom, middle, top, bottom');
          bottom := bottom';
        }
      }
      RotationDone(was, argv[..], f, l, i, bottom, middle, top);
      firstNonopt := firstNonopt + (optind - lastNonopt);
      lastNonopt := optind;
    }

    /** The fields and results of a call agree with the report r. */
    ghost predicate Shows(r: Report, optopt0: int, code: int, longind: Option<nat>, flag: Option<(int, int)>)
      reads this
    {
      && code == r.code && optarg == r.optarg && longind == r.longind && flag == r.flag
      && optopt == match r.optopt case None => optopt0 case Some(c) => c
    }

    /** The search loops of process_long_option: exact name first, then abbreviations. */
    method FindLong(opts: seq<LongOption>, name: string, longOnly: bool) returns (found: nat, ambiguous: bool)
      ensures ambiguous == (Exact(opts, name) == |opts| && Ambiguous(opts, name, longOnly))
      ensures !ambiguous ==> found == if Exact(opts, name) < |opts| then Exact(opts, name) else FirstAbbreviated(opts, name)
    {
      for k := 0 to |opts|
        invariant forall j :: 0 <= j < k ==> opts[j].name != name
      {
        if opts[k].name == name { return k, false; }
      }
      found, ambiguous := |opts|, false;
      ghost var first := FirstAbbreviated(opts, name);
      for k := 0 to |opts|
        invariant found == if first < k then first else |opts|
        invariant ambiguous == exists j :: first < j < k && name <= opts[j].name && (longOnly || !SameEffect(opts[first], opts[j]))
      {
        if name <= opts[k].name {
          if found == |opts| {
            found := k;
          } else if longOnly || !SameEffect(opts[found], opts[k]) {
            ambiguous := true;
          }
        }
      }
    }

    method ProcessLongOption(argv: array<string>, cfg: Config, longOnly: bool)
        returns (code: int, longind: Option<nat>, flag: Option<(int, int)>)
      requires ValidConfig(cfg) && cfg.longopts.Some? && (longOnly ==> cfg.longOnly)
      requires optind < argv.Length && nextchar.Some? && optarg.None? && (longOnly ==> |argv[optind]| > 1)
      modifies this`optind, this`optopt, this`optarg, this`nextchar
      ensures match ReadLong(cfg, argv[old(optind)..], old(nextchar).value, longOnly)
              case Fallback => code == -1 && unchanged(this)
              case Reading(r, used, next) =>
                && (longOnly ==> code != -1)
                && optind == old(optind) + used && nextchar == next && Shows(r, old(optopt), code, longind, flag)
    {
      code, longind, flag := QUESTION, None, None;
      var opts, text := cfg.longopts.value, nextchar.value;
      ghost var rest := argv[optind..];
      var end := 0;
      while end < |text| && text[end] != '='
        invariant 0 <= end <= |text| && '=' !in text[..end]
      {
        end := end + 1;
      }
      IndexOfIs(text, '=', end);
      var k, ambiguous := FindLong(opts, text[..end], longOnly);
      if ambiguous {
        nextchar := Some("");
        optind := optind + 1;
        optopt := 0;
        return;
      }
      if k == |opts| {
        if !longOnly || argv[optind][1] == '-' || (text != [] && text[0] !in cfg.optstring) {
          nextchar := None;
          optind := optind + 1;
          optopt := 0;
          return;
        }
        code := -1;
        return;
      }
      assert opts[k] in opts;
      optind := optind + 1;
      nextchar := None;
      if end < |text| {
        if opts[k].hasArg == 0 {
          optopt := opts[k].val;
          return;
        }
        optarg := Some(text[end + 1..]);
      } else if opts[k].hasArg == 1 {
        if optind < argv.Length {
          optarg := Some(argv[optind]);
          optind := optind + 1;
        } else {
          optopt := opts[k].val;
          code := MissingArgument(cfg);
          return;
        }
      }
      longind := Some(k);
      if opts[k].flag.Some? {
        flag := Some((opts[k].flag.value, opts[k].val));
        code := 0;
        return;
      }
      code := opts[k].val;
    }

    /** The part of a call that reads one short option from the current argument. */
    method ShortOption(argv: array<string>, cfg: Config)
        returns (code: int, longind: Option<nat>, flag: Option<(int, int)>)
      requires ValidConfig(cfg) && optind < argv.Length && Pending(nextchar) && optarg.None?
      modifies this`optind, this`optopt, this`optarg, this`nextchar
      ensures var r := ReadShort(cfg, argv[old(optind)..], old(nextchar).value);
              && optind == old(optind) + r.used && nextchar == r.next
              && Shows(r.report, old(optopt), code, longind, flag)
    {
      hide ReadLong, MissingArgument, At, IndexOf;
      longind, flag := None, None;
      ghost var rest := argv[optind..];
      var c, more := nextchar.value[0], nextchar.value[1..];
      code := c as int;
      nextchar := Some(more);
      var t := IndexOf(cfg.optstring, c);
      if more == [] { optind := optind + 1; }
      if t == |cfg.optstring| || c == ':' || c == ';' {
        optopt := c as int;
        code := QUESTION;
        return;
      }
      if c == 'W' && At(cfg.optstring, t + 1) == ';' && cfg.longopts.Some? {
        if more == [] {
          if optind == argv.Length {
            optopt := c as int;
            code := MissingArgument(cfg);
            return;
          }
          assert argv[optind..] == rest[1..];
          nextchar := Some(argv[optind]);
        }
        code, longind, flag := ProcessLongOption(argv, cfg, false);
        return;
      }
      if At(cfg.optstring, t + 1) == ':' {
        if At(cfg.optstring, t + 2) == ':' {
          if more != [] {
            optarg := Some(more);
            optind := optind + 1;
          }
        } else if more != [] {
          optarg := Some(more);
          optind := optind + 1;
        } else if optind == argv.Length {
          optopt := c as int;
          code := MissingArgument(cfg);
        } else {
          optarg := Some(argv[optind]);
          optind := optind + 1;
        }
        nextchar := None;
      }
    }

    /** The part of a call that meets a fresh option element. */
    method OptionElement(argv: array<string>, cfg: Config)
        returns (code: int, longind: Option<nat>, flag: Option<(int, int)>)
      requires ValidConfig(cfg) && optind < argv.Length && IsOption(argv[optind]) && optarg.None?
      modifies this`optind, this`optopt, this`optarg, this`nextchar
      ensures var r := ReadElement(cfg, argv[old(optind)..]);
              && optind == old(optind) + r.used && nextchar == r.next
              && Shows(r.report, old(optopt), code, longind, flag)
    {
      var arg := argv[optind];
      if cfg.longopts.Some? {
        if arg[1] == '-' {
          nextchar := Some(arg[2..]);
          code, longind, flag := ProcessLongOption(argv, cfg, cfg.longOnly);
          return;
        }
        if cfg.longOnly && (|arg| > 2 || arg[1] !in cfg.optstring) {
          nextchar := Some(arg[1..]);
          code, longind, flag := ProcessLongOption(argv, cfg, cfg.longOnly);
          if code != -1 { return; }
        }
      }
      nextchar := Some(arg[1..]);
      code, longind, flag := ShortOption(argv, cfg);
    }

    /** Where a run stands between two calls. */
    ghost predicate Layout(cur: seq<string>, orig: seq<string>, start: nat, opts: seq<string>, operands: seq<string>)
      reads this
    {
      && start <= firstNonopt <= start + |opts| && lastNonopt == firstNonopt + |operands|
      && optind == start + |opts| + |operands| <= |orig| == |cur|
      && cur == Mixed(orig, start, opts, firstNonopt - start, operands, optind)
      && (!ordering.Permute? ==> operands == [])
      && (Pending(nextchar) ==> optind < |orig|)
    }

    /** Between calls, with all operands so far standing after all option elements so far. */
    ghost predicate Gathered(cur: seq<string>, orig: seq<string>, start: nat, opts: seq<string>, operands: seq<string>)
      reads this
    {
      && firstNonopt == start + |opts| && optind == start + |opts| + |operands| <= |orig| == |cur|
      && cur == Mixed(orig, start, opts, |opts|, operands, optind)
    }

    /** exchange or, without operands, moving the empty block: afterwards the operands come last. */
    method Gather(argv: array<string>, ghost orig: seq<string>, ghost start: nat, ghost opts: seq<string>, ghost operands: seq<string>)
      requires Layout(argv[..], orig, start, opts, operands)
      modifies argv, this`firstNonopt, this`lastNonopt
      ensures Gathered(argv[..], orig, start, opts, operands)
    {
      hide Mixed, Rotated;
      ghost var n := firstNonopt - start;
      if firstNonopt != lastNonopt && lastNonopt != optind {
        RotateMixed(orig, start, opts, n, operands, optind);
        Exchange(argv);
      } else if firstNonopt == lastNonopt {
        firstNonopt := optind;
        MixedWithout(orig, start, opts, n, |opts|, operands, optind);
      }
    }

    /** The operands before the next option element join the block. */
    method SkipOperands(argv: array<string>, ghost orig: seq<string>, ghost start: nat, ghost opts: seq<string>,
                        ghost operands: seq<string>)
      requires Gathered(argv[..], orig, start, opts, operands)
      modifies this`optind, this`lastNonopt
      ensures optind == old(optind) + Skip(orig[old(optind)..]) && lastNonopt == optind
      ensures Gathered(argv[..], orig, start, opts, operands + orig[old(optind)..][..Skip(orig[old(optind)..])])
    {
      hide Mixed;
      ghost var i := optind;
      ghost var rest := orig[i..];
      UnreadIsOriginal(orig, start, opts, |opts|, operands, i);
      assert argv[i..] == rest;
      while optind < argv.Length && !IsOption(argv[optind])
        invariant i <= optind <= argv.Length
        invariant forall j :: 0 <= j < optind - i ==> !IsOption(rest[j])
      {
        assert rest[optind - i] == argv[optind];
        optind := optind + 1;
      }
      lastNonopt := optind;
      assert optind < argv.Length ==> rest[optind - i] == argv[optind];
      SkipIs(rest, optind - i);
      AbsorbOperands(orig, start, opts, operands, i, optind, operands + rest[..Skip(rest)]);
    }

    lemma GatheredIsLayout(cur: seq<string>, orig: seq<string>, start: nat, opts: seq<string>, operands: seq<string>)
      requires Gathered(cur, orig, start, opts, operands) && lastNonopt == optind && !Pending(nextchar)
      requires !ordering.Permute? ==> operands == []
      ensures Layout(cur, orig, start, opts, operands)
    {
      assert firstNonopt - start == |opts|;
    }

    /** The permuting part of a call: operands so far go behind the options so far, new ones join them. */
    method Permuting(argv: array<string>, ghost orig: seq<string>, ghost start: nat, ghost opts: seq<string>,
                     ghost operands: seq<string>)
      requires Layout(argv[..], orig, start, opts, operands) && !Pending(nextchar) && ordering.Permute?
      modifies argv, this`optind, this`firstNonopt, this`lastNonopt
      ensures optind == old(optind) + Skip(orig[old(optind)..]) && firstNonopt == start + |opts|
      ensures Layout(argv[..], orig, start, opts, operands + orig[old(optind)..][..Skip(orig[old(optind)..])])
    {
      Gather(argv, orig, start, opts, operands);
      SkipOperands(argv, orig, start, opts, operands);
      GatheredIsLayout(argv[..], orig, start, opts, operands + orig[old(optind)..][..Skip(orig[old(optind)..])]);
    }

    /** The run is over: options first, operands after, optind between them. */
    ghost predicate Done(cur: seq<string>, orig: seq<string>, start: nat, opts: seq<string>, operands: seq<string>)
      reads this
    {
      start <= |orig| && cur == orig[..start] + opts + operands && optind == start + |opts|
    }

    /** The part of a call that meets "--": all that follows are operands. */
    method DashDash(argv: array<string>, ghost orig: seq<string>, ghost start: nat, ghost opts: seq<string>,
                    ghost operands: seq<string>)
      requires Layout(argv[..], orig, start, opts, operands) && !Pending(nextchar)
      requires optind < argv.Length && argv[optind] == "--"
      modifies argv, this`optind, this`firstNonopt, this`lastNonopt
      ensures argv[..] == orig[..start] + (opts + ["--"]) + (operands + orig[old(optind) + 1..])
      ensures firstNonopt == start + |opts| + 1 && optind == lastNonopt == argv.Length
    {
      hide Mixed;
      ghost var i, n := optind, firstNonopt - start;
      UnreadIsOriginal(orig, start, opts, n, operands, i);
      assert argv[i] == argv[i..][0] == orig[i];
      optind := optind + 1;
      ghost var opts' := opts + ["--"];
      assert orig[i..][..1] == ["--"];
      AbsorbOptions(orig, start, opts, n, operands, i, i + 1, opts');
      Gather(argv, orig, start, opts', operands);
      GatheredIs(orig, start, opts', operands, i + 1);
      lastNonopt := argv.Length;
      optind := argv.Length;
    }

    /** At the end of the arguments: optind goes back to the first operand. */
    lemma AllRead(cur: seq<string>, orig: seq<string>, start: nat, opts: seq<string>, operands: seq<string>)
      requires Layout(cur, orig, start, opts, operands) && optind == |orig|
      requires firstNonopt == start + |opts| || operands == []
      ensures cur == orig[..start] + opts + operands
    {
      var n := firstNonopt - start;
      assert opts[..n] + opts[n..] == opts;
    }

    /** Reading an option leaves the arguments alone and moves optind past what it used. */
    lemma LayoutAfterReading(cur: seq<string>, orig: seq<string>, start: nat, opts: seq<string>, operands: seq<string>,
                             i: nat, opts': seq<string>)
      requires start <= firstNonopt <= start + |opts| && lastNonopt == firstNonopt + |operands|
      requires i == start + |opts| + |operands| <= optind <= |orig| == |cur| && opts' == opts + orig[i..][..optind - i]
      requires cur == Mixed(orig, start, opts, firstNonopt - start, operands, i)
      requires !ordering.Permute? ==> operands == []
      requires Pending(nextchar) ==> optind < |orig|
      ensures Layout(cur, orig, start, opts', operands)
    {
      AbsorbOptions(orig, start, opts, firstNonopt - start, operands, i, optind, opts');
    }

    /** A call outcome in terms of the scan event e at position i. */
    ghost predicate Follows(e: Event, cur: seq<string>, orig: seq<string>, start: nat, opts: seq<string>,
                            operands: seq<string>, i: nat, optopt0: int, code: int, longind: Option<nat>, flag: Option<(int, int)>)
      reads this
      requires i <= |orig|
      requires e.Hit? ==> e.reading.Reading? && e.skipped + e.reading.used <= |orig[i..]|
    {
      match e
      case End(o, t) => code == -1 && Done(cur, orig, start, opts + o, operands + t)
      case Hit(k, r) =>
        && Shows(r.report, optopt0, code, longind, flag)
        && optind == i + k + r.used && nextchar == r.next
        && Layout(cur, orig, start, opts + orig[i..][k..k + r.used], operands + orig[i..][..k])
    }

    /** A reading at position i that has left the arguments alone follows the scan. */
    lemma ReadingFollows(r: Reading, cur: seq<string>, orig: seq<string>, start: nat, opts: seq<string>,
                         operands: seq<string>, i: nat, optopt0: int, code: int, longind: Option<nat>, flag: Option<(int, int)>)
      requires start <= firstNonopt <= start + |opts| && lastNonopt == firstNonopt + |operands|
      requires i == start + |opts| + |operands| <= optind <= |orig| == |cur|
      requires cur == Mixed(orig, start, opts, firstNonopt - start, operands, i)
      requires !ordering.Permute? ==> operands == []
      requires r.Reading? && optind == i + r.used && nextchar == r.next && (Pending(nextchar) ==> optind < |orig|)
      requires Shows(r.report, optopt0, code, longind, flag)
      ensures Follows(Hit(0, r), cur, orig, start, opts, operands, i, optopt0, code, longind, flag)
    {
      var rest := orig[i..];
      assert operands + rest[..0] == operands;
      LayoutAfterReading(cur, orig, start, opts, operands, i, opts + rest[0..0 + r.used]);
    }

    /** Following the event ahead, at position j, is following it from before the skipped operands, at i. */
    lemma ShiftFollows(e: Event, cur: seq<string>, orig: seq<string>, start: nat, opts: seq<string>,
                       operands: seq<string>, i: nat, j: nat, skipped: seq<string>, optopt0: int, code: int,
                       longind: Option<nat>, flag: Option<(int, int)>)
      requires i <= j <= |orig| && skipped == orig[i..][..j - i]
      requires e.Hit? ==> e.skipped == 0 && e.reading.Reading? && j + e.reading.used <= |orig|
      requires Follows(e, cur, orig, start, opts, operands + skipped, j, optopt0, code, longind, flag)
      ensures Follows(Behind(skipped, e), cur, orig, start, opts, operands, i, optopt0, code, longind, flag)
    {
      match e
      case End(o, t) => Assoc(operands, skipped, t);
      case Hit(z, r) => ShiftHit(r, cur, orig, start, opts, operands, i, j, skipped, |skipped|, optopt0, code, longind, flag);
    }

    lemma ShiftHit(r: Reading, cur: seq<string>, orig: seq<string>, start: nat, opts: seq<string>, operands: seq<string>,
                   i: nat, j: nat, skipped: seq<string>, k: nat, optopt0: int, code: int, longind: Option<nat>, flag: Option<(int, int)>)
      requires i <= j <= |orig| && r.Reading? && j + r.used <= |orig| && k == j - i && skipped == orig[i..][..k]
      requires Follows(Hit(0, r), cur, orig, start, opts, operands + skipped, j, optopt0, code, longind, flag)
      ensures Follows(Hit(k, r), cur, orig, start, opts, operands, i, optopt0, code, longind, flag)
    {
      assert orig[j..][0..0 + r.used] == orig[i..][k..k + r.used];
      assert operands + skipped + orig[j..][..0] == operands + skipped;
    }

    /** The end of the options, or "--": optind goes back to the first operand. */
    method AtEnd(argv: array<string>, cfg: Config, ghost orig: seq<string>, ghost start: nat, ghost opts: seq<string>,
                 ghost operands: seq<string>)
        returns (code: int, longind: Option<nat>, flag: Option<(int, int)>)
      requires Layout(argv[..], orig, start, opts, operands) && !Pending(nextchar)
      requires ordering.Permute? ==> firstNonopt == start + |opts|
      requires argv[optind..] == orig[optind..] && (optind == argv.Length || argv[optind] == "--")
      modifies argv, this`optind, this`firstNonopt, this`lastNonopt
      ensures Follows(AheadEvent(cfg, ordering, orig[old(optind)..], old(nextchar)), argv[..], orig, start, opts, operands,
                      old(optind), old(optopt), code, longind, flag)
    {
      ghost var ahead := orig[optind..];
      if optind != argv.Length && argv[optind] == "--" {
        assert ahead[1..] == orig[optind + 1..];
        DashDash(argv, orig, start, opts, operands);
      } else {
        AllRead(argv[..], orig, start, opts, operands);
        assert opts + [] == opts && operands + [] == operands;
      }
      if firstNonopt != lastNonopt { optind := firstNonopt; }
      return -1, None, None;
    }

    /** The part of a call after operands have been skipped. */
    method AtElement(argv: array<string>, cfg: Config, ghost orig: seq<string>, ghost start: nat, ghost opts: seq<string>,
                     ghost operands: seq<string>)
        returns (code: int, longind: Option<nat>, flag: Option<(int, int)>)
      requires ValidConfig(cfg) && Layout(argv[..], orig, start, opts, operands) && !Pending(nextchar) && optarg.None?
      requires ordering.Permute? ==> firstNonopt == start + |opts| && Skip(orig[optind..]) == 0
      modifies argv, this`optind, this`optopt, this`optarg, this`nextchar, this`firstNonopt, this`lastNonopt
      ensures Follows(AheadEvent(cfg, ordering, orig[old(optind)..], old(nextchar)), argv[..], orig, start, opts, operands,
                      old(optind), old(optopt), code, longind, flag)
    {
      UnreadIsOriginal(orig, start, opts, firstNonopt - start, operands, optind);
      assert argv[optind..] == orig[optind..];
      if optind == argv.Length || argv[optind] == "--" {
        code, longind, flag := AtEnd(argv, cfg, orig, start, opts, operands);
      } else {
        assert orig[optind..][0] == argv[optind];
        code, longind, flag := AtArgument(argv, cfg, orig, start, opts, operands);
      }
    }

    /** An argument other than "--" is next. */
    method AtArgument(argv: array<string>, cfg: Config, ghost orig: seq<string>, ghost start: nat, ghost opts: seq<string>,
                      ghost operands: seq<string>)
        returns (code: int, longind: Option<nat>, flag: Option<(int, int)>)
      requires ValidConfig(cfg) && Layout(argv[..], orig, start, opts, operands) && !Pending(nextchar) && optarg.None?
      requires optind < argv.Length && argv[optind..] == orig[optind..] && argv[optind] != "--"
      requires ordering.Permute? ==> IsOption(argv[optind])
      modifies this`optind, this`optopt, this`optarg, this`nextchar
      ensures Follows(AheadEvent(cfg, ordering, orig[old(optind)..], old(nextchar)), argv[..], orig, start, opts, operands,
                      old(optind), old(optopt), code, longind, flag)
    {
      hide Mixed;
      ghost var i := optind;
      ghost var e := AheadEvent(cfg, ordering, orig[i..], nextchar);
      if IsOption(argv[optind]) {
        code, longind, flag := OptionElement(argv, cfg);
      } else if ordering.RequireOrder? {
        RequireOrderEnds(argv[..], orig, start, opts, operands);
        return -1, None, None;
      } else {
        optarg := Some(argv[optind]);
        optind := optind + 1;
        code, longind, flag := 1, None, None;
      }
      ReadingFollows(e.reading, argv[..], orig, start, opts, operands, i, old(optopt), code, longind, flag);
    }

    lemma RequireOrderEnds(cur: seq<string>, orig: seq<string>, start: nat, opts: seq<string>, operands: seq<string>)
      requires Layout(cur, orig, start, opts, operands) && operands == []
      ensures Done(cur, orig, start, opts + [], operands + orig[optind..])
    {
      assert opts[..firstNonopt - start] + operands + opts[firstNonopt - start..] == opts == opts + [];
      assert operands + orig[optind..] == orig[optind..];
    }

    /** One call of _getopt_internal_r on initialized data.  It does what the plain scan of the original
        arguments does next, and leaves the arguments not yet read alone. */
    method Call(argv: array<string>, cfg: Config, ghost orig: seq<string>, ghost start: nat, ghost opts: seq<string>,
                ghost operands: seq<string>)
        returns (code: int, longind: Option<nat>, flag: Option<(int, int)>)
      requires ValidConfig(cfg) && Layout(argv[..], orig, start, opts, operands)
      modifies argv, this`optind, this`optopt, this`optarg, this`nextchar, this`firstNonopt, this`lastNonopt
      ensures Follows(NextEvent(cfg, ordering, orig[old(optind)..], old(nextchar)), argv[..], orig, start, opts, operands,
                      old(optind), old(optopt), code, longind, flag)
    {
      hide Mixed;
      optarg := None;
      ghost var i := optind;
      if Pending(nextchar) {
        UnreadIsOriginal(orig, start, opts, firstNonopt - start, operands, optind);
        assert argv[i..] == orig[i..];
        ghost var r := ReadShort(cfg, orig[i..], nextchar.value);
        code, longind, flag := ShortOption(argv, cfg);
        ReadingFollows(r, argv[..], orig, start, opts, operands, i, old(optopt), code, longind, flag);
      } else {
        code, longind, flag := FreshCall(argv, cfg, orig, start, opts, operands);
      }
    }

    /** A call that starts at a new argument. */
    method FreshCall(argv: array<string>, cfg: Config, ghost orig: seq<string>, ghost start: nat, ghost opts: seq<string>,
                     ghost operands: seq<string>)
        returns (code: int, longind: Option<nat>, flag: Option<(int, int)>)
      requires ValidConfig(cfg) && Layout(argv[..], orig, start, opts, operands) && !Pending(nextchar) && optarg.None?
      modifies argv, this`optind, this`optopt, this`optarg, this`nextchar, this`firstNonopt, this`lastNonopt
      ensures Follows(NextEvent(cfg, ordering, orig[old(optind)..], old(nextchar)), argv[..], orig, start, opts, operands,
                      old(optind), old(optopt), code, longind, flag)
    {
      hide Mixed, Follows;
      ghost var i, next := optind, nextchar;
      ghost var rest := orig[i..];
      lastNonopt := Min(lastNonopt, optind);
      firstNonopt := Min(firstNonopt, optind);
      ghost var skipped := rest[..Skipped(ordering, rest)];
      if ordering.Permute? {
        Permuting(argv, orig, start, opts, operands);
        SkipOnce(rest);
        assert orig[optind..] == rest[Skip(rest)..];
      } else {
        assert operands + skipped == operands;
      }
      ghost var j := optind;
      assert orig[j..] == rest[|skipped|..];
      ghost var e := AheadEvent(cfg, ordering, orig[j..], next);
      code, longind, flag := AtElement(argv, cfg, orig, start, opts, operands + skipped);
      ShiftFollows(e, argv[..], orig, start, opts, operands, i, j, skipped, old(optopt), code, longind, flag);
    }

    /** _getopt_initialize. */
    method Initialize(optstring: string, posixlyCorrect: bool)
      modifies this`optind, this`firstNonopt, this`lastNonopt, this`nextchar, this`ordering, this`initialized
      ensures optind == (if old(optind) == 0 then 1 else old(optind)) && firstNonopt == lastNonopt == optind
      ensures nextchar.None? && initialized && ordering == OrderingOf(optstring, posixlyCorrect)
    {
      if optind == 0 { optind := 1; }
      firstNonopt, lastNonopt, nextchar := optind, optind, None;
      if At(optstring, 0) == '-' {
        ordering := ReturnInOrder;
      } else if At(optstring, 0) == '+' {
        ordering := RequireOrder;
      } else if posixlyCorrect {
        ordering := RequireOrder;
      } else {
        ordering := Permute;
      }
      initialized := true;
    }
  }

  /** Calls until -1, as a program's option loop does, starting at argument d.optind (or 1).  The results
      are those of the plain scan of the original arguments, and the arguments end up sorted: the
      program name, the option elements, the operands, with optind at the first operand.  An option that
      itself returns -1 ends the loop early, with the results up to it and the rest unread. */
  method ParseAll(argv: array<string>, d: GetoptData, optstring: string, posixlyCorrect: bool,
                  longopts: Option<seq<LongOption>>, longOnly: bool) returns (results: seq<Seen>)
    requires (!d.initialized || d.optind == 0) && (argv.Length >= 1 ==> d.optind <= argv.Length)
    requires ValidConfig(Config(Stripped(optstring), longopts, longOnly))
    modifies argv, d
    ensures argv.Length == 0 ==> results == [] && unchanged(d)
    ensures argv.Length >= 1 ==>
            var start := if old(d.optind) == 0 then 1 else old(d.optind);
            var s := Scan(Config(Stripped(optstring), longopts, longOnly), OrderingOf(optstring, posixlyCorrect),
                          old(argv[..])[start..], None);
            && results == SeenAll(Until(s.reports), old(d.optopt))
            && (Until(s.reports) == s.reports ==>
                  && argv[..] == old(argv[..])[..start] + s.opts + s.operands
                  && d.optind == start + |s.opts|
                  && multiset(argv[..]) == multiset(old(argv[..])))
            && (Until(s.reports) != s.reports ==>
                  d.optind <= argv.Length && argv[d.optind..] == old(argv[..])[d.optind..])
  {
    hide Scan, Mixed, SeenAll, Until;
    if argv.Length < 1 { return []; }
    var cfg := Config(Stripped(optstring), longopts, longOnly);
    ghost var orig := argv[..];
    d.Initialize(optstring, posixlyCorrect);
    NothingReadYet(orig, d.optind);
    FinishedSort(cfg, d.ordering, orig, d.optind);
    ghost var s := Scan(cfg, d.ordering, orig[d.optind..], None);
    results := ParseRest(argv, d, cfg, orig, d.optind, [], []);
    assert [] + s.opts == s.opts && [] + s.operands == s.operands;
  }

  /** The remaining calls of a run, from the middle. */
  method ParseRest(argv: array<string>, d: GetoptData, cfg: Config, ghost orig: seq<string>, ghost start: nat,
                   ghost opts: seq<string>, ghost operands: seq<string>) returns (results: seq<Seen>)
    requires ValidConfig(cfg) && d.Layout(argv[..], orig, start, opts, operands)
    modifies argv, d
    ensures var s := Scan(cfg, old(d.ordering), orig[old(d.optind)..], old(d.nextchar));
            && results == SeenAll(Until(s.reports), old(d.optopt))
            && (Until(s.reports) == s.reports ==> d.Done(argv[..], orig, start, opts + s.opts, operands + s.operands))
            && (Until(s.reports) != s.reports ==> d.optind <= |orig| == argv.Length && argv[d.optind..] == orig[d.optind..])
    decreases Unread(orig[d.optind..], d.nextchar)
  {
    hide NextEvent, Mixed, Scan, Unread;
    ghost var rest, next := orig[d.optind..], d.nextchar;
    ghost var e := NextEvent(cfg, d.ordering, rest, next);
    ScanUnfolds(cfg, d.ordering, rest, next, d.optopt);
    var code, longind, flag := d.Call(argv, cfg, orig, start, opts, operands);
    if code == -1 {
      if e.Hit? { UnreadAtEnd(d, argv[..], orig, start, opts + rest[e.skipped..e.skipped + e.reading.used], operands + rest[..e.skipped]); }
      return [];
    }
    var seen := Seen(code, d.optarg, d.optopt, longind, flag);
    ghost var more, skipped := rest[e.skipped..e.skipped + e.reading.used], rest[..e.skipped];
    assert orig[d.optind..] == rest[e.skipped + e.reading.used..];
    ghost var s' := Scan(cfg, d.ordering, orig[d.optind..], d.nextchar);
    Assoc(opts, more, s'.opts);
    Assoc(operands, skipped, s'.operands);
    results := ParseRest(argv, d, cfg, orig, start, opts + more, operands + skipped);
    results := [seen] + results;
  }

  /** The scan, seen one event at a time. */
  lemma ScanUnfolds(cfg: Config, ord: Ordering, rest: seq<string>, next: Option<string>, optopt: int)
    requires Pending(next) ==> rest != []
    ensures var s := Scan(cfg, ord, rest, next);
            match NextEvent(cfg, ord, rest, next)
            case End(o, t) => s == Scanned([], o, t)
            case Hit(k, r) =>
              var s' := Scan(cfg, ord, rest[k + r.used..], r.next);
              && s.opts == rest[k..k + r.used] + s'.opts && s.operands == rest[..k] + s'.operands
              && s.reports == [r.report] + s'.reports
              && (r.report.code == -1 ==> Until(s.reports) == [] != s.reports)
              && (r.report.code != -1 ==>
                    && (Until(s.reports) == s.reports <==> Until(s'.reports) == s'.reports)
                    && SeenAll(Until(s.reports), optopt)
                       == [SeenOf(r.report, optopt)] + SeenAll(Until(s'.reports), SeenOf(r.report, optopt).optopt))
              && Unread(rest[k + r.used..], r.next) < Unread(rest, next)
  {
    hide NextEvent, Unread, SeenOf, SeenAll, Until;
    HitConsumes(cfg, ord, rest, next);
    match NextEvent(cfg, ord, rest, next)
    case End(o, t) =>
    case Hit(k, r) =>
      UntilNext(r.report, Scan(cfg, ord, rest[k + r.used..], r.next).reports, optopt);
  }

  lemma UntilNext(r: Report, later: seq<Report>, optopt: int)
    ensures r.code == -1 ==> Until([r] + later) == [] != [r] + later
    ensures r.code != -1 ==>
              && (Until([r] + later) == [r] + later <==> Until(later) == later)
              && SeenAll(Until([r] + later), optopt) == [SeenOf(r, optopt)] + SeenAll(Until(later), SeenOf(r, optopt).optopt)
  {
    hide SeenOf;
    var all := [r] + later;
    assert all[1..] == later && ([r] + Until(later))[1..] == Until(later);
  }

  lemma UnreadAtEnd(d: GetoptData, cur: seq<string>, orig: seq<string>, start: nat, opts: seq<string>, operands: seq<string>)
    requires d.Layout(cur, orig, start, opts, operands)
    ensures d.optind <= |orig| == |cur| && cur[d.optind..] == orig[d.optind..]
  {
    UnreadIsOriginal(orig, start, opts, d.firstNonopt - start, operands, d.optind);
  }

  lemma NothingReadYet(orig: seq<string>, start: nat)
    requires start <= |orig|
    ensures Mixed(orig, start, [], 0, [], start) == orig
  {}

  lemma FinishedSort(cfg: Config, ord: Ordering, orig: seq<string>, start: nat)
    requires start <= |orig|
    ensures var s := Scan(cfg, ord, orig[start..], None);
            multiset(orig[..start] + s.opts + s.operands) == multiset(orig)
  {
    hide Scan, Merges;
    var rest := orig[start..];
    var s := Scan(cfg, ord, rest, None);
    ScanMerges(cfg, ord, rest, None);
    MergeIsPermutation(rest, s.opts, s.operands);
    Assoc(orig[..start], s.opts, s.operands);
    PermutedTail(orig[..start], rest, s.opts + s.operands);
    assert orig == orig[..start] + rest;
  }

  lemma PermutedTail(p: seq<string>, w: seq<string>, v: seq<string>)
    requires multiset(w) == multiset(v)
    ensures multiset(p + w) == multiset(p + v)
  {}

  lemma SkipOnce(rest: seq<string>)
    ensures Skip(rest[Skip(rest)..]) == 0
  {
    var k := Skip(rest);
    assert k < |rest| ==> rest[k..][0] == rest[k];
  }
}
