/**
 Command lines as their users mean them, and that the scan of getopt (externals/getopt/getopt.c)
 reads them so: operands, letters in clusters, arguments attached or apart, long options in
 full or abbreviated.
 */
module GetoptUsage {
  import opened Sequences
  import opened Text
  import opened Getopt

  /** A leading '-' asks for operands to be returned in order, a leading '+' or POSIXLY_CORRECT for stopping at
      the first; otherwise the arguments are permuted. */
  lemma OrderIsSaid(o: string, posixlyCorrect: bool)
    ensures Stripped("-" + o) == o && OrderingOf("-" + o, posixlyCorrect) == ReturnInOrder
    ensures Stripped("+" + o) == o && OrderingOf("+" + o, posixlyCorrect) == RequireOrder
    ensures !("-" <= o) && !("+" <= o) ==>
              Stripped(o) == o && OrderingOf(o, posixlyCorrect) == if posixlyCorrect then RequireOrder else Permute
  {
    assert ("-" + o)[1..] == o && ("+" + o)[1..] == o;
  }

  // ----- what an option string declares ----------------------------------------------

  /** The first c of the option string stands behind p and before q. */
  ghost predicate Stands(o: string, p: string, c: char, q: string) { o == p + [c] + q && c !in p }

  predicate Undeclared(cfg: Config, c: char) { c !in cfg.optstring || c == ':' || c == ';' }

  /** No colon behind it: an option without an argument. */
  ghost predicate IsFlag(cfg: Config, c: char) {
    && c != ':' && c != ';'
    && exists p, q :: Stands(cfg.optstring, p, c, q) && !(":" <= q) && !(c == 'W' && ";" <= q && cfg.longopts.Some?)
  }

  /** One colon behind it: an option with an argument. */
  ghost predicate Needs(cfg: Config, c: char) {
    c != ':' && c != ';' && exists p, q :: Stands(cfg.optstring, p, c, q) && ":" <= q && !("::" <= q)
  }

  /** Two colons behind it: the argument is optional. */
  ghost predicate MayTake(cfg: Config, c: char) {
    c != ':' && c != ';' && exists p, q :: Stands(cfg.optstring, p, c, q) && "::" <= q
  }

  /** W; declares that -W takes the text of a long option. */
  ghost predicate TakesLong(cfg: Config) {
    cfg.longopts.Some? && exists p, q :: Stands(cfg.optstring, p, 'W', q) && ";" <= q
  }

  lemma Place(o: string, p: string, c: char, q: string)
    requires Stands(o, p, c, q)
    ensures IndexOf(o, c) == |p| < |o| && At(o, |p| + 1) == At(q, 0) && At(o, |p| + 2) == At(q, 1)
  {
    assert o[..|p|] == p && o[|p|] == c;
    IndexOfIs(o, c, |p|);
  }

  lemma NotDeclared(o: string, c: char)
    requires c !in o
    ensures IndexOf(o, c) == |o|
  {
    assert o[..|o|] == o;
    IndexOfIs(o, c, |o|);
  }

  // ----- long options ------------------------------------------------------------------

  /** Lacking: the argument it needs should follow, but the command line ends. */
  datatype LongArg = Alone | Equals(v: string) | Apart(v: string) | Lacking

  /** An option of the table by its name or an abbreviation, or a name that is none. */
  datatype LongUse = Known(name: string, k: nat, arg: LongArg) | Unknown(name: string, tail: string)

  function LongText(l: LongUse): string {
    match l
    case Known(name, _, Equals(v)) => name + "=" + v
    case Known(name, _, _) => name
    case Unknown(name, tail) => name + tail
  }

  function LongExtra(l: LongUse): seq<string> { if l.Known? && l.arg.Apart? then [l.arg.v] else [] }

  predicate LongLacks(l: LongUse) { l.Known? && l.arg.Lacking? }

  ghost predicate NoneIs(opts: seq<LongOption>, name: string) { forall j :: 0 <= j < |opts| ==> opts[j].name != name }

  ghost predicate NoneBegins(opts: seq<LongOption>, name: string) { forall j :: 0 <= j < |opts| ==> !(name <= opts[j].name) }

  /** The name is option k: the first of that very name, or else the first that begins with it, all others
      that do having the same effect; with long_only there must be no other. */
  ghost predicate Resolves(opts: seq<LongOption>, name: string, longOnly: bool, k: nat) {
    && k < |opts|
    && if NoneIs(opts, name) then
         && name <= opts[k].name && (forall j :: 0 <= j < k ==> !(name <= opts[j].name))
         && forall j :: k < j < |opts| && name <= opts[j].name ==>
              !longOnly && opts[j].hasArg == opts[k].hasArg && opts[j].flag == opts[k].flag && opts[j].val == opts[k].val
       else opts[k].name == name && forall j :: 0 <= j < k ==> opts[j].name != name
  }

  /** Two options begin with the name and differ in effect, or, with long_only, at all. */
  ghost predicate IsAmbiguous(opts: seq<LongOption>, name: string, longOnly: bool) {
    exists i, j :: 0 <= i < j < |opts| && name <= opts[i].name && name <= opts[j].name
                   && (longOnly || opts[i].hasArg != opts[j].hasArg || opts[i].flag != opts[j].flag || opts[i].val != opts[j].val)
  }

  /** dashes: the text stands behind two dashes; then a name that is none is never tried as letters. */
  ghost predicate GoodLong(cfg: Config, l: LongUse, dashes: bool, longOnly: bool)
    requires cfg.longopts.Some?
  {
    var opts := cfg.longopts.value;
    && '=' !in l.name
    && match l
       case Known(name, k, arg) =>
         && Resolves(opts, name, longOnly, k)
         && (arg.Alone? ==> opts[k].hasArg != 1) && (arg.Apart? || arg.Lacking? ==> opts[k].hasArg == 1)
       case Unknown(name, tail) =>
         && (tail == "" || tail[0] == '=') && NoneIs(opts, name)
         && (IsAmbiguous(opts, name, longOnly)
             || (NoneBegins(opts, name)
                 && (!longOnly || dashes || (name + tail != [] && (name + tail)[0] !in cfg.optstring))))
  }

  /** What a complaint about a missing argument returns. */
  function Missing(cfg: Config): int { if ":" <= cfg.optstring then ':' as int else '?' as int }

  /** The option's value, or 0 and the variable it sets; a complaint for an argument it does not take and
      for an unknown name. */
  function LongReport(cfg: Config, l: LongUse): Report
    requires cfg.longopts.Some? && (l.Known? ==> l.k < |cfg.longopts.value|)
  {
    match l
    case Unknown(_, _) => Report('?' as int, None, Some(0), None, None)
    case Known(_, k, arg) =>
      var o := cfg.longopts.value[k];
      if arg.Lacking? then Report(Missing(cfg), None, Some(o.val), None, None)
      else if arg.Equals? && o.hasArg == 0 then Report('?' as int, None, Some(o.val), None, None)
      else Report(if o.flag.None? then o.val else 0, if arg.Alone? then None else Some(arg.v), None, Some(k),
                  if o.flag.None? then None else Some((o.flag.value, o.val)))
  }

  lemma NameEnds(l: LongUse)
    requires '=' !in l.name && (l.Unknown? ==> l.tail == "" || l.tail[0] == '=')
    ensures IndexOf(LongText(l), '=') == |l.name| <= |LongText(l)| && LongText(l)[..|l.name|] == l.name
    ensures (|l.name| < |LongText(l)|) == if l.Known? then l.arg.Equals? else l.tail != ""
    ensures l.Known? && l.arg.Equals? ==> LongText(l)[|l.name| + 1..] == l.arg.v
  {
    IndexOfIs(LongText(l), '=', |l.name|);
  }

  lemma ResolvedIs(opts: seq<LongOption>, name: string, longOnly: bool, k: nat)
    requires Resolves(opts, name, longOnly, k)
    ensures var exact := Exact(opts, name);
            if exact < |opts| then exact == k else FirstAbbreviated(opts, name) == k && !Ambiguous(opts, name, longOnly)
  {
    hide Exact, FirstAbbreviated;
    var exact := Exact(opts, name);
    if exact < |opts| {
      assert !NoneIs(opts, name);
    } else {
      assert NoneIs(opts, name);
      var f := FirstAbbreviated(opts, name);
      assert !(f < k) && !(k < f);
    }
  }

  lemma AmbiguousIs(opts: seq<LongOption>, name: string, longOnly: bool)
    requires IsAmbiguous(opts, name, longOnly)
    ensures Ambiguous(opts, name, longOnly)
  {
    hide FirstAbbreviated;
    var i, j :| 0 <= i < j < |opts| && name <= opts[i].name && name <= opts[j].name
                && (longOnly || opts[i].hasArg != opts[j].hasArg || opts[i].flag != opts[j].flag || opts[i].val != opts[j].val);
    var k := FirstAbbreviated(opts, name);
    assert k <= i;
    var other := if longOnly || !SameEffect(opts[k], opts[j]) then j else i;
    assert k < other < |opts| && name <= opts[other].name && (longOnly || !SameEffect(opts[k], opts[other]));
  }

  lemma NothingBegins(opts: seq<LongOption>, name: string, longOnly: bool)
    requires NoneBegins(opts, name)
    ensures Exact(opts, name) == FirstAbbreviated(opts, name) == |opts| && !Ambiguous(opts, name, longOnly)
  {
    hide Exact, FirstAbbreviated;
    var exact, f := Exact(opts, name), FirstAbbreviated(opts, name);
    forall j | 0 <= j < |opts| ensures opts[j].name != name { assert !(name <= opts[j].name); }
  }

  /** A reading that leaves nothing of the current argument. */
  ghost predicate Reads(r: Reading, report: Report, used: nat) {
    r.Reading? && r.report == report && r.used == used && !Pending(r.next)
  }

  lemma KnownReads(cfg: Config, first: string, l: LongUse, dashes: bool, longOnly: bool, rest: seq<string>)
    requires cfg.longopts.Some? && GoodLong(cfg, l, dashes, longOnly) && l.Known?
    requires (longOnly ==> |first| > 1) && (LongLacks(l) ==> rest == [])
    ensures Reads(ReadLong(cfg, [first] + LongExtra(l) + rest, LongText(l), longOnly), LongReport(cfg, l), 1 + |LongExtra(l)|)
  {
    hide IndexOf, Exact, FirstAbbreviated, Ambiguous, Resolves, LongText;
    var opts, k := cfg.longopts.value, l.k;
    var args := [first] + LongExtra(l) + rest;
    NameEnds(l);
    ResolvedIs(opts, l.name, longOnly, k);
    KnownIsThere(opts, l.name, longOnly, k);
    if l.arg.Apart? { assert args[1] == l.arg.v; }
  }

  lemma UnknownReads(cfg: Config, args: seq<string>, l: LongUse, dashes: bool, longOnly: bool)
    requires cfg.longopts.Some? && GoodLong(cfg, l, dashes, longOnly) && l.Unknown? && args != []
    requires longOnly ==> |args[0]| > 1 && (dashes <==> args[0][1] == '-')
    ensures Reads(ReadLong(cfg, args, LongText(l), longOnly), LongReport(cfg, l), 1)
  {
    hide IndexOf, Exact, FirstAbbreviated, Ambiguous, Resolves, IsAmbiguous;
    var opts, name := cfg.longopts.value, l.name;
    NameEnds(l);
    if IsAmbiguous(opts, name, longOnly) {
      AmbiguousIs(opts, name, longOnly);
      assert Exact(opts, name) == |opts|;
    } else {
      NothingBegins(opts, name, longOnly);
    }
  }

  lemma LongReads(cfg: Config, first: string, l: LongUse, dashes: bool, longOnly: bool, rest: seq<string>)
    requires cfg.longopts.Some? && GoodLong(cfg, l, dashes, longOnly)
    requires (longOnly ==> |first| > 1 && (dashes <==> first[1] == '-')) && (LongLacks(l) ==> rest == [])
    ensures Reads(ReadLong(cfg, [first] + LongExtra(l) + rest, LongText(l), longOnly), LongReport(cfg, l), 1 + |LongExtra(l)|)
  {
    hide ReadLong, GoodLong, LongText, LongReport, Reads;
    if l.Known? {
      KnownReads(cfg, first, l, dashes, longOnly, rest);
    } else {
      var args := [first] + LongExtra(l) + rest;
      assert args[0] == first && LongExtra(l) == [];
      UnknownReads(cfg, args, l, dashes, longOnly);
    }
  }

  lemma KnownIsThere(opts: seq<LongOption>, name: string, longOnly: bool, k: nat)
    requires Resolves(opts, name, longOnly, k)
    ensures k < |opts|
  {}

  // ----- letters -------------------------------------------------------------------------

  /** How a cluster ends: with its letters; with an option and the argument behind it or in the next argument;
      with an option that was not given its optional argument; with W and a long option; with one of these
      and nothing behind it. */
  datatype Last = Nothing | Attached(c: char, v: string) | Detached(c: char, v: string) | Bare(c: char) | NoArgument(c: char)
                | LongAttached(l: LongUse) | LongDetached(l: LongUse) | NoLong

  function LastText(last: Last): string {
    match last
    case Nothing => ""
    case Attached(c, v) => [c] + v
    case Detached(c, _) => [c]
    case Bare(c) => [c]
    case NoArgument(c) => [c]
    case LongAttached(l) => "W" + LongText(l)
    case LongDetached(_) => "W"
    case NoLong => "W"
  }

  function LastExtra(last: Last): seq<string> {
    match last
    case Detached(_, v) => [v]
    case LongAttached(l) => LongExtra(l)
    case LongDetached(l) => [LongText(l)] + LongExtra(l)
    case _ => []
  }

  predicate LastLacks(last: Last) {
    last.NoArgument? || last.NoLong? || ((last.LongAttached? || last.LongDetached?) && LongLacks(last.l))
  }

  ghost predicate GoodLast(cfg: Config, last: Last) {
    match last
    case Nothing => true
    case Attached(c, v) => (Needs(cfg, c) || MayTake(cfg, c)) && v != ""
    case Detached(c, v) => Needs(cfg, c)
    case Bare(c) => MayTake(cfg, c)
    case NoArgument(c) => Needs(cfg, c)
    case NoLong => TakesLong(cfg)
    case LongAttached(l) => TakesLong(cfg) && GoodLong(cfg, l, false, false) && LongText(l) != ""
    case LongDetached(l) => TakesLong(cfg) && GoodLong(cfg, l, false, false)
  }

  ghost function LastReports(cfg: Config, last: Last): seq<Report>
    requires GoodLast(cfg, last)
  {
    match last
    case Nothing => []
    case Attached(c, v) => [Report(c as int, Some(v), None, None, None)]
    case Detached(c, v) => [Report(c as int, Some(v), None, None, None)]
    case Bare(c) => [Report(c as int, None, None, None, None)]
    case NoArgument(c) => [Report(Missing(cfg), None, Some(c as int), None, None)]
    case NoLong => [Report(Missing(cfg), None, Some('W' as int), None, None)]
    case LongAttached(l) => [LongReport(cfg, l)]
    case LongDetached(l) => [LongReport(cfg, l)]
  }

  function LetterReport(cfg: Config, c: char): Report {
    if Undeclared(cfg, c) then Report('?' as int, None, Some(c as int), None, None)
    else Report(c as int, None, None, None, None)
  }

  function LetterReports(cfg: Config, letters: string): seq<Report> {
    if letters == [] then [] else [LetterReport(cfg, letters[0])] + LetterReports(cfg, letters[1..])
  }

  ghost predicate GoodLetters(cfg: Config, letters: string) {
    forall i :: 0 <= i < |letters| ==> Undeclared(cfg, letters[i]) || IsFlag(cfg, letters[i])
  }

  lemma LetterReads(cfg: Config, args: seq<string>, c: char, more: string)
    requires args != [] && (Undeclared(cfg, c) || IsFlag(cfg, c))
    ensures ReadShort(cfg, args, [c] + more) == Reading(LetterReport(cfg, c), if more == [] then 1 else 0, Some(more))
  {
    hide IndexOf, At, ReadLong;
    assert ([c] + more)[1..] == more;
    var o := cfg.optstring;
    if c !in o {
      NotDeclared(o, c);
    } else if !Undeclared(cfg, c) {
      var p, q :| Stands(o, p, c, q) && !(":" <= q) && !(c == 'W' && ";" <= q && cfg.longopts.Some?);
      Place(o, p, c, q);
      Begins(q, ':');
      Begins(q, ';');
    }
  }

  lemma Begins(q: string, c: char)
    requires c != '\0'
    ensures At(q, 0) == c <==> [c] <= q
  {}

  lemma BeginsTwice(q: string)
    ensures (At(q, 0) == ':' && At(q, 1) == ':') <==> "::" <= q
    ensures At(q, 0) == ':' <==> ":" <= q
  {}

  lemma AttachedReads(cfg: Config, args: seq<string>, c: char, v: string)
    requires args != [] && (Needs(cfg, c) || MayTake(cfg, c)) && v != ""
    ensures Reads(ReadShort(cfg, args, [c] + v), Report(c as int, Some(v), None, None, None), 1)
  {
    hide IndexOf, At, ReadLong;
    assert ([c] + v)[1..] == v;
    var p, q :| Stands(cfg.optstring, p, c, q) && ":" <= q;
    Place(cfg.optstring, p, c, q);
    BeginsTwice(q);
  }

  lemma DetachedReads(cfg: Config, args: seq<string>, c: char)
    requires |args| > 1 && Needs(cfg, c)
    ensures Reads(ReadShort(cfg, args, [c]), Report(c as int, Some(args[1]), None, None, None), 2)
  {
    hide IndexOf, At, ReadLong;
    var p, q :| Stands(cfg.optstring, p, c, q) && ":" <= q && !("::" <= q);
    Place(cfg.optstring, p, c, q);
    BeginsTwice(q);
  }

  lemma BareReads(cfg: Config, args: seq<string>, c: char)
    requires args != [] && MayTake(cfg, c)
    ensures Reads(ReadShort(cfg, args, [c]), Report(c as int, None, None, None, None), 1)
  {
    hide IndexOf, At, ReadLong;
    var p, q :| Stands(cfg.optstring, p, c, q) && "::" <= q;
    Place(cfg.optstring, p, c, q);
    BeginsTwice(q);
  }

  lemma MissingReads(cfg: Config, arg: string, c: char)
    requires Needs(cfg, c)
    ensures Reads(ReadShort(cfg, [arg], [c]), Report(Missing(cfg), None, Some(c as int), None, None), 1)
  {
    hide IndexOf, ReadLong;
    var p, q :| Stands(cfg.optstring, p, c, q) && ":" <= q && !("::" <= q);
    Place(cfg.optstring, p, c, q);
    BeginsTwice(q);
  }

  lemma WPlace(cfg: Config)
    requires TakesLong(cfg)
    ensures cfg.longopts.Some?
    ensures var o := cfg.optstring; IndexOf(o, 'W') < |o| && At(o, IndexOf(o, 'W') + 1) == ';'
  {
    hide At;
    var p, q :| Stands(cfg.optstring, p, 'W', q) && ";" <= q;
    Place(cfg.optstring, p, 'W', q);
    Begins(q, ';');
  }

  lemma LastReads(cfg: Config, arg: string, last: Last, rest: seq<string>)
    requires GoodLast(cfg, last) && !last.Nothing? && (LastLacks(last) ==> rest == [])
    ensures LastText(last) != [] && |LastReports(cfg, last)| == 1
    ensures Reads(ReadShort(cfg, [arg] + LastExtra(last) + rest, LastText(last)), LastReports(cfg, last)[0], 1 + |LastExtra(last)|)
  {
    hide ReadShort, ReadLong, Needs, MayTake, TakesLong, GoodLong, LongText, LongReport;
    var args := [arg] + LastExtra(last) + rest;
    match last
    case Attached(c, v) => AttachedReads(cfg, args, c, v);
    case Detached(c, v) =>
      assert args[1] == v;
      DetachedReads(cfg, args, c);
    case Bare(c) => BareReads(cfg, args, c);
    case NoArgument(c) =>
      assert args == [arg];
      MissingReads(cfg, arg, c);
    case NoLong =>
      assert args == [arg];
      NoLongReads(cfg, arg);
    case LongAttached(l) => LongAttachedReads(cfg, arg, l, rest);
    case LongDetached(l) => LongDetachedReads(cfg, arg, l, rest);
  }

  lemma NoLongReads(cfg: Config, arg: string)
    requires TakesLong(cfg)
    ensures Reads(ReadShort(cfg, [arg], "W"), Report(Missing(cfg), None, Some('W' as int), None, None), 1)
  {
    hide IndexOf, ReadLong;
    WPlace(cfg);
  }

  lemma LongAttachedReads(cfg: Config, arg: string, l: LongUse, rest: seq<string>)
    requires (LongLacks(l) ==> rest == []) && TakesLong(cfg) && GoodLong(cfg, l, false, false) && LongText(l) != ""
    ensures Reads(ReadShort(cfg, [arg] + LongExtra(l) + rest, "W" + LongText(l)), LongReport(cfg, l), 1 + |LongExtra(l)|)
  {
    hide IndexOf, At, ReadLong, LongText, LongReport, LongExtra, Resolves, IsAmbiguous;
    var next := "W" + LongText(l);
    assert next[0] == 'W' && next[1..] == LongText(l);
    WPlace(cfg);
    LongReads(cfg, arg, l, false, false, rest);
  }

  lemma LongDetachedReads(cfg: Config, arg: string, l: LongUse, rest: seq<string>)
    requires (LongLacks(l) ==> rest == []) && TakesLong(cfg) && GoodLong(cfg, l, false, false)
    ensures Reads(ReadShort(cfg, [arg] + ([LongText(l)] + LongExtra(l)) + rest, "W"), LongReport(cfg, l), 2 + |LongExtra(l)|)
  {
    hide IndexOf, At, ReadLong, LongText, LongReport, LongExtra, Resolves, IsAmbiguous;
    var args := [arg] + ([LongText(l)] + LongExtra(l)) + rest;
    assert args[1] == LongText(l) && args[1..] == [LongText(l)] + LongExtra(l) + rest;
    WPlace(cfg);
    LongReads(cfg, LongText(l), l, false, false, rest);
  }

  // ----- command lines ---------------------------------------------------------------------

  /** An operand, a cluster of letters, or a long option behind two dashes or, with long_only, one. */
  datatype Use = Operand(v: string) | Short(letters: string, last: Last) | Long(one: bool, l: LongUse)

  function Args(u: Use): seq<string> {
    match u
    case Operand(v) => [v]
    case Short(letters, last) => ["-" + (letters + LastText(last))] + LastExtra(last)
    case Long(one, l) => [(if one then "-" else "--") + LongText(l)] + LongExtra(l)
  }

  /** The text behind a dash is read as letters: it begins with no second dash that would announce a long
      option, and with long_only it is a declared letter alone or no long option begins with its name. */
  ghost predicate ReadAsLetters(cfg: Config, text: string)
    requires text != []
  {
    if text[0] == '-' then cfg.longopts.None? && |text| > 1
    else cfg.longopts.Some? && cfg.longOnly ==>
      text[0] in cfg.optstring && (|text| == 1 || NoneBegins(cfg.longopts.value, text[..IndexOf(text, '=')]))
  }

  ghost predicate GoodUse(cfg: Config, u: Use) {
    match u
    case Operand(v) => !("-" <= v) || v == "-"
    case Short(letters, last) =>
      && GoodLetters(cfg, letters) && GoodLast(cfg, last)
      && letters + LastText(last) != [] && ReadAsLetters(cfg, letters + LastText(last))
    case Long(one, l) =>
      && cfg.longopts.Some? && LongText(l) != ""
      && if one then
           && cfg.longOnly && GoodLong(cfg, l, false, true) && LongText(l)[0] != '-'
           && (|LongText(l)| > 1 || LongText(l)[0] !in cfg.optstring)
         else GoodLong(cfg, l, true, cfg.longOnly)
  }

  /** The argument it needs is missing; so it can only be the last part of a command line. */
  predicate Lacks(u: Use) { (u.Short? && LastLacks(u.last)) || (u.Long? && LongLacks(u.l)) }

  ghost function Reports(cfg: Config, ord: Ordering, u: Use): seq<Report>
    requires GoodUse(cfg, u)
  {
    match u
    case Operand(v) => if ord.Permute? then [] else [Report(1, Some(v), None, None, None)]
    case Short(letters, last) => LetterReports(cfg, letters) + LastReports(cfg, last)
    case Long(_, l) => [LongReport(cfg, l)]
  }

  /** Operands that are skipped are not among the option elements. */
  function OptionArgs(ord: Ordering, u: Use): seq<string> { if u.Operand? && ord.Permute? then [] else Args(u) }
  function OperandArgs(ord: Ordering, u: Use): seq<string> { if u.Operand? && ord.Permute? then Args(u) else [] }

  // ----- reading them ------------------------------------------------------------------------

  lemma EmptyNextEvent(cfg: Config, ord: Ordering, rest: seq<string>, next: Option<string>)
    requires !Pending(next)
    ensures var e, f := NextEvent(cfg, ord, rest, next), NextEvent(cfg, ord, rest, None);
            || e == f
            || (e.Hit? && f == Hit(e.skipped, e.reading.(next := None)) && e.reading.used == 1 && e.reading.next == next)
  {
    hide ReadElement, Skip, IsOption;
  }

  /** A fully read argument leaves no trace. */
  lemma {:induction false} EmptyNext(cfg: Config, ord: Ordering, rest: seq<string>, next: Option<string>)
    requires !Pending(next)
    ensures Scan(cfg, ord, rest, next) == Scan(cfg, ord, rest, None)
    decreases |rest|
  {
    hide NextEvent, Scan, Unread, Until, SeenAll, SeenOf;
    ScanUnfolds(cfg, ord, rest, next, 0);
    ScanUnfolds(cfg, ord, rest, None, 0);
    EmptyNextEvent(cfg, ord, rest, next);
    var e := NextEvent(cfg, ord, rest, next);
    if e != NextEvent(cfg, ord, rest, None) { EmptyNext(cfg, ord, rest[e.skipped + 1..], next); }
  }

  lemma ScanHit(cfg: Config, ord: Ordering, rest: seq<string>, next: Option<string>, r: Reading)
    requires (Pending(next) ==> rest != []) && NextEvent(cfg, ord, rest, next) == Hit(0, r) && r.Reading? && r.used <= |rest|
    requires Pending(r.next) ==> r.used == 0 && rest != []
    ensures var s := Scan(cfg, ord, rest[r.used..], if Pending(r.next) then r.next else None);
            Scan(cfg, ord, rest, next) == Scanned([r.report] + s.reports, rest[..r.used] + s.opts, s.operands)
  {
    hide NextEvent, Unread;
    HitConsumes(cfg, ord, rest, next);
    if !Pending(r.next) { EmptyNext(cfg, ord, rest[r.used..], r.next); }
    var s := Scan(cfg, ord, rest[r.used..], r.next);
    assert rest[..0] + s.operands == s.operands;
    assert rest[0..r.used] == rest[..r.used];
  }

  /** The scan of a command line that begins with these arguments. */
  ghost predicate Goes(cfg: Config, ord: Ordering, args: seq<string>, next: Option<string>, reports: seq<Report>,
                       opts: seq<string>, operands: seq<string>, rest: seq<string>) {
    && (Pending(next) ==> args != [])
    && var s := Scan(cfg, ord, rest, None);
       Scan(cfg, ord, args + rest, next) == Scanned(reports + s.reports, opts + s.opts, operands + s.operands)
  }

  lemma ReadGoes(cfg: Config, ord: Ordering, args: seq<string>, next: Option<string>, r: Reading, rest: seq<string>)
    requires args != [] && NextEvent(cfg, ord, args + rest, next) == Hit(0, r) && Reads(r, r.report, |args|)
    ensures Goes(cfg, ord, args, next, [r.report], args, [], rest)
  {
    hide NextEvent, Scan;
    ScanHit(cfg, ord, args + rest, next, r);
    var s := Scan(cfg, ord, rest, None);
    assert (args + rest)[|args|..] == rest && (args + rest)[..|args|] == args;
    assert [] + s.operands == s.operands;
  }

  /** One more letter of a cluster. */
  lemma LetterGoes(cfg: Config, ord: Ordering, args: seq<string>, c: char, more: string, reports: seq<Report>, rest: seq<string>)
    requires args != [] && more != [] && (Undeclared(cfg, c) || IsFlag(cfg, c))
    requires Goes(cfg, ord, args, Some(more), reports, args, [], rest)
    ensures Goes(cfg, ord, args, Some([c] + more), [LetterReport(cfg, c)] + reports, args, [], rest)
  {
    hide ReadShort, Scan, LetterReport, IsFlag, Undeclared;
    var all := args + rest;
    LetterReads(cfg, all, c, more);
    var r := Reading(LetterReport(cfg, c), 0, Some(more));
    ScanHit(cfg, ord, all, Some([c] + more), r);
    var s := Scan(cfg, ord, all, Some(more));
    assert all[0..] == all && all[..0] + s.opts == s.opts;
    Assoc([LetterReport(cfg, c)], reports, Scan(cfg, ord, rest, None).reports);
  }

  lemma {:induction false} ClusterGoes(cfg: Config, ord: Ordering, arg: string, letters: string, last: Last, rest: seq<string>)
    requires GoodLetters(cfg, letters) && GoodLast(cfg, last) && letters + LastText(last) != []
    requires LastLacks(last) ==> rest == []
    ensures Goes(cfg, ord, [arg] + LastExtra(last), Some(letters + LastText(last)),
                 LetterReports(cfg, letters) + LastReports(cfg, last), [arg] + LastExtra(last), [], rest)
    decreases |letters|
  {
    hide Goes, ReadShort, Scan, LetterReport, IsFlag, Undeclared, GoodLast, LastText, LastExtra, LastReports;
    var args := [arg] + LastExtra(last);
    if letters == [] {
      NotNothing(last);
      assert letters + LastText(last) == LastText(last);
      LastReads(cfg, arg, last, rest);
      ReadGoes(cfg, ord, args, Some(LastText(last)), ReadShort(cfg, args + rest, LastText(last)), rest);
      assert LetterReports(cfg, letters) + LastReports(cfg, last) == [LastReports(cfg, last)[0]];
    } else {
      var c, later := letters[0], letters[1..];
      assert letters + LastText(last) == [c] + (later + LastText(last));
      Assoc([LetterReport(cfg, c)], LetterReports(cfg, later), LastReports(cfg, last));
      if later + LastText(last) == [] {
        LastLetterGoes(cfg, ord, arg, c, last, rest);
        assert LetterReports(cfg, later) == [] && LetterReports(cfg, letters) == [LetterReport(cfg, c)];
        assert letters + LastText(last) == [c] + LastText(last);
      } else {
        ClusterGoes(cfg, ord, arg, later, last, rest);
        LetterGoes(cfg, ord, args, c, later + LastText(last), LetterReports(cfg, later) + LastReports(cfg, last), rest);
      }
    }
  }

  lemma NotNothing(last: Last)
    requires LastText(last) != []
    ensures !last.Nothing?
  {}

  lemma LastLetterGoes(cfg: Config, ord: Ordering, arg: string, c: char, last: Last, rest: seq<string>)
    requires (Undeclared(cfg, c) || IsFlag(cfg, c)) && LastText(last) == [] && GoodLast(cfg, last)
    ensures last.Nothing?
    ensures Goes(cfg, ord, [arg] + LastExtra(last), Some([c] + LastText(last)), [LetterReport(cfg, c)] + LastReports(cfg, last),
                 [arg] + LastExtra(last), [], rest)
  {
    hide Goes, ReadShort, Scan, LetterReport, IsFlag, Undeclared;
    var args := [arg];
    assert args + [] == args && [c] + [] == [c] && [LetterReport(cfg, c)] + [] == [LetterReport(cfg, c)];
    LetterReads(cfg, args + rest, c, []);
    ReadGoes(cfg, ord, args, Some([c]), Reading(LetterReport(cfg, c), 1, Some("")), rest);
  }

  /** A fresh element that is read as letters goes on like one that is half read. */
  lemma StartsAsLetters(cfg: Config, ord: Ordering, text: string, more: seq<string>)
    requires text != [] && ReadAsLetters(cfg, text)
    ensures Scan(cfg, ord, ["-" + text] + more, None) == Scan(cfg, ord, ["-" + text] + more, Some(text))
  {
    hide ReadShort, Unread, ReadLong, Scan;
    var arg, args := "-" + text, ["-" + text] + more;
    assert arg[1..] == text && args[0] == arg && arg != "--";
    assert Skip(args) == 0 && args[0..] == args;
    assert ReadElement(cfg, args) == ReadShort(cfg, args, text) by { ElementIsLetters(cfg, args, text); }
    SameEventSameScan(cfg, ord, args, None, Some(text));
  }

  lemma SameEventSameScan(cfg: Config, ord: Ordering, rest: seq<string>, a: Option<string>, b: Option<string>)
    requires (Pending(a) ==> rest != []) && (Pending(b) ==> rest != [])
    requires NextEvent(cfg, ord, rest, a) == NextEvent(cfg, ord, rest, b)
    ensures Scan(cfg, ord, rest, a) == Scan(cfg, ord, rest, b)
  {
    hide NextEvent, Unread;
  }

  lemma ElementIsLetters(cfg: Config, args: seq<string>, text: string)
    requires text != [] && ReadAsLetters(cfg, text) && args != [] && args[0] == "-" + text
    ensures IsOption(args[0]) && ReadElement(cfg, args) == ReadShort(cfg, args, text)
  {
    hide ReadShort, Exact, FirstAbbreviated, Ambiguous, IndexOf;
    var arg := args[0];
    assert arg[1..] == text && arg[1] == text[0];
    if cfg.longopts.Some? && cfg.longOnly && |text| > 1 {
      NothingBegins(cfg.longopts.value, text[..IndexOf(text, '=')], true);
    }
  }

  lemma LongGoes(cfg: Config, ord: Ordering, one: bool, l: LongUse, rest: seq<string>)
    requires GoodUse(cfg, Long(one, l)) && (LongLacks(l) ==> rest == [])
    ensures Goes(cfg, ord, Args(Long(one, l)), None, [LongReport(cfg, l)], Args(Long(one, l)), [], rest)
  {
    hide Goes, ReadLong, ReadShort, Scan, LongText, LongReport, Resolves, IsAmbiguous;
    var args := Args(Long(one, l));
    var all := args + rest;
    var arg := args[0];
    LongReads(cfg, arg, l, !one, cfg.longOnly, rest);
    var r := ReadLong(cfg, all, LongText(l), cfg.longOnly);
    assert all[0] == arg && arg != "--" && IsOption(arg) && Skip(all) == 0 && all[0..] == all;
    assert arg[if one then 1 else 2..] == LongText(l);
    assert ReadElement(cfg, all) == r;
    ReadGoes(cfg, ord, args, None, r, rest);
  }

  lemma OperandGoes(cfg: Config, ord: Ordering, v: string, rest: seq<string>)
    requires GoodUse(cfg, Operand(v)) && !ord.RequireOrder?
    ensures var u := Operand(v);
            Goes(cfg, ord, Args(u), None, Reports(cfg, ord, u), OptionArgs(ord, u), OperandArgs(ord, u), rest)
  {
    hide ReadElement, Unread;
    var all := [v] + rest;
    assert all[1..] == rest && !IsOption(v) && v != "--";
    if ord.ReturnInOrder? {
      hide Scan;
      assert all[0..] == all;
      ReadGoes(cfg, ord, [v], None, Reading(Report(1, Some(v), None, None, None), 1, None), rest);
    } else {
      SkippedFirst(cfg, v, rest);
    }
  }

  lemma SkippedFirst(cfg: Config, v: string, rest: seq<string>)
    requires !IsOption(v)
    ensures var s := Scan(cfg, Permute, rest, None);
            Scan(cfg, Permute, [v] + rest, None) == Scanned(s.reports, s.opts, [v] + s.operands)
  {
    hide NextEvent, Scan, Unread, IsOption, Until, SeenAll, SeenOf;
    var all := [v] + rest;
    EventBehind(cfg, v, rest);
    ScanUnfolds(cfg, Permute, rest, None, 0);
    ScanUnfolds(cfg, Permute, all, None, 0);
    match NextEvent(cfg, Permute, rest, None)
    case End(o, t) =>
    case Hit(k, r) =>
      DropFirst(v, rest, k + r.used);
      assert all[..1 + k] == [v] + rest[..k];
      Assoc([v], rest[..k], Scan(cfg, Permute, rest[k + r.used..], r.next).operands);
      assert all[1 + k..1 + k + r.used] == rest[k..k + r.used];
  }

  lemma EventBehind(cfg: Config, v: string, rest: seq<string>)
    requires !IsOption(v)
    ensures NextEvent(cfg, Permute, [v] + rest, None) ==
            match NextEvent(cfg, Permute, rest, None)
            case End(o, t) => End(o, [v] + t)
            case Hit(k, r) => Hit(1 + k, r)
  {
    hide IsOption, AheadEvent;
    var all := [v] + rest;
    var k := Skip(rest);
    assert all[0] == v && all[1..] == rest && Skip(all) == 1 + k;
    assert all[..1 + k] == [v] + rest[..k];
    DropFirst(v, rest, k);
    var e := AheadEvent(cfg, Permute, rest[k..], None);
    if e.End? { Assoc([v], rest[..k], e.operands); }
  }

  lemma DropFirst(v: string, rest: seq<string>, k: nat)
    requires k <= |rest|
    ensures ([v] + rest)[1 + k..] == rest[k..]
  {}

  /** Each part of a command line is read as it is meant, whatever follows. */
  lemma UseGoes(cfg: Config, ord: Ordering, u: Use, rest: seq<string>)
    requires GoodUse(cfg, u) && (ord.RequireOrder? ==> !u.Operand?) && (Lacks(u) ==> rest == [])
    ensures Goes(cfg, ord, Args(u), None, Reports(cfg, ord, u), OptionArgs(ord, u), OperandArgs(ord, u), rest)
  {
    hide Goes, LetterReports, LastReports, LongReport, GoodLast, GoodLetters, GoodLong, ReadAsLetters, Scan;
    match u
    case Operand(v) => OperandGoes(cfg, ord, v, rest);
    case Long(one, l) => LongGoes(cfg, ord, one, l, rest);
    case Short(letters, last) =>
      var text := letters + LastText(last);
      ClusterGoes(cfg, ord, "-" + text, letters, last, rest);
      StartedGoes(cfg, ord, text, LastExtra(last), LetterReports(cfg, letters) + LastReports(cfg, last), rest);
  }

  lemma StartedGoes(cfg: Config, ord: Ordering, text: string, extra: seq<string>, reports: seq<Report>, rest: seq<string>)
    requires text != [] && ReadAsLetters(cfg, text)
    requires Goes(cfg, ord, ["-" + text] + extra, Some(text), reports, ["-" + text] + extra, [], rest)
    ensures Goes(cfg, ord, ["-" + text] + extra, None, reports, ["-" + text] + extra, [], rest)
  {
    hide Scan, ReadAsLetters;
    StartsAsLetters(cfg, ord, text, extra + rest);
    Assoc(["-" + text], extra, rest);
  }

  /** How a command line ends: with its last part, with "--" and anything, or with the first operand where
      order is required. */
  datatype Ending = AtLast | AfterDashes(args: seq<string>) | AtOperand(args: seq<string>)

  function EndArgs(e: Ending): seq<string> {
    match e
    case AtLast => []
    case AfterDashes(args) => ["--"] + args
    case AtOperand(args) => args
  }

  predicate GoodEnding(ord: Ordering, e: Ending) {
    e.AtOperand? ==> ord.RequireOrder? && e.args != [] && (!("-" <= e.args[0]) || e.args[0] == "-")
  }

  function EndScan(e: Ending): Scanned {
    match e
    case AtLast => Scanned([], [], [])
    case AfterDashes(args) => Scanned([], ["--"], args)
    case AtOperand(args) => Scanned([], [], args)
  }

  lemma EndGoes(cfg: Config, ord: Ordering, e: Ending)
    requires GoodEnding(ord, e)
    ensures Scan(cfg, ord, EndArgs(e), None) == EndScan(e)
  {
    hide NextEvent, Scan, Unread, Until, SeenAll, SeenOf;
    EndEvent(cfg, ord, e);
    ScanUnfolds(cfg, ord, EndArgs(e), None, 0);
  }

  lemma EndEvent(cfg: Config, ord: Ordering, e: Ending)
    requires GoodEnding(ord, e)
    ensures NextEvent(cfg, ord, EndArgs(e), None) == End(EndScan(e).opts, EndScan(e).operands)
  {
    hide ReadElement;
    var all := EndArgs(e);
    match e
    case AtLast =>
    case AfterDashes(args) =>
      assert IsOption("--") && Skip(all) == 0 && all[0..] == all && all[1..] == args;
      assert all[..0] + args == args;
    case AtOperand(args) =>
      assert all[0..] == all && all[..0] + all == all;
  }

  // ----- whole command lines -------------------------------------------------------------------

  function AllArgs(us: seq<Use>, e: Ending): seq<string> {
    if us == [] then EndArgs(e) else Args(us[0]) + AllArgs(us[1..], e)
  }

  /** Every part is good; one that lacks its argument ends the line. */
  ghost predicate GoodLine(cfg: Config, ord: Ordering, us: seq<Use>, e: Ending) {
    && GoodEnding(ord, e)
    && (forall i :: 0 <= i < |us| ==> GoodUse(cfg, us[i]) && (ord.RequireOrder? ==> !us[i].Operand?))
    && forall i :: 0 <= i < |us| && Lacks(us[i]) ==> i == |us| - 1 && e.AtLast?
  }

  /** What is meant: the reports of the parts in order, the option elements, and the operands. */
  ghost function Meaning(cfg: Config, ord: Ordering, us: seq<Use>, e: Ending): Scanned
    requires GoodLine(cfg, ord, us, e)
    decreases |us|
  {
    if us == [] then EndScan(e)
    else
      var s := Meaning(cfg, ord, us[1..], e);
      Scanned(Reports(cfg, ord, us[0]) + s.reports, OptionArgs(ord, us[0]) + s.opts, OperandArgs(ord, us[0]) + s.operands)
  }

  /** The scan reads every such command line as it is meant. */
  lemma {:induction false} ScanReadsLine(cfg: Config, ord: Ordering, us: seq<Use>, e: Ending)
    requires GoodLine(cfg, ord, us, e)
    ensures Scan(cfg, ord, AllArgs(us, e), None) == Meaning(cfg, ord, us, e)
    decreases |us|
  {
    hide Scan, GoodUse, GoodEnding, EndScan, Args, Reports, OptionArgs, OperandArgs, Lacks;
    if us == [] {
      EndGoes(cfg, ord, e);
    } else {
      ScanReadsLine(cfg, ord, us[1..], e);
      if Lacks(us[0]) { assert AllArgs(us[1..], e) == []; }
      UseGoes(cfg, ord, us[0], AllArgs(us[1..], e));
    }
  }

  // ----- every command line is one of these -----------------------------------------------------

  /** Any text, with the arguments behind it, as the use of a long option. */
  lemma AnyLong(cfg: Config, text: string, more: seq<string>, dashes: bool, longOnly: bool) returns (l: LongUse)
    requires cfg.longopts.Some?
    requires NoneBegins(cfg.longopts.value, text[..IndexOf(text, '=')]) ==>
               !longOnly || dashes || (text != [] && text[0] !in cfg.optstring)
    ensures GoodLong(cfg, l, dashes, longOnly) && LongText(l) == text && LongExtra(l) <= more && (LongLacks(l) ==> more == [])
  {
    hide IndexOf, Exact, FirstAbbreviated;
    var opts := cfg.longopts.value;
    var end := IndexOf(text, '=');
    var name, tail := text[..end], text[end..];
    IndexOfMeans(text, '=');
    assert text == name + tail && (tail == "" || tail[0] == '=');
    if NoneIs(opts, name) && (NoneBegins(opts, name) || IsAmbiguous(opts, name, longOnly)) {
      l := Unknown(name, tail);
    } else {
      var k := AnyOption(opts, name, longOnly);
      var arg := if tail != "" then Equals(tail[1..]) else if opts[k].hasArg != 1 then Alone
                 else if more == [] then Lacking else Apart(more[0]);
      l := Known(name, k, arg);
      assert tail != "" ==> text == name + "=" + tail[1..];
      assert arg.Apart? ==> more[..1] == [more[0]];
    }
  }

  lemma AnyOption(opts: seq<LongOption>, name: string, longOnly: bool) returns (k: nat)
    requires !NoneIs(opts, name) || (!NoneBegins(opts, name) && !IsAmbiguous(opts, name, longOnly))
    ensures Resolves(opts, name, longOnly, k)
  {
    hide Exact, FirstAbbreviated;
    if NoneIs(opts, name) {
      k := FirstAbbreviated(opts, name);
      assert k < |opts|;
    } else {
      k := Exact(opts, name);
    }
  }

  lemma DeclaredSomewhere(o: string, c: char) returns (p: string, q: string)
    requires c in o
    ensures Stands(o, p, c, q)
  {
    var k := IndexOf(o, c);
    IndexOfMeans(o, c);
    assert o[..|o|] == o;
    p, q := o[..k], o[k + 1..];
    assert o == o[..k] + [o[k]] + o[k + 1..];
  }

  lemma AnyW(cfg: Config, v: string, more: seq<string>) returns (last: Last)
    requires TakesLong(cfg)
    ensures GoodLast(cfg, last) && LastText(last) == "W" + v && LastExtra(last) <= more
    ensures LastLacks(last) ==> LastExtra(last) == more
  {
    hide IndexOf, GoodLong, TakesLong, LongText;
    WPlace(cfg);
    if v != "" {
      var l := AnyLong(cfg, v, more, false, false);
      last := LongAttached(l);
    } else if more == [] {
      last := NoLong;
    } else {
      var l := AnyLong(cfg, more[0], more[1..], false, false);
      last := LongDetached(l);
      assert more == [more[0]] + more[1..];
    }
  }

  /** Any declared letter that is no flag, with what is behind it. */
  lemma AnyLast(cfg: Config, c: char, v: string, more: seq<string>) returns (last: Last)
    requires !Undeclared(cfg, c) && !IsFlag(cfg, c)
    ensures GoodLast(cfg, last) && LastText(last) == [c] + v && LastExtra(last) <= more && (LastLacks(last) ==> LastExtra(last) == more)
  {
    hide IndexOf, GoodLong;
    var p, q := DeclaredSomewhere(cfg.optstring, c);
    if !(":" <= q) {
      assert c == 'W' && ";" <= q && cfg.longopts.Some?;
      last := AnyW(cfg, v, more);
    } else if "::" <= q {
      assert MayTake(cfg, c);
      last := if v == "" then Bare(c) else Attached(c, v);
    } else {
      assert Needs(cfg, c);
      last := if v != "" then Attached(c, v) else if more == [] then NoArgument(c) else Detached(c, more[0]);
      assert last.Detached? ==> more[..1] == [more[0]];
    }
  }

  /** Any text as a cluster of letters. */
  lemma {:induction false} AnyCluster(cfg: Config, text: string, more: seq<string>) returns (letters: string, last: Last)
    ensures GoodLetters(cfg, letters) && GoodLast(cfg, last) && letters + LastText(last) == text
    ensures LastExtra(last) <= more && (LastLacks(last) ==> LastExtra(last) == more)
    decreases |text|
  {
    hide IsFlag, GoodLast, LastText, LastExtra, LastLacks;
    if text == [] {
      letters, last := "", Nothing;
      NothingIsGood(cfg, more);
    } else {
      var c, v := text[0], text[1..];
      assert text == [c] + v;
      if Undeclared(cfg, c) || IsFlag(cfg, c) {
        var later, end := AnyCluster(cfg, v, more);
        letters, last := [c] + later, end;
        Assoc([c], later, LastText(end));
      } else {
        last := AnyLast(cfg, c, v, more);
        letters := "";
        assert letters + LastText(last) == LastText(last);
      }
    }
  }

  lemma NothingIsGood(cfg: Config, more: seq<string>)
    ensures GoodLast(cfg, Nothing) && LastText(Nothing) == "" && LastExtra(Nothing) <= more && !LastLacks(Nothing)
  {}

  /** Any option element, with the arguments behind it. */
  lemma AnyElement(cfg: Config, arg: string, more: seq<string>) returns (u: Use)
    requires IsOption(arg) && arg != "--"
    ensures GoodUse(cfg, u) && !u.Operand? && Args(u) <= [arg] + more && (Lacks(u) ==> Args(u) == [arg] + more)
  {
    hide GoodLetters, GoodLast, GoodLong, LongText, LongExtra, LastText, LastExtra;
    var text := arg[1..];
    assert arg == "-" + text && text[0] == arg[1];
    if ReadAsLetters(cfg, text) {
      var letters, last := AnyCluster(cfg, text, more);
      u := Short(letters, last);
      FirstArgs(arg, LastExtra(last), more);
    } else if text[0] == '-' {
      assert cfg.longopts.Some?;
      assert arg == "--" + text[1..];
      var l := AnyLong(cfg, text[1..], more, true, cfg.longOnly);
      u := Long(false, l);
      FirstArgs(arg, LongExtra(l), more);
    } else {
      var l := AnyLong(cfg, text, more, false, true);
      u := Long(true, l);
      FirstArgs(arg, LongExtra(l), more);
    }
  }

  lemma FirstArgs(arg: string, extra: seq<string>, more: seq<string>)
    requires extra <= more
    ensures [arg] + extra <= [arg] + more
    ensures extra == more ==> [arg] + extra == [arg] + more
  {}

  /** Every list of arguments is such a command line, and the scan reads it as it is meant. */
  lemma {:induction false} EveryLineIsRead(cfg: Config, ord: Ordering, args: seq<string>) returns (us: seq<Use>, e: Ending)
    ensures GoodLine(cfg, ord, us, e) && AllArgs(us, e) == args
    ensures Scan(cfg, ord, args, None) == Meaning(cfg, ord, us, e)
    decreases |args|
  {
    us, e := EveryLine(cfg, ord, args);
    ScanReadsLine(cfg, ord, us, e);
  }

  lemma {:induction false} EveryLine(cfg: Config, ord: Ordering, args: seq<string>) returns (us: seq<Use>, e: Ending)
    ensures GoodLine(cfg, ord, us, e) && AllArgs(us, e) == args
    decreases |args|
  {
    hide GoodLetters, GoodLast, GoodLong, LastLacks, LongLacks, ReadAsLetters;
    if args == [] {
      us, e := [], AtLast;
    } else if args[0] == "--" {
      us, e := [], AfterDashes(args[1..]);
      assert args == ["--"] + args[1..];
    } else if !IsOption(args[0]) && ord.RequireOrder? {
      us, e := [], AtOperand(args);
    } else {
      var u: Use;
      assert args == [args[0]] + args[1..];
      if IsOption(args[0]) { u := AnyElement(cfg, args[0], args[1..]); } else { u := Operand(args[0]); }
      var rest := args[|Args(u)|..];
      assert args == Args(u) + rest;
      var later, end := EveryLine(cfg, ord, rest);
      us, e := [u] + later, end;
      NextPart(cfg, ord, u, later, end, rest);
    }
  }

  lemma NextPart(cfg: Config, ord: Ordering, u: Use, later: seq<Use>, e: Ending, rest: seq<string>)
    requires GoodUse(cfg, u) && (ord.RequireOrder? ==> !u.Operand?) && GoodLine(cfg, ord, later, e) && AllArgs(later, e) == rest
    requires Lacks(u) ==> rest == []
    ensures GoodLine(cfg, ord, [u] + later, e) && AllArgs([u] + later, e) == Args(u) + rest
  {
    hide GoodUse, Lacks;
    var us := [u] + later;
    assert us[1..] == later;
    if rest == [] {
      assert later == [] by { if later != [] { SomeArgs(later[0]); } }
    }
  }

  lemma SomeArgs(u: Use)
    ensures |Args(u)| > 0
  {}
}
