/** What a command line means to getopt, without any permuting: a left-to-right
    reading of the original arguments.  The machine that permutes argv in place
    while it runs is in Getopt.dfy and is proved to agree with this reading. */
module OptionScan {
  import opened Options
  import opened CStrings

  const NO_ARGUMENT := 0
  const REQUIRED_ARGUMENT := 1

  /** `flag` stands for the address of the caller's variable, if there is one. */
  datatype LongOption = LongOption(name: string, hasArg: int, flag: Option<nat>, val: int)

  /** What to do with arguments that are not options: stop, skip them, or report
      them like options. */
  datatype Ordering = REQUIRE_ORDER | PERMUTE | RETURN_IN_ORDER

  /** optstring is what follows a leading '-' or '+'. */
  datatype Config = Config(ordering: Ordering, optstring: string, longopts: Option<seq<LongOption>>, longOnly: bool)

  /** One answer of getopt: the returned value, optarg, optopt if it was set, the
      index of a long option, how many argv elements it has finished with, and what is
      left of the current element. */
  datatype Outcome = Outcome(ret: int, optarg: Option<string>, optopt: Option<int>,
                             longind: Option<nat>, elements: nat, rest: string)

  // ----- long options -------------------------------------------------------

  /** Index of the first c in s, or |s|. */
  function IndexOf(s: string, c: char): (i: nat)
    ensures i <= |s| && (i < |s| ==> s[i] == c) && c !in s[..i]
  {
    if s == "" || s[0] == c then 0 else
      var i := IndexOf(s[1..], c);
      assert s[..i + 1] == [s[0]] + s[1..][..i];
      i + 1
  }

  lemma {:induction false} IndexOfUnique(s: string, c: char, i: nat)
    requires i <= |s| && (i < |s| ==> s[i] == c) && c !in s[..i]
    ensures i == IndexOf(s, c)
  {
    if i > 0 {
      assert s[..i][0] == s[0];
      assert s[1..][..i - 1] == s[..i][1..];
      IndexOfUnique(s[1..], c, i - 1);
    }
  }

  predicate Abbreviates(name: string, p: LongOption) {
    name <= p.name
  }

  /** Two candidates an abbreviation cannot tell apart. */
  predicate Conflicting(longOnly: bool, p: LongOption, q: LongOption) {
    longOnly || p.hasArg != q.hasArg || p.flag != q.flag || p.val != q.val
  }

  datatype Match = Hit(index: nat) | Ambiguous | NoMatch

  /** The rule for long names: an exact match wins wherever it stands; otherwise
      the first option that the name abbreviates, unless a later one conflicts. */
  ghost predicate IsMatch(opts: seq<LongOption>, name: string, longOnly: bool, m: Match) {
    if exists i :: 0 <= i < |opts| && opts[i].name == name then
      && m.Hit? && m.index < |opts| && opts[m.index].name == name
      && forall i :: 0 <= i < m.index ==> opts[i].name != name
    else if exists i :: 0 <= i < |opts| && Abbreviates(name, opts[i]) then
      (match m
       case Hit(f) => FirstAbbreviated(opts, name, f) && !Rivalled(opts, name, longOnly, f)
       case Ambiguous => exists f: nat :: FirstAbbreviated(opts, name, f) && Rivalled(opts, name, longOnly, f)
       case NoMatch => false)
    else
      m == NoMatch
  }

  ghost predicate FirstAbbreviated(opts: seq<LongOption>, name: string, f: nat) {
    && f < |opts| && Abbreviates(name, opts[f])
    && forall i :: 0 <= i < f ==> !Abbreviates(name, opts[i])
  }

  /** A later option that `name` abbreviates too conflicts with option f. */
  ghost predicate Rivalled(opts: seq<LongOption>, name: string, longOnly: bool, f: nat)
    requires f < |opts|
  {
    exists j :: f < j < |opts| && Abbreviates(name, opts[j]) && Conflicting(longOnly, opts[f], opts[j])
  }

  lemma MatchUnique(opts: seq<LongOption>, name: string, longOnly: bool, m: Match, n: Match)
    requires IsMatch(opts, name, longOnly, m) && IsMatch(opts, name, longOnly, n)
    ensures m == n
  {
    if exists i :: 0 <= i < |opts| && opts[i].name == name {
      assert !(m.index < n.index) && !(n.index < m.index);
    } else {
      forall f: nat, g: nat | FirstAbbreviated(opts, name, f) && FirstAbbreviated(opts, name, g)
        ensures f == g
      {
        assert !(f < g) && !(g < f);
      }
    }
  }

  lemma MatchExists(opts: seq<LongOption>, name: string, longOnly: bool)
    ensures exists m :: IsMatch(opts, name, longOnly, m)
  {
    if i :| 0 <= i < |opts| && opts[i].name == name {
      var e := Least(opts, (p: LongOption) => p.name == name, i);
      assert IsMatch(opts, name, longOnly, Hit(e));
    } else if i :| 0 <= i < |opts| && Abbreviates(name, opts[i]) {
      var f := Least(opts, (p: LongOption) => Abbreviates(name, p), i);
      assert FirstAbbreviated(opts, name, f);
      assert IsMatch(opts, name, longOnly, if Rivalled(opts, name, longOnly, f) then Ambiguous else Hit(f));
    } else {
      assert IsMatch(opts, name, longOnly, NoMatch);
    }
  }

  lemma {:induction false} Least(opts: seq<LongOption>, p: LongOption -> bool, i: nat) returns (k: nat)
    requires i < |opts| && p(opts[i])
    ensures k <= i && p(opts[k]) && forall j :: 0 <= j < k ==> !p(opts[j])
  {
    if j :| 0 <= j < i && p(opts[j]) {
      k := Least(opts, p, j);
    } else {
      k := i;
    }
  }

  ghost function LongMatch(opts: seq<LongOption>, name: string, longOnly: bool): (m: Match)
    ensures IsMatch(opts, name, longOnly, m)
  {
    MatchExists(opts, name, longOnly);
    var m :| IsMatch(opts, name, longOnly, m);
    m
  }

  /** Match a long name against the option table: an exact match ends the search, an
      abbreviation remembers the first candidate and any conflicting one. */
  method FindLong(opts: seq<LongOption>, name: string, longOnly: bool) returns (m: Match)
    ensures m == LongMatch(opts, name, longOnly)
  {
    var pfound: Option<nat> := None;
    var ambig := false;
    for i := 0 to |opts|
      invariant forall k :: 0 <= k < i ==> opts[k].name != name
      invariant pfound.None? ==> !ambig && forall k :: 0 <= k < i ==> !Abbreviates(name, opts[k])
      invariant pfound.Some? ==> pfound.value < i && FirstAbbreviated(opts, name, pfound.value)
      invariant pfound.Some? ==>
        (ambig <==> exists j :: pfound.value < j < i && Abbreviates(name, opts[j])
                                && Conflicting(longOnly, opts[pfound.value], opts[j]))
    {
      if name <= opts[i].name {
        if |name| == |opts[i].name| {
          MatchUnique(opts, name, longOnly, Hit(i), LongMatch(opts, name, longOnly));
          return Hit(i);
        } else if pfound.None? {
          pfound := Some(i);
        } else if Conflicting(longOnly, opts[pfound.value], opts[i]) {
          ambig := true;
        }
      }
    }
    m := if pfound.None? then NoMatch else if ambig then Ambiguous else Hit(pfound.value);
    MatchUnique(opts, name, longOnly, m, LongMatch(opts, name, longOnly));
  }

  // ----- one option of one element ------------------------------------------

  const QUESTION := '?' as int
  const COLON := ':' as int

  /** What getopt answers when an option lacks its argument. */
  function MissingArgument(cfg: Config): int {
    if cfg.optstring != "" && cfg.optstring[0] == ':' then COLON else QUESTION
  }

  /** A long option `p` spelled in `text`, whose name ends at position n. */
  function TakeLong(cfg: Config, p: LongOption, index: nat, text: string, n: nat, next: Option<string>): Outcome
    requires n <= |text|
  {
    var ret := if p.flag.Some? then 0 else p.val;
    if n < |text| then
      if p.hasArg != NO_ARGUMENT then Outcome(ret, Some(text[n + 1..]), None, Some(index), 1, "")
      else Outcome(QUESTION, None, Some(p.val), None, 1, "")
    else if p.hasArg == REQUIRED_ARGUMENT then
      if next.Some? then Outcome(ret, next, None, Some(index), 2, "")
      else Outcome(MissingArgument(cfg), None, Some(p.val), None, 1, "")
    else Outcome(ret, None, None, Some(index), 1, "")
  }

  /** The first of the elements ahead, if there is one. */
  function First(ahead: seq<string>): Option<string> {
    if ahead == [] then None else Some(ahead[0])
  }

  /** The long-option reading of `text`, or None to read it as a short option. */
  ghost function DecodeLong(cfg: Config, opts: seq<LongOption>, element: string, text: string, ahead: seq<string>): Option<Outcome>
    requires |element| >= 2 && text != ""
  {
    var n := IndexOf(text, '=');
    match LongMatch(opts, text[..n], cfg.longOnly)
    case Ambiguous => Some(Outcome(QUESTION, None, Some(0), None, 1, ""))
    case Hit(i) => Some(TakeLong(cfg, opts[i], i, text, n, First(ahead)))
    case NoMatch =>
      if !cfg.longOnly || element[1] == '-' || text[0] !in cfg.optstring
      then Some(Outcome(QUESTION, None, Some(0), None, 1, ""))
      else None
  }

  /** The name that "W;" makes a long option, and how many elements it takes up: text is
      what follows the 'W' in its element. */
  function LongName(text: string, ahead: seq<string>): Option<(string, nat)> {
    if text != "" then Some((text, 1))
    else if ahead != [] then Some((ahead[0], 2))
    else None
  }

  /** Option 'W' with "W;" in the option string. */
  ghost function DecodeW(cfg: Config, text: string, ahead: seq<string>): (o: Outcome)
    ensures o.rest == ""
  {
    if cfg.longopts.None? then Outcome('W' as int, None, None, None, if text == "" then 1 else 0, "")
    else if LongName(text, ahead).None? then Outcome(MissingArgument(cfg), None, Some('W' as int), None, 1, "")
    else
      var (name, k) := LongName(text, ahead).value;
      var n := IndexOf(name, '=');
      match LongMatch(cfg.longopts.value, name[..n], cfg.longOnly)
      case Ambiguous => Outcome(QUESTION, Some(name), None, None, k + 1, "")
      case NoMatch => Outcome('W' as int, Some(name), None, None, k, "")
      case Hit(i) =>
        var o := TakeLong(cfg, cfg.longopts.value[i], i, name, n, First(ahead[k - 1..]));
        Outcome(o.ret, if o.longind.Some? then o.optarg else Some(name), None, o.longind, o.elements + k - 1, "")
  }

  ghost function DecodeShort(cfg: Config, text: string, ahead: seq<string>): (o: Outcome)
    requires text != ""
    ensures |o.rest| < |text| && (o.rest != "" ==> o.elements == 0)
  {
    var c, rest := text[0], text[1..];
    var k := IndexOf(cfg.optstring, c);
    var here := if rest == "" then 1 else 0;
    if k == |cfg.optstring| || c == ':' || c == ';' then Outcome(QUESTION, None, Some(c as int), None, here, rest)
    else if c == 'W' && At(cfg.optstring, k + 1) == ';' then DecodeW(cfg, rest, ahead)
    else if At(cfg.optstring, k + 1) != ':' then Outcome(c as int, None, None, None, here, rest)
    else if rest != "" then Outcome(c as int, Some(rest), None, None, 1, "")
    else if At(cfg.optstring, k + 2) == ':' then Outcome(c as int, None, None, None, 1, "")
    else if ahead != [] then Outcome(c as int, First(ahead), None, None, 2, "")
    else Outcome(MissingArgument(cfg), None, Some(c as int), None, 1, "")
  }

  /** Are long options tried on this text? */
  predicate TriesLong(cfg: Config, element: string)
    requires |element| >= 2
  {
    cfg.longopts.Some? && (element[1] == '-' || (cfg.longOnly && (|element| > 2 || element[1] !in cfg.optstring)))
  }

  ghost function Decode(cfg: Config, element: string, text: string, ahead: seq<string>): (o: Outcome)
    requires |element| >= 2 && text != ""
    ensures |o.rest| < |text| && (o.rest != "" ==> o.elements == 0)
  {
    var long := if TriesLong(cfg, element) then DecodeLong(cfg, cfg.longopts.value, element, text, ahead) else None;
    if long.Some? then long.value else DecodeShort(cfg, text, ahead)
  }

  // ----- the whole command line ---------------------------------------------

  predicate NonOption(element: string) {
    |element| < 2 || element[0] != '-'
  }

  /** An option element without its initial punctuation. */
  function OptionText(cfg: Config, element: string): (t: string)
    requires !NonOption(element)
    ensures |t| < |element| && (element != "--" ==> t != "")
  {
    if cfg.longopts.Some? && element[1] == '-' then element[2..] else element[1..]
  }

  /** Answers given, option elements (arguments of options and "--" included) and
      non-options, each in command-line order.  A reading is sound that comes to the end
      of the arguments: with "W;" an option may be read for ever, or reach beyond. */
  datatype Parsed = Parsed(answers: seq<Outcome>, options: seq<string>, nonOptions: seq<string>, sound: bool)
  {
    function Then(p: Parsed): Parsed {
      Parsed(answers + p.answers, options + p.options, nonOptions + p.nonOptions, sound && p.sound)
    }
  }

  const NOTHING := Parsed([], [], [], true)

  /** One step of a reading: what it finds, and where it goes on. */
  datatype Chunk = Chunk(parsed: Parsed, i: nat, pending: string)

  ghost predicate Readable(args: seq<string>, i: nat, pending: string) {
    i <= |args| && (pending != "" ==> i < |args| && |args[i]| >= 2)
  }

  /** The elements that follow position i. */
  function Following(args: seq<string>, i: nat): seq<string>
    requires i < |args|
  {
    args[i + 1..]
  }

  const NON_OPTION := 1

  /** The answer that hands a non-option to the caller. */
  function Reported(element: string): Outcome {
    Outcome(NON_OPTION, Some(element), None, None, 1, "")
  }

  /** `pending` is the unread part of option element i. */
  ghost function ScanStep(cfg: Config, args: seq<string>, i: nat, pending: string): (c: Chunk)
    requires i < |args| && Readable(args, i, pending)
    ensures i <= c.i && Readable(args, c.i, c.pending)
    ensures c.i == i ==> 0 < |c.pending| < if pending == "" then |args[i]| else |pending|
  {
    if pending == "" && NonOption(args[i]) then
      match cfg.ordering
      case PERMUTE => Chunk(Parsed([], [], [args[i]], true), i + 1, "")
      case REQUIRE_ORDER => Chunk(Parsed([], [], args[i..], true), |args|, "")
      case RETURN_IN_ORDER => Chunk(Parsed([Reported(args[i])], [args[i]], [], true), i + 1, "")
    else if pending == "" && args[i] == "--" then
      Chunk(Parsed([], ["--"], args[i + 1..], true), |args|, "")
    else
      var text := if pending == "" then OptionText(cfg, args[i]) else pending;
      Answer(args, i, Decode(cfg, args[i], text, Following(args, i)))
  }

  /** Does the answer o for element i get on with the arguments, and not beyond them? */
  predicate GoesOn(args: seq<string>, i: nat, o: Outcome) {
    i + o.elements <= |args| && (o.elements == 0 ==> o.rest != "")
  }

  /** What the answer o for element i leaves to read. */
  function Answer(args: seq<string>, i: nat, o: Outcome): Chunk
    requires i < |args|
  {
    if GoesOn(args, i, o) then Chunk(Parsed([o], args[i..i + o.elements], [], true), i + o.elements, o.rest)
    else Chunk(Parsed([], [], args[i..], false), |args|, "")
  }

  /** Reading the arguments from position i on. */
  ghost function Scan(cfg: Config, args: seq<string>, i: nat, pending: string): Parsed
    requires Readable(args, i, pending)
    decreases |args| - i, if pending != "" then |pending| else if i < |args| then |args[i]| else 0
  {
    if i == |args| then NOTHING
    else
      var c := ScanStep(cfg, args, i, pending);
      c.parsed.Then(Scan(cfg, args, c.i, c.pending))
  }

  ghost predicate Keeps(p: Parsed, s: seq<string>) {
    multiset(p.options) + multiset(p.nonOptions) == multiset(s)
  }

  lemma KeepsThen(p: Parsed, s: seq<string>, q: Parsed, t: seq<string>)
    requires Keeps(p, s) && Keeps(q, t)
    ensures Keeps(p.Then(q), s + t)
  {
  }

  lemma StepKeeps(cfg: Config, args: seq<string>, i: nat, pending: string)
    requires i < |args| && Readable(args, i, pending)
    ensures var c := ScanStep(cfg, args, i, pending);
            Keeps(c.parsed, args[i..c.i])
  {
    hide Decode, OptionText;
    var c := ScanStep(cfg, args, i, pending);
    assert args[i..c.i] == c.parsed.options + c.parsed.nonOptions;
  }

  /** A reading loses and invents nothing. */
  lemma {:induction false} ScanKeeps(cfg: Config, args: seq<string>, i: nat, pending: string)
    requires Readable(args, i, pending)
    ensures Keeps(Scan(cfg, args, i, pending), args[i..])
    decreases |args| - i, if pending != "" then |pending| else if i < |args| then |args[i]| else 0
  {
    hide Keeps, ScanStep;
    if i == |args| {
      assert args[i..] == [] && Scan(cfg, args, i, pending) == NOTHING;
      NothingKeeps();
    } else {
      var c := ScanStep(cfg, args, i, pending);
      assert Scan(cfg, args, i, pending) == c.parsed.Then(Scan(cfg, args, c.i, c.pending));
      hide Scan;
      StepKeeps(cfg, args, i, pending);
      ScanKeeps(cfg, args, c.i, c.pending);
      KeepsThen(c.parsed, args[i..c.i], Scan(cfg, args, c.i, c.pending), args[c.i..]);
      assert args[i..] == args[i..c.i] + args[c.i..];
    }
  }

  lemma NothingKeeps()
    ensures Keeps(NOTHING, [])
  {
  }

  lemma ThenAssoc(p: Parsed, q: Parsed, r: Parsed)
    ensures p.Then(q).Then(r) == p.Then(q.Then(r))
  {
  }

  lemma ScanNonOption(cfg: Config, args: seq<string>, i: nat, done: Parsed)
    requires i < |args| && NonOption(args[i]) && cfg.ordering == PERMUTE
    ensures done.Then(Scan(cfg, args, i, "")) ==
            done.(nonOptions := done.nonOptions + [args[i]]).Then(Scan(cfg, args, i + 1, ""))
  {
    ThenAssoc(done, Parsed([], [], [args[i]], true), Scan(cfg, args, i + 1, ""));
    assert done.Then(Parsed([], [], [args[i]], true)) == done.(nonOptions := done.nonOptions + [args[i]]);
  }

  /** After one step that produced chunk c, the reading goes on from there. */
  lemma ScanOn(cfg: Config, args: seq<string>, i: nat, pending: string, done: Parsed)
    requires i < |args| && Readable(args, i, pending)
    ensures var c := ScanStep(cfg, args, i, pending);
            done.Then(Scan(cfg, args, i, pending)) == done.Then(c.parsed).Then(Scan(cfg, args, c.i, c.pending))
  {
    var c := ScanStep(cfg, args, i, pending);
    ThenAssoc(done, c.parsed, Scan(cfg, args, c.i, c.pending));
  }

  lemma ScanDashes(cfg: Config, args: seq<string>, i: nat, done: Parsed)
    requires i < |args| && args[i] == "--"
    ensures done.Then(Scan(cfg, args, i, "")) ==
            Parsed(done.answers, done.options + ["--"], done.nonOptions + args[i + 1..], done.sound)
  {
    var c := Chunk(Parsed([], ["--"], args[i + 1..], true), |args|, "");
    assert ScanStep(cfg, args, i, "") == c;
    assert Scan(cfg, args, i, "") == c.parsed.Then(NOTHING) == c.parsed;
  }

  /** Entering an option element is not a step of its own. */
  lemma ScanPending(cfg: Config, args: seq<string>, i: nat)
    requires i < |args| && !NonOption(args[i]) && args[i] != "--"
    ensures Scan(cfg, args, i, "") == Scan(cfg, args, i, OptionText(cfg, args[i]))
  {
  }

  lemma ScanStop(cfg: Config, args: seq<string>, i: nat, done: Parsed)
    requires i < |args| && NonOption(args[i]) && cfg.ordering == REQUIRE_ORDER
    ensures done.Then(Scan(cfg, args, i, "")) == done.(nonOptions := done.nonOptions + args[i..])
  {
    var c := Chunk(Parsed([], [], args[i..], true), |args|, "");
    assert ScanStep(cfg, args, i, "") == c;
    assert Scan(cfg, args, i, "") == c.parsed.Then(NOTHING) == c.parsed;
  }

  lemma ScanAnswer(cfg: Config, args: seq<string>, i: nat, pending: string, done: Parsed)
    requires i < |args| && Readable(args, i, pending) && pending != ""
    ensures var c := Answer(args, i, Decode(cfg, args[i], pending, Following(args, i)));
            && Readable(args, c.i, c.pending)
            && done.Then(Scan(cfg, args, i, pending)) == done.Then(c.parsed).Then(Scan(cfg, args, c.i, c.pending))
  {
    hide Decode;
    ScanOn(cfg, args, i, pending, done);
  }

  lemma ScanReported(cfg: Config, args: seq<string>, i: nat, done: Parsed)
    requires i < |args| && NonOption(args[i]) && cfg.ordering == RETURN_IN_ORDER
    ensures done.Then(Scan(cfg, args, i, "")) ==
            Parsed(done.answers + [Reported(args[i])], done.options + [args[i]], done.nonOptions, done.sound)
              .Then(Scan(cfg, args, i + 1, ""))
  {
    var p := Parsed([Reported(args[i])], [args[i]], [], true);
    ScanOn(cfg, args, i, "", done);
    assert done.Then(p) == Parsed(done.answers + [Reported(args[i])], done.options + [args[i]], done.nonOptions, done.sound);
  }
}
