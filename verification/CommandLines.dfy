/** Command lines that are written from options with their arguments, and read back by
    getopt as what was written. */
module CommandLines {
  import opened Options
  import opened CStrings
  import opened OptionScan
  import opened Getopt

  /** An option as it is spelled, or another word.  A long option comes with its index, behind
      "--" or, where long options only are meant, "-"; short ones may share an element with
      letters that take no argument. */
  datatype Written =
    | LongAlone(lead: string, name: string, i: nat)
    | LongWith(lead: string, name: string, i: nat, arg: string)   // --name=arg
    | LongThen(lead: string, name: string, i: nat, arg: string)   // --name arg
    | LongUnknown(lead: string, name: string, more: string)
    | LongAmbiguous(lead: string, name: string, more: string, i: nat, j: nat)
    | ShortAlone(flags: string, c: char)
    | ShortWith(flags: string, c: char, arg: string)   // -cARG
    | ShortThen(flags: string, c: char, arg: string)   // -c ARG
    | Word(word: string)

  /** How a command line ends. */
  datatype Ending =
    | Whole
    | Dashes(rest: seq<string>)
    | Stops(word: string, rest: seq<string>)
    | LacksLong(lead: string, name: string, i: nat)
    | LacksShort(flags: string, c: char)

  /** What the caller of getopt gets: the code, optarg, optopt and longind if they are set. */
  datatype Said = Said(ret: int, optarg: Option<string>, optopt: Option<int>, longind: Option<nat>)

  // ----- spelling -----------------------------------------------------------

  function Elements(w: Written): seq<string> {
    match w
    case LongAlone(lead, name, _) => [lead + name]
    case LongWith(lead, name, _, arg) => [lead + name + "=" + arg]
    case LongThen(lead, name, _, arg) => [lead + name, arg]
    case LongUnknown(lead, name, more) => [lead + name + more]
    case LongAmbiguous(lead, name, more, _, _) => [lead + name + more]
    case ShortAlone(flags, c) => ["-" + flags + [c]]
    case ShortWith(flags, c, arg) => ["-" + flags + [c] + arg]
    case ShortThen(flags, c, arg) => ["-" + flags + [c], arg]
    case Word(word) => [word]
  }

  function EndElements(e: Ending): seq<string> {
    match e
    case Whole => []
    case Dashes(rest) => ["--"] + rest
    case Stops(word, rest) => [word] + rest
    case LacksLong(lead, name, _) => [lead + name]
    case LacksShort(flags, c) => ["-" + flags + [c]]
  }

  function Spelled(ws: seq<Written>, e: Ending): seq<string> {
    if ws == [] then EndElements(e) else Elements(ws[0]) + Spelled(ws[1..], e)
  }

  // ----- what is allowed ----------------------------------------------------

  /** A letter of the option string, followed by none, one or two colons. */
  predicate Letter(optstring: string, c: char, colons: nat) {
    c != ':' && c != ';' && exists k :: 0 <= k < |optstring| && LetterAt(optstring, c, colons, k)
  }

  predicate LetterAt(optstring: string, c: char, colons: nat, k: nat)
    requires k < |optstring|
  {
    && optstring[k] == c && c !in optstring[..k]
    && match colons
       case 0 => k + 1 == |optstring| || (optstring[k + 1] != ':' && !(c == 'W' && optstring[k + 1] == ';'))
       case 1 => k + 1 < |optstring| && optstring[k + 1] == ':' && (k + 2 == |optstring| || optstring[k + 2] != ':')
       case 2 => k + 2 < |optstring| && optstring[k + 1] == ':' && optstring[k + 2] == ':'
       case _ => false
  }

  predicate UnknownLetter(optstring: string, c: char) {
    c !in optstring || c == ':' || c == ';'
  }

  /** A letter that takes no argument, or is not known. */
  predicate Flag(optstring: string, c: char) {
    Letter(optstring, c, 0) || UnknownLetter(optstring, c)
  }

  predicate Begins(p: LongOption, name: string) {
    |name| <= |p.name| && p.name[..|name|] == name
  }

  predicate Alike(longOnly: bool, p: LongOption, q: LongOption) {
    !longOnly && p.hasArg == q.hasArg && p.flag == q.flag && p.val == q.val
  }

  /** A name denotes the first option that has it; or else, if it begins some names, the first
      of these options, if the others are like it. */
  predicate Denotes(cfg: Config, name: string, i: nat) {
    cfg.longopts.Some? && name != "" && '=' !in name && i < |cfg.longopts.value| &&
    var opts := cfg.longopts.value;
    || (opts[i].name == name && forall j :: 0 <= j < i ==> opts[j].name != name)
    || (&& (forall j :: 0 <= j < |opts| ==> opts[j].name != name)
        && Begins(opts[i], name) && (forall j :: 0 <= j < i ==> !Begins(opts[j], name))
        && forall j :: i < j < |opts| && Begins(opts[j], name) ==> Alike(cfg.longOnly, opts[i], opts[j]))
  }

  predicate DenotesNone(cfg: Config, name: string) {
    cfg.longopts.Some? && '=' !in name && forall j :: 0 <= j < |cfg.longopts.value| ==> !Begins(cfg.longopts.value[j], name)
  }

  predicate DenotesTwo(cfg: Config, name: string, i: nat, j: nat) {
    cfg.longopts.Some? && '=' !in name && i < j < |cfg.longopts.value| &&
    var opts := cfg.longopts.value;
    && (forall k :: 0 <= k < |opts| ==> opts[k].name != name)
    && Begins(opts[i], name) && (forall k :: 0 <= k < i ==> !Begins(opts[k], name))
    && Begins(opts[j], name) && !Alike(cfg.longOnly, opts[i], opts[j])
  }

  /** Letters are read as such: the element does not look like a long option. */
  predicate Short(cfg: Config, letters: string) {
    && letters != "" && letters[0] != '-'
    && (cfg.longopts.Some? && cfg.longOnly ==> |letters| == 1 && letters[0] in cfg.optstring)
  }

  /** What may be in front of a long option: one dash only if nothing else can be meant. */
  predicate Leads(cfg: Config, lead: string, text: string) {
    lead == "--"
    || (lead == "-" && cfg.longOnly && text != "" && text[0] != '-' && (|text| > 1 || text[0] !in cfg.optstring))
  }

  predicate Flags(optstring: string, flags: string) {
    forall k :: 0 <= k < |flags| ==> Flag(optstring, flags[k])
  }

  predicate IsWord(word: string) {
    word == "" || word == "-" || word[0] != '-'
  }

  predicate Allowed(cfg: Config, w: Written) {
    match w
    case LongAlone(lead, name, i) => Leads(cfg, lead, name) && Denotes(cfg, name, i) && cfg.longopts.value[i].hasArg != 1
    case LongWith(lead, name, i, arg) => Leads(cfg, lead, name + "=" + arg) && Denotes(cfg, name, i)
    case LongThen(lead, name, i, arg) => Leads(cfg, lead, name) && Denotes(cfg, name, i) && cfg.longopts.value[i].hasArg == 1
    case LongUnknown(lead, name, more) =>
      && DenotesNone(cfg, name) && name + more != "" && (more == "" || more[0] == '=')
      && Leads(cfg, lead, name + more) && (lead == "-" ==> (name + more)[0] !in cfg.optstring)
    case LongAmbiguous(lead, name, more, i, j) =>
      && DenotesTwo(cfg, name, i, j) && name + more != "" && (more == "" || more[0] == '=')
      && Leads(cfg, lead, name + more)
    case ShortAlone(flags, c) =>
      Short(cfg, flags + [c]) && Flags(cfg.optstring, flags) && (Flag(cfg.optstring, c) || Letter(cfg.optstring, c, 2))
    case ShortWith(flags, c, arg) =>
      Short(cfg, flags + [c] + arg) && Flags(cfg.optstring, flags) && arg != ""
      && (Letter(cfg.optstring, c, 1) || Letter(cfg.optstring, c, 2))
    case ShortThen(flags, c, arg) =>
      Short(cfg, flags + [c]) && Flags(cfg.optstring, flags) && Letter(cfg.optstring, c, 1)
    case Word(word) => IsWord(word) && cfg.ordering != REQUIRE_ORDER
  }

  predicate EndAllowed(cfg: Config, e: Ending) {
    match e
    case Whole => true
    case Dashes(rest) => true
    case Stops(word, rest) => IsWord(word) && cfg.ordering == REQUIRE_ORDER
    case LacksLong(lead, name, i) => Leads(cfg, lead, name) && Denotes(cfg, name, i) && cfg.longopts.value[i].hasArg == 1
    case LacksShort(flags, c) => Short(cfg, flags + [c]) && Flags(cfg.optstring, flags) && Letter(cfg.optstring, c, 1)
  }

  // ----- what is said -------------------------------------------------------

  function LetterSaid(optstring: string, c: char): Said {
    if UnknownLetter(optstring, c) then Said('?' as int, None, Some(c as int), None) else Said(c as int, None, None, None)
  }

  function LettersSaid(optstring: string, s: string): seq<Said> {
    if s == "" then [] else [LetterSaid(optstring, s[0])] + LettersSaid(optstring, s[1..])
  }

  function LongSaid(cfg: Config, i: nat, arg: Option<string>): Said
    requires cfg.longopts.Some? && i < |cfg.longopts.value|
  {
    var p := cfg.longopts.value[i];
    Said(if p.flag.Some? then 0 else p.val, arg, None, Some(i))
  }

  function WrittenSaid(cfg: Config, w: Written): seq<Said>
    requires Allowed(cfg, w)
  {
    match w
    case LongAlone(lead, name, i) => [LongSaid(cfg, i, None)]
    case LongWith(lead, name, i, arg) =>
      if cfg.longopts.value[i].hasArg == 0 then [Said('?' as int, None, Some(cfg.longopts.value[i].val), None)]
      else [LongSaid(cfg, i, Some(arg))]
    case LongThen(lead, name, i, arg) => [LongSaid(cfg, i, Some(arg))]
    case LongUnknown(_, _, _) => [Said('?' as int, None, Some(0), None)]
    case LongAmbiguous(_, _, _, _, _) => [Said('?' as int, None, Some(0), None)]
    case ShortAlone(flags, c) => LettersSaid(cfg.optstring, flags) + [LetterSaid(cfg.optstring, c)]
    case ShortWith(flags, c, arg) => LettersSaid(cfg.optstring, flags) + [Said(c as int, Some(arg), None, None)]
    case ShortThen(flags, c, arg) => LettersSaid(cfg.optstring, flags) + [Said(c as int, Some(arg), None, None)]
    case Word(word) => if cfg.ordering == RETURN_IN_ORDER then [Said(1, Some(word), None, None)] else []
  }

  /** A required argument that is not there. */
  function Missing(optstring: string): int {
    if optstring != "" && optstring[0] == ':' then ':' as int else '?' as int
  }

  function EndSaid(cfg: Config, e: Ending): seq<Said>
    requires EndAllowed(cfg, e)
  {
    match e
    case LacksLong(lead, name, i) => [Said(Missing(cfg.optstring), None, Some(cfg.longopts.value[i].val), None)]
    case LacksShort(flags, c) => LettersSaid(cfg.optstring, flags) + [Said(Missing(cfg.optstring), None, Some(c as int), None)]
    case _ => []
  }

  function AllSaid(cfg: Config, ws: seq<Written>, e: Ending): seq<Said>
    requires (forall k :: 0 <= k < |ws| ==> Allowed(cfg, ws[k])) && EndAllowed(cfg, e)
  {
    if ws == [] then EndSaid(cfg, e) else WrittenSaid(cfg, ws[0]) + AllSaid(cfg, ws[1..], e)
  }

  /** The words that are left over for the caller, and the rest in front of them. */
  predicate LeftOver(cfg: Config, w: Written) {
    w.Word? && cfg.ordering == PERMUTE
  }

  function AllWords(cfg: Config, ws: seq<Written>, e: Ending): seq<string> {
    if ws != [] then (if LeftOver(cfg, ws[0]) then Elements(ws[0]) else []) + AllWords(cfg, ws[1..], e)
    else if e.Dashes? then e.rest
    else if e.Stops? then [e.word] + e.rest
    else []
  }

  function AllOptions(cfg: Config, ws: seq<Written>, e: Ending): seq<string> {
    if ws != [] then (if LeftOver(cfg, ws[0]) then [] else Elements(ws[0])) + AllOptions(cfg, ws[1..], e)
    else if e.Dashes? then ["--"]
    else if e.Stops? then []
    else EndElements(e)
  }

  function SaidOf(o: Outcome): Said {
    Said(o.ret, o.optarg, o.optopt, o.longind)
  }

  function SaidOfAll(os: seq<Outcome>): seq<Said> {
    seq(|os|, k requires 0 <= k < |os| => SaidOf(os[k]))
  }

  lemma SaidOfBoth(a: seq<Outcome>, b: seq<Outcome>)
    ensures SaidOfAll(a + b) == SaidOfAll(a) + SaidOfAll(b)
  {
  }

  // ----- long options -------------------------------------------------------

  lemma DenotesIs(cfg: Config, name: string, i: nat)
    requires Denotes(cfg, name, i)
    ensures LongMatch(cfg.longopts.value, name, cfg.longOnly) == Hit(i)
  {
    var opts := cfg.longopts.value;
    assert forall j :: 0 <= j < |opts| ==> (Begins(opts[j], name) <==> Abbreviates(name, opts[j]));
    assert opts[i].name != name ==> FirstAbbreviated(opts, name, i) && !Rivalled(opts, name, cfg.longOnly, i);
    assert IsMatch(opts, name, cfg.longOnly, Hit(i));
    MatchUnique(opts, name, cfg.longOnly, Hit(i), LongMatch(opts, name, cfg.longOnly));
  }

  lemma DenotesNoneIs(cfg: Config, name: string)
    requires DenotesNone(cfg, name)
    ensures LongMatch(cfg.longopts.value, name, cfg.longOnly) == NoMatch
  {
    var opts := cfg.longopts.value;
    assert forall j :: 0 <= j < |opts| ==> !Abbreviates(name, opts[j]) && opts[j].name != name by {
      forall j | 0 <= j < |opts|
        ensures !Abbreviates(name, opts[j]) && opts[j].name != name
      {
        assert !Begins(opts[j], name);
      }
    }
    assert IsMatch(opts, name, cfg.longOnly, NoMatch);
    MatchUnique(opts, name, cfg.longOnly, NoMatch, LongMatch(opts, name, cfg.longOnly));
  }

  lemma DenotesTwoIs(cfg: Config, name: string, i: nat, j: nat)
    requires DenotesTwo(cfg, name, i, j)
    ensures LongMatch(cfg.longopts.value, name, cfg.longOnly) == Ambiguous
  {
    var opts := cfg.longopts.value;
    assert forall k :: 0 <= k < |opts| ==> (Begins(opts[k], name) <==> Abbreviates(name, opts[k]));
    assert FirstAbbreviated(opts, name, i) && Rivalled(opts, name, cfg.longOnly, i);
    assert IsMatch(opts, name, cfg.longOnly, Ambiguous);
    MatchUnique(opts, name, cfg.longOnly, Ambiguous, LongMatch(opts, name, cfg.longOnly));
  }

  lemma NameEnds(name: string, more: string)
    requires '=' !in name && (more == "" || more[0] == '=')
    ensures IndexOf(name + more, '=') == |name| && (name + more)[..|name|] == name
  {
    IndexOfUnique(name + more, '=', |name|);
  }

  /** An element that spells a long option is decoded as one. */
  lemma LongText(cfg: Config, lead: string, element: string, text: string, ahead: seq<string>)
    requires cfg.longopts.Some? && text != "" && Leads(cfg, lead, text) && element == lead + text
    ensures |element| >= 2 && !NonOption(element) && element != "--" && OptionText(cfg, element) == text
    ensures var long := DecodeLong(cfg, cfg.longopts.value, element, text, ahead);
            long.Some? ==> Decode(cfg, element, text, ahead) == long.value
  {
    assert if lead == "--" then element[1] == '-' && element[2..] == text else element[1] == text[0] && element[1..] == text;
    hide DecodeLong, DecodeShort;
  }

  /** The first element of a long option is answered as it is meant to be. */
  ghost predicate LongAnswered(cfg: Config, w: Written, ahead: seq<string>, e: string, text: string)
    requires Allowed(cfg, w)
  {
    && Elements(w)[0] == e && |e| >= 2 && !NonOption(e) && e != "--" && OptionText(cfg, e) == text && text != ""
    && var o := Decode(cfg, e, text, ahead);
       o.rest == "" && o.elements == |Elements(w)| && WrittenSaid(cfg, w) == [SaidOf(o)]
  }

  lemma LongStep(cfg: Config, w: Written, ahead: seq<string>) returns (text: string)
    requires Allowed(cfg, w) && (w.LongAlone? || w.LongWith? || w.LongThen? || w.LongUnknown? || w.LongAmbiguous?)
    requires Elements(w)[1..] <= ahead
    ensures LongAnswered(cfg, w, ahead, Elements(w)[0], text)
  {
    match w
    case LongAlone(lead, name, i) =>
      text := name + "";
      KnownStep(cfg, w, lead, name, "", i, ahead);
    case LongWith(lead, name, i, arg) =>
      text := name + ("=" + arg);
      KnownStep(cfg, w, lead, name, "=" + arg, i, ahead);
    case LongThen(lead, name, i, arg) =>
      text := name + "";
      assert ahead[0] == Elements(w)[1..][0];
      KnownStep(cfg, w, lead, name, "", i, ahead);
    case LongUnknown(lead, name, more) =>
      text := name + more;
      UnknownStep(cfg, w, lead, name, more, ahead);
    case LongAmbiguous(lead, name, more, i, j) =>
      text := name + more;
      UnknownStep(cfg, w, lead, name, more, ahead);
  }

  lemma KnownStep(cfg: Config, w: Written, lead: string, name: string, more: string, i: nat, ahead: seq<string>)
    requires Allowed(cfg, w) && (w.LongThen? ==> ahead != [] && ahead[0] == w.arg)
    requires (w == LongAlone(lead, name, i) && more == "") || (w.LongWith? && w == LongWith(lead, name, i, w.arg) && more == "=" + w.arg)
             || (w.LongThen? && w == LongThen(lead, name, i, w.arg) && more == "")
    ensures LongAnswered(cfg, w, ahead, Elements(w)[0], name + more)
  {
    assert Elements(w)[0] == lead + (name + more);
    assert w.LongWith? ==> more[1..] == w.arg;
    LongNamed(cfg, lead, name, more, i, ahead);
    hide Decode, NonOption, OptionText, Denotes;
  }

  lemma UnknownStep(cfg: Config, w: Written, lead: string, name: string, more: string, ahead: seq<string>)
    requires Allowed(cfg, w) && name + more != "" && (more == "" || more[0] == '=')
    requires w == LongUnknown(lead, name, more) || (w.LongAmbiguous? && w == LongAmbiguous(lead, name, more, w.i, w.j))
    ensures LongAnswered(cfg, w, ahead, Elements(w)[0], name + more)
  {
    assert Elements(w)[0] == lead + (name + more);
    NameEnds(name, more);
    if w.LongUnknown? {
      DenotesNoneIs(cfg, name);
    } else {
      DenotesTwoIs(cfg, name, w.i, w.j);
    }
    hide LongMatch, IndexOf, DenotesNone, DenotesTwo;
    LongText(cfg, lead, lead + (name + more), name + more, ahead);
    hide NonOption, OptionText;
  }

  /** A name that denotes option i, and what stands behind it in its element. */
  lemma LongNamed(cfg: Config, lead: string, name: string, more: string, i: nat, ahead: seq<string>)
    requires Denotes(cfg, name, i) && Leads(cfg, lead, name + more) && (more == "" || more[0] == '=')
    ensures var e, p := lead + (name + more), cfg.longopts.value[i];
            && |e| >= 2 && !NonOption(e) && e != "--" && OptionText(cfg, e) == name + more != ""
            && var o := Decode(cfg, e, name + more, ahead);
               && o.rest == ""
               && (more == "" && p.hasArg != 1 ==> o.elements == 1 && SaidOf(o) == LongSaid(cfg, i, None))
               && (more == "" && p.hasArg == 1 && ahead != [] ==> o.elements == 2 && SaidOf(o) == LongSaid(cfg, i, Some(ahead[0])))
               && (more == "" && p.hasArg == 1 && ahead == [] ==>
                     o.elements == 1 && SaidOf(o) == Said(Missing(cfg.optstring), None, Some(p.val), None))
               && (more != "" && p.hasArg != 0 ==> o.elements == 1 && SaidOf(o) == LongSaid(cfg, i, Some(more[1..])))
               && (more != "" && p.hasArg == 0 ==> o.elements == 1 && SaidOf(o) == Said('?' as int, None, Some(p.val), None))
  {
    NameEnds(name, more);
    DenotesIs(cfg, name, i);
    assert more != "" ==> (name + more)[|name| + 1..] == more[1..];
    hide LongMatch, IndexOf;
    LongText(cfg, lead, lead + (name + more), name + more, ahead);
    hide Decode;
  }

  /** A letter 'W' that the option string wants to be read as "--". */
  predicate LetterW(optstring: string) {
    exists k :: 0 <= k < |optstring| - 1 && optstring[k] == 'W' && 'W' !in optstring[..k] && optstring[k + 1] == ';'
  }

  /** A name behind a 'W', in the same element or in the next one, that denotes option i: as
      behind "--", except that the name is the argument where the option cannot be taken. */
  lemma WNamed(cfg: Config, text: string, name: string, more: string, i: nat, ahead: seq<string>)
    requires LetterW(cfg.optstring) && Denotes(cfg, name, i) && (more == "" || more[0] == '=')
    requires text == name + more || (text == "" && ahead != [] && ahead[0] == name + more)
    ensures var o, p, used := DecodeShort(cfg, ['W'] + text, ahead), cfg.longopts.value[i], if text == "" then 2 else 1;
            && o.rest == ""
            && (more == "" && p.hasArg != 1 ==> o.elements == used && SaidOf(o) == LongSaid(cfg, i, None))
            && (more == "" && p.hasArg == 1 && used <= |ahead| ==>
                  o.elements == used + 1 && SaidOf(o) == LongSaid(cfg, i, Some(ahead[used - 1])))
            && (more == "" && p.hasArg == 1 && used > |ahead| ==>
                  o.elements == used && SaidOf(o) == Said(Missing(cfg.optstring), Some(name), None, None))
            && (more != "" && p.hasArg != 0 ==> o.elements == used && SaidOf(o) == LongSaid(cfg, i, Some(more[1..])))
            && (more != "" && p.hasArg == 0 ==>
                  o.elements == used && SaidOf(o) == Said('?' as int, Some(name + more), None, None))
  {
    WRead(cfg, text, ahead);
    NameEnds(name, more);
    DenotesIs(cfg, name, i);
    assert more == "" ==> name + more == name;
    assert more != "" ==> (name + more)[|name| + 1..] == more[1..];
    assert text == "" ==> ahead[1..] == [] || ahead[1..][0] == ahead[1];
    assert text == "" || text == name + more;
    assert ahead[0..] == ahead;
    hide LongMatch, IndexOf, DecodeShort, Denotes, LetterW;
  }

  lemma WRead(cfg: Config, text: string, ahead: seq<string>)
    requires LetterW(cfg.optstring)
    ensures DecodeShort(cfg, ['W'] + text, ahead) == DecodeW(cfg, text, ahead)
  {
    var k :| 0 <= k < |cfg.optstring| - 1 && cfg.optstring[k] == 'W' && 'W' !in cfg.optstring[..k] && cfg.optstring[k + 1] == ';';
    IndexOfUnique(cfg.optstring, 'W', k);
    assert (['W'] + text)[1..] == text;
    hide DecodeW, IndexOf;
  }

  // ----- letters ------------------------------------------------------------

  lemma ShortText(cfg: Config, letters: string)
    requires Short(cfg, letters)
    ensures var e := "-" + letters;
            |e| >= 2 && !NonOption(e) && e != "--" && OptionText(cfg, e) == letters && !TriesLong(cfg, e)
  {
    var e := "-" + letters;
    assert e[1] == letters[0] && e[1..] == letters;
  }

  lemma LetterIndex(optstring: string, c: char, colons: nat) returns (k: nat)
    requires Letter(optstring, c, colons)
    ensures k < |optstring| && LetterAt(optstring, c, colons, k) && IndexOf(optstring, c) == k
  {
    k :| 0 <= k < |optstring| && LetterAt(optstring, c, colons, k);
    IndexOfUnique(optstring, c, k);
  }

  /** A letter that takes no argument is answered, and the rest of the element stays. */
  lemma FlagStep(cfg: Config, c: char, more: string, ahead: seq<string>)
    requires Flag(cfg.optstring, c)
    ensures var o := DecodeShort(cfg, [c] + more, ahead);
            o.rest == more && o.elements == (if more == "" then 1 else 0) && SaidOf(o) == LetterSaid(cfg.optstring, c)
  {
    assert ([c] + more)[1..] == more;
    if UnknownLetter(cfg.optstring, c) {
      if c !in cfg.optstring {
        assert cfg.optstring[..|cfg.optstring|] == cfg.optstring;
        IndexOfUnique(cfg.optstring, c, |cfg.optstring|);
      }
    } else {
      var k := LetterIndex(cfg.optstring, c, 0);
    }
    hide IndexOf, DecodeW;
  }

  /** A letter that takes an argument. */
  lemma ArgStep(cfg: Config, c: char, more: string, ahead: seq<string>)
    requires Letter(cfg.optstring, c, 1) || Letter(cfg.optstring, c, 2)
    ensures var o := DecodeShort(cfg, [c] + more, ahead);
            && o.rest == ""
            && (more != "" ==> o.elements == 1 && SaidOf(o) == Said(c as int, Some(more), None, None))
            && (more == "" && Letter(cfg.optstring, c, 2) ==> o.elements == 1 && SaidOf(o) == Said(c as int, None, None, None))
            && (more == "" && Letter(cfg.optstring, c, 1) && ahead != [] ==>
                  o.elements == 2 && SaidOf(o) == Said(c as int, Some(ahead[0]), None, None))
            && (more == "" && Letter(cfg.optstring, c, 1) && ahead == [] ==>
                  o.elements == 1 && SaidOf(o) == Said(Missing(cfg.optstring), None, Some(c as int), None))
  {
    assert ([c] + more)[1..] == more;
    if Letter(cfg.optstring, c, 1) {
      var k := LetterIndex(cfg.optstring, c, 1);
    }
    if Letter(cfg.optstring, c, 2) {
      var k := LetterIndex(cfg.optstring, c, 2);
    }
    hide IndexOf, DecodeW;
  }

  lemma KnownSaid(optstring: string, c: char)
    requires Letter(optstring, c, 1) || Letter(optstring, c, 2)
    ensures LetterSaid(optstring, c) == Said(c as int, None, None, None)
  {
    if Letter(optstring, c, 1) {
      var k := LetterIndex(optstring, c, 1);
    } else {
      var k := LetterIndex(optstring, c, 2);
    }
  }

  // ----- reading ------------------------------------------------------------

  /** An answer that ends its element. */
  lemma ScanLast(cfg: Config, args: seq<string>, i: nat, text: string)
    requires i < |args| && |args[i]| >= 2 && text != ""
    requires var o := Decode(cfg, args[i], text, Following(args, i)); o.rest == "" && 0 < o.elements <= |args| - i
    ensures var o := Decode(cfg, args[i], text, Following(args, i));
            Scan(cfg, args, i, text) ==
            Parsed([o], args[i..i + o.elements], [], true).Then(Scan(cfg, args, i + o.elements, ""))
  {
    hide Decode;
  }

  /** The letters in front of the last option of an element. */
  lemma {:induction false} ScanFlags(cfg: Config, args: seq<string>, i: nat, flags: string, text: string) returns (p: Parsed)
    requires i < |args| && |args[i]| >= 2 && text != "" && !TriesLong(cfg, args[i]) && Flags(cfg.optstring, flags)
    ensures Scan(cfg, args, i, flags + text) == p.Then(Scan(cfg, args, i, text))
    ensures SaidOfAll(p.answers) == LettersSaid(cfg.optstring, flags) && p.options == [] && p.nonOptions == [] && p.sound
  {
    if flags == "" {
      p := NOTHING;
      assert flags + text == text;
      var q := Scan(cfg, args, i, text);
      assert NOTHING.Then(q) == q;
    } else {
      hide DecodeShort, Decode, Scan, LetterSaid, TriesLong, SaidOfAll, Flag;
      var c, more := flags[0], flags[1..] + text;
      assert flags + text == [c] + more;
      var o := FlagRead(cfg, args, i, c, more);
      var rest := ScanFlags(cfg, args, i, flags[1..], text);
      p := Parsed([o], [], [], true).Then(rest);
      ThenAssoc(Parsed([o], [], [], true), rest, Scan(cfg, args, i, text));
      SaidOfBoth([o], rest.answers);
      SaidOfOne(o);
    }
  }

  lemma FlagRead(cfg: Config, args: seq<string>, i: nat, c: char, more: string) returns (o: Outcome)
    requires i < |args| && |args[i]| >= 2 && more != "" && !TriesLong(cfg, args[i]) && Flag(cfg.optstring, c)
    ensures Scan(cfg, args, i, [c] + more) == Parsed([o], [], [], true).Then(Scan(cfg, args, i, more))
    ensures SaidOf(o) == LetterSaid(cfg.optstring, c)
  {
    FlagStep(cfg, c, more, Following(args, i));
    o := DecodeShort(cfg, [c] + more, Following(args, i));
    hide DecodeShort, Scan, LetterSaid, Flag, TriesLong;
    assert Decode(cfg, args[i], [c] + more, Following(args, i)) == o;
    OneFlag(cfg, args, i, [c] + more, o);
  }

  lemma OneFlag(cfg: Config, args: seq<string>, i: nat, text: string, o: Outcome)
    requires i < |args| && |args[i]| >= 2 && text != ""
    requires o == Decode(cfg, args[i], text, Following(args, i)) && o.rest != ""
    ensures Scan(cfg, args, i, text) == Parsed([o], [], [], true).Then(Scan(cfg, args, i, o.rest))
  {
    hide Decode;
    assert args[i..i] == [];
  }

  /** What an element leaves behind: its answers, and its elements among the options. */
  ghost predicate Reads(cfg: Config, args: seq<string>, i: nat, n: nat, said: seq<Said>, options: seq<string>, words: seq<string>)
    requires i + n <= |args|
  {
    exists p: Parsed :: IsRead(cfg, args, i, n, said, options, words, p)
  }

  ghost predicate IsRead(cfg: Config, args: seq<string>, i: nat, n: nat, said: seq<Said>, options: seq<string>,
                         words: seq<string>, p: Parsed)
    requires i + n <= |args|
  {
    && Scan(cfg, args, i, "") == p.Then(Scan(cfg, args, i + n, ""))
    && SaidOfAll(p.answers) == said && p.options == options && p.nonOptions == words && p.sound
  }

  lemma LongRead(cfg: Config, args: seq<string>, i: nat, w: Written)
    requires Allowed(cfg, w) && (w.LongAlone? || w.LongWith? || w.LongThen? || w.LongUnknown? || w.LongAmbiguous?)
    requires i + |Elements(w)| <= |args| && args[i..i + |Elements(w)|] == Elements(w)
    ensures Reads(cfg, args, i, |Elements(w)|, WrittenSaid(cfg, w), Elements(w), [])
  {
    hide Decode, Allowed, WrittenSaid, Elements, OptionText, NonOption, Scan;
    var n := |Elements(w)|;
    SomeElements(w);
    HeadIs(args, i, Elements(w));
    var text := LongStep(cfg, w, Following(args, i));
    var o := Decode(cfg, args[i], text, Following(args, i));
    ScanPending(cfg, args, i);
    ScanLast(cfg, args, i, text);
    assert SaidOfAll([o]) == [SaidOf(o)];
    assert IsRead(cfg, args, i, n, WrittenSaid(cfg, w), Elements(w), [], Parsed([o], Elements(w), [], true));
  }

  lemma SomeElements(w: Written)
    ensures Elements(w) != []
  {
  }

  lemma HeadIs(args: seq<string>, i: nat, es: seq<string>)
    requires es != [] && i + |es| <= |args| && args[i..i + |es|] == es
    ensures args[i] == es[0] && es[1..] <= Following(args, i)
  {
    assert args[i..i + |es|][0] == args[i];
    assert Following(args, i)[..|es| - 1] == args[i..i + |es|][1..];
  }

  /** Letters, of which the last one finishes the element. */
  lemma ShortRead(cfg: Config, args: seq<string>, i: nat, flags: string, c: char, more: string, n: nat, said: Said)
    requires i + n <= |args| && n > 0 && Short(cfg, flags + [c] + more) && Flags(cfg.optstring, flags)
    requires args[i] == "-" + (flags + [c] + more)
    requires var o := DecodeShort(cfg, [c] + more, Following(args, i)); o.rest == "" && o.elements == n && SaidOf(o) == said
    ensures Reads(cfg, args, i, n, LettersSaid(cfg.optstring, flags) + [said], args[i..i + n], [])
  {
    hide Scan, DecodeShort, Decode, OptionText, NonOption, TriesLong, Flags, Short, Letter, LettersSaid, Reads, SaidOfAll;
    var text := [c] + more;
    var o := DecodeShort(cfg, text, Following(args, i));
    ShortStart(cfg, args[i], flags, c, more, Following(args, i));
    ScanPending(cfg, args, i);
    var p := ScanFlags(cfg, args, i, flags, text);
    ScanLast(cfg, args, i, text);
    var q := Parsed([o], args[i..i + n], [], true);
    ThenAssoc(p, q, Scan(cfg, args, i + n, ""));
    SaidOfBoth(p.answers, [o]);
    SaidOfOne(o);
    ReadsBy(cfg, args, i, n, LettersSaid(cfg.optstring, flags) + [said], args[i..i + n], [], p.Then(q));
  }

  lemma SaidOfOne(o: Outcome)
    ensures SaidOfAll([o]) == [SaidOf(o)]
  {
  }

  lemma ShortStart(cfg: Config, element: string, flags: string, c: char, more: string, ahead: seq<string>)
    requires Short(cfg, flags + [c] + more) && element == "-" + (flags + [c] + more)
    ensures |element| >= 2 && !NonOption(element) && element != "--" && !TriesLong(cfg, element)
    ensures OptionText(cfg, element) == flags + ([c] + more)
    ensures Decode(cfg, element, [c] + more, ahead) == DecodeShort(cfg, [c] + more, ahead)
  {
    ShortText(cfg, flags + [c] + more);
    assert flags + [c] + more == flags + ([c] + more);
    hide DecodeShort, DecodeLong, TriesLong, OptionText, NonOption;
  }

  lemma ReadsBy(cfg: Config, args: seq<string>, i: nat, n: nat, said: seq<Said>, options: seq<string>, words: seq<string>, p: Parsed)
    requires i + n <= |args| && Scan(cfg, args, i, "") == p.Then(Scan(cfg, args, i + n, ""))
    requires SaidOfAll(p.answers) == said && p.options == options && p.nonOptions == words && p.sound
    ensures Reads(cfg, args, i, n, said, options, words)
  {
    hide Scan;
    assert IsRead(cfg, args, i, n, said, options, words, p);
  }

  lemma ReadsWhat(cfg: Config, args: seq<string>, i: nat, n: nat, said: seq<Said>, options: seq<string>, words: seq<string>)
    returns (p: Parsed)
    requires i + n <= |args| && Reads(cfg, args, i, n, said, options, words)
    ensures Scan(cfg, args, i, "") == p.Then(Scan(cfg, args, i + n, ""))
    ensures SaidOfAll(p.answers) == said && p.options == options && p.nonOptions == words && p.sound
  {
    hide Scan;
    p :| IsRead(cfg, args, i, n, said, options, words, p);
  }

  /** A word that is no option. */
  lemma WordRead(cfg: Config, args: seq<string>, i: nat, word: string)
    requires i < |args| && args[i] == word && IsWord(word) && cfg.ordering != REQUIRE_ORDER
    ensures cfg.ordering == PERMUTE ==> Reads(cfg, args, i, 1, [], [], [word])
    ensures cfg.ordering == RETURN_IN_ORDER ==> Reads(cfg, args, i, 1, [Said(1, Some(word), None, None)], [word], [])
  {
    var p := if cfg.ordering == PERMUTE then Parsed([], [], [word], true) else Parsed([Reported(word)], [word], [], true);
    assert Scan(cfg, args, i, "") == p.Then(Scan(cfg, args, i + 1, ""));
    assert SaidOfAll([Reported(word)]) == [Said(1, Some(word), None, None)];
    hide Scan;
    if cfg.ordering == PERMUTE {
      assert IsRead(cfg, args, i, 1, [], [], [word], p);
    } else {
      assert IsRead(cfg, args, i, 1, [Said(1, Some(word), None, None)], [word], [], p);
    }
  }

  /** Whatever is written is read. */
  lemma ElementRead(cfg: Config, args: seq<string>, i: nat, w: Written)
    requires Allowed(cfg, w) && i + |Elements(w)| <= |args| && args[i..i + |Elements(w)|] == Elements(w)
    ensures Reads(cfg, args, i, |Elements(w)|, WrittenSaid(cfg, w),
                  if LeftOver(cfg, w) then [] else Elements(w), if LeftOver(cfg, w) then Elements(w) else [])
  {
    var n := |Elements(w)|;
    assert args[i] == args[i..i + n][0] == Elements(w)[0];
    assert n == 2 ==> Following(args, i) != [] && Following(args, i)[0] == args[i..i + n][1] == Elements(w)[1];
    hide Reads, Letter, UnknownLetter, DecodeShort;
    match w
    case ShortAlone(flags, c) =>
      assert flags + [c] + "" == flags + [c] && [c] + "" == [c] && "-" + flags + [c] == "-" + (flags + [c]);
      if Flag(cfg.optstring, c) {
        FlagStep(cfg, c, "", Following(args, i));
      } else {
        ArgStep(cfg, c, "", Following(args, i));
        KnownSaid(cfg.optstring, c);
      }
      ShortRead(cfg, args, i, flags, c, "", n, LetterSaid(cfg.optstring, c));
    case ShortWith(flags, c, arg) =>
      assert "-" + flags + [c] + arg == "-" + (flags + [c] + arg);
      ArgStep(cfg, c, arg, Following(args, i));
      ShortRead(cfg, args, i, flags, c, arg, n, Said(c as int, Some(arg), None, None));
    case ShortThen(flags, c, arg) =>
      assert flags + [c] + "" == flags + [c] && [c] + "" == [c] && "-" + flags + [c] == "-" + (flags + [c]);
      ArgStep(cfg, c, "", Following(args, i));
      ShortRead(cfg, args, i, flags, c, "", n, Said(c as int, Some(arg), None, None));
    case Word(word) =>
      WordRead(cfg, args, i, word);
    case _ =>
      LongRead(cfg, args, i, w);
  }

  /** The end of a command line is read as it is meant. */
  lemma EndRead(cfg: Config, args: seq<string>, i: nat, e: Ending)
    requires EndAllowed(cfg, e) && i <= |args| && args[i..] == EndElements(e)
    ensures IsWhole(cfg, Scan(cfg, args, i, ""), [], e)
  {
    match e
    case Whole =>
      assert SaidOfAll([]) == [];
    case Dashes(rest) =>
      assert args[i] == args[i..][0] == "--" && args[i + 1..] == args[i..][1..] == rest;
      ScanDashes(cfg, args, i, NOTHING);
      assert SaidOfAll([]) == [] && NOTHING.Then(Scan(cfg, args, i, "")) == Scan(cfg, args, i, "");
    case Stops(word, rest) =>
      assert args[i] == args[i..][0] == word;
      ScanStop(cfg, args, i, NOTHING);
      assert SaidOfAll([]) == [] && NOTHING.Then(Scan(cfg, args, i, "")) == Scan(cfg, args, i, "");
    case LacksLong(lead, name, j) =>
      LacksLongRead(cfg, args, i, lead, name, j);
    case LacksShort(flags, c) =>
      LacksShortRead(cfg, args, i, flags, c);
  }

  /** A reading of what is written. */
  predicate IsWhole(cfg: Config, p: Parsed, ws: seq<Written>, e: Ending)
    requires (forall k :: 0 <= k < |ws| ==> Allowed(cfg, ws[k])) && EndAllowed(cfg, e)
  {
    && p.sound && SaidOfAll(p.answers) == AllSaid(cfg, ws, e)
    && p.options == AllOptions(cfg, ws, e) && p.nonOptions == AllWords(cfg, ws, e)
  }

  lemma LacksLongRead(cfg: Config, args: seq<string>, i: nat, lead: string, name: string, j: nat)
    requires EndAllowed(cfg, LacksLong(lead, name, j)) && i <= |args| && args[i..] == [lead + name]
    ensures IsWhole(cfg, Scan(cfg, args, i, ""), [], LacksLong(lead, name, j))
  {
    assert |args| == i + 1 && args[i] == args[i..][0] == lead + (name + "") && name + "" == name;
    LongNamed(cfg, lead, name, "", j, []);
    assert Following(args, i) == [];
    var o := Decode(cfg, args[i], name, []);
    hide Decode, NonOption, OptionText, LongSaid;
    ScanPending(cfg, args, i);
    ScanLast(cfg, args, i, name);
    assert SaidOfAll([o]) == [SaidOf(o)];
    assert args[i..i + 1] == args[i..];
  }

  lemma LacksShortRead(cfg: Config, args: seq<string>, i: nat, flags: string, c: char)
    requires EndAllowed(cfg, LacksShort(flags, c)) && i <= |args| && args[i..] == ["-" + flags + [c]]
    ensures IsWhole(cfg, Scan(cfg, args, i, ""), [], LacksShort(flags, c))
  {
    assert |args| == i + 1 && args[i] == args[i..][0] == "-" + (flags + [c] + "");
    assert flags + [c] + "" == flags + [c] && Following(args, i) == [];
    ArgStep(cfg, c, "", []);
    var said := Said(Missing(cfg.optstring), None, Some(c as int), None);
    ShortRead(cfg, args, i, flags, c, "", 1, said);
    hide *;
    ShortEnd(cfg, args, i, flags, c, said);
  }

  lemma ShortEnd(cfg: Config, args: seq<string>, i: nat, flags: string, c: char, said: Said)
    requires EndAllowed(cfg, LacksShort(flags, c)) && i + 1 == |args| && args[i..] == ["-" + flags + [c]]
    requires said == Said(Missing(cfg.optstring), None, Some(c as int), None)
    requires Reads(cfg, args, i, 1, LettersSaid(cfg.optstring, flags) + [said], args[i..i + 1], [])
    ensures IsWhole(cfg, Scan(cfg, args, i, ""), [], LacksShort(flags, c))
  {
    hide DecodeShort, Letter, Short, Flags, LettersSaid, Missing;
    var p: Parsed :| IsRead(cfg, args, i, 1, LettersSaid(cfg.optstring, flags) + [said], args[i..i + 1], [], p);
    assert Scan(cfg, args, i + 1, "") == NOTHING && p.Then(NOTHING) == p;
    assert args[i..i + 1] == args[i..];
  }

  /** The reading of a command line gives what was written. */
  lemma {:induction false} WrittenRead(cfg: Config, args: seq<string>, i: nat, ws: seq<Written>, e: Ending)
    requires (forall k :: 0 <= k < |ws| ==> Allowed(cfg, ws[k])) && EndAllowed(cfg, e)
    requires i <= |args| && args[i..] == Spelled(ws, e)
    ensures IsWhole(cfg, Scan(cfg, args, i, ""), ws, e)
    decreases |ws|
  {
    hide *;
    if ws == [] {
      SpelledEnd(e);
      EndRead(cfg, args, i, e);
    } else {
      SpelledFirst(args, i, ws, e);
      ElementRead(cfg, args, i, ws[0]);
      WrittenRead(cfg, args, i + |Elements(ws[0])|, ws[1..], e);
      JoinRead(cfg, args, i, ws, e);
    }
  }

  lemma SpelledEnd(e: Ending)
    ensures Spelled([], e) == EndElements(e)
  {
  }

  lemma SpelledFirst(args: seq<string>, i: nat, ws: seq<Written>, e: Ending)
    requires ws != [] && i <= |args| && args[i..] == Spelled(ws, e)
    ensures var n := |Elements(ws[0])|;
            i + n <= |args| && args[i..i + n] == Elements(ws[0]) && args[i + n..] == Spelled(ws[1..], e)
  {
    hide Elements, EndElements;
    var first, rest := Elements(ws[0]), Spelled(ws[1..], e);
    assert Spelled(ws, e) == first + rest;
    hide Spelled;
    assert args[i..i + |first|] == args[i..][..|first|] == first;
    assert args[i + |first|..] == args[i..][|first|..] == rest;
  }

  lemma JoinRead(cfg: Config, args: seq<string>, i: nat, ws: seq<Written>, e: Ending)
    requires ws != [] && (forall k :: 0 <= k < |ws| ==> Allowed(cfg, ws[k])) && EndAllowed(cfg, e)
    requires i + |Elements(ws[0])| <= |args|
    requires var w := ws[0];
             Reads(cfg, args, i, |Elements(w)|, WrittenSaid(cfg, w),
                   if LeftOver(cfg, w) then [] else Elements(w), if LeftOver(cfg, w) then Elements(w) else [])
    requires IsWhole(cfg, Scan(cfg, args, i + |Elements(ws[0])|, ""), ws[1..], e)
    ensures IsWhole(cfg, Scan(cfg, args, i, ""), ws, e)
  {
    hide Scan, Allowed, EndAllowed, WrittenSaid, Elements, LeftOver, Reads, IsWhole, SaidOfAll;
    var w := ws[0];
    var options, words := if LeftOver(cfg, w) then [] else Elements(w), if LeftOver(cfg, w) then Elements(w) else [];
    var p := ReadsWhat(cfg, args, i, |Elements(w)|, WrittenSaid(cfg, w), options, words);
    var q := Scan(cfg, args, i + |Elements(w)|, "");
    SaidOfBoth(p.answers, q.answers);
    WholeNext(cfg, ws, e, p, q, options, words);
  }

  lemma WholeNext(cfg: Config, ws: seq<Written>, e: Ending, p: Parsed, q: Parsed, options: seq<string>, words: seq<string>)
    requires ws != [] && (forall k :: 0 <= k < |ws| ==> Allowed(cfg, ws[k])) && EndAllowed(cfg, e)
    requires options == (if LeftOver(cfg, ws[0]) then [] else Elements(ws[0]))
    requires words == (if LeftOver(cfg, ws[0]) then Elements(ws[0]) else [])
    requires SaidOfAll(p.answers + q.answers) == WrittenSaid(cfg, ws[0]) + SaidOfAll(q.answers)
    requires p.options == options && p.nonOptions == words && p.sound && IsWhole(cfg, q, ws[1..], e)
    ensures IsWhole(cfg, p.Then(q), ws, e)
  {
    hide Allowed, EndAllowed, WrittenSaid, Elements, LeftOver, SaidOfAll;
  }

  // ----- the program that reads it ------------------------------------------

  function SaidReplies(said: seq<Said>): seq<Reply> {
    seq(|said|, k requires 0 <= k < |said| => Reply(said[k].ret, said[k].optarg))
  }

  /** An option string as the caller gives it: a '-' or '+' in front tells what to do with
      words, and else the environment does. */
  predicate Means(optstring: string, posixlyCorrect: bool, cfg: Config) {
    match cfg.ordering
    case RETURN_IN_ORDER => optstring == "-" + cfg.optstring
    case REQUIRE_ORDER => optstring == "+" + cfg.optstring || (optstring == cfg.optstring && Unmarked(optstring) && posixlyCorrect)
    case PERMUTE => optstring == cfg.optstring && Unmarked(optstring) && !posixlyCorrect
  }

  predicate Unmarked(optstring: string) {
    optstring == "" || optstring[0] !in {'-', '+'}
  }

  lemma MeansConfigure(optstring: string, posixlyCorrect: bool, cfg: Config)
    requires Means(optstring, posixlyCorrect, cfg)
    ensures Configure(optstring, cfg.longopts, cfg.longOnly, posixlyCorrect) == cfg
  {
    assert ("-" + cfg.optstring)[1..] == cfg.optstring && ("+" + cfg.optstring)[1..] == cfg.optstring;
  }

  /** Calling getopt on a command line that is written in this way: the codes and arguments
      are those written, in order; argv ends with the options in front, and optind at the
      words. */
  method ReadCommandLine(program: string, ws: seq<Written>, e: Ending, optstring: string, posixlyCorrect: bool, ghost cfg: Config,
                         longopts: Option<seq<LongOption>>, longOnly: bool)
    returns (replies: seq<Reply>, argv: array<string>, optind: nat)
    requires Means(optstring, posixlyCorrect, cfg) && cfg.longopts == longopts && cfg.longOnly == longOnly
    requires (forall k :: 0 <= k < |ws| ==> Allowed(cfg, ws[k])) && EndAllowed(cfg, e)
    ensures replies == SaidReplies(AllSaid(cfg, ws, e))
    ensures argv[..] == [program] + AllOptions(cfg, ws, e) + AllWords(cfg, ws, e)
    ensures optind == 1 + |AllOptions(cfg, ws, e)|
  {
    MeansConfigure(optstring, posixlyCorrect, cfg);
    var args := [program] + Spelled(ws, e);
    assert args[1..] == Spelled(ws, e) && args[..1] == [program];
    WrittenRead(cfg, args, 1, ws, e);
    argv := new string[|args|](k requires 0 <= k < |args| => args[k]);
    assert argv[..] == args;
    hide Spelled, AllSaid, AllOptions, AllWords, Scan, Configure;
    replies, optind := ParseCommandLine(argv, Configure(optstring, longopts, longOnly, posixlyCorrect));
    SaidRepliesAre(Scan(cfg, args, 1, "").answers);
  }

  lemma SaidRepliesAre(os: seq<Outcome>)
    ensures Replies(os) == SaidReplies(SaidOfAll(os))
  {
  }
}
