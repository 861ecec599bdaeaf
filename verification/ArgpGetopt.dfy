/** What argp's parser tables tell getopt: every option of the tree, with the argument
    it takes, and on the way back the group and the key it has there. */
module ArgpGetopt {
  import opened Options
  import opened ArgpTree
  import opened ArgpParse
  import OptionScan
  import CommandLines

  /** An int stored in a char. */
  function Byte(c: int): char {
    (c % 256) as char
  }

  function Chars(s: seq<int>): string {
    seq(|s|, k requires 0 <= k < |s| => Byte(s[k]))
  }

  /** The long options as getopt sees them. */
  ghost function LongOptions(its: seq<Item>): seq<OptionScan.LongOption> {
    var t := LongTable(its);
    seq(|t|, k requires 0 <= k < |t| => OptionScan.LongOption(t[k].name.value, t[k].hasArg, None, t[k].val))
  }

  /** How getopt is called by a parser. */
  ghost predicate Tables(its: seq<Item>, cfg: OptionScan.Config) {
    cfg.optstring == Chars(ShortText(its)) && cfg.longopts == Some(LongOptions(its))
  }

  /** No option has a key that means something else in an option string. */
  predicate PlainKeys(its: seq<Item>) {
    forall k :: 0 <= k < |its| && ParserShort(its[k]) ==> its[k].opt.key != ':' as int && its[k].opt.key != ';' as int
  }

  /** Behind the text of the first n options comes the letter of a later one. */
  lemma {:induction false} NextLetter(its: seq<Item>, n: nat)
    requires n <= |its| && PlainKeys(its)
    ensures |ShortText(its[..n])| <= |ShortText(its)|
    ensures var at := |ShortText(its[..n])|;
            at < |ShortText(its)| ==> ShortText(its)[at] != ':' as int && ShortText(its)[at] != ';' as int
                                      && 0 < ShortText(its)[at] < 256
    decreases |its| - n
  {
    if n == |its| {
      assert its[..n] == its;
    } else {
      NextLetter(its, n + 1);
      ShortNext(its, n);
      ShortTextPrefix(its, n + 1);
      assert ShortOf(its[n]) != [] ==> ParserShort(its[n]) && ShortOf(its[n])[0] == its[n].opt.key;
      assert ParserShort(its[n]) ==> 0 < its[n].opt.key < 256;
      hide ShortText, ShortOf, ParserShort;
      PrefixOf(ShortText(its), ShortText(its[..n]), ShortOf(its[n]));
      if ShortOf(its[n]) != [] {
        var at := |ShortText(its[..n])|;
        assert ShortText(its)[at..at + |ShortOf(its[n])|][0] == ShortText(its)[at];
      }
    }
  }

  /** A letter is followed by as many colons as its option says: none without an argument,
      one if the argument is required, two if it is optional. */
  lemma LetterMeans(its: seq<Item>, j: nat)
    requires j < |its| && ParserShort(its[j]) && PlainKeys(its)
    requires forall k :: 0 <= k < j ==> !(ParserShort(its[k]) && its[k].opt.key == its[j].opt.key)
    ensures var target := its[j].target;
            CommandLines.Letter(Chars(ShortText(its)), its[j].opt.key as char,
                                if !target.hasArg then 0 else if target.argOptional then 2 else 1)
  {
    BytesOf(its);
    LetterText(its, j);
    ColonsAre(its[j].target);
    hide *;
    LetterRead(ShortText(its), |ShortText(its[..j])|, its[j].opt.key, |Colons(its[j].target)|);
  }

  lemma ColonsAre(o: Opt)
    ensures Colons(o) == (if !o.hasArg then [] else if o.argOptional then [':' as int, ':' as int] else [':' as int])
  {
  }

  /** At position `at`, for the first time, there is c with so many colons behind it, and
      then neither ':' nor ';'. */
  ghost predicate HasLetter(s: seq<int>, at: nat, c: int, colons: nat) {
    && at + 1 + colons <= |s| && s[at] == c && c !in s[..at]
    && (forall k :: at < k < at + 1 + colons ==> s[k] == ':' as int)
    && (at + 1 + colons < |s| ==> s[at + 1 + colons] != ':' as int && s[at + 1 + colons] != ';' as int)
  }

  lemma LetterText(its: seq<Item>, j: nat)
    requires j < |its| && ParserShort(its[j]) && PlainKeys(its)
    requires forall k :: 0 <= k < j ==> !(ParserShort(its[k]) && its[k].opt.key == its[j].opt.key)
    ensures var c := its[j].opt.key;
            && HasLetter(ShortText(its), |ShortText(its[..j])|, c, |Colons(its[j].target)|)
            && 0 < c < 256 && c != ':' as int && c != ';' as int
  {
    hide *;
    var c := its[j].opt.key;
    LetterFacts(its, j);
    NextLetter(its, j + 1);
    ShortNext(its, j);
    ShortTextPrefix(its, j + 1);
    LetterAt(its, c);
    LetterHere(ShortText(its), ShortText(its[..j]), c, Colons(its[j].target));
  }

  lemma LetterFacts(its: seq<Item>, j: nat)
    requires j < |its| && ParserShort(its[j]) && PlainKeys(its)
    requires forall k :: 0 <= k < j ==> !(ParserShort(its[k]) && its[k].opt.key == its[j].opt.key)
    ensures var c := its[j].opt.key;
            && FirstUse(its, ParserShort, c) == j && ShortOf(its[j]) == [c] + Colons(its[j].target)
            && 0 < c < 256 && c != ':' as int && c != ';' as int && c != COLON
    ensures forall k :: 0 <= k < |Colons(its[j].target)| ==> Colons(its[j].target)[k] == ':' as int
  {
    FirstUseIs(its, ParserShort, its[j].opt.key, j);
    hide FirstUse;
  }

  lemma LetterHere(all: seq<int>, front: seq<int>, c: int, colons: seq<int>)
    requires front + ([c] + colons) <= all && c !in front && forall k :: 0 <= k < |colons| ==> colons[k] == ':' as int
    requires var n := |front + ([c] + colons)|; n < |all| ==> all[n] != ':' as int && all[n] != ';' as int
    ensures HasLetter(all, |front|, c, |colons|)
  {
    PrefixOf(all, front, [c] + colons);
    assert forall k :: 0 <= k < |colons| + 1 ==> all[|front| + k] == ([c] + colons)[k];
    forall k | |front| < k < |front| + 1 + |colons|
      ensures all[k] == ':' as int
    {
      assert all[k] == all[|front| + (k - |front|)];
    }
  }

  lemma PrefixOf(all: seq<int>, front: seq<int>, part: seq<int>)
    requires front + part <= all
    ensures all[..|front|] == front && all[|front|..|front| + |part|] == part
  {
  }

  lemma LetterRead(all: seq<int>, at: nat, c: int, colons: nat)
    requires forall k :: 0 <= k < |all| ==> 0 < all[k] < 256
    requires HasLetter(all, at, c, colons) && colons <= 2 && 0 < c < 256 && c != ':' as int && c != ';' as int
    ensures CommandLines.Letter(Chars(all), c as char, colons)
  {
    var text := Chars(all);
    assert forall k :: 0 <= k < |all| ==> text[k] == all[k] as char;
    assert CommandLines.LetterAt(text, c as char, colons, at);
  }

  lemma {:induction false} BytesOf(its: seq<Item>)
    ensures forall k :: 0 <= k < |ShortText(its)| ==> 0 < ShortText(its)[k] < 256
  {
    if its != [] {
      BytesOf(its[..|its| - 1]);
    }
  }

  /** What is in front of the option string tells getopt what to do with other arguments. */
  lemma PrefixMeans(its: seq<Item>, inOrder: bool, noArgs: bool, posixlyCorrect: bool, cfg: OptionScan.Config)
    requires Tables(its, cfg)
    requires cfg.ordering == if inOrder then OptionScan.RETURN_IN_ORDER
                             else if noArgs || posixlyCorrect then OptionScan.REQUIRE_ORDER else OptionScan.PERMUTE
    requires !inOrder && !noArgs && ShortText(its) != [] ==> ShortText(its)[0] != '-' as int && ShortText(its)[0] != '+' as int
    ensures CommandLines.Means(Chars(Prefix(inOrder, noArgs) + ShortText(its)), posixlyCorrect, cfg)
  {
    BytesOf(its);
    hide ShortText;
    var text := ShortText(its);
    assert [] + text == text;
    assert Chars(['-' as int] + text) == "-" + Chars(text) && Chars(['+' as int] + text) == "+" + Chars(text);
    assert forall k :: 0 <= k < |text| ==> Chars(text)[k] == text[k] as char;
  }

  // ----- long options -------------------------------------------------------

  predicate ParserLong(i: Item) {
    !i.target.doc && i.opt.name.Some?
  }

  lemma {:induction false} NamesOf(its: seq<Item>, name: string)
    requires forall k :: 0 <= k < |its| ==> !(ParserLong(its[k]) && its[k].opt.name == Some(name))
    ensures !HasName(LongTable(its), name)
  {
    if its != [] {
      var n := |its| - 1;
      NamesOf(its[..n], name);
      assert !(ParserLong(its[n]) && its[n].opt.name == Some(name));
    }
  }

  /** The first option of a name is denoted by it, with has_arg 0, 1 or 2, and what getopt
      returns for it holds its group and key. */
  lemma LongMeans(its: seq<Item>, cfg: OptionScan.Config, j: nat) returns (i: nat)
    requires Tables(its, cfg)
    requires j < |its| && ParserLong(its[j]) && its[j].opt.name.value != "" && '=' !in its[j].opt.name.value
    requires forall k :: 0 <= k < j ==> !(ParserLong(its[k]) && its[k].opt.name == its[j].opt.name)
    ensures CommandLines.Denotes(cfg, its[j].opt.name.value, i)
    ensures var o, target, key := cfg.longopts.value[i], its[j].target,
                                  if its[j].opt.key != 0 then its[j].opt.key else its[j].target.key;
            && o.flag == None && o.hasArg == (if !target.hasArg then 0 else if target.argOptional then 2 else 1)
            && (its[j].group < 127 && -0x80_0000 <= key < 0x80_0000 ==>
                  GroupKey(o.val) == its[j].group + 1 && UserKey(o.val) == key)
  {
    var name := its[j].opt.name.value;
    var t := LongTable(its);
    i := |LongTable(its[..j])|;
    NamesOf(its[..j], name);
    assert its[..j + 1][..j] == its[..j];
    LongTablePrefix(its, j + 1);
    ValueRoundTrip(if its[j].opt.key != 0 then its[j].opt.key else its[j].target.key, its[j].group);
    hide EncodeValue, UserKey, GroupKey;
    assert LongTable(its[..j + 1]) == LongTable(its[..j]) + [LongOf(its[j])];
    hide LongTable;
    assert t[..|LongTable(its[..j + 1])|] == LongTable(its[..j + 1]);
    assert t[i] == LongOf(its[j]);
    forall k | 0 <= k < i
      ensures cfg.longopts.value[k].name != name
    {
      assert LongTable(its[..j])[k] == t[k];
    }
  }
}
