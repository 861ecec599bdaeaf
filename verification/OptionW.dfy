/** getopt's "W;": an option string that asks for "-W foo" to be read as "--foo".  When
    a command line may be read with it, and where it may not. */
module OptionW {
  import opened Options
  import opened CStrings
  import opened OptionScan

  /** Does the option string ask for it? */
  predicate AsksW(optstring: string) {
    var k := IndexOf(optstring, 'W');
    k < |optstring| && At(optstring, k + 1) == ';'
  }

  ghost predicate AmbiguousName(cfg: Config, name: string) {
    cfg.longopts.Some? && LongMatch(cfg.longopts.value, name[..IndexOf(name, '=')], cfg.longOnly) == Ambiguous
  }

  /** The answer to 'W' gets on with the arguments, and not beyond them, exactly if there
      are long options, or no text behind the 'W', and no ambiguous name ends the command
      line. */
  lemma MovesOn(cfg: Config, args: seq<string>, at: nat, text: string)
    requires at < |args|
    ensures var name := LongName(text, Following(args, at));
            GoesOn(args, at, DecodeW(cfg, text, Following(args, at))) <==>
              && (cfg.longopts.Some? || text == "")
              && (name.Some? && AmbiguousName(cfg, name.value.0) ==> at + name.value.1 < |args|)
  {
  }

  /** With a name that is neither unknown nor ambiguous, "-W name" is "--name": the same
      answer, argument and index, and the next element taken or not. */
  lemma SameAsLong(cfg: Config, opts: seq<LongOption>, text: string, ahead: seq<string>)
    requires cfg.longopts == Some(opts) && LongName(text, ahead).Some?
    requires var (name, k) := LongName(text, ahead).value;
             name != "" && LongMatch(opts, name[..IndexOf(name, '=')], cfg.longOnly).Hit?
    ensures var (name, k) := LongName(text, ahead).value;
            var long, w := DecodeLong(cfg, opts, "--" + name, name, ahead[k - 1..]), DecodeW(cfg, text, ahead);
            && long.Some? && w.ret == long.value.ret && w.longind == long.value.longind
            && w.elements == long.value.elements + k - 1
            && (w.longind.Some? ==> w.optarg == long.value.optarg)
  {
  }

  // ----- whole command lines ------------------------------------------------

  /** Does the command line end with an ambiguous name behind a 'W', in an element of its
      own or not? */
  ghost predicate EndsUnclear(cfg: Config, args: seq<string>)
    requires args != []
  {
    var n := |args| - 1;
    || (n > 0 && Tail("W", args[n - 1]) && AmbiguousName(cfg, args[n]))
    || (exists k :: 2 <= k < |args[n]| && args[n][k - 1] == 'W' && AmbiguousName(cfg, args[n][k..]))
  }

  /** Is p the end of an option element behind its first character? */
  predicate Tail(p: string, element: string) {
    |p| < |element| && element[|element| - |p|..] == p
  }

  /** The reading comes to the end of the arguments if there are long options and the
      command line does not end with an ambiguous name; without "W;" it always does. */
  lemma ReadsToEnd(cfg: Config, args: seq<string>)
    requires args != [] && (AsksW(cfg.optstring) ==> cfg.longopts.Some? && !EndsUnclear(cfg, args))
    ensures Scan(cfg, args, 1, "").sound
  {
    ScanSound(cfg, args, 1, "");
  }

  lemma {:induction false} ScanSound(cfg: Config, args: seq<string>, i: nat, pending: string)
    requires Readable(args, i, pending) && args != [] && (pending != "" ==> Tail(pending, args[i]))
    requires AsksW(cfg.optstring) ==> cfg.longopts.Some? && !EndsUnclear(cfg, args)
    ensures Scan(cfg, args, i, pending).sound
    decreases |args| - i, if pending != "" then |pending| else if i < |args| then |args[i]| else 0
  {
    if i < |args| {
      var c := ScanStep(cfg, args, i, pending);
      StepSound(cfg, args, i, pending);
      hide AsksW, EndsUnclear, Tail, ScanStep, AmbiguousName;
      ScanSound(cfg, args, c.i, c.pending);
    }
  }

  lemma StepSound(cfg: Config, args: seq<string>, i: nat, pending: string)
    requires i < |args| && Readable(args, i, pending) && (pending != "" ==> Tail(pending, args[i]))
    requires AsksW(cfg.optstring) ==> cfg.longopts.Some? && !EndsUnclear(cfg, args)
    ensures var c := ScanStep(cfg, args, i, pending);
            c.parsed.sound && (c.pending != "" ==> c.i < |args| && Tail(c.pending, args[c.i]))
  {
    hide AsksW, EndsUnclear, Decode;
    if pending != "" || (!NonOption(args[i]) && args[i] != "--") {
      AnswerSound(cfg, args, i, if pending == "" then OptionText(cfg, args[i]) else pending);
    }
  }

  lemma AnswerSound(cfg: Config, args: seq<string>, i: nat, text: string)
    requires i < |args| && |args[i]| >= 2 && text != "" && Tail(text, args[i])
    requires AsksW(cfg.optstring) ==> cfg.longopts.Some? && !EndsUnclear(cfg, args)
    ensures var o := Decode(cfg, args[i], text, Following(args, i));
            GoesOn(args, i, o) && (o.rest != "" ==> Tail(o.rest, args[i]))
  {
    hide DecodeW, LongMatch, EndsUnclear;
    assert Tail(text[1..], args[i]) by {
      assert args[i][|args[i]| - |text|..][1..] == args[i][|args[i]| - |text| + 1..];
    }
    if text[0] == 'W' && AsksW(cfg.optstring) {
      LongSound(cfg, args, i, text[1..]);
    }
  }

  lemma LongSound(cfg: Config, args: seq<string>, i: nat, text: string)
    requires i < |args| && Tail(['W'] + text, args[i])
    requires cfg.longopts.Some? && !EndsUnclear(cfg, args)
    ensures GoesOn(args, i, DecodeW(cfg, text, Following(args, i)))
  {
    hide AmbiguousName, DecodeW;
    MovesOn(cfg, args, i, text);
    var e := args[i];
    assert e[|e| - |text| - 1..] == ['W'] + text;
    if text != "" && i + 1 == |args| {
      var k := |e| - |text|;
      assert e[k - 1] == 'W' && e[k..] == e[k - 1..][1..] == text;
    }
    if text == "" && i + 2 == |args| {
      assert ['W'] + text == "W";
    }
  }

  // ----- where it may not ---------------------------------------------------

  /** Without long options "-Wfoo" is answered with the letter, and read again by the next
      call, and so on for ever. */
  lemma ReadForEver(cfg: Config)
    requires AsksW(cfg.optstring) && cfg.longopts == None
    ensures var args := ["p", "-Wfoo"];
            && Decode(cfg, args[1], OptionText(cfg, args[1]), Following(args, 1)) == Outcome('W' as int, None, None, None, 0, "")
            && !Scan(cfg, args, 1, "").sound
  {
    var args := ["p", "-Wfoo"];
    assert OptionText(cfg, args[1]) == "Wfoo" && "Wfoo"[1..] == "foo";
  }

  /** An ambiguous name that ends the command line takes optind past its end. */
  lemma ReachesBeyond(cfg: Config)
    requires AsksW(cfg.optstring) && !cfg.longOnly
    requires cfg.longopts == Some([LongOption("add", 0, None, 1), LongOption("all", 0, None, 2)])
    ensures var args := ["p", "-Wa"];
            && 1 + Decode(cfg, args[1], OptionText(cfg, args[1]), Following(args, 1)).elements == |args| + 1
            && !Scan(cfg, args, 1, "").sound
  {
    var args, opts := ["p", "-Wa"], cfg.longopts.value;
    assert OptionText(cfg, args[1]) == "Wa" && "Wa"[1..] == "a" && !TriesLong(cfg, args[1]);
    assert "a"[..IndexOf("a", '=')] == "a";
    AddOrAll(opts);
    hide LongMatch, IsMatch;
  }

  lemma AddOrAll(opts: seq<LongOption>)
    requires opts == [LongOption("add", 0, None, 1), LongOption("all", 0, None, 2)]
    ensures LongMatch(opts, "a", false) == Ambiguous
  {
    assert FirstAbbreviated(opts, "a", 0) && Rivalled(opts, "a", false, 0) by {
      assert Abbreviates("a", opts[0]) && Abbreviates("a", opts[1]);
    }
    assert IsMatch(opts, "a", false, Ambiguous);
    MatchUnique(opts, "a", false, Ambiguous, LongMatch(opts, "a", false));
  }
}
