/** gnulib's getopt: the state machine that walks argv across calls and, unless
    told otherwise, permutes it in place so that the options come first. */
module Getopt {
  import opened Options
  import opened CStrings
  import opened OptionScan

  /** What exchange must leave: blocks [first, middle) and [middle, top) swapped. */
  function Exchanged<T>(s: seq<T>, first: nat, middle: nat, top: nat): (r: seq<T>)
    requires first <= middle <= top <= |s|
    ensures |r| == |s|
  {
    s[..first] + s[middle..top] + s[first..middle] + s[top..]
  }

  /** The blocks [i, i + len) and [j, j + len) of s traded. */
  function Traded<T>(s: seq<T>, i: nat, j: nat, len: nat): (r: seq<T>)
    requires i + len <= j && j + len <= |s|
    ensures |r| == |s|
  {
    s[..i] + s[j..j + len] + s[i + len..j] + s[i..i + len] + s[j + len..]
  }

  lemma ExchangedOf<T>(s: seq<T>, a: seq<T>, b: seq<T>, c: seq<T>, d: seq<T>)
    requires s == a + b + c + d
    ensures Exchanged(s, |a|, |a| + |b|, |a| + |b| + |c|) == a + c + b + d
  {
    assert s[..|a|] == a && s[|a|..|a| + |b|] == b && s[|a| + |b|..|a| + |b| + |c|] == c && s[|a| + |b| + |c|..] == d;
  }

  lemma TradedOf<T>(s: seq<T>, a: seq<T>, b: seq<T>, c: seq<T>, d: seq<T>, e: seq<T>)
    requires s == a + b + c + d + e && |b| == |d|
    ensures Traded(s, |a|, |a| + |b| + |c|, |b|) == a + d + c + b + e
  {
    var j := |a| + |b| + |c|;
    assert s[..|a|] == a && s[|a|..|a| + |b|] == b && s[|a| + |b|..j] == c && s[j..j + |b|] == d && s[j + |b|..] == e;
  }

  lemma Regroup<T>(a: seq<T>, b: seq<T>, c: seq<T>, d: seq<T>, e: seq<T>)
    ensures a + b + c + d + e == a + b + c + (d + e) == a + b + (c + d) + e == a + (b + c) + d + e == (a + b) + c + d + e
  {
  }

  /** A sequence cut at four places. */
  lemma Cut<T>(s: seq<T>, i: nat, j: nat, k: nat, l: nat)
    requires i <= j <= k <= l <= |s|
    ensures s == s[..i] + s[i..j] + s[j..k] + s[k..l] + s[l..]
  {
  }

  /** The shorter front block goes to the far end, and the rest stays to be exchanged. */
  lemma TradeFront<T>(s: seq<T>, bottom: nat, middle: nat, top: nat)
    requires bottom < middle && middle - bottom < top - middle && top <= |s|
    ensures var len := middle - bottom;
            Exchanged(Traded(s, bottom, top - len, len), bottom, middle, top - len) == Exchanged(s, bottom, middle, top)
  {
    hide Exchanged, Traded;
    var far := top - (middle - bottom);
    Cut(s, bottom, middle, far, top);
    var a, b, c, d, e := s[..bottom], s[bottom..middle], s[middle..far], s[far..top], s[top..];
    TradedOf(s, a, b, c, d, e);
    var t := Traded(s, bottom, far, middle - bottom);
    Regroup(a, d, c, b, e);
    Regroup(a, b, c, d, e);
    Regroup(a, c, d, b, e);
    ExchangedOf(t, a, d, c, b + e);
    ExchangedOf(s, a, b, c + d, e);
  }

  lemma TradeBack<T>(s: seq<T>, bottom: nat, middle: nat, top: nat)
    requires bottom < middle < top && top - middle <= middle - bottom && top <= |s|
    ensures var len := top - middle;
            Exchanged(Traded(s, bottom, middle, len), bottom + len, middle, top) == Exchanged(s, bottom, middle, top)
  {
    hide Exchanged, Traded;
    var near := bottom + (top - middle);
    Cut(s, bottom, near, middle, top);
    var a, b, c, d, e := s[..bottom], s[bottom..near], s[near..middle], s[middle..top], s[top..];
    TradedOf(s, a, b, c, d, e);
    var t := Traded(s, bottom, middle, top - middle);
    Regroup(a, d, c, b, e);
    Regroup(a, b, c, d, e);
    Regroup(a, d, b, c, e);
    ExchangedOf(t, a + d, c, b, e);
    ExchangedOf(s, a, b + c, d, e);
  }

  lemma NothingToExchange<T>(s: seq<T>, bottom: nat, middle: nat, top: nat)
    requires bottom <= middle <= top <= |s| && (bottom == middle || middle == top)
    ensures Exchanged(s, bottom, middle, top) == s
  {
  }

  /** Where the two blocks are after they have been exchanged. */
  lemma BlocksOf<T>(s: seq<T>, first: nat, middle: nat, top: nat)
    requires 1 <= first <= middle <= top <= |s|
    ensures var t, f := Exchanged(s, first, middle, top), first + (top - middle);
            && t[0] == s[0] && t[1..f] == s[1..first] + s[middle..top] && t[f..top] == s[first..middle] && t[top..] == s[top..]
  {
  }

  method TradeBlocks(argv: array<string>, i: nat, j: nat, len: nat)
    requires i + len <= j && j + len <= argv.Length
    modifies argv
    ensures argv[..] == Traded(old(argv[..]), i, j, len)
  {
    hide Traded;
    ghost var s := argv[..];
    for k := 0 to len
      invariant forall m :: i <= m < i + k ==> argv[m] == old(argv[m - i + j])
      invariant forall m :: j <= m < j + k ==> argv[m] == old(argv[m - j + i])
      invariant forall m :: 0 <= m < argv.Length && !(i <= m < i + k) && !(j <= m < j + k) ==> argv[m] == old(argv[m])
    {
      var tem := argv[i + k];
      argv[i + k] := argv[j + k];
      argv[j + k] := tem;
    }
    TradedIs(s, argv[..], i, j, len);
  }

  lemma TradedIs<T>(s: seq<T>, t: seq<T>, i: nat, j: nat, len: nat)
    requires i + len <= j && j + len <= |s| == |t|
    requires forall m :: i <= m < i + len ==> t[m] == s[m - i + j]
    requires forall m :: j <= m < j + len ==> t[m] == s[m - j + i]
    requires forall m :: 0 <= m < |s| && !(i <= m < i + len) && !(j <= m < j + len) ==> t[m] == s[m]
    ensures t == Traded(s, i, j, len)
  {
  }

  method Exchange(argv: array<string>, first: nat, last: nat, optind: nat)
    requires first <= last <= optind <= argv.Length
    modifies argv
    ensures argv[..] == Exchanged(old(argv[..]), first, last, optind)
  {
    hide Exchanged, Traded;
    var bottom, middle, top := first, last, optind;
    while top > middle && middle > bottom
      invariant first <= bottom <= middle <= top <= argv.Length
      invariant Exchanged(argv[..], bottom, middle, top) == Exchanged(old(argv[..]), first, last, optind)
      decreases top - bottom
    {
      if top - middle > middle - bottom {
        var len := middle - bottom;
        TradeFront(argv[..], bottom, middle, top);
        TradeBlocks(argv, bottom, top - len, len);
        top := top - len;
      } else {
        var len := top - middle;
        TradeBack(argv[..], bottom, middle, top);
        TradeBlocks(argv, bottom, middle, len);
        bottom := bottom + len;
      }
    }
    NothingToExchange(argv[..], bottom, middle, top);
  }

  datatype Result = End | Got(value: int)

  class Getopt {
    const cfg: Config
    const argv: array<string>
    var optind: nat
    var firstNonopt: nat
    var lastNonopt: nat
    var nextchar: string   // unread part of the current element; "" for NULL too
    var optarg: Option<string>
    var optopt: int
    var longind: nat

    ghost const orig: seq<string>   // argv before the first call
    ghost var done: Parsed          // what the calls so far have read

    /** _getopt_initialize, with optind 0: nothing has been read. */
    constructor (argv: array<string>, cfg: Config)
      requires argv.Length >= 1
      ensures Valid() && this.argv == argv && this.cfg == cfg && orig == argv[..]
      ensures optind == 1 && nextchar == "" && done == NOTHING
    {
      this.argv, this.cfg := argv, cfg;
      optind, firstNonopt, lastNonopt := 1, 1, 1;
      nextchar, optarg, optopt, longind := "", None, QUESTION, 0;
      orig, done := argv[..], NOTHING;
    }

    /** Between two calls: the options read so far surround the skipped non-options,
        both in their original order; what lies ahead is untouched. */
    ghost predicate Valid()
      reads this, argv
    {
      && argv.Length == |orig| && argv.Length >= 1
      && 1 <= firstNonopt <= lastNonopt <= optind <= argv.Length
      && argv[0] == orig[0]
      && argv[1..firstNonopt] + argv[lastNonopt..optind] == done.options
      && argv[firstNonopt..lastNonopt] == done.nonOptions
      && argv[optind..] == orig[optind..]
      && Readable(orig, optind, nextchar)
      && (cfg.ordering != PERMUTE ==> firstNonopt == lastNonopt)
    }

    /** The whole reading: what is done, then what is left. */
    ghost function Total(): Parsed
      requires Readable(orig, optind, nextchar)
      reads this
    {
      done.Then(Scan(cfg, orig, optind, nextchar))
    }

    /** If options were read since the last non-options were skipped, they move in
        front of those. */
    method BringOptionsForward()
      requires Valid() && nextchar == ""
      modifies this`firstNonopt, this`lastNonopt, argv
      ensures Valid() && lastNonopt == optind
    {
      hide Exchanged, Scan, Readable;
      if firstNonopt != lastNonopt && lastNonopt != optind {
        BlocksOf(argv[..], firstNonopt, lastNonopt, optind);
        Exchange(argv, firstNonopt, lastNonopt, optind);
        firstNonopt := firstNonopt + (optind - lastNonopt);
      } else if lastNonopt != optind {
        firstNonopt := optind;
      }
      lastNonopt := optind;
    }

    method SkipNonOptions()
      requires Valid() && cfg.ordering == PERMUTE && nextchar == "" && lastNonopt == optind
      modifies this`lastNonopt, this`optind, this`done
      ensures Valid() && lastNonopt == optind >= old(optind) && Total() == old(Total())
      ensures done.answers == old(done.answers) && done.options == old(done.options)
      ensures optind < argv.Length ==> !NonOption(argv[optind])
    {
      hide Scan;
      while optind < argv.Length && NonOption(argv[optind])
        invariant firstNonopt <= old(optind) <= optind <= argv.Length
        invariant done.options == argv[1..firstNonopt] && done.answers == old(done.answers)
        invariant done.nonOptions == argv[firstNonopt..optind]
        invariant argv[optind..] == orig[optind..]
        invariant Total() == old(Total())
      {
        assert argv[optind] == orig[optind..][0];
        ScanNonOption(cfg, orig, optind, done);
        done := done.(nonOptions := done.nonOptions + [argv[optind]]);
        optind := optind + 1;
      }
      lastNonopt := optind;
    }

    /** After the last call: options first, then non-options, and optind between. */
    ghost predicate Finished()
      reads this, argv
    {
      && orig != []
      && argv[..] == orig[..1] + done.options + done.nonOptions
      && optind == 1 + |done.options|
    }

    /** "--": it joins the options, and all that follows is a non-option. */
    method EndOfOptions()
      requires Valid() && nextchar == "" && (cfg.ordering == PERMUTE ==> lastNonopt == optind)
      requires optind < argv.Length && argv[optind] == "--"
      modifies this`firstNonopt, this`lastNonopt, this`optind, this`done, argv
      ensures Finished() && done == old(Total()) && done.answers == old(done.answers)
    {
      hide Scan, ScanStep, Readable, Exchanged, NonOption, Following;
      assert argv[optind] == orig[optind..][0] == orig[optind];
      ScanDashes(cfg, orig, optind, done);
      FinalOrder(argv[..], firstNonopt, lastNonopt, optind, done.options, done.nonOptions);
      FollowingAhead(argv[..], orig, optind);
      done := Total();
      ReadToEnd();
    }

    /** Step over "--" and everything behind it. */
    method ReadToEnd()
      requires 1 <= firstNonopt <= lastNonopt <= optind < argv.Length && orig != []
      requires Exchanged(argv[..], firstNonopt, lastNonopt, optind + 1) == orig[..1] + done.options + done.nonOptions
      requires firstNonopt + (optind + 1 - lastNonopt) == 1 + |done.options|
      modifies this`firstNonopt, this`lastNonopt, this`optind, argv
      ensures Finished()
    {
      NothingToExchange(argv[..], firstNonopt, firstNonopt, optind + 1);
      hide Exchanged;
      optind := optind + 1;
      if firstNonopt != lastNonopt && lastNonopt != optind {
        Exchange(argv, firstNonopt, lastNonopt, optind);
        firstNonopt := firstNonopt + (optind - lastNonopt);
      } else if firstNonopt == lastNonopt {
        firstNonopt := optind;
      }
      lastNonopt := argv.Length;
      optind := argv.Length;
      if firstNonopt != lastNonopt {
        optind := firstNonopt;
      }
    }

    // ----- one call ---------------------------------------------------------

    /** Go on to the next element: None when option text is ready in nextchar, else
        what the call returns. */
    method Advance() returns (r: Option<Result>)
      requires Valid() && nextchar == ""
      modifies this`firstNonopt, this`lastNonopt, this`optind, this`done, this`nextchar, this`optarg, argv
      ensures r.None? ==> Valid() && Total() == old(Total()) && optind >= old(optind)
      ensures r.None? ==> optind < argv.Length && !NonOption(argv[optind]) && argv[optind] != "--"
      ensures r.None? ==> nextchar == OptionText(cfg, argv[optind]) && optarg == old(optarg)
      ensures r.None? ==> done.answers == old(done.answers)
      ensures r == Some(End) ==> Finished() && done == old(Total()) && done.answers == old(done.answers)
      ensures r.Some? && r.value.Got? ==>
        && Valid() && Total() == old(Total()) && optind > old(optind)
        && r.value.value == NON_OPTION && optarg.Some? && nextchar == ""
        && done.answers == old(done.answers) + [Reported(optarg.value)]
    {
      hide Scan, ScanStep, Exchanged;
      if cfg.ordering == PERMUTE {
        BringOptionsForward();
        SkipNonOptions();
      }
      if optind != argv.Length && argv[optind] == "--" {
        EndOfOptions();
        return Some(End);
      }
      if optind == argv.Length {
        FinishAtEnd();
        return Some(End);
      }
      assert argv[optind] == orig[optind..][0] == orig[optind];
      if NonOption(argv[optind]) {
        if cfg.ordering == REQUIRE_ORDER {
          StopHere();
          return Some(End);
        }
        ReportNonOption();
        return Some(Got(NON_OPTION));
      }
      nextchar := OptionText(cfg, argv[optind]);
      ScanPending(cfg, orig, optind);
      r := None;
    }

    method FinishAtEnd()
      requires Valid() && nextchar == "" && optind == argv.Length && (cfg.ordering == PERMUTE ==> lastNonopt == optind)
      modifies this`optind, this`done
      ensures Finished() && done == old(Total()) && done.answers == old(done.answers)
    {
      assert Total() == done;
      AllRead(argv[..], firstNonopt, lastNonopt, done.options, done.nonOptions);
      done := Total();
      if firstNonopt != lastNonopt {
        optind := firstNonopt;
      }
    }

    method StopHere()
      requires Valid() && nextchar == "" && cfg.ordering == REQUIRE_ORDER
      requires optind < argv.Length && NonOption(orig[optind])
      modifies this`done
      ensures Finished() && done == old(Total()) && done.answers == old(done.answers)
    {
      hide Scan, ScanStep, Readable;
      ScanStop(cfg, orig, optind, done);
      done := Total();
      assert argv[..] == argv[..1] + argv[1..optind] + argv[optind..];
    }

    method ReportNonOption()
      requires Valid() && nextchar == "" && cfg.ordering == RETURN_IN_ORDER
      requires optind < argv.Length && NonOption(orig[optind])
      modifies this`optind, this`optarg, this`done
      ensures Valid() && Total() == old(Total()) && optind == old(optind) + 1
      ensures optarg == Some(orig[optind - 1])
      ensures done.answers == old(done.answers) + [Reported(orig[optind - 1])]
    {
      hide Scan, ScanStep;
      assert argv[optind] == orig[optind..][0] == orig[optind];
      FollowingAhead(argv[..], orig, optind);
      ConsumedElements(argv[..], orig, lastNonopt, optind, optind + 1);
      assert orig[optind..optind + 1] == [orig[optind]];
      ScanReported(cfg, orig, optind, done);
      done := Parsed(done.answers + [Reported(orig[optind])], done.options + [orig[optind]], done.nonOptions, done.sound);
      optarg := Some(argv[optind]);
      optind := optind + 1;
    }

    /** The answer o has been given by this call for the option element at `at`. */
    ghost predicate Answered(o: Outcome, at: nat, ret: int)
      reads this
    {
      && ret == o.ret && optarg == o.optarg && nextchar == o.rest
      && optind == at + o.elements
      && (o.optopt.Some? ==> optopt == o.optopt.value)
      && (o.longind.Some? ==> longind == o.longind.value)
    }

    /** A long option, or None when the element is to be read as short options. */
    method DecodeLongOption(opts: seq<LongOption>) returns (r: Option<int>)
      requires optind < argv.Length && |argv[optind]| >= 2 && nextchar != "" && optarg == None
      modifies this`optind, this`nextchar, this`optarg, this`optopt, this`longind
      ensures var o := DecodeLong(cfg, opts, argv[old(optind)], old(nextchar), Following(argv[..], old(optind)));
              && (r.None? <==> o.None?)
              && (r.None? ==> optind == old(optind) && nextchar == old(nextchar) && optarg == None)
              && (r.Some? ==> Answered(o.value, old(optind), r.value))
    {
      ghost var at, text := optind, nextchar;
      var nameend := 0;
      while nameend < |nextchar| && nextchar[nameend] != '='
        invariant nameend <= |nextchar| && '=' !in nextchar[..nameend]
      {
        nameend := nameend + 1;
      }
      IndexOfUnique(nextchar, '=', nameend);
      var name := nextchar[..nameend];
      var m := FindLong(opts, name, cfg.longOnly);
      match m
      case Ambiguous =>
        nextchar := "";
        optind := optind + 1;
        optopt := 0;
        return Some(QUESTION);
      case Hit(i) =>
        var p := opts[i];
        optind := optind + 1;
        if nameend < |nextchar| {
          if p.hasArg != NO_ARGUMENT {
            optarg := Some(nextchar[nameend + 1..]);
          } else {
            nextchar := "";
            optopt := p.val;
            return Some(QUESTION);
          }
        } else if p.hasArg == REQUIRED_ARGUMENT {
          if optind < argv.Length {
            optarg := Some(argv[optind]);
            optind := optind + 1;
          } else {
            nextchar := "";
            optopt := p.val;
            return Some(MissingArgument(cfg));
          }
        }
        nextchar := "";
        longind := i;
        return Some(if p.flag.Some? then 0 else p.val);
      case NoMatch =>
        if !cfg.longOnly || argv[optind][1] == '-' || nextchar[0] !in cfg.optstring {
          nextchar := "";
          optind := optind + 1;
          optopt := 0;
          return Some(QUESTION);
        }
        return None;
    }

    /** strchr on the short options; |optstring| stands for NULL. */
    method FindShort(c: char) returns (k: nat)
      ensures k == IndexOf(cfg.optstring, c)
    {
      k := 0;
      while k < |cfg.optstring| && cfg.optstring[k] != c
        invariant k <= |cfg.optstring| && c !in cfg.optstring[..k]
      {
        k := k + 1;
      }
      IndexOfUnique(cfg.optstring, c, k);
    }

    /** "W;" behind the letter: the rest of the element, or the next one, is the name of a
        long option.  Without long options the caller gets the letter. */
    method TakeW(ghost at: nat) returns (ret: int)
      requires at < argv.Length && optarg == None && optind == if nextchar == "" then at + 1 else at
      modifies this`optind, this`nextchar, this`optarg, this`optopt, this`longind
      ensures Answered(DecodeW(cfg, old(nextchar), Following(argv[..], at)), at, ret)
    {
      if cfg.longopts.None? {
        nextchar := "";
        return 'W' as int;
      }
      ghost var text := nextchar;
      if nextchar != "" {
        optarg := Some(nextchar);
        optind := optind + 1;
      } else if optind == argv.Length {
        optopt := 'W' as int;
        return MissingArgument(cfg);
      } else {
        optarg := Some(argv[optind]);
        optind := optind + 1;
      }
      var name := optarg.value;
      assert LongName(text, Following(argv[..], at)) == Some((name, optind - at));
      ret := FindNamed(at, text, name);
    }

    /** The name, with the element behind it at optind, is looked up. */
    method FindNamed(ghost at: nat, ghost text: string, name: string) returns (ret: int)
      requires at < optind <= argv.Length && cfg.longopts.Some? && optarg == Some(name)
      requires LongName(text, Following(argv[..], at)) == Some((name, optind - at))
      modifies this`optind, this`nextchar, this`optarg, this`longind
      ensures Answered(DecodeW(cfg, text, Following(argv[..], at)), at, ret)
    {
      hide LongName, TakeLong, LongMatch, IndexOf;
      assert Following(argv[..], at)[optind - at - 1..] == argv[optind..];
      var nameend := 0;
      while nameend < |name| && name[nameend] != '='
        invariant nameend <= |name| && '=' !in name[..nameend]
      {
        nameend := nameend + 1;
      }
      IndexOfUnique(name, '=', nameend);
      var m := FindLong(cfg.longopts.value, name[..nameend], cfg.longOnly);
      match m
      case Ambiguous =>
        nextchar := "";
        optind := optind + 1;
        ret := QUESTION;
      case NoMatch =>
        nextchar := "";
        ret := 'W' as int;
      case Hit(i) =>
        ret := TakeNamed(i, name, nameend);
    }

    /** The name is that of long option i. */
    method TakeNamed(i: nat, name: string, nameend: nat) returns (ret: int)
      requires cfg.longopts.Some? && i < |cfg.longopts.value| && nameend <= |name|
      requires optarg == Some(name) && optind <= argv.Length
      modifies this`optind, this`nextchar, this`optarg, this`longind
      ensures var o := TakeLong(cfg, cfg.longopts.value[i], i, name, nameend, First(argv[old(optind)..]));
              && ret == o.ret && nextchar == "" && optarg == (if o.longind.Some? then o.optarg else Some(name))
              && optind == old(optind) + o.elements - 1 && (o.longind.Some? ==> longind == o.longind.value)
    {
      var p := cfg.longopts.value[i];
      nextchar := "";
      if nameend < |name| {
        if p.hasArg == NO_ARGUMENT {
          return QUESTION;
        }
        optarg := Some(name[nameend + 1..]);
      } else if p.hasArg == REQUIRED_ARGUMENT {
        if optind == argv.Length {
          return MissingArgument(cfg);
        }
        optarg := Some(argv[optind]);
        optind := optind + 1;
      } else {
        optarg := None;
      }
      longind := i;
      ret := if p.flag.Some? then 0 else p.val;
    }

    method DecodeShortOption() returns (ret: int)
      requires optind < argv.Length && nextchar != "" && optarg == None
      modifies this`optind, this`nextchar, this`optarg, this`optopt, this`longind
      ensures Answered(DecodeShort(cfg, old(nextchar), Following(argv[..], old(optind))), old(optind), ret)
    {
      ghost var at := optind;
      var c := nextchar[0];
      nextchar := nextchar[1..];
      var temp := FindShort(c);
      if nextchar == "" {
        optind := optind + 1;
      }
      if temp == |cfg.optstring| || c == ':' || c == ';' {
        optopt := c as int;
        return QUESTION;
      }
      ret := c as int;
      if c == 'W' && At(cfg.optstring, temp + 1) == ';' {
        ret := TakeW(at);
        return;
      }
      if At(cfg.optstring, temp + 1) == ':' {
        if At(cfg.optstring, temp + 2) == ':' {
          if nextchar != "" {
            optarg := Some(nextchar);
            optind := optind + 1;
          } else {
            optarg := None;
          }
          nextchar := "";
        } else {
          if nextchar != "" {
            optarg := Some(nextchar);
            optind := optind + 1;
          } else if optind == argv.Length {
            optopt := c as int;
            ret := MissingArgument(cfg);
          } else {
            optarg := Some(argv[optind]);
            optind := optind + 1;
          }
          nextchar := "";
        }
      }
    }

    /** Work left: the arguments ahead, then the text of the current one. */
    ghost function TextLeft(): nat
      requires Readable(orig, optind, nextchar)
      reads this
    {
      if nextchar != "" then |nextchar| else if optind < |orig| then |orig[optind]| else 0
    }

    /** _getopt_internal_r: one call.  End stands for the value -1. */
    method Next() returns (r: Result)
      requires Valid() && Total().sound
      modifies this`firstNonopt, this`lastNonopt, this`optind, this`done,
               this`nextchar, this`optarg, this`optopt, this`longind, argv
      ensures r.End? ==> Finished() && done == old(Total()) && done.answers == old(done.answers)
      ensures r.Got? ==> Valid() && Total() == old(Total())
      ensures r.Got? ==> |done.answers| == |old(done.answers)| + 1 && done.answers[..|old(done.answers)|] == old(done.answers)
      ensures r.Got? ==> var o := done.answers[|done.answers| - 1];
                         o.ret == r.value && o.optarg == optarg && o.rest == nextchar
      ensures r.Got? ==> optind > old(optind) || (optind == old(optind) && TextLeft() < old(TextLeft()))
    {
      hide Scan, ScanStep, Exchanged;
      optarg := None;
      if nextchar == "" {
        var stop := Advance();
        if stop.Some? {
          return stop.value;
        }
      }
      var ret := DecodeElement();
      r := Got(ret);
    }

    lemma StaysReadable()
      requires Valid()
      ensures Readable(orig, optind, nextchar) && optind <= |orig|
    {
    }

    /** The second half of a call: decode the next option of the current element. */
    method DecodeElement() returns (ret: int)
      requires Valid() && optarg == None && nextchar != "" && Total().sound
      modifies this`optind, this`done, this`nextchar, this`optarg, this`optopt, this`longind
      ensures Valid() && Total() == old(Total())
      ensures exists o :: Answered(o, old(optind), ret) && done.answers == old(done.answers) + [o]
      ensures optind > old(optind) || (optind == old(optind) && 0 < |nextchar| < |old(nextchar)|)
    {
      hide Scan, ScanStep, Decode;
      ghost var at, text := optind, nextchar;
      assert argv[at] == orig[at..][0] == orig[at];
      FollowingAhead(argv[..], orig, at);
      ghost var o := Decode(cfg, orig[at], text, Following(orig, at));
      ScanAnswer(cfg, orig, at, text, done);
      ret := DecodeOne(o);
      assert GoesOn(orig, at, o);
      ConsumedElements(argv[..], orig, lastNonopt, at, optind);
      done := done.Then(Answer(orig, at, o).parsed);
    }

    /** Try a long option where one may stand, else take a short one. */
    method DecodeOne(ghost o: Outcome) returns (ret: int)
      requires optind < argv.Length && |argv[optind]| >= 2 && nextchar != "" && optarg == None
      requires o == Decode(cfg, argv[optind], nextchar, Following(argv[..], optind))
      modifies this`optind, this`nextchar, this`optarg, this`optopt, this`longind
      ensures Answered(o, old(optind), ret)
    {
      hide DecodeLong, DecodeShort;
      if TriesLong(cfg, argv[optind]) {
        var long := DecodeLongOption(cfg.longopts.value);
        if long.Some? {
          return long.value;
        }
      }
      ret := DecodeShortOption();
    }
  }

  lemma ConsumedElements(s: seq<string>, t: seq<string>, last: nat, i: nat, n: nat)
    requires |s| == |t| && last <= i <= n <= |s| && s[i..] == t[i..]
    ensures s[last..n] == s[last..i] + t[i..n]
  {
    assert s[i..n] == s[i..][..n - i];
    assert t[i..n] == t[i..][..n - i];
  }

  /** The configuration that _getopt_initialize derives from its arguments. */
  function Configure(optstring: string, longopts: Option<seq<LongOption>>, longOnly: bool, posixlyCorrect: bool): Config {
    if optstring != "" && optstring[0] == '-' then Config(RETURN_IN_ORDER, optstring[1..], longopts, longOnly)
    else if optstring != "" && optstring[0] == '+' then Config(REQUIRE_ORDER, optstring[1..], longopts, longOnly)
    else Config(if posixlyCorrect then REQUIRE_ORDER else PERMUTE, optstring, longopts, longOnly)
  }

  datatype Reply = Reply(ret: int, optarg: Option<string>)

  function Replies(answers: seq<Outcome>): (r: seq<Reply>)
    ensures |r| == |answers|
    ensures forall k :: 0 <= k < |r| ==> r[k] == Reply(answers[k].ret, answers[k].optarg)
  {
    seq(|answers|, k requires 0 <= k < |answers| => Reply(answers[k].ret, answers[k].optarg))
  }

  lemma RepliesGrow(a: seq<Outcome>, b: seq<Outcome>)
    requires |a| <= |b| <= |a| + 1 && b[..|a|] == a
    ensures |b| > |a| ==> Replies(b) == Replies(a) + [Reply(b[|a|].ret, b[|a|].optarg)]
  {
    forall k | 0 <= k < |a|
      ensures a[k] == b[k]
    {
      assert b[..|a|][k] == b[k];
    }
  }

  lemma RunKeeps(orig: seq<string>, p: Parsed)
    requires orig != [] && Keeps(p, orig[1..])
    ensures multiset(orig[..1] + p.options + p.nonOptions) == multiset(orig)
  {
    assert orig == orig[..1] + orig[1..];
  }

  /** Calling getopt until it returns -1.  The answers are those of a left-to-right
      reading; argv ends as the program name, the options with their arguments in
      their order, then the non-options in theirs, with optind in between.  With "W;" this
      is asked only where the reading comes to the end of the arguments. */
  method ParseCommandLine(argv: array<string>, cfg: Config) returns (replies: seq<Reply>, optind: nat)
    requires argv.Length >= 1 && Scan(cfg, argv[..], 1, "").sound
    modifies argv
    ensures var p := Scan(cfg, old(argv[..]), 1, "");
            && replies == Replies(p.answers)
            && argv[..] == old(argv[..1]) + p.options + p.nonOptions
            && optind == 1 + |p.options|
    ensures multiset(argv[..]) == old(multiset(argv[..]))
  {
    ghost var orig := argv[..];
    var g := new Getopt(argv, cfg);
    ghost var p := Scan(cfg, orig, 1, "");
    assert g.Total() == p;
    ScanKeeps(cfg, orig, 1, "");
    RunKeeps(orig, p);
    replies := CallAll(g, p);
    optind := g.optind;
  }

  /** Calling getopt until it returns -1, on an object that has not been called. */
  method CallAll(g: Getopt, ghost p: Parsed) returns (replies: seq<Reply>)
    requires g.Valid() && g.Total() == p && p.sound && g.done == NOTHING
    modifies g, g.argv
    ensures g.Finished() && g.done == p && replies == Replies(p.answers)
  {
    hide Scan, Getopt.Valid, Getopt.Finished, Keeps, Readable;
    replies := [];
    ghost var orig := g.orig;
    g.StaysReadable();
    var r := g.Next();
    RepliesGrow([], g.done.answers);
    if r.Got? {
      g.StaysReadable();
    }
    while r.Got?
      invariant r.Got? ==> g.Valid() && Readable(orig, g.optind, g.nextchar) && g.Total() == p
      invariant r.Got? ==> replies + [Reply(r.value, g.optarg)] == Replies(g.done.answers)
      invariant r.End? ==> g.Finished() && g.done == p && replies == Replies(p.answers)
      decreases r.Got?, if r.Got? then |orig| - g.optind else 0, if r.Got? then g.TextLeft() else 0
    {
      replies := replies + [Reply(r.value, g.optarg)];
      ghost var before := g.done.answers;
      r := g.Next();
      RepliesGrow(before, g.done.answers);
      if r.Got? {
        g.StaysReadable();
      }
    }
  }

  /** Two argument vectors that agree from i on agree on what follows i. */
  lemma FollowingAhead(s: seq<string>, t: seq<string>, i: nat)
    requires |s| == |t| && i < |s| && s[i..] == t[i..]
    ensures Following(s, i) == Following(t, i)
    ensures forall k :: i <= k <= |s| ==> s[k..] == t[k..]
  {
    forall k | i <= k <= |s|
      ensures s[k..] == t[k..]
    {
      assert s[k..] == s[i..][k - i..];
      assert t[k..] == t[i..][k - i..];
    }
    assert i + 1 < |s| ==> s[i + 1..][0] == s[i + 1];
  }

  lemma AllRead(s: seq<string>, first: nat, last: nat, options: seq<string>, nonOptions: seq<string>)
    requires 1 <= first <= last <= |s| && (first == last || last == |s|)
    requires s[1..first] + s[last..] == options && s[first..last] == nonOptions
    ensures s == s[..1] + options + nonOptions
    ensures (if first != last then first else |s|) == 1 + |options|
  {
  }

  lemma FinalOrder(s: seq<string>, first: nat, last: nat, i: nat, options: seq<string>, nonOptions: seq<string>)
    requires 1 <= first <= last <= i < |s|
    requires s[1..first] + s[last..i] == options && s[first..last] == nonOptions
    ensures Exchanged(s, first, last, i + 1) == s[..1] + (options + [s[i]]) + (nonOptions + s[i + 1..])
    ensures first + (i + 1 - last) == 1 + |options| + 1
  {
    assert s[last..i + 1] == s[last..i] + [s[i]];
    assert s[..first] == s[..1] + s[1..first];
  }
}
