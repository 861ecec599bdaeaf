/** printf_parse: one pass over a format string that fills growing arrays of directive
    and argument records.  The configuration is that of glibc on a 64-bit system: the
    'I' flag, long long and wide characters exist, and long, intmax_t, size_t and
    ptrdiff_t have 64 bits. */
module PrintfParse {
  import opened Options
  import opened CStrings
  import opened Arithmetic
  import opened Allocation
  import opened PrintfSyntax
  import opened PrintfDirectives
  import opened XSize

  const DIRECT_ALLOC := 7        // N_DIRECT_ALLOC_DIRECTIVES and N_DIRECT_ALLOC_ARGUMENTS
  const DIRECTIVE_BYTES := 88    // sizeof (char_directive)
  const ARGUMENT_BYTES := 32     // sizeof (argument)

  // ----- numbers ------------------------------------------------------------

  /** Reading one more digit of a number that may have become too large. */
  lemma NextDigit(n: nat, c: char)
    requires IsDigit(c)
    ensures Xsum(Xtimes(Saturated(n), 10), c as int - '0' as int) == Saturated(10 * n + DigitValue(c))
  {
    XtimesIs(Saturated(n), 10);
    XsumIs(Xtimes(Saturated(n), 10), DigitValue(c));
  }

  lemma NoDigits()
    ensures Value("") == 0
  {
  }

  lemma ValueGrows(f: string, i: nat, j: nat)
    requires i <= j < |f|
    ensures Value(f[i..j + 1]) == 10 * Value(f[i..j]) + DigitValue(f[j])
  {
    assert f[i..j + 1][..j - i] == f[i..j];
  }

  // ----- sizes and conversions ----------------------------------------------

  /** The bits of the size flags: two for 'h', one for 'L', the rest count longs. */
  function SizeBits(s: string): nat {
    var h, b := Count(s, IsHalf), Count(s, IsBig);
    (if h >= 1 then 1 else 0) + (if h >= 2 then 2 else 0) + (if b >= 1 then 4 else 0) + 8 * Count(s, IsLong)
  }

  /** flags & bit, for a bit that is 1, 2 or 4. */
  predicate HasBit(flags: nat, bit: nat)
    requires bit > 0
  {
    flags / bit % 2 == 1
  }

  /** flags | bit */
  function SetBit(flags: nat, bit: nat): nat
    requires bit > 0
  {
    if HasBit(flags, bit) then flags else flags + bit
  }

  /** What a size specifier does to the size flags. */
  function AddSize(flags: nat, c: char): nat {
    if c == 'h' then SetBit(flags, if HasBit(flags, 1) then 2 else 1)
    else if c == 'L' then SetBit(flags, 4)
    else flags + 8
  }

  lemma Bits(x: nat, y: nat, z: nat, n: nat)
    requires x <= 1 && y <= 1 && z <= 1
    ensures var b := x + 2 * y + 4 * z + 8 * n;
            && (HasBit(b, 1) <==> x == 1) && (HasBit(b, 2) <==> y == 1) && (HasBit(b, 4) <==> z == 1)
  {
    var b := x + 2 * y + 4 * z + 8 * n;
    DivisionIs(b, 1, b, 0);
    DivisionIs(b, 2, y + 2 * z + 4 * n, x);
    DivisionIs(y + 2 * z + 4 * n, 2, z + 2 * n, y);
    DivisionIs(b, 4, z + 2 * n, x + 2 * y);
    DivisionIs(z + 2 * n, 2, n, z);
  }

  lemma CountNext(s: string, c: char, kind: char -> bool)
    ensures Count(s + [c], kind) == Count(s, kind) + if kind(c) then 1 else 0
  {
    assert (s + [c])[..|s|] == s;
  }

  lemma SizeNext(s: string, c: char)
    requires IsSize(c)
    ensures SizeBits(s + [c]) == AddSize(SizeBits(s), c)
  {
    CountNext(s, c, IsHalf);
    CountNext(s, c, IsBig);
    CountNext(s, c, IsLong);
    var h, b := Count(s, IsHalf), Count(s, IsBig);
    Bits(if h >= 1 then 1 else 0, if h >= 2 then 1 else 0, if b >= 1 then 1 else 0, Count(s, IsLong));
    hide Count, HasBit;
  }

  lemma SizeBitsMean(s: string)
    ensures var n := SizeBits(s);
            && (n >= 16 <==> Count(s, IsLong) >= 2) && (n >= 8 <==> Count(s, IsLong) >= 1)
            && (HasBit(n, 4) <==> Count(s, IsBig) >= 1)
            && (HasBit(n, 2) <==> Count(s, IsHalf) >= 2) && (HasBit(n, 1) <==> Count(s, IsHalf) >= 1)
  {
    var h, b := Count(s, IsHalf), Count(s, IsBig);
    Bits(if h >= 1 then 1 else 0, if h >= 2 then 1 else 0, if b >= 1 then 1 else 0, Count(s, IsLong));
  }

  lemma SizesGrow(f: string, i: nat, j: nat)
    requires i <= j < |f| && IsSize(f[j]) && All(f[i..j], IsSize)
    ensures All(f[i..j + 1], IsSize)
    ensures var n := SizeBits(f[i..j]);
            SizeBits(f[i..j + 1]) == AddSize(n, f[j])
  {
    SizeNext(f[i..j], f[j]);
    assert f[i..j + 1] == f[i..j] + [f[j]];
  }

  lemma NoFlags()
    ensures FlagBits("") == 0
  {
  }

  lemma FlagsGrow(f: string, i: nat, j: nat)
    requires i <= j < |f| && IsFlag(f[j]) && All(f[i..j], IsFlag)
    ensures All(f[i..j + 1], IsFlag) && FlagBits(f[i..j + 1]) == FlagBits(f[i..j]) | FlagBit(f[j])
  {
    hide FlagBit, IsFlag;
    assert f[i..j + 1][..j - i] == f[i..j];
  }

  lemma NoSizes()
    ensures SizeBits("") == 0
  {
  }

  /** The common part of the integer conversions. */
  method ChooseType<T>(flags: nat, ghost sizes: string, byte: T, short: T, plain: T, long: T, longLong: T)
    returns (kind: T)
    requires flags == SizeBits(sizes)
    ensures kind == Choose(sizes, byte, short, plain, long, longLong)
  {
    SizeBitsMean(sizes);
    hide SizeBits, Count, HasBit;
    if flags >= 16 || HasBit(flags, 4) {
      kind := longLong;
    } else if flags >= 8 {
      kind := long;
    } else if HasBit(flags, 2) {
      kind := byte;
    } else if HasBit(flags, 1) {
      kind := short;
    } else {
      kind := plain;
    }
  }

  /** The switch over the conversion character. */
  method Convert(flags: nat, ghost sizes: string, c: char) returns (ok: bool, kind: ArgType, conversion: char)
    requires flags == SizeBits(sizes)
    ensures ok <==> IsConversion(c)
    ensures ok ==> kind == TypeOf(sizes, c) && conversion == Conversion(c)
  {
    ok, kind, conversion := true, NoType, c;
    SizeBitsMean(sizes);
    hide SizeBits, Choose;
    if c == 'd' || c == 'i' {
      kind := ChooseType(flags, sizes, SChar, Short, Int, Long, LongLong);
    } else if c == 'o' || c == 'u' || c == 'x' || c == 'X' {
      kind := ChooseType(flags, sizes, UChar, UShort, UInt, ULong, ULongLong);
    } else if IsFloat(c) {
      kind := ChooseType(flags, sizes, Double, Double, Double, Double, LongDouble);
    } else if c == 'c' {
      kind := if flags >= 8 then WideChar else Char;
    } else if c == 'C' {
      kind, conversion := WideChar, 'c';
    } else if c == 's' {
      kind := if flags >= 8 then WideStr else Str;
    } else if c == 'S' {
      kind, conversion := WideStr, 's';
    } else if c == 'p' {
      kind := Pointer;
    } else if c == 'n' {
      kind := ChooseType(flags, sizes, CountSChar, CountShort, CountInt, CountLong, CountLongLong);
    } else if c != '%' {
      ok := false;
    }
  }

  datatype Status = Done | Invalid | NoMemory

  const ENOUGH := 0x100_0000_0000_0000   // so many records have a size

  /** Is the format so long, or does it name an argument so far away, that there may be no
      size for the records? */
  ghost predicate Demanding(f: string) {
    |f| >= ENOUGH || exists i :: 0 <= i <= |f| && NamesFar(ReadPosition(f, i))
  }

  ghost predicate NamesFar(p: Position) {
    p.Position? && Named(p) >= ENOUGH
  }

  lemma FarDemands(f: string, i: nat)
    requires i <= |f| && NamesFar(ReadPosition(f, i))
    ensures Demanding(f)
  {
  }

  // ----- the parser ---------------------------------------------------------

  class Parser {
    const format: string
    const scarce: bool   // may allocations fail?
    var cp: nat
    var argPosn: nat
    var aCount: nat
    var aAllocated: nat
    var arg: array<ArgType>
    var dCount: nat
    var dAllocated: nat
    var dir: array<Directive>
    var maxWidth: nat
    var maxPrecision: nat

    ghost var uses: seq<Use>       // the uses of arguments so far
    ghost var pieces: seq<Piece>   // the directives so far

    ghost predicate Roomy()
      reads this`aCount, this`aAllocated, this`arg
    {
      aCount <= aAllocated == arg.Length <= SIZE_MAX
    }

    /** The argument records are those of the uses so far. */
    ghost predicate ArgsOk()
      reads this`argPosn, this`aCount, this`aAllocated, this`arg, this`uses, arg
    {
      && Roomy() && Number(uses).Some?
      && argPosn == Number(uses).value.posn && arg[..aCount] == Number(uses).value.types
    }

    ghost function Index(): seq<nat>
      reads this`uses
    {
      if Number(uses).Some? then Number(uses).value.index else []
    }

    // ----- arguments --------------------------------------------------------

    /** Makes room for argument n. */
    method GrowArguments(n: nat) returns (r: Status)
      requires Roomy() && aAllocated <= n < SIZE_MAX
      modifies this`arg, this`aAllocated
      ensures r.Done? || r.NoMemory?
      ensures r.Done? ==> Roomy() && n < arg.Length && fresh(arg) && arg[..aCount] == old(arg[..aCount])
      ensures r.NoMemory? ==> arg == old(arg) && (scarce || n >= ENOUGH)
    {
      aAllocated := Xtimes(aAllocated, 2);
      XtimesIs(old(aAllocated), 2);
      if aAllocated <= n {
        aAllocated := Xsum(n, 1);
        XsumIs(n, 1);
      }
      var memorySize := Xtimes(aAllocated, ARGUMENT_BYTES);
      XtimesIs(aAllocated, ARGUMENT_BYTES);
      if memorySize == SIZE_MAX {
        return NoMemory;
      }
      var mallocOk := Succeeds(scarce);
      if !mallocOk {
        return NoMemory;
      }
      assert memorySize / ARGUMENT_BYTES == aAllocated;
      var memory := new ArgType[memorySize / ARGUMENT_BYTES];
      for i := 0 to aCount
        invariant arg == old(arg) && aAllocated == memory.Length && memory[..i] == arg[..i]
      {
        memory[i] := arg[i];
      }
      arg := memory;
      r := Done;
    }

    /** The arguments up to n exist, those added without a type. */
    method PadArguments(n: nat)
      requires Roomy() && n < arg.Length
      modifies this`aCount, arg
      ensures Roomy() && arg[..aCount] == Padded(old(arg[..aCount]), n)
    {
      ghost var types, was := arg[..aCount], aCount;
      while aCount <= n
        invariant Roomy() && was <= aCount <= Max(was, n + 1)
        invariant arg[..was] == types && forall k :: was <= k < aCount ==> arg[k] == NoType
        decreases n + 1 - aCount
      {
        arg[aCount] := NoType;
        aCount := aCount + 1;
      }
    }

    /** REGISTER_ARG. */
    method RegisterArg(n: nat, kind: ArgType) returns (r: Status)
      requires Roomy() && n < SIZE_MAX && kind != NoType
      modifies this`arg, this`aAllocated, this`aCount, arg
      ensures r.Done? ==> Roomy() && Register(old(arg[..aCount]), n, kind) == Some(arg[..aCount])
      ensures r.Invalid? ==> Register(old(arg[..aCount]), n, kind) == None
      ensures r.NoMemory? ==> scarce || n >= ENOUGH
      ensures arg == old(arg) || fresh(arg)
    {
      ghost var types := arg[..aCount];
      if n >= aAllocated {
        r := GrowArguments(n);
        if r.NoMemory? {
          return;
        }
      }
      PadArguments(n);
      if arg[n] == NoType {
        arg[n] := kind;
        assert arg[..aCount] == Padded(types, n)[n := kind];
      } else if arg[n] != kind {
        return Invalid;
      } else {
        assert Padded(types, n)[n := kind] == Padded(types, n);
      }
      r := Done;
    }

    /** The argument named, or the next one. */
    method NextIndex(named: nat) returns (ok: bool, index: nat)
      requires argPosn <= SIZE_MAX && named <= ARG_NONE
      modifies this`argPosn
      ensures index == if named == ARG_NONE then old(argPosn) else named
      ensures ok <==> index < SIZE_MAX
      ensures ok ==> argPosn == if named == ARG_NONE then old(argPosn) + 1 else old(argPosn)
      ensures argPosn <= old(argPosn) + 1
    {
      index := named;
      if index == ARG_NONE {
        index := argPosn;
        argPosn := (argPosn + 1) % (SIZE_MAX + 1);
      }
      ok := index != ARG_NONE;
    }

    /** Takes the argument named, or the next one. */
    method TakeArgument(named: nat, kind: ArgType, ghost p: Position) returns (r: Status, index: nat)
      requires ArgsOk() && kind != NoType && ValidPosition(p)
      requires named == if p.Position? then Named(p) else ARG_NONE
      requires argPosn <= |format| && (NamesFar(p) ==> Demanding(format))
      modifies this`arg, this`aAllocated, this`aCount, this`argPosn, this`uses, arg
      ensures r.Done? ==> ArgsOk() && uses == old(uses) + [Use(p, kind)] && Index() == old(Index()) + [index]
      ensures r.Invalid? ==> Number(old(uses) + [Use(p, kind)]).None?
      ensures argPosn <= old(argPosn) + 1
      ensures r.NoMemory? ==> scarce || Demanding(format)
      ensures arg == old(arg) || fresh(arg)
    {
      hide Number, Register, ValidPosition, Named, Consume;
      ghost var st, us := Number(uses).value, uses + [Use(p, kind)];
      NamedSmall(p);
      NumberNext(uses, Use(p, kind), if named == ARG_NONE then argPosn else named);
      var ok;
      ok, index := NextIndex(named);
      if !ok {
        return Invalid, index;
      }
      r := RegisterArg(index, kind);
      uses := us;
      assert r.Done? ==> Number(us) == Some(Numbered(argPosn, st.index + [index], arg[..aCount]));
    }

    // ----- reading ----------------------------------------------------------

    /** Moves over the digits at cp. */
    method SkipDigits()
      requires cp <= |format|
      modifies this`cp
      ensures cp == RunEnd(format, old(cp), IsDigit)
    {
      while IsDigit(At(format, cp))
        invariant old(cp) <= cp <= |format| && forall k :: old(cp) <= k < cp ==> IsDigit(format[k])
        decreases |format| - cp
      {
        cp := cp + 1;
      }
      RunEndIs(format, old(cp), IsDigit, cp);
    }

    /** The number at cp, as far as it fits. */
    method ReadNumber(ghost end: nat) returns (n: nat)
      requires cp <= |format| && end == RunEnd(format, cp, IsDigit)
      ensures n == Saturated(Value(format[cp..end]))
    {
      hide Value, Xsum, Xtimes, RunEnd;
      NoDigits();
      assert format[cp..cp] == "";
      n := 0;
      var np := cp;
      while IsDigit(At(format, np))
        invariant cp <= np <= end && n == Saturated(Value(format[cp..np]))
        decreases |format| - np
      {
        NextDigit(Value(format[cp..np]), format[np]);
        ValueGrows(format, cp, np);
        n := Xsum(Xtimes(n, 10), format[np] as int - '0' as int);
        np := np + 1;
      }
    }

    /** The test for a positional argument. */
    method ScanPosition() returns (ok: bool, n: nat)
      requires cp <= |format|
      modifies this`cp
      ensures ok <==> ValidPosition(ReadPosition(format, old(cp)))
      ensures ok ==> var p := ReadPosition(format, old(cp));
                n == (if p.Position? then Named(p) else ARG_NONE) && cp == old(cp) + |PrintPosition(p)| <= |format|
    {
      ok, n := true, ARG_NONE;
      if IsDigit(At(format, cp)) {
        var start := cp;
        SkipDigits();
        ghost var end := cp;
        if At(format, cp) == '$' {
          cp := start;
          n := ReadNumber(end);
          if n == 0 || n == SIZE_MAX {
            return false, n;
          }
          n := n - 1;
          SkipDigits();
          cp := cp + 1;
        } else {
          cp := start;
        }
      }
    }

    /** The flags at cp. */
    method ReadFlags() returns (flags: bv8)
      requires cp <= |format|
      modifies this`cp
      ensures cp == RunEnd(format, old(cp), IsFlag) && flags == FlagBits(format[old(cp)..cp])
    {
      hide FlagBits, FlagBit, RunEnd;
      flags := 0;
      ghost var start := cp;
      NoFlags();
      assert format[start..cp] == "";
      while true
        invariant start <= cp <= |format| && All(format[start..cp], IsFlag) && flags == FlagBits(format[start..cp])
        decreases |format| - cp
      {
        var c := At(format, cp);
        if !IsFlag(c) {
          break;
        }
        FlagsGrow(format, start, cp);
        flags := flags | FlagBit(c);
        cp := cp + 1;
      }
      RunStands(format, start, IsFlag, format[start..cp]);
    }

    /** The argument of a '*'. */
    method StarArgument() returns (r: Status, index: nat)
      requires ArgsOk() && argPosn < cp <= |format|
      modifies this`cp, this`arg, this`aAllocated, this`aCount, this`argPosn, this`uses, arg
      ensures var p := ReadPosition(format, old(cp));
              && (r.Done? ==>
                    && ValidPosition(p) && cp == old(cp) + |PrintPosition(p)| <= |format|
                    && ArgsOk() && uses == old(uses) + [Use(p, Int)] && Index() == old(Index()) + [index])
              && (r.Invalid? ==> !ValidPosition(p) || Number(old(uses) + [Use(p, Int)]).None?)
      ensures (r.Done? ==> argPosn <= cp) && (r.NoMemory? ==> scarce || Demanding(format))
      ensures arg == old(arg) || fresh(arg)
    {
      hide ReadPosition, PrintPosition, Number;
      ghost var p := ReadPosition(format, cp);
      var ok, named := ScanPosition();
      if !ok {
        return Invalid, ARG_NONE;
      }
      if NamesFar(p) {
        FarDemands(format, old(cp));
      }
      r, index := TakeArgument(named, Int, p);
    }

    method ParseWidth() returns (r: Status, start: Option<nat>, end: Option<nat>, index: nat)
      requires ArgsOk() && argPosn <= cp <= |format|
      modifies this`cp, this`maxWidth, this`arg, this`aAllocated, this`aCount, this`argPosn, this`uses, arg
      ensures var w := ReadWidth(format, old(cp));
              && (r.Done? ==>
                    && ValidField(w) && cp == old(cp) + |PrintField(w)| <= |format| && maxWidth == Max(old(maxWidth), FieldLength(w))
                    && start == (if w.NoField? then None else Some(old(cp)))
                    && end == (if w.NoField? then None else Some(old(cp) + FieldLength(w)))
                    && ArgsOk() && uses == old(uses) + StarUse(w)
                    && Index() == old(Index()) + StarIndex(w, index) && (!w.Star? ==> index == ARG_NONE))
              && (r.Invalid? ==> !ValidField(w) || Number(old(uses) + StarUse(w)).None?)
      ensures (r.Done? ==> argPosn <= cp) && (r.NoMemory? ==> scarce || Demanding(format))
      ensures arg == old(arg) || fresh(arg)
    {
      hide ReadPosition, PrintPosition, Number, ReadWidth, ReadField, ArgsOk, Index, RunEnd, Value;
      ReadWidthCases(format, cp);
      r, start, end, index := Done, None, None, ARG_NONE;
      if At(format, cp) == '*' {
        start := Some(cp);
        cp := cp + 1;
        end := Some(cp);
        if maxWidth < 1 {
          maxWidth := 1;
        }
        r, index := StarArgument();
      } else if IsDigit(At(format, cp)) {
        start := Some(cp);
        SkipDigits();
        end := Some(cp);
        var widthLength := end.value - start.value;
        if maxWidth < widthLength {
          maxWidth := widthLength;
        }
      }
    }

    method ParsePrecision() returns (r: Status, start: Option<nat>, end: Option<nat>, index: nat)
      requires ArgsOk() && argPosn <= cp <= |format|
      modifies this`cp, this`maxPrecision, this`arg, this`aAllocated, this`aCount, this`argPosn, this`uses, arg
      ensures var w := ReadPrecision(format, old(cp));
              && (r.Done? ==>
                    && ValidField(w) && cp == old(cp) + |PrintPrecision(w)| <= |format| && maxPrecision == Max(old(maxPrecision), PrecisionLength(w))
                    && start == (if w.NoField? then None else Some(old(cp)))
                    && end == (if w.NoField? then None else Some(old(cp) + PrecisionLength(w)))
                    && ArgsOk() && uses == old(uses) + StarUse(w)
                    && Index() == old(Index()) + StarIndex(w, index) && (!w.Star? ==> index == ARG_NONE))
              && (r.Invalid? ==> !ValidField(w) || Number(old(uses) + StarUse(w)).None?)
      ensures (r.Done? ==> argPosn <= cp) && (r.NoMemory? ==> scarce || Demanding(format))
      ensures arg == old(arg) || fresh(arg)
    {
      hide ReadPosition, PrintPosition, Number, ReadPrecision, ReadField, ArgsOk, Index, RunEnd, Value, IsDigit, All, Demanding,
           NamesFar, At, ValidPosition, Named;
      ReadPrecisionCases(format, cp);
      r, start, end, index := Done, None, None, ARG_NONE;
      if At(format, cp) == '.' {
        cp := cp + 1;
        start := Some(cp - 1);
        if At(format, cp) == '*' {
          cp := cp + 1;
          end := Some(cp);
          if maxPrecision < 2 {
            maxPrecision := 2;
          }
          r, index := StarArgument();
        } else {
          end := PrecisionDigits();
        }
      }
    }

    method PrecisionDigits() returns (end: Option<nat>)
      requires 0 < cp <= |format|
      modifies this`cp, this`maxPrecision
      ensures cp == RunEnd(format, old(cp), IsDigit) && end == Some(cp)
      ensures maxPrecision == Max(old(maxPrecision), cp + 1 - old(cp))
    {
      var start := cp - 1;
      SkipDigits();
      end := Some(cp);
      var precisionLength := cp - start;
      if maxPrecision < precisionLength {
        maxPrecision := precisionLength;
      }
    }

    /** The size specifiers at cp. */
    method ReadSizes() returns (flags: nat)
      requires cp <= |format|
      modifies this`cp
      ensures cp == RunEnd(format, old(cp), IsSize) && flags == SizeBits(format[old(cp)..cp])
    {
      hide SizeBits, AddSize, RunEnd;
      flags := 0;
      ghost var start := cp;
      NoSizes();
      while true
        invariant start <= cp <= |format| && All(format[start..cp], IsSize) && flags == SizeBits(format[start..cp])
        decreases |format| - cp
      {
        var c := At(format, cp);
        if !IsSize(c) {
          break;
        }
        SizesGrow(format, start, cp);
        flags := AddSize(flags, c);
        cp := cp + 1;
      }
      RunStands(format, start, IsSize, format[start..cp]);
    }

    /** A directive from behind its '%' at i up to its precision; named is the argument
        that its position names, or ARG_NONE. */
    method ReadFront(ghost i: nat) returns (r: Status, dp: Directive, named: nat)
      requires ArgsOk() && argPosn <= i < |format| && format[i] == '%' && cp == i + 1
      modifies this`cp, this`maxWidth, this`maxPrecision, this`arg, this`aAllocated, this`aCount, this`argPosn, this`uses, arg
      ensures var s := Read(format, i);
              && (r.Done? ==> Front(s) && cp == SizesAt(format, i) && ArgsOk())
              && (r.Done? ==> named == if s.index.Position? then Named(s.index) else ARG_NONE)
              && (r.Done? ==> uses == old(uses) + StarUse(s.width) + StarUse(s.precision))
              && (r.Done? ==> Index() == old(Index()) + StarIndex(s.width, dp.widthArgIndex) + StarIndex(s.precision, dp.precisionArgIndex))
              && (r.Done? ==> FrontRecord(format, i, dp))
              && (r.Done? ==> maxWidth == Max(old(maxWidth), FieldLength(s.width)))
              && (r.Done? ==> maxPrecision == Max(old(maxPrecision), PrecisionLength(s.precision)))
              && (r.Invalid? ==> !Front(s) || Number(old(uses) + StarUse(s.width)).None?
                                 || Number(old(uses) + StarUse(s.width) + StarUse(s.precision)).None?)
      ensures (r.Done? ==> argPosn <= cp) && (r.NoMemory? ==> scarce || Demanding(format))
      ensures arg == old(arg) || fresh(arg)
    {
      hide ReadPosition, PrintPosition, PrintField, PrintPrecision, ReadWidth, ReadPrecision, ArgsOk, Index, RunEnd, Number,
           FlagBits, FieldLength, PrecisionLength, FlagsAt, WidthAt, PrecisionAt, SizesAt, Read, StarIndex, StarUse,
           ValidPosition, ValidField, Named, Max;
      ReadSteps(format, i);
      dp := Directive(cp - 1, cp, 0, None, None, ARG_NONE, None, None, ARG_NONE, '\0', ARG_NONE);
      var ok;
      ok, named := ScanPosition();
      if !ok {
        return Invalid, dp, named;
      }
      var flags := ReadFlags();
      dp := dp.(flags := flags);
      var start, end, index;
      r, start, end, index := ParseWidth();
      if !r.Done? {
        return;
      }
      dp := dp.(widthStart := start, widthEnd := end, widthArgIndex := index);
      r, start, end, index := ParsePrecision();
      dp := dp.(precisionStart := start, precisionEnd := end, precisionArgIndex := index);
    }

    /** The rest of the directive: sizes, conversion, and the argument of its value. */
    method ReadRest(ghost i: nat, dp0: Directive, named: nat) returns (r: Status, dp: Directive)
      requires ArgsOk() && i < |format| && format[i] == '%' && argPosn <= cp == SizesAt(format, i)
      requires var s := Read(format, i);
               Front(s) && named == if s.index.Position? then Named(s.index) else ARG_NONE
      modifies this`cp, this`arg, this`aAllocated, this`aCount, this`argPosn, this`uses, arg
      ensures var s := Read(format, i);
              && (r.Done? ==> Valid(s) && cp == End(Piece(i, s)) && ArgsOk() && uses == old(uses) + ValueUse(s))
              && (r.Done? ==> Index() == old(Index()) + ValueIndex(s, dp.argIndex))
              && (r.Done? ==> ValueUse(s) == [] ==> dp.argIndex == ARG_NONE)
              && (r.Done? ==> dp == dp0.(conversion := Conversion(s.conv), dirEnd := cp, argIndex := dp.argIndex))
              && (r.Invalid? ==> !Valid(s) || Number(old(uses) + ValueUse(s)).None?)
      ensures (r.Done? ==> argPosn <= cp) && (r.NoMemory? ==> scarce || Demanding(format))
      ensures arg == old(arg) || fresh(arg)
    {
      hide ReadPosition, ReadWidth, ReadPrecision, ArgsOk, Index, RunEnd, Number, IsConversion, TypeOf, Conversion, SizeBits,
           Valid, SizesAt, ConvAt, Read, ValidPosition, ValidField, Named, Print, FlagsAt, WidthAt, PrecisionAt, PrintPosition,
           PrintField, PrintPrecision, Demanding, At, IsFlag, IsSize;
      ReadSteps(format, i);
      ghost var s := Read(format, i);
      dp := dp0;
      r := Done;
      var flags := ReadSizes();
      var c := At(format, cp);
      cp := cp + 1;
      var ok, kind, conversion := Convert(flags, s.sizes, c);
      if !ok {
        return Invalid, dp;
      }
      if kind != NoType {
        var index;
        if NamesFar(s.index) {
          FarDemands(format, i + 1);
        }
        r, index := TakeArgument(named, kind, s.index);
        dp := dp.(argIndex := index);
      } else {
        dp := dp.(argIndex := ARG_NONE);
      }
      dp := dp.(conversion := conversion, dirEnd := cp);
    }

    /** A directive from behind its '%' at i up to its conversion character. */
    method ReadDirective(ghost i: nat) returns (r: Status, dp: Directive, ghost index: seq<nat>)
      requires ArgsOk() && argPosn <= i < |format| && format[i] == '%' && cp == i + 1
      modifies this`cp, this`maxWidth, this`maxPrecision, this`arg, this`aAllocated, this`aCount, this`argPosn, this`uses, arg
      ensures var s := Read(format, i);
              && (r.Done? ==> Valid(s) && cp == End(Piece(i, s)) && ArgsOk() && uses == old(uses) + Uses(s))
              && (r.Done? ==> Index() == old(Index()) + index && |index| == |Uses(s)|)
              && (r.Done? ==> |index| == |Uses(s)| && dp == RecordOf(Piece(i, s), index))
              && (r.Done? ==> maxWidth == Max(old(maxWidth), FieldLength(s.width)))
              && (r.Done? ==> maxPrecision == Max(old(maxPrecision), PrecisionLength(s.precision)))
              && (r.Invalid? ==> !Valid(s) || Number(old(uses) + Uses(s)).None?)
      ensures (r.Done? ==> argPosn <= cp) && (r.NoMemory? ==> scarce || Demanding(format))
      ensures arg == old(arg) || fresh(arg)
    {
      hide ArgsOk, Index, RunEnd, Number, Valid, Read, Print, StarUse, ValueUse, Uses, StarIndex, ValueIndex, RecordOf,
           FrontRecord, FieldLength, PrecisionLength, Max, Front, Conversion, End, SizesAt;
      ghost var s, us, first := Read(format, i), uses, Index();
      FrontValid(s);
      StarsFirst(us, s);
      var named;
      r, dp, named := ReadFront(i);
      index := [];
      if !r.Done? {
        return;
      }
      ghost var dp0 := dp;
      r, dp := ReadRest(i, dp, named);
      index := StarIndex(s.width, dp.widthArgIndex) + StarIndex(s.precision, dp.precisionArgIndex) + ValueIndex(s, dp.argIndex);
      if r.Done? {
        Assoc(first, StarIndex(s.width, dp.widthArgIndex), StarIndex(s.precision, dp.precisionArgIndex), ValueIndex(s, dp.argIndex));
        RecordDone(format, i, dp0, dp);
      }
    }

    // ----- the whole format string ------------------------------------------

    /** The directive records are those of the directives so far, and there is room for
        one more. */
    ghost predicate DirsOk()
      reads this`uses, this`pieces, this`dCount, this`dAllocated, this`dir, dir
    {
      && uses == AllUses(pieces) && |Index()| == |uses|
      && dCount == |pieces| < dAllocated == dir.Length <= SIZE_MAX
      && dir[..dCount] == Records(pieces, Index())
    }

    ghost predicate Ready()
      reads this, arg, dir
    {
      && '\0' !in format && cp <= |format| && ArgsOk() && DirsOk() && argPosn <= cp && dCount <= cp
      && Parse(format, 0) == After(pieces, Parse(format, cp))
      && maxWidth == MaxWidth(pieces) && maxPrecision == MaxPrecision(pieces)
    }

    /** Makes room for one more directive if there is none. */
    method GrowDirectives() returns (r: Status)
      requires dCount <= dAllocated == dir.Length <= SIZE_MAX && dAllocated > 0
      modifies this`dir, this`dAllocated
      ensures r.Done? ==> dCount < dAllocated == dir.Length <= SIZE_MAX && dir[..dCount] == old(dir[..dCount])
      ensures r.Done? || (r.NoMemory? && (scarce || dCount >= ENOUGH))
      ensures dir == old(dir) || fresh(dir)
    {
      if dCount >= dAllocated {
        dAllocated := Xtimes(dAllocated, 2);
        XtimesIs(old(dAllocated), 2);
        var memorySize := Xtimes(dAllocated, DIRECTIVE_BYTES);
        XtimesIs(dAllocated, DIRECTIVE_BYTES);
        if memorySize == SIZE_MAX {
          return NoMemory;
        }
        var mallocOk := Succeeds(scarce);
        if !mallocOk {
          return NoMemory;
        }
        assert memorySize / DIRECTIVE_BYTES == dAllocated;
        var memory := new Directive[memorySize / DIRECTIVE_BYTES];
        for i := 0 to dCount
          invariant dir == old(dir) && dAllocated == memory.Length && memory[..i] == dir[..i]
        {
          memory[i] := dir[i];
        }
        dir := memory;
      }
      r := Done;
    }

    /** Stores the record of p, whose arguments have been taken. */
    method StoreDirective(dp: Directive, ghost p: Piece, ghost first: seq<nat>, ghost index: seq<nat>) returns (r: Status)
      requires dCount == |pieces| < dAllocated == dir.Length <= SIZE_MAX
      requires |first| == |AllUses(pieces)| && dir[..dCount] == Records(pieces, first)
      requires uses == AllUses(pieces) + Uses(p.syntax) && Index() == first + index
      requires |index| == |Uses(p.syntax)| && dp == RecordOf(p, index)
      modifies this`dir, this`dAllocated, this`dCount, this`pieces, dir
      ensures r.Done? ==> DirsOk() && pieces == old(pieces) + [p]
      ensures r.Done? || (r.NoMemory? && (scarce || old(dCount) + 1 >= ENOUGH))
      ensures dir == old(dir) || fresh(dir)
    {
      hide Uses, RecordOf, Index, AllUses, Records;
      RecordsNext(pieces, p, first, index);
      ghost var was := dir[..dCount];
      dir[dCount] := dp;
      dCount := dCount + 1;
      assert dir[..dCount] == was + [dp];
      pieces := pieces + [p];
      r := GrowDirectives();
    }

    /** Reads the directive at cp into the next record. */
    method ParseDirective() returns (r: Status)
      requires Ready() && cp < |format| && format[cp] == '%'
      modifies this, arg, dir
      ensures r.Done? ==> Ready() && old(cp) < cp
      ensures r.Invalid? ==> Meaning(format) == None
      ensures r.NoMemory? ==> scarce || Demanding(format)
      ensures (arg == old(arg) || fresh(arg)) && (dir == old(dir) || fresh(dir))
    {
      hide Number, Parse, Read, Uses, Valid, RecordOf, FieldLength, PrecisionLength, ArgsOk, Index, End, AllUses, Records, Max,
           Meaning, After, MaxWidth, MaxPrecision;
      ghost var i, ps, first := cp, pieces, Index();
      ghost var p := Piece(i, Read(format, i));
      DirectiveNext(format, ps, i);
      MaxNext(ps, p);
      cp := cp + 1;
      var dp;
      ghost var index;
      r, dp, index := ReadDirective(i);
      if r.Done? {
        r := StoreDirective(dp, p, first, index);
      }
    }

    constructor (format: string, scarce: bool)
      requires '\0' !in format
      ensures this.format == format && this.scarce == scarce && Ready() && cp == 0 && fresh(arg) && fresh(dir)
    {
      this.format, this.scarce := format, scarce;
      cp, argPosn, maxWidth, maxPrecision := 0, 0, 0, 0;
      dCount, dAllocated := 0, DIRECT_ALLOC;
      dir := new Directive[DIRECT_ALLOC];
      aCount, aAllocated := 0, DIRECT_ALLOC;
      arg := new ArgType[DIRECT_ALLOC];
      uses, pieces := [], [];
      new;
      assert Number([]) == Some(Numbered(0, [], []));
      assert Parse(format, 0).Some? ==> [] + Parse(format, 0).value == Parse(format, 0).value;
    }

    /** printf_parse.  Unless memory runs out, or a size is too large for a number, it fills in the meaning of the format
        string, or reports that it has none; the next record is the end marker. */
    method Run() returns (r: Status)
      requires Ready() && cp == 0
      modifies this, arg, dir
      ensures r.Done? ==> dCount < dir.Length && aCount <= arg.Length
                          && Meaning(format) == Some(Parsed(dir[..dCount], arg[..aCount], maxWidth, maxPrecision))
                          && dir[dCount].dirStart == |format|
      ensures r.Invalid? ==> Meaning(format) == None
      ensures r.NoMemory? ==> scarce || Demanding(format)
    {
      hide Number, Parse, AllUses, Records;
      while At(format, cp) != '\0'
        invariant Ready()
        invariant (arg == old(arg) || fresh(arg)) && (dir == old(dir) || fresh(dir))
        decreases |format| - cp
      {
        if format[cp] == '%' {
          r := ParseDirective();
          if !r.Done? {
            return;
          }
        } else {
          NoDirective(format, cp);
          cp := cp + 1;
        }
      }
      ParseEnd(format, pieces);
      dir[dCount] := dir[dCount].(dirStart := cp);
      r := Done;
    }
  }

  /** The index of a field's argument, if it has one. */
  function StarIndex(w: Field, index: nat): seq<nat> {
    if w.Star? then [index] else []
  }

  /** The parts of a directive in the order in which they are read. */
  lemma ReadSteps(f: string, i: nat)
    requires i < |f| && f[i] == '%'
    ensures var s := Read(f, i);
            && s.index == ReadPosition(f, i + 1) && FlagsAt(f, i) == i + 1 + |PrintPosition(s.index)|
            && WidthAt(f, i) == RunEnd(f, FlagsAt(f, i), IsFlag) && s.flags == f[FlagsAt(f, i)..WidthAt(f, i)]
            && ConvAt(f, i) == RunEnd(f, SizesAt(f, i), IsSize) && s.sizes == f[SizesAt(f, i)..ConvAt(f, i)]
            && s.width == ReadWidth(f, WidthAt(f, i)) && PrecisionAt(f, i) == WidthAt(f, i) + |PrintField(s.width)|
            && s.precision == ReadPrecision(f, PrecisionAt(f, i))
            && SizesAt(f, i) == PrecisionAt(f, i) + |PrintPrecision(s.precision)| && s.conv == At(f, ConvAt(f, i))
            && (Valid(s) <==> Front(s) && IsConversion(s.conv))
            && (Valid(s) ==> End(Piece(i, s)) == ConvAt(f, i) + 1)
  {
    var s := Read(f, i);
    ReadOffsets(f, i);
    PrintStands(f, i, s);
    hide ReadPosition, ReadPrecision, PrintPosition, PrintField, PrintPrecision, Print;
    if IsConversion(s.conv) {
      ReadSound(f, i);
    }
    ReadWidthCases(f, WidthAt(f, i));
  }

  /** If the first uses cannot be numbered, neither can all of the directive's. */
  lemma StarsFirst(us: seq<Use>, s: Syntax)
    ensures Number(us + StarUse(s.width)).None? ==> Number(us + Uses(s)).None?
    ensures Number(us + StarUse(s.width) + StarUse(s.precision)).None? ==> Number(us + Uses(s)).None?
    ensures us + Uses(s) == us + StarUse(s.width) + StarUse(s.precision) + ValueUse(s)
  {
    hide Number, TypeOf;
    var all := us + Uses(s);
    var one := us + StarUse(s.width);
    var two := one + StarUse(s.precision);
    assert all == two + ValueUse(s);
    assert all[..|one|] == one && all[..|two|] == two;
    NumberPrefix(all, |one|);
    NumberPrefix(all, |two|);
  }

  lemma NoDirective(f: string, i: nat)
    requires i < |f| && f[i] != '%'
    ensures Parse(f, i) == Parse(f, i + 1)
  {
  }

  /** At the end nothing is left to parse. */
  lemma ParseEnd(f: string, ps: seq<Piece>)
    requires Parse(f, 0) == After(ps, Parse(f, |f|))
    ensures Parse(f, 0) == Some(ps)
  {
    assert ps + [] == ps;
  }

  lemma NoMeaning(f: string)
    requires Parse(f, 0).Some? ==> Number(AllUses(Parse(f, 0).value)).None?
    ensures Meaning(f) == None
  {
    hide Parse, Number, Records;
  }

  /** A directive that cannot be read or whose arguments cannot be numbered makes the
      format string invalid; otherwise it is the next one. */
  lemma DirectiveNext(f: string, ps: seq<Piece>, i: nat)
    requires i < |f| && f[i] == '%' && Parse(f, 0) == After(ps, Parse(f, i))
    ensures var p := Piece(i, Read(f, i));
            && (!Valid(p.syntax) || Number(AllUses(ps) + Uses(p.syntax)).None? ==> Meaning(f) == None)
            && (Valid(p.syntax) ==> i < End(p) <= |f| && Parse(f, 0) == After(ps + [p], Parse(f, End(p))))
  {
    hide *;
    var p := Piece(i, Read(f, i));
    ParseStep(f, i);
    if Valid(p.syntax) {
      PiecesNext(f, ps, i, p);
      if Number(AllUses(ps) + Uses(p.syntax)).None? {
        UsesNever(f, ps, p);
      }
    } else {
      PiecesEnd(f, ps, i);
    }
  }

  lemma PiecesNext(f: string, ps: seq<Piece>, i: nat, p: Piece)
    requires i <= |f| && End(p) <= |f| && Parse(f, 0) == After(ps, Parse(f, i)) && Parse(f, i) == After([p], Parse(f, End(p)))
    ensures Parse(f, 0) == After(ps + [p], Parse(f, End(p)))
  {
    hide Parse, End;
    var rest := Parse(f, End(p));
    if rest.Some? {
      assert ps + ([p] + rest.value) == ps + [p] + rest.value;
    }
  }

  /** An argument that cannot be taken makes the whole format meaningless. */
  lemma UsesNever(f: string, ps: seq<Piece>, p: Piece)
    requires End(p) <= |f| && Parse(f, 0) == After(ps + [p], Parse(f, End(p)))
    requires Number(AllUses(ps) + Uses(p.syntax)).None?
    ensures Meaning(f) == None
  {
    hide Parse, End, Number, Uses, AllUses, Meaning;
    var rest := Parse(f, End(p));
    if rest.Some? {
      UsesFirst(ps, p, rest.value);
    }
    NoMeaning(f);
  }

  lemma PiecesEnd(f: string, ps: seq<Piece>, i: nat)
    requires i <= |f| && Parse(f, 0) == After(ps, Parse(f, i)) && Parse(f, i) == None
    ensures Meaning(f) == None
  {
    hide Parse, Number, AllUses, Meaning;
    NoMeaning(f);
  }

  lemma ParseStep(f: string, i: nat)
    requires i < |f| && f[i] == '%'
    ensures var p := Piece(i, Read(f, i));
            && (Valid(p.syntax) ==> i < End(p) <= |f| && Parse(f, i) == After([p], Parse(f, End(p))))
            && (!Valid(p.syntax) ==> Parse(f, i) == None)
  {
    hide Valid, Read, Print;
    var p := Piece(i, Read(f, i));
    if Valid(p.syntax) {
      ReadConv(p.syntax);
      ReadSound(f, i);
      PieceStands(f, p);
    }
  }

  /** Uses that cannot be numbered stay so whatever follows. */
  lemma UsesFirst(ps: seq<Piece>, p: Piece, rest: seq<Piece>)
    ensures Number(AllUses(ps) + Uses(p.syntax)).None? ==> Number(AllUses(ps + [p] + rest)).None?
  {
    hide Number, Uses;
    assert (ps + [p])[..|ps|] == ps;
    UsesBefore(ps + [p], rest);
    var all, first := AllUses(ps + [p] + rest), AllUses(ps + [p]);
    assert all[..|first|] == first;
    NumberPrefix(all, |first|);
  }

  lemma {:induction false} UsesBefore(ps: seq<Piece>, qs: seq<Piece>)
    ensures AllUses(ps) <= AllUses(ps + qs)
  {
    if qs == [] {
      assert ps + qs == ps;
    } else {
      UsesBefore(ps, qs[..|qs| - 1]);
      assert (ps + qs)[..|ps + qs| - 1] == ps + qs[..|qs| - 1];
    }
  }

  lemma MaxNext(ps: seq<Piece>, p: Piece)
    ensures MaxWidth(ps + [p]) == Max(MaxWidth(ps), FieldLength(p.syntax.width))
    ensures MaxPrecision(ps + [p]) == Max(MaxPrecision(ps), PrecisionLength(p.syntax.precision))
  {
    assert (ps + [p])[..|ps|] == ps;
  }

  lemma RecordsNext(ps: seq<Piece>, p: Piece, first: seq<nat>, index: seq<nat>)
    requires |first| == |AllUses(ps)| && |index| == |Uses(p.syntax)|
    ensures AllUses(ps + [p]) == AllUses(ps) + Uses(p.syntax)
    ensures Records(ps + [p], first + index) == Records(ps, first) + [RecordOf(p, index)]
  {
    hide RecordOf, Uses;
    assert (ps + [p])[..|ps|] == ps;
    assert (first + index)[..|first|] == first && (first + index)[|first|..] == index;
  }

  lemma Assoc<T>(a: seq<T>, b: seq<T>, c: seq<T>, d: seq<T>)
    ensures a + b + c + d == a + (b + c + d)
  {
  }

  predicate Front(s: Syntax) {
    ValidPosition(s.index) && ValidField(s.width) && ValidField(s.precision)
  }

  lemma FrontValid(s: Syntax)
    ensures Valid(s) ==> Front(s)
  {
  }

  /** The record of the directive at i up to its precision. */
  predicate FrontRecord(f: string, i: nat, d: Directive)
    requires i < |f|
  {
    var s := Read(f, i);
    && d.dirStart == i && d.flags == FlagBits(s.flags)
    && d.widthStart == (if s.width.NoField? then None else Some(WidthAt(f, i)))
    && d.widthEnd == (if s.width.NoField? then None else Some(WidthAt(f, i) + FieldLength(s.width)))
    && d.precisionStart == (if s.precision.NoField? then None else Some(PrecisionAt(f, i)))
    && d.precisionEnd == (if s.precision.NoField? then None else Some(PrecisionAt(f, i) + PrecisionLength(s.precision)))
    && (!s.width.Star? ==> d.widthArgIndex == ARG_NONE) && (!s.precision.Star? ==> d.precisionArgIndex == ARG_NONE)
  }

  lemma RecordDone(f: string, i: nat, d0: Directive, d: Directive)
    requires i < |f| && FrontRecord(f, i, d0)
    requires d == d0.(conversion := Conversion(Read(f, i).conv), dirEnd := End(Piece(i, Read(f, i))), argIndex := d.argIndex)
    requires (ValueUse(Read(f, i)) == [] ==> d.argIndex == ARG_NONE)
    ensures var s := Read(f, i);
            var index := StarIndex(s.width, d.widthArgIndex) + StarIndex(s.precision, d.precisionArgIndex) + ValueIndex(s, d.argIndex);
            |index| == |Uses(s)| && d == RecordOf(Piece(i, s), index)
  {
    hide Read, FlagBits, Conversion, End, FieldLength, PrecisionLength, OffsetsOf, RecordOf, Uses, ValueUse, StarIndex, ValueIndex,
         WidthAt, PrecisionAt, FlagsAt, SizesAt, ConvAt;
    ReadOffsets(f, i);
    IsRecord(Piece(i, Read(f, i)), d.widthArgIndex, d.precisionArgIndex, d.argIndex);
  }

  /** The index of a directive's value, if it has one. */
  function ValueIndex(s: Syntax, index: nat): seq<nat> {
    if ValueUse(s) == [] then [] else [index]
  }

  /** The record with the given argument indices. */
  lemma IsRecord(p: Piece, wi: nat, pi: nat, vi: nat)
    requires !p.syntax.width.Star? ==> wi == ARG_NONE
    requires !p.syntax.precision.Star? ==> pi == ARG_NONE
    requires ValueUse(p.syntax) == [] ==> vi == ARG_NONE
    ensures var s, o := p.syntax, OffsetsOf(p.syntax, p.at);
            var index := StarIndex(s.width, wi) + StarIndex(s.precision, pi) + ValueIndex(s, vi);
            && |index| == |Uses(s)|
            && RecordOf(p, index) == Directive(
                 p.at, End(p), FlagBits(s.flags),
                 if s.width.NoField? then None else Some(o.width),
                 if s.width.NoField? then None else Some(o.width + FieldLength(s.width)), wi,
                 if s.precision.NoField? then None else Some(o.precision),
                 if s.precision.NoField? then None else Some(o.precision + PrecisionLength(s.precision)), pi,
                 Conversion(s.conv), vi)
  {
    hide TypeOf, FlagBits, Conversion, End, FieldLength, PrecisionLength, OffsetsOf;
    var s := p.syntax;
    var w, q := StarIndex(s.width, wi), StarIndex(s.precision, pi);
    var index := w + q + ValueIndex(s, vi);
    assert |w| == |StarUse(s.width)| && |q| == |StarUse(s.precision)| && |ValueUse(s)| == |ValueIndex(s, vi)|;
    assert w != [] ==> index[0] == wi;
    assert q != [] ==> index[|w|] == pi;
    assert ValueUse(s) != [] ==> index[|w| + |q|] == vi;
  }

  lemma ReadWidthCases(f: string, i: nat)
    requires i <= |f|
    ensures ReadWidth(f, i) == if At(f, i) == '*' then Star(ReadPosition(f, i + 1))
                               else if IsDigit(At(f, i)) then Digits(f[i..RunEnd(f, i, IsDigit)]) else NoField
    ensures IsDigit(At(f, i)) ==> All(f[i..RunEnd(f, i, IsDigit)], IsDigit)
  {
  }

  lemma ReadPrecisionCases(f: string, i: nat)
    requires i <= |f|
    ensures ReadPrecision(f, i) == if At(f, i) != '.' then NoField
                                   else if At(f, i + 1) == '*' then Star(ReadPosition(f, i + 2))
                                   else Digits(f[i + 1..RunEnd(f, i + 1, IsDigit)])
    ensures At(f, i) == '.' ==> All(f[i + 1..RunEnd(f, i + 1, IsDigit)], IsDigit)
  {
  }

  /** One more use, of argument n. */
  lemma NumberNext(us: seq<Use>, u: Use, n: nat)
    requires Number(us).Some? && ValidPosition(u.pos)
    requires n == if u.pos.Position? then Named(u.pos) else Number(us).value.posn
    ensures var st := Number(us).value;
            var types := Register(st.types, n, u.kind);
            && st.posn <= SIZE_MAX && (u.pos.Position? ==> n < SIZE_MAX)
            && Number(us + [u]) ==
               if (u.pos.NoPosition? && n >= SIZE_MAX) || types.None? then None
               else Some(Numbered(if u.pos.NoPosition? then n + 1 else st.posn, st.index + [n], types.value))
  {
    hide Register;
    assert (us + [u])[..|us|] == us;
    PosnBound(us);
    NamedSmall(u.pos);
  }

  lemma {:induction false} PosnBound(us: seq<Use>)
    requires Number(us).Some?
    ensures Number(us).value.posn <= SIZE_MAX
  {
    hide Register;
    if us != [] {
      PosnBound(us[..|us| - 1]);
    }
  }
}
