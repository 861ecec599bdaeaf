/** Format strings in the sense of section 7.21.6.1 of ISO C11, with the positional
    arguments of POSIX.

    Syntax is the structure of a directive and Print its text; Read is how a parser
    finds the structure.  ReadSound and ReadComplete show that the two fit: a valid
    directive is read from a place exactly if its text stands there. */
module PrintfSyntax {
  import opened CStrings
  import opened XSize

  predicate IsDigit(c: char) {
    '0' <= c <= '9'
  }

  predicate IsFlag(c: char) {
    c == '\'' || c == '-' || c == '+' || c == ' ' || c == '#' || c == '0' || c == 'I'
  }

  predicate IsSize(c: char) {
    c == 'h' || c == 'L' || IsLong(c)
  }

  /** Sizes that stand for a long where long, intmax_t, size_t and ptrdiff_t agree. */
  predicate IsLong(c: char) {
    c == 'l' || c == 'j' || c == 'z' || c == 'Z' || c == 't'
  }

  predicate IsSigned(c: char) {
    c == 'd' || c == 'i'
  }

  predicate IsUnsigned(c: char) {
    c == 'o' || c == 'u' || c == 'x' || c == 'X'
  }

  predicate IsFloat(c: char) {
    c == 'f' || c == 'F' || c == 'e' || c == 'E' || c == 'g' || c == 'G' || c == 'a' || c == 'A'
  }

  predicate IsConversion(c: char) {
    || IsSigned(c) || IsUnsigned(c) || IsFloat(c) || c == 'c' || c == 'C' || c == 's' || c == 'S'
    || c == 'p' || c == 'n' || c == '%'
  }

  // ----- the structure of a directive ---------------------------------------

  /** "12$", which names argument 12, or nothing. */
  datatype Position = NoPosition | Position(digits: string)

  /** A width or precision: absent, the value of an argument, or digits. */
  datatype Field = NoField | Star(pos: Position) | Digits(digits: string)

  datatype Syntax = Syntax(index: Position, flags: string, width: Field, precision: Field, sizes: string, conv: char)

  function PrintPosition(p: Position): string {
    if p.Position? then p.digits + "$" else ""
  }

  function PrintField(w: Field): string {
    match w
    case NoField => ""
    case Star(pos) => "*" + PrintPosition(pos)
    case Digits(digits) => digits
  }

  function PrintPrecision(p: Field): string {
    if p.NoField? then "" else "." + PrintField(p)
  }

  function Print(s: Syntax): string {
    "%" + PrintPosition(s.index) + s.flags + PrintField(s.width) + PrintPrecision(s.precision) + s.sizes + [s.conv]
  }

  predicate All(s: string, kind: char -> bool) {
    forall k :: 0 <= k < |s| ==> kind(s[k])
  }

  /** The number that a string of digits stands for. */
  function Value(s: string): nat {
    if s == "" then 0 else 10 * Value(s[..|s| - 1]) + DigitValue(s[|s| - 1])
  }

  function DigitValue(c: char): nat {
    if IsDigit(c) then c as int - '0' as int else 0
  }

  /** The index of the argument that a position names. */
  function Named(p: Position): nat
    requires p.Position?
  {
    if Value(p.digits) > 0 then Value(p.digits) - 1 else 0
  }

  predicate ValidPosition(p: Position) {
    p.Position? ==> All(p.digits, IsDigit) && 0 < Value(p.digits) < SIZE_MAX
  }

  predicate ValidField(w: Field) {
    match w
    case NoField => true
    case Star(pos) => ValidPosition(pos)
    case Digits(digits) => All(digits, IsDigit)
  }

  /** A width that starts with '0' would be a flag. */
  predicate ValidWidth(w: Field) {
    ValidField(w) && (w.Digits? ==> w.digits != "" && w.digits[0] != '0')
  }

  predicate Valid(s: Syntax) {
    && ValidPosition(s.index) && All(s.flags, IsFlag) && ValidWidth(s.width) && ValidField(s.precision)
    && All(s.sizes, IsSize) && IsConversion(s.conv)
  }

  // ----- reading ------------------------------------------------------------

  /** Where the characters of a class that stand at i end. */
  function RunEnd(f: string, i: nat, kind: char -> bool): (e: nat)
    requires i <= |f|
    ensures i <= e <= |f|
    ensures forall k :: i <= k < e ==> kind(f[k])
    ensures e < |f| ==> !kind(f[e])
    decreases |f| - i
  {
    if i < |f| && kind(f[i]) then RunEnd(f, i + 1, kind) else i
  }

  /** Does t stand at i? */
  predicate Stands(f: string, i: nat, t: string) {
    i + |t| <= |f| && f[i..i + |t|] == t
  }

  lemma StandsSplit(f: string, i: nat, t: string, u: string)
    ensures Stands(f, i, t + u) <==> Stands(f, i, t) && Stands(f, i + |t|, u)
  {
    if i + |t| + |u| <= |f| {
      assert f[i..i + |t + u|] == f[i..i + |t|] + f[i + |t|..i + |t| + |u|];
    }
    if Stands(f, i, t + u) {
      assert (t + u)[..|t|] == t && (t + u)[|t|..] == u;
    }
  }

  function ReadPosition(f: string, i: nat): (p: Position)
    requires i <= |f|
    ensures p.Position? ==> All(p.digits, IsDigit) && p.digits != ""
    ensures Stands(f, i, PrintPosition(p))
  {
    var e := RunEnd(f, i, IsDigit);
    if e > i && At(f, e) == '$' then
      assert f[i..e + 1] == f[i..e] + "$";
      Position(f[i..e])
    else NoPosition
  }

  lemma StarStands(f: string, i: nat, p: Position)
    requires At(f, i) == '*' && Stands(f, i + 1, PrintPosition(p))
    ensures Stands(f, i, PrintField(Star(p)))
  {
    OneStands(f, i, '*');
    hide Stands, PrintPosition;
    StandsSplit(f, i, "*", PrintPosition(p));
  }

  lemma OneStands(f: string, i: nat, c: char)
    requires i < |f| && f[i] == c
    ensures Stands(f, i, [c])
  {
  }

  function ReadField(f: string, i: nat): (w: Field)
    requires i <= |f|
    ensures Stands(f, i, PrintField(w))
    ensures w.Digits? ==> All(w.digits, IsDigit)
  {
    if At(f, i) == '*' then
      StarStands(f, i, ReadPosition(f, i + 1));
      Star(ReadPosition(f, i + 1))
    else Digits(f[i..RunEnd(f, i, IsDigit)])
  }

  function ReadWidth(f: string, i: nat): (w: Field)
    requires i <= |f|
    ensures Stands(f, i, PrintField(w))
    ensures w.Digits? ==> All(w.digits, IsDigit) && w.digits != "" && w.digits[0] == f[i]
  {
    var w := ReadField(f, i);
    if w == Digits("") then NoField else w
  }

  lemma DotStands(f: string, i: nat, w: Field)
    requires At(f, i) == '.' && Stands(f, i + 1, PrintField(w))
    ensures Stands(f, i, "." + PrintField(w))
  {
    OneStands(f, i, '.');
    hide Stands, PrintField;
    StandsSplit(f, i, ".", PrintField(w));
  }

  function ReadPrecision(f: string, i: nat): (p: Field)
    requires i <= |f|
    ensures Stands(f, i, PrintPrecision(p))
    ensures p.Digits? ==> All(p.digits, IsDigit)
  {
    if At(f, i) != '.' then NoField else
      var w := ReadField(f, i + 1);
      DotStands(f, i, w);
      w
  }

  // Where the parts of the directive begin whose '%' is at i.

  function FlagsAt(f: string, i: nat): (n: nat)
    requires i < |f|
    ensures i < n <= |f|
  {
    i + 1 + |PrintPosition(ReadPosition(f, i + 1))|
  }

  function WidthAt(f: string, i: nat): (n: nat)
    requires i < |f|
    ensures FlagsAt(f, i) <= n <= |f|
  {
    RunEnd(f, FlagsAt(f, i), IsFlag)
  }

  function PrecisionAt(f: string, i: nat): (n: nat)
    requires i < |f|
    ensures WidthAt(f, i) <= n <= |f|
  {
    WidthAt(f, i) + |PrintField(ReadWidth(f, WidthAt(f, i)))|
  }

  function SizesAt(f: string, i: nat): (n: nat)
    requires i < |f|
    ensures PrecisionAt(f, i) <= n <= |f|
  {
    PrecisionAt(f, i) + |PrintPrecision(ReadPrecision(f, PrecisionAt(f, i)))|
  }

  function ConvAt(f: string, i: nat): (n: nat)
    requires i < |f|
    ensures SizesAt(f, i) <= n <= |f|
  {
    RunEnd(f, SizesAt(f, i), IsSize)
  }

  /** The directive whose '%' is at i, valid or not. */
  function Read(f: string, i: nat): Syntax
    requires i < |f|
  {
    Syntax(ReadPosition(f, i + 1), f[FlagsAt(f, i)..WidthAt(f, i)], ReadWidth(f, WidthAt(f, i)),
           ReadPrecision(f, PrecisionAt(f, i)), f[SizesAt(f, i)..ConvAt(f, i)], At(f, ConvAt(f, i)))
  }

  /** Where the parts of a directive begin. */
  datatype Offsets = Offsets(index: nat, flags: nat, width: nat, precision: nat, sizes: nat, conv: nat)

  function OffsetsOf(s: Syntax, i: nat): Offsets {
    var flags := i + 1 + |PrintPosition(s.index)|;
    var width := flags + |s.flags|;
    var precision := width + |PrintField(s.width)|;
    var sizes := precision + |PrintPrecision(s.precision)|;
    Offsets(i + 1, flags, width, precision, sizes, sizes + |s.sizes|)
  }

  /** The text of a directive stands at i if its parts stand one behind the other. */
  lemma PrintStands(f: string, i: nat, s: Syntax)
    ensures var o := OffsetsOf(s, i);
            && |Print(s)| == o.conv + 1 - i
            && (Stands(f, i, Print(s)) <==>
                && Stands(f, i, "%") && Stands(f, o.index, PrintPosition(s.index)) && Stands(f, o.flags, s.flags)
                && Stands(f, o.width, PrintField(s.width)) && Stands(f, o.precision, PrintPrecision(s.precision))
                && Stands(f, o.sizes, s.sizes) && Stands(f, o.conv, [s.conv]))
  {
    hide Stands, PrintPosition, PrintField, PrintPrecision;
    var t1 := "%" + PrintPosition(s.index);
    var t2 := t1 + s.flags;
    var t3 := t2 + PrintField(s.width);
    var t4 := t3 + PrintPrecision(s.precision);
    var t5 := t4 + s.sizes;
    StandsSplit(f, i, t5, [s.conv]);
    StandsSplit(f, i, t4, s.sizes);
    StandsSplit(f, i, t3, PrintPrecision(s.precision));
    StandsSplit(f, i, t2, PrintField(s.width));
    StandsSplit(f, i, t1, s.flags);
    StandsSplit(f, i, "%", PrintPosition(s.index));
  }

  lemma ReadOffsets(f: string, i: nat)
    requires i < |f|
    ensures OffsetsOf(Read(f, i), i)
            == Offsets(i + 1, FlagsAt(f, i), WidthAt(f, i), PrecisionAt(f, i), SizesAt(f, i), ConvAt(f, i))
  {
    hide ReadPosition, ReadWidth, ReadPrecision, RunEnd, PrintPosition, PrintField, PrintPrecision, Stands;
  }

  /** What is read at a '%' stands there. */
  lemma ReadSound(f: string, i: nat)
    requires i < |f| && f[i] == '%' && IsConversion(Read(f, i).conv)
    ensures Stands(f, i, Print(Read(f, i)))
    ensures All(Read(f, i).flags, IsFlag) && All(Read(f, i).sizes, IsSize)
  {
    hide ReadPosition, ReadWidth, ReadPrecision, PrintPosition, PrintField, PrintPrecision, RunEnd, Print, OffsetsOf;
    ReadOffsets(f, i);
    PrintStands(f, i, Read(f, i));
    assert f[i..i + 1] == "%";
    assert f[ConvAt(f, i)..ConvAt(f, i) + 1] == [Read(f, i).conv];
  }

  // ----- what stands there is read ------------------------------------------

  lemma RunEndIs(f: string, i: nat, kind: char -> bool, e: nat)
    requires i <= e <= |f| && (forall k :: i <= k < e ==> kind(f[k])) && (e < |f| ==> !kind(f[e]))
    ensures RunEnd(f, i, kind) == e
  {
    var r := RunEnd(f, i, kind);
    assert !(r < e) && !(e < r);
  }

  lemma RunStands(f: string, i: nat, kind: char -> bool, t: string)
    requires Stands(f, i, t) && All(t, kind) && (i + |t| < |f| ==> !kind(f[i + |t|]))
    ensures RunEnd(f, i, kind) == i + |t|
  {
    forall k | i <= k < i + |t|
      ensures kind(f[k])
    {
      assert f[k] == t[k - i];
    }
    RunEndIs(f, i, kind, i + |t|);
  }

  /** The character at which a part begins is the part's first one, or begins the rest. */
  lemma FirstOf(f: string, i: nat, t: string)
    requires Stands(f, i, t)
    ensures t != "" ==> f[i] == t[0]
  {
  }

  lemma PositionStands(f: string, i: nat, p: Position)
    requires p.Position? && ValidPosition(p) && Stands(f, i, PrintPosition(p))
    ensures ReadPosition(f, i) == p
  {
    StandsSplit(f, i, p.digits, "$");
    assert f[i + |p.digits|] == (f[i + |p.digits|..i + |p.digits| + 1])[0] == '$';
    RunStands(f, i, IsDigit, p.digits);
  }

  /** Before e there is no '$', and at e neither a digit nor a '$'. */
  lemma NoPositionStands(f: string, i: nat, e: nat)
    requires i <= e < |f| && (forall k :: i <= k <= e ==> f[k] != '$') && !IsDigit(f[e])
    ensures ReadPosition(f, i) == NoPosition
  {
  }

  /** A valid position is read where it stands, if what comes next starts with
      neither a digit nor a '$'. */
  lemma PositionRead(f: string, i: nat, p: Position)
    requires ValidPosition(p) && Stands(f, i, PrintPosition(p))
    requires var e := i + |PrintPosition(p)|; e < |f| && !IsDigit(f[e]) && f[e] != '$'
    ensures ReadPosition(f, i) == p
  {
    if p.Position? {
      PositionStands(f, i, p);
    } else {
      NoPositionStands(f, i, i);
    }
  }

  lemma FieldRead(f: string, i: nat, w: Field)
    requires !w.NoField? && ValidField(w) && Stands(f, i, PrintField(w))
    requires var e := i + |PrintField(w)|; e < |f| && !IsDigit(f[e]) && f[e] != '$' && f[e] != '*'
    ensures ReadField(f, i) == w
  {
    if w.Star? {
      StandsSplit(f, i, "*", PrintPosition(w.pos));
      assert f[i] == (f[i..i + 1])[0] == '*';
      PositionRead(f, i + 1, w.pos);
    } else {
      RunStands(f, i, IsDigit, w.digits);
      assert w.digits != "" ==> f[i] == w.digits[0];
    }
  }

  lemma WidthRead(f: string, i: nat, w: Field)
    requires ValidWidth(w) && Stands(f, i, PrintField(w))
    requires var e := i + |PrintField(w)|; e < |f| && !IsDigit(f[e]) && f[e] != '$' && f[e] != '*'
    ensures ReadWidth(f, i) == w
  {
    if w.NoField? {
      RunEndIs(f, i, IsDigit, i);
    } else {
      FieldRead(f, i, w);
    }
  }

  lemma PrecisionRead(f: string, i: nat, p: Field)
    requires ValidField(p) && Stands(f, i, PrintPrecision(p))
    requires var e := i + |PrintPrecision(p)|;
             e < |f| && !IsDigit(f[e]) && f[e] != '$' && f[e] != '*' && f[e] != '.'
    ensures ReadPrecision(f, i) == p
  {
    if !p.NoField? {
      StandsSplit(f, i, ".", PrintField(p));
      FirstOf(f, i, ".");
      FieldRead(f, i + 1, p);
    }
  }

  /** The parts of a valid directive, and where they stand. */
  lemma Parts(f: string, i: nat, s: Syntax)
    requires Valid(s) && Stands(f, i, Print(s))
    ensures var o := OffsetsOf(s, i);
            && o.index == i + 1 && o.flags == i + 1 + |PrintPosition(s.index)| && o.width == o.flags + |s.flags|
            && o.precision == o.width + |PrintField(s.width)| && o.sizes == o.precision + |PrintPrecision(s.precision)|
            && o.conv == o.sizes + |s.sizes|
            && Stands(f, i, "%") && Stands(f, o.index, PrintPosition(s.index)) && Stands(f, o.flags, s.flags)
            && Stands(f, o.width, PrintField(s.width)) && Stands(f, o.precision, PrintPrecision(s.precision))
            && Stands(f, o.sizes, s.sizes) && Stands(f, o.conv, [s.conv])
    ensures ValidPosition(s.index) && All(s.flags, IsFlag) && ValidWidth(s.width) && ValidField(s.precision)
    ensures ValidField(s.width) && All(s.sizes, IsSize) && IsConversion(s.conv)
  {
    hide Stands, Print, PrintPosition, PrintField, PrintPrecision, All, ValidField, ValidPosition, IsConversion;
    PrintStands(f, i, s);
  }

  /** The character behind the flags. */
  lemma BehindFlags(f: string, i: nat, s: Syntax)
    requires Valid(s) && Stands(f, i, Print(s))
    ensures var o := OffsetsOf(s, i);
            && o.conv < |f| && f[o.conv] == s.conv
            && (IsSize(f[o.sizes]) || f[o.sizes] == s.conv)
            && (f[o.precision] == '.' || f[o.precision] == f[o.sizes])
            && (f[o.width] == '*' || (IsDigit(f[o.width]) && f[o.width] != '0') || f[o.width] == f[o.precision])
            && (!s.width.Digits? ==> f[o.width] == '*' || f[o.width] == f[o.precision])
  {
    hide *;
    var o := OffsetsOf(s, i);
    Parts(f, i, s);
    SizesHead(f, o.sizes, s.sizes, s.conv);
    PrecisionHead(f, o.precision, s.precision);
    WidthHead(f, o.width, s.width);
  }

  lemma SizesHead(f: string, at: nat, sizes: string, conv: char)
    requires All(sizes, IsSize) && Stands(f, at, sizes) && Stands(f, at + |sizes|, [conv])
    ensures at + |sizes| < |f| && f[at + |sizes|] == conv && (IsSize(f[at]) || f[at] == conv)
  {
    FirstOf(f, at, sizes);
    FirstOf(f, at + |sizes|, [conv]);
    hide Stands;
  }

  lemma PrecisionHead(f: string, at: nat, p: Field)
    requires Stands(f, at, PrintPrecision(p)) && at + |PrintPrecision(p)| < |f|
    ensures f[at] == '.' || f[at] == f[at + |PrintPrecision(p)|]
  {
    FirstOf(f, at, PrintPrecision(p));
    hide Stands, PrintField;
  }

  lemma WidthHead(f: string, at: nat, w: Field)
    requires ValidWidth(w) && Stands(f, at, PrintField(w)) && at + |PrintField(w)| < |f|
    ensures f[at] == '*' || (IsDigit(f[at]) && f[at] != '0') || f[at] == f[at + |PrintField(w)|]
    ensures !w.Digits? ==> f[at] == '*' || f[at] == f[at + |PrintField(w)|]
  {
    FirstOf(f, at, PrintField(w));
    hide Stands, PrintPosition;
  }

  /** Each part ends where it does because the next one starts differently. */
  lemma PartsEnd(f: string, i: nat, s: Syntax)
    requires Valid(s) && Stands(f, i, Print(s))
    ensures var o := OffsetsOf(s, i);
            && o.conv < |f| && !IsFlag(f[o.width]) && !IsSize(f[o.conv])
            && !IsDigit(f[o.precision]) && f[o.precision] != '$' && f[o.precision] != '*'
            && !IsDigit(f[o.sizes]) && f[o.sizes] != '$' && f[o.sizes] != '*' && f[o.sizes] != '.'
  {
    hide Print, Stands, Valid, OffsetsOf, All, PrintPosition, PrintField, PrintPrecision, ValidWidth, ValidField, ValidPosition;
    BehindFlags(f, i, s);
    Parts(f, i, s);
  }

  lemma NoDollar(f: string, i: nat, t: string, kind: char -> bool)
    requires Stands(f, i, t) && All(t, kind) && !kind('$')
    ensures forall k :: i <= k < i + |t| ==> f[k] != '$'
  {
    forall k | i <= k < i + |t|
      ensures f[k] != '$'
    {
      assert f[k] == t[k - i];
    }
  }

  /** Without a position, no digits followed by a '$' stand behind the '%'. */
  lemma IndexRead(f: string, i: nat, s: Syntax)
    requires Valid(s) && Stands(f, i, Print(s))
    ensures ReadPosition(f, i + 1) == s.index
  {
    hide *;
    Parts(f, i, s);
    if s.index.Position? {
      PositionStands(f, i + 1, s.index);
    } else {
      NoIndexRead(f, i, s);
    }
  }

  /** Where there is no position, flags and digits of a width come first. */
  lemma NoDollarAhead(f: string, i: nat, s: Syntax)
    requires Valid(s) && Stands(f, i, Print(s)) && s.index.NoPosition?
    ensures var o := OffsetsOf(s, i);
            && i + 1 <= o.width <= o.precision && (forall k :: i + 1 <= k < o.width ==> f[k] != '$')
            && (s.width.Digits? ==> forall k :: o.width <= k < o.precision ==> f[k] != '$')
  {
    hide Print, Stands, Valid, OffsetsOf, All, PrintPrecision, IsSize;
    Parts(f, i, s);
    var o := OffsetsOf(s, i);
    NoDollar(f, o.flags, s.flags, IsFlag);
    if s.width.Digits? {
      NoDollar(f, o.width, s.width.digits, IsDigit);
    }
  }

  lemma NoIndexRead(f: string, i: nat, s: Syntax)
    requires Valid(s) && Stands(f, i, Print(s)) && s.index.NoPosition?
    ensures ReadPosition(f, i + 1) == NoPosition
  {
    NoDollarAhead(f, i, s);
    AheadEnds(f, i, s);
    ghost var o := OffsetsOf(s, i);
    hide *;
    NoIndexAt(f, i, o.width, if s.width.Digits? then o.precision else o.width);
  }

  lemma NoIndexAt(f: string, i: nat, w: nat, e: nat)
    requires i + 1 <= w <= e < |f| && !IsDigit(f[e]) && f[e] != '$'
    requires (forall k :: i + 1 <= k < w ==> f[k] != '$') && (forall k :: w <= k < e ==> f[k] != '$')
    ensures ReadPosition(f, i + 1) == NoPosition
  {
    NoPositionStands(f, i + 1, e);
  }

  /** What follows the flags and digits is neither a digit nor a '$'. */
  lemma AheadEnds(f: string, i: nat, s: Syntax)
    requires Valid(s) && Stands(f, i, Print(s))
    ensures var o := OffsetsOf(s, i); var e := if s.width.Digits? then o.precision else o.width;
            e < |f| && !IsDigit(f[e]) && f[e] != '$'
  {
    hide Print, Stands, Valid, OffsetsOf, All, PrintPosition, PrintField, PrintPrecision, ValidWidth, ValidField, ValidPosition;
    Parts(f, i, s);
    BehindFlags(f, i, s);
    PartsEnd(f, i, s);
  }

  lemma FlagsRead(f: string, i: nat, s: Syntax)
    requires Valid(s) && Stands(f, i, Print(s))
    ensures i < |f| && ReadPosition(f, i + 1) == s.index
    ensures FlagsAt(f, i) == OffsetsOf(s, i).flags && WidthAt(f, i) == OffsetsOf(s, i).width
  {
    hide Print, Stands, All, Valid, ReadPosition, RunEnd, PrintPosition, PrintField, PrintPrecision, IsFlag, IsSize, IsDigit,
         OffsetsOf, ValidWidth, ValidField, ValidPosition;
    Parts(f, i, s);
    PartsEnd(f, i, s);
    IndexRead(f, i, s);
    RunStands(f, OffsetsOf(s, i).flags, IsFlag, s.flags);
  }

  lemma WidthStands(f: string, i: nat, s: Syntax)
    requires Valid(s) && Stands(f, i, Print(s))
    ensures i < |f| && ReadWidth(f, WidthAt(f, i)) == s.width && PrecisionAt(f, i) == OffsetsOf(s, i).precision
  {
    hide Print, Stands, All, Valid, PrintPosition, PrintField, PrintPrecision, ReadWidth, RunEnd, IsFlag, IsSize, IsDigit,
         OffsetsOf, WidthAt, FlagsAt, ValidWidth, ValidField, ValidPosition;
    Parts(f, i, s);
    PartsEnd(f, i, s);
    FlagsRead(f, i, s);
    WidthRead(f, OffsetsOf(s, i).width, s.width);
  }

  lemma PrecisionStands(f: string, i: nat, s: Syntax)
    requires Valid(s) && Stands(f, i, Print(s))
    ensures i < |f| && ReadPrecision(f, PrecisionAt(f, i)) == s.precision && SizesAt(f, i) == OffsetsOf(s, i).sizes
  {
    hide Print, PrintPosition, PrintField, PrintPrecision, All, ReadPrecision, RunEnd, Stands, IsDigit, IsFlag, IsSize,
         IsConversion, WidthAt, ReadWidth, PrecisionAt, Read;
    var o := OffsetsOf(s, i);
    PrecisionFacts(f, i, s);
    hide OffsetsOf, Valid;
    WidthStands(f, i, s);
    PrecisionRead(f, o.precision, s.precision);
  }

  lemma PrecisionFacts(f: string, i: nat, s: Syntax)
    requires Valid(s) && Stands(f, i, Print(s))
    ensures var o := OffsetsOf(s, i);
            && o.sizes == o.precision + |PrintPrecision(s.precision)| < |f| && Stands(f, o.precision, PrintPrecision(s.precision))
            && !IsDigit(f[o.sizes]) && f[o.sizes] != '$' && f[o.sizes] != '*' && f[o.sizes] != '.'
            && ValidField(s.precision)
  {
    hide *;
    Parts(f, i, s);
    PartsEnd(f, i, s);
  }

  lemma SizesRead(f: string, i: nat, s: Syntax)
    requires Valid(s) && Stands(f, i, Print(s))
    ensures i < |f| && ConvAt(f, i) == OffsetsOf(s, i).conv < |f|
  {
    hide Print, PrintPosition, PrintField, PrintPrecision, RunEnd, Stands, IsDigit, IsFlag, IsSize, IsConversion, WidthAt,
         SizesAt, PrecisionAt, Read, ReadPrecision;
    var o := OffsetsOf(s, i);
    SizesFacts(f, i, s);
    PrecisionStands(f, i, s);
    hide OffsetsOf, Valid, All;
    RunStands(f, o.sizes, IsSize, s.sizes);
  }

  lemma SizesFacts(f: string, i: nat, s: Syntax)
    requires Valid(s) && Stands(f, i, Print(s))
    ensures var o := OffsetsOf(s, i);
            && o.conv == o.sizes + |s.sizes| < |f| && Stands(f, o.sizes, s.sizes) && !IsSize(f[o.conv]) && All(s.sizes, IsSize)
  {
    hide *;
    Parts(f, i, s);
    PartsEnd(f, i, s);
  }

  lemma TextsStand(f: string, i: nat, s: Syntax, o: Offsets)
    requires Valid(s) && Stands(f, i, Print(s)) && o == OffsetsOf(s, i)
    ensures i < |f| && f[i] == '%' && f[o.flags..o.width] == s.flags && f[o.sizes..o.conv] == s.sizes && At(f, o.conv) == s.conv
  {
    hide Stands, Print, Valid, OffsetsOf, PrintPosition, PrintField, PrintPrecision;
    Parts(f, i, s);
    StandsIs(f, i, "%");
    StandsIs(f, o.flags, s.flags);
    StandsIs(f, o.sizes, s.sizes);
    StandsIs(f, o.conv, [s.conv]);
  }

  lemma StandsIs(f: string, i: nat, t: string)
    requires Stands(f, i, t)
    ensures i + |t| <= |f| && f[i..i + |t|] == t && (t != "" ==> f[i] == t[0])
  {
  }

  /** A valid directive is read wherever its text stands. */
  lemma ReadComplete(f: string, i: nat, s: Syntax)
    requires Valid(s) && Stands(f, i, Print(s))
    ensures i < |f| && f[i] == '%' && Read(f, i) == s
  {
    hide Stands, Print, Valid, OffsetsOf, ReadPosition, ReadWidth, ReadPrecision, FlagsAt, WidthAt, PrecisionAt, SizesAt, ConvAt;
    TextsStand(f, i, s, OffsetsOf(s, i));
    FlagsRead(f, i, s);
    WidthStands(f, i, s);
    PrecisionStands(f, i, s);
    SizesRead(f, i, s);
  }
}
