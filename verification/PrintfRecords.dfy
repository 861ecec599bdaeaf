/** The records of the directives, read back from the format string: what stands where
    they say, and which arguments they name. */
module PrintfRecords {
  import opened Options
  import opened CStrings
  import opened XSize
  import opened Decimals
  import opened PrintfSyntax
  import opened PrintfDirectives

  // ----- positions ----------------------------------------------------------

  lemma {:induction false} ValueDecimal(n: nat)
    ensures Value(Decimal(n)) == n && All(Decimal(n), IsDigit)
  {
    DigitIs(n % 10);
    if n < 10 {
      assert Decimal(n)[..0] == "";
    } else {
      ValueDecimal(n / 10);
      assert Decimal(n)[..|Decimal(n)| - 1] == Decimal(n / 10);
    }
  }

  /** "12$" names the twelfth argument, which has index 11. */
  lemma NamedIs(n: nat)
    requires 0 < n < SIZE_MAX
    ensures ValidPosition(Position(Decimal(n))) && Named(Position(Decimal(n))) == n - 1
  {
    ValueDecimal(n);
  }

  // ----- texts --------------------------------------------------------------

  predicate Between(f: string, start: Option<nat>, end: Option<nat>, t: string) {
    start.Some? && end.Some? && start.value <= end.value <= |f| && f[start.value..end.value] == t
  }

  /** What a record says of the format string. */
  predicate RecordFor(f: string, s: Syntax, d: Directive) {
    && Between(f, Some(d.dirStart), Some(d.dirEnd), Print(s))
    && (match s.width
        case NoField => d.widthStart == None && d.widthEnd == None
        case Star(_) => Between(f, d.widthStart, d.widthEnd, "*")
        case Digits(digits) => Between(f, d.widthStart, d.widthEnd, digits))
    && (match s.precision
        case NoField => d.precisionStart == None && d.precisionEnd == None
        case Star(_) => Between(f, d.precisionStart, d.precisionEnd, ".*")
        case Digits(digits) => Between(f, d.precisionStart, d.precisionEnd, "." + digits))
    && d.conversion == (if s.conv == 'C' then 'c' else if s.conv == 'S' then 's' else s.conv)
  }

  /** Bit for bit the flags of a directive. */
  predicate FlagsFor(s: Syntax, flags: bv8) {
    && (flags & 1 != 0 <==> '\'' in s.flags) && (flags & 2 != 0 <==> '-' in s.flags) && (flags & 4 != 0 <==> '+' in s.flags)
    && (flags & 8 != 0 <==> ' ' in s.flags) && (flags & 16 != 0 <==> '#' in s.flags) && (flags & 32 != 0 <==> '0' in s.flags)
    && (flags & 64 != 0 <==> 'I' in s.flags)
  }

  lemma FlagsAre(s: Syntax)
    requires All(s.flags, IsFlag)
    ensures FlagsFor(s, FlagBits(s.flags))
  {
    hide FlagBits;
    FlagSet(s.flags, '\'');
    FlagSet(s.flags, '-');
    FlagSet(s.flags, '+');
    FlagSet(s.flags, ' ');
    FlagSet(s.flags, '#');
    FlagSet(s.flags, '0');
    FlagSet(s.flags, 'I');
  }

  lemma StandsAt(f: string, i: nat, t: string, n: nat)
    requires Stands(f, i, t) && n <= |t|
    ensures i + n <= |f| && f[i..i + n] == t[..n]
  {
  }

  /** The fields of a record that are offsets. */
  lemma FieldsOf(p: Piece, index: seq<nat>)
    requires |index| == |Uses(p.syntax)|
    ensures var d, s, o := RecordOf(p, index), p.syntax, OffsetsOf(p.syntax, p.at);
            && d.dirStart == p.at && d.dirEnd == p.at + |Print(s)|
            && d.flags == FlagBits(s.flags) && d.conversion == Conversion(s.conv)
            && (if s.width.NoField? then d.widthStart == None && d.widthEnd == None
                else d.widthStart == Some(o.width) && d.widthEnd == Some(o.width + FieldLength(s.width)))
            && (if s.precision.NoField? then d.precisionStart == None && d.precisionEnd == None
                else d.precisionStart == Some(o.precision) && d.precisionEnd == Some(o.precision + PrecisionLength(s.precision)))
  {
    hide Uses, StarUse, ValueUse, Print, FlagBits, OffsetsOf, Conversion, FieldLength, PrecisionLength;
  }

  lemma RecordIs(f: string, p: Piece, index: seq<nat>)
    requires Stands(f, p.at, Print(p.syntax)) && |index| == |Uses(p.syntax)|
    ensures RecordFor(f, p.syntax, RecordOf(p, index))
    ensures RecordOf(p, index).flags == FlagBits(p.syntax.flags)
  {
    hide *;
    var s, d := p.syntax, RecordOf(p, index);
    var o := OffsetsOf(s, p.at);
    PrintStands(f, p.at, s);
    FieldText(f, o.width, s.width);
    PrecisionText(f, o.precision, s.precision);
    StandsAt(f, p.at, Print(s), |Print(s)|);
    assert Print(s)[..|Print(s)|] == Print(s);
    FieldsOf(p, index);
    PutTogether(f, s, d);
  }

  lemma PutTogether(f: string, s: Syntax, d: Directive)
    requires d.dirStart <= d.dirEnd <= |f| && f[d.dirStart..d.dirEnd] == Print(s)
    requires match s.width
             case NoField => d.widthStart == None && d.widthEnd == None
             case Star(_) => Between(f, d.widthStart, d.widthEnd, "*")
             case Digits(digits) => Between(f, d.widthStart, d.widthEnd, digits)
    requires match s.precision
             case NoField => d.precisionStart == None && d.precisionEnd == None
             case Star(_) => Between(f, d.precisionStart, d.precisionEnd, ".*")
             case Digits(digits) => Between(f, d.precisionStart, d.precisionEnd, "." + digits)
    requires d.conversion == Conversion(s.conv)
    ensures RecordFor(f, s, d)
  {
    hide Print;
  }

  lemma FieldText(f: string, i: nat, w: Field)
    requires Stands(f, i, PrintField(w))
    ensures match w
            case NoField => true
            case Star(_) => Between(f, Some(i), Some(i + FieldLength(w)), "*")
            case Digits(digits) => Between(f, Some(i), Some(i + FieldLength(w)), digits)
  {
    match w
    case NoField =>
    case Star(pos) =>
      StandsAt(f, i, PrintField(w), 1);
    case Digits(digits) =>
      StandsAt(f, i, PrintField(w), |digits|);
  }

  lemma PrecisionText(f: string, i: nat, w: Field)
    requires Stands(f, i, PrintPrecision(w))
    ensures match w
            case NoField => true
            case Star(_) => Between(f, Some(i), Some(i + PrecisionLength(w)), ".*")
            case Digits(digits) => Between(f, Some(i), Some(i + PrecisionLength(w)), "." + digits)
  {
    match w
    case NoField =>
    case Star(pos) =>
      StandsAt(f, i, PrintPrecision(w), 2);
    case Digits(digits) =>
      StandsAt(f, i, PrintPrecision(w), 1 + |digits|);
  }

  lemma {:induction false} RecordsAre(f: string, ps: seq<Piece>, index: seq<nat>)
    requires |index| == |AllUses(ps)|
    requires forall k :: 0 <= k < |ps| ==> Stands(f, ps[k].at, Print(ps[k].syntax)) && All(ps[k].syntax.flags, IsFlag)
    ensures forall k :: 0 <= k < |ps| ==>
              RecordFor(f, ps[k].syntax, Records(ps, index)[k]) && FlagsFor(ps[k].syntax, Records(ps, index)[k].flags)
  {
    hide RecordFor, FlagsFor, RecordOf, Uses, Stands, Print;
    if ps != [] {
      var n := |ps| - 1;
      var m := |AllUses(ps[..n])|;
      assert forall k :: 0 <= k < n ==> ps[..n][k] == ps[k];
      RecordsAre(f, ps[..n], index[..m]);
      RecordIs(f, ps[n], index[m..]);
      FlagsAre(ps[n].syntax);
    }
  }

  /** In a valid format string every record says where its directive, the width and the
      precision stand, and which flags and which conversion the directive has. */
  lemma MeaningRecords(f: string, ps: seq<Piece>)
    requires Meaning(f).Some? && Parse(f, 0) == Some(ps)
    ensures var ds := Meaning(f).value.dirs;
            |ds| == |ps| && forall k :: 0 <= k < |ps| ==> RecordFor(f, ps[k].syntax, ds[k]) && FlagsFor(ps[k].syntax, ds[k].flags)
  {
    hide RecordFor, FlagsFor, AllUses, Number, Records, Parse, Print, Stands, End;
    ParseSound(f, 0);
    NumberLength(AllUses(ps));
    forall k | 0 <= k < |ps|
      ensures All(ps[k].syntax.flags, IsFlag)
    {
    }
    hide Valid;
    RecordsAre(f, ps, Number(AllUses(ps)).value.index);
  }

  // ----- widest fields ------------------------------------------------------

  predicate Widest(n: nat, starts: seq<Option<nat>>, ends: seq<Option<nat>>)
    requires |starts| == |ends|
  {
    && (forall k :: 0 <= k < |starts| && starts[k].Some? && ends[k].Some? ==> ends[k].value <= starts[k].value + n)
    && (n == 0 || exists k :: 0 <= k < |starts| && starts[k].Some? && ends[k].Some? && ends[k].value == starts[k].value + n)
  }

  function WidthStarts(ds: seq<Directive>): seq<Option<nat>> {
    seq(|ds|, k requires 0 <= k < |ds| => ds[k].widthStart)
  }

  function WidthEnds(ds: seq<Directive>): seq<Option<nat>> {
    seq(|ds|, k requires 0 <= k < |ds| => ds[k].widthEnd)
  }

  function PrecisionStarts(ds: seq<Directive>): seq<Option<nat>> {
    seq(|ds|, k requires 0 <= k < |ds| => ds[k].precisionStart)
  }

  function PrecisionEnds(ds: seq<Directive>): seq<Option<nat>> {
    seq(|ds|, k requires 0 <= k < |ds| => ds[k].precisionEnd)
  }

  lemma WidestNext(n: nat, starts: seq<Option<nat>>, ends: seq<Option<nat>>, start: Option<nat>, end: Option<nat>, length: nat)
    requires |starts| == |ends| && Widest(n, starts, ends)
    requires if start.Some? then end == Some(start.value + length) else length == 0
    ensures Widest(Max(n, length), starts + [start], ends + [end])
  {
    var s, e := starts + [start], ends + [end];
    if n > 0 && n >= length {
      var k :| 0 <= k < |starts| && starts[k].Some? && ends[k].Some? && ends[k].value == starts[k].value + n;
      assert s[k] == starts[k] && e[k] == ends[k];
    } else if length > 0 {
      assert s[|starts|] == start && e[|starts|] == end;
    }
  }

  lemma {:induction false} WidestIs(ps: seq<Piece>, index: seq<nat>)
    requires |index| == |AllUses(ps)|
    ensures var ds := Records(ps, index);
            && Widest(MaxWidth(ps), WidthStarts(ds), WidthEnds(ds))
            && Widest(MaxPrecision(ps), PrecisionStarts(ds), PrecisionEnds(ds))
  {
    hide RecordOf, Uses, Widest, FieldLength, PrecisionLength, Max;
    if ps == [] {
      NothingWidest();
    } else {
      var n := |ps| - 1;
      var m := |AllUses(ps[..n])|;
      WidestIs(ps[..n], index[..m]);
      FieldsOf(ps[n], index[m..]);
      NoLength(ps[n].syntax);
      var ds, d := Records(ps[..n], index[..m]), RecordOf(ps[n], index[m..]);
      WidestNext(MaxWidth(ps[..n]), WidthStarts(ds), WidthEnds(ds), d.widthStart, d.widthEnd, FieldLength(ps[n].syntax.width));
      WidestNext(MaxPrecision(ps[..n]), PrecisionStarts(ds), PrecisionEnds(ds), d.precisionStart, d.precisionEnd,
                 PrecisionLength(ps[n].syntax.precision));
      StartsNext(ds, d);
    }
  }

  lemma NoLength(s: Syntax)
    ensures (s.width.NoField? ==> FieldLength(s.width) == 0) && (s.precision.NoField? ==> PrecisionLength(s.precision) == 0)
  {
  }

  lemma NothingWidest()
    ensures Widest(0, [], []) && WidthStarts([]) == WidthEnds([]) == PrecisionStarts([]) == PrecisionEnds([]) == []
  {
  }

  lemma StartsNext(ds: seq<Directive>, d: Directive)
    ensures WidthStarts(ds + [d]) == WidthStarts(ds) + [d.widthStart] && WidthEnds(ds + [d]) == WidthEnds(ds) + [d.widthEnd]
    ensures PrecisionStarts(ds + [d]) == PrecisionStarts(ds) + [d.precisionStart]
    ensures PrecisionEnds(ds + [d]) == PrecisionEnds(ds) + [d.precisionEnd]
  {
  }

  /** The greatest lengths are those of the longest width and precision recorded. */
  lemma MeaningWidest(f: string)
    requires Meaning(f).Some?
    ensures var m := Meaning(f).value;
            && Widest(m.maxWidth, WidthStarts(m.dirs), WidthEnds(m.dirs))
            && Widest(m.maxPrecision, PrecisionStarts(m.dirs), PrecisionEnds(m.dirs))
  {
    hide Widest, Records, MaxWidth, MaxPrecision, AllUses, Number, Parse, WidthStarts, WidthEnds, PrecisionStarts, PrecisionEnds;
    var us := AllUses(Parse(f, 0).value);
    NumberLength(us);
    WidestIs(Parse(f, 0).value, Number(us).value.index);
  }

  // ----- arguments ----------------------------------------------------------

  lemma {:induction false} FreeAppend(us: seq<Use>, vs: seq<Use>)
    ensures Free(us + vs) == Free(us) + Free(vs)
  {
    if vs == [] {
      assert us + vs == us;
    } else {
      assert (us + vs)[..|us + vs| - 1] == us + vs[..|vs| - 1];
      FreeAppend(us, vs[..|vs| - 1]);
    }
  }

  /** The index of an argument: the one named, or that of the next argument. */
  function Chosen(pos: Position, next: nat): nat {
    if pos.Position? then Named(pos) else next
  }

  /** How many arguments are taken in order. */
  function Takes(w: Field): nat {
    if w.Star? && w.pos.NoPosition? then 1 else 0
  }

  /** The arguments of a directive, when so many have been taken in order before: first that
      of the width, then that of the precision, and then the value. */
  predicate ArgumentsFor(s: Syntax, d: Directive, next: nat) {
    && d.widthArgIndex == (if s.width.Star? then Chosen(s.width.pos, next) else ARG_NONE)
    && d.precisionArgIndex == (if s.precision.Star? then Chosen(s.precision.pos, next + Takes(s.width)) else ARG_NONE)
    && d.argIndex == (if s.conv != '%' then Chosen(s.index, next + Takes(s.width) + Takes(s.precision)) else ARG_NONE)
  }

  function TakesAll(s: Syntax): nat {
    Takes(s.width) + Takes(s.precision) + if s.conv != '%' && s.index.NoPosition? then 1 else 0
  }

  function Taken(ps: seq<Piece>): nat {
    if ps == [] then 0 else Taken(ps[..|ps| - 1]) + TakesAll(ps[|ps| - 1].syntax)
  }

  lemma ValueUseIs(s: Syntax)
    requires IsConversion(s.conv)
    ensures |ValueUse(s)| == (if s.conv == '%' then 0 else 1) && (s.conv != '%' ==> ValueUse(s)[0].pos == s.index)
  {
  }

  lemma FreeOfUses(s: Syntax)
    requires IsConversion(s.conv)
    ensures Free(Uses(s)) == TakesAll(s)
  {
    var w, q, v := StarUse(s.width), StarUse(s.precision), ValueUse(s);
    assert Uses(s) == w + q + v;
    FreeStar(s.width);
    FreeStar(s.precision);
    ValueUseIs(s);
    assert TakesAll(s) == Takes(s.width) + Takes(s.precision) + if s.conv != '%' && s.index.NoPosition? then 1 else 0;
    hide *;
    FreeAppend(w + q, v);
    FreeAppend(w, q);
    FreeShort(v);
  }

  lemma FreeStar(w: Field)
    ensures Free(StarUse(w)) == Takes(w) && |StarUse(w)| == (if w.Star? then 1 else 0)
    ensures w.Star? ==> StarUse(w)[0].pos == w.pos
  {
    FreeShort(StarUse(w));
    hide Free;
  }

  lemma FreeShort(us: seq<Use>)
    requires |us| <= 1
    ensures Free(us) == if us != [] && us[0].pos.NoPosition? then 1 else 0
  {
    assert us != [] ==> us[..|us| - 1] == [];
  }

  lemma {:induction false} TakenIs(ps: seq<Piece>)
    requires forall k :: 0 <= k < |ps| ==> IsConversion(ps[k].syntax.conv)
    ensures Free(AllUses(ps)) == Taken(ps)
  {
    hide Uses, Free, TakesAll, IsConversion;
    if ps == [] {
      assert Free([]) == 0 by { FreeShort([]); }
    } else {
      var n := |ps| - 1;
      TakenIs(ps[..n]);
      FreeAppend(AllUses(ps[..n]), Uses(ps[n].syntax));
      FreeOfUses(ps[n].syntax);
    }
  }

  /** The uses of a directive, from number m on, and their indices. */
  ghost predicate Indexed(us: seq<Use>, m: nat, own: seq<Use>, index: seq<nat>) {
    && m + |own| <= |us| && us[m..m + |own|] == own && |index| == |own|
    && forall j :: 0 <= j < |own| ==> index[j] == IndexOf(us, m + j)
  }

  lemma IndexAt(us: seq<Use>, m: nat, own: seq<Use>, index: seq<nat>, j: nat)
    requires Indexed(us, m, own, index) && j < |own|
    ensures index[j] == Chosen(own[j].pos, Free(us[..m]) + Free(own[..j]))
  {
    assert us[m..m + |own|][j] == us[m + j];
    assert us[..m + j] == us[..m] + own[..j];
    FreeAppend(us[..m], own[..j]);
    hide Free;
  }

  lemma ArgumentsAre(p: Piece, index: seq<nat>, us: seq<Use>, m: nat)
    requires IsConversion(p.syntax.conv) && Indexed(us, m, Uses(p.syntax), index)
    ensures ArgumentsFor(p.syntax, RecordOf(p, index), Free(us[..m]))
  {
    var s := p.syntax;
    var w, q, v := StarUse(s.width), StarUse(s.precision), ValueUse(s);
    assert Uses(s) == w + q + v;
    hide *;
    FreeStar(s.width);
    FreeStar(s.precision);
    ValueUseIs(s);
    IndexedIs(us, m, Uses(s), index);
    IndicesAre(p, index);
    ThreeParts(us, m, w, q, v, index);
    ArgumentsMeet(s, RecordOf(p, index), Free(us[..m]));
  }

  lemma IndexedIs(us: seq<Use>, m: nat, own: seq<Use>, index: seq<nat>)
    requires Indexed(us, m, own, index)
    ensures |index| == |own| && m <= |us|
  {
  }

  lemma ThreeParts(us: seq<Use>, m: nat, w: seq<Use>, q: seq<Use>, v: seq<Use>, index: seq<nat>)
    requires |w| <= 1 && |q| <= 1 && |v| <= 1 && Indexed(us, m, w + q + v, index)
    ensures m <= |us| && |index| == |w| + |q| + |v|
    ensures w != [] ==> index[0] == Chosen(w[0].pos, Free(us[..m]))
    ensures q != [] ==> index[|w|] == Chosen(q[0].pos, Free(us[..m]) + Free(w))
    ensures v != [] ==> index[|w| + |q|] == Chosen(v[0].pos, Free(us[..m]) + Free(w) + Free(q))
  {
    Concatenated(w, q, v);
    hide *;
    var own := w + q + v;
    IndexedIs(us, m, own, index);
    if w != [] {
      FreeShort([]);
      IndexAt(us, m, own, index, 0);
    }
    if q != [] {
      IndexAt(us, m, own, index, |w|);
    }
    if v != [] {
      FreeAppend(w, q);
      IndexAt(us, m, own, index, |w| + |q|);
    }
  }

  lemma Concatenated<T>(w: seq<T>, q: seq<T>, v: seq<T>)
    ensures var own := w + q + v;
            && own[..0] == [] && own[..|w|] == w && own[..|w| + |q|] == w + q
            && (w != [] ==> own[0] == w[0]) && (q != [] ==> own[|w|] == q[0]) && (v != [] ==> own[|w| + |q|] == v[0])
  {
  }

  /** The fields of a record that are indices. */
  lemma IndicesAre(p: Piece, index: seq<nat>)
    requires |index| == |Uses(p.syntax)|
    ensures var d, s := RecordOf(p, index), p.syntax;
            var w, q, v := |StarUse(s.width)|, |StarUse(s.precision)|, |ValueUse(s)|;
            && |index| == w + q + v
            && d.widthArgIndex == (if w == 0 then ARG_NONE else index[0])
            && d.precisionArgIndex == (if q == 0 then ARG_NONE else index[w])
            && d.argIndex == if v == 0 then ARG_NONE else index[w + q]
  {
    hide StarUse, ValueUse, Print, FlagBits, OffsetsOf, Conversion, FieldLength, PrecisionLength;
  }

  lemma ArgumentsMeet(s: Syntax, d: Directive, next: nat)
    requires d.widthArgIndex == (if s.width.Star? then Chosen(s.width.pos, next) else ARG_NONE)
    requires d.precisionArgIndex == (if s.precision.Star? then Chosen(s.precision.pos, next + Takes(s.width)) else ARG_NONE)
    requires d.argIndex == (if s.conv != '%' then Chosen(s.index, next + Takes(s.width) + Takes(s.precision)) else ARG_NONE)
    ensures ArgumentsFor(s, d, next)
  {
  }

  predicate AllArguments(ps: seq<Piece>, ds: seq<Directive>) {
    |ds| == |ps| && forall k :: 0 <= k < |ps| ==> ArgumentsFor(ps[k].syntax, ds[k], Taken(ps[..k]))
  }

  lemma AllArgumentsNext(ps: seq<Piece>, ds: seq<Directive>, d: Directive)
    requires ps != [] && AllArguments(ps[..|ps| - 1], ds) && ArgumentsFor(ps[|ps| - 1].syntax, d, Taken(ps[..|ps| - 1]))
    ensures AllArguments(ps, ds + [d])
  {
    hide ArgumentsFor, Taken;
    var n := |ps| - 1;
    forall k | 0 <= k < n
      ensures ArgumentsFor(ps[k].syntax, ds[k], Taken(ps[..k]))
    {
      assert ps[..n][k] == ps[k] && ps[..n][..k] == ps[..k];
    }
  }

  lemma {:induction false} RecordsArguments(ps: seq<Piece>, index: seq<nat>, us: seq<Use>)
    requires forall k :: 0 <= k < |ps| ==> IsConversion(ps[k].syntax.conv)
    requires AllUses(ps) <= us && |index| == |AllUses(ps)| && forall j :: 0 <= j < |index| ==> index[j] == IndexOf(us, j)
    ensures AllArguments(ps, Records(ps, index))
  {
    if ps == [] {
      assert Records(ps, index) == [];
    } else {
      var n := |ps| - 1;
      var before, own := AllUses(ps[..n]), Uses(ps[n].syntax);
      AllUsesLast(ps);
      RecordsLast(ps, index);
      hide *;
      RecordsArguments(ps[..n], index[..|before|], us);
      LastIndexed(before, own, us, index);
      ArgumentsAre(ps[n], index[|before|..], us, |before|);
      TakenIs(ps[..n]);
      AllArgumentsNext(ps, Records(ps[..n], index[..|before|]), RecordOf(ps[n], index[|before|..]));
    }
  }

  lemma AllUsesLast(ps: seq<Piece>)
    requires ps != []
    ensures AllUses(ps) == AllUses(ps[..|ps| - 1]) + Uses(ps[|ps| - 1].syntax)
  {
  }

  lemma RecordsLast(ps: seq<Piece>, index: seq<nat>)
    requires ps != [] && |index| == |AllUses(ps)|
    ensures var n := |ps| - 1; var m := |AllUses(ps[..n])|;
            && |AllUses(ps)| == m + |Uses(ps[n].syntax)|
            && Records(ps, index) == Records(ps[..n], index[..m]) + [RecordOf(ps[n], index[m..])]
  {
    hide RecordOf, Uses;
  }

  lemma LastIndexed(before: seq<Use>, own: seq<Use>, us: seq<Use>, index: seq<nat>)
    requires before + own <= us && |index| == |before| + |own| && forall j :: 0 <= j < |index| ==> index[j] == IndexOf(us, j)
    ensures before <= us && us[..|before|] == before && Indexed(us, |before|, own, index[|before|..])
  {
    hide IndexOf;
  }

  /** In a valid format string every record has the indices of its arguments: those that
      are named, or else the next ones in order. */
  lemma MeaningIndices(f: string, ps: seq<Piece>)
    requires Meaning(f).Some? && Parse(f, 0) == Some(ps)
    ensures AllArguments(ps, Meaning(f).value.dirs)
  {
    hide *;
    MeaningNumbered(f, ps);
    UsesTyped(f, ps);
    IndicesOf(AllUses(ps), Number(AllUses(ps)).value);
    ParsedConversions(f, ps);
    RecordsArguments(ps, Number(AllUses(ps)).value.index, AllUses(ps));
  }

  lemma IndicesOf(us: seq<Use>, st: Numbered)
    requires Typed(us, st)
    ensures |st.index| == |us| && forall j :: 0 <= j < |us| ==> st.index[j] == IndexOf(us, j)
  {
    hide IndexOf, Free;
  }

  lemma ParsedConversions(f: string, ps: seq<Piece>)
    requires Parse(f, 0) == Some(ps)
    ensures forall k :: 0 <= k < |ps| ==> IsConversion(ps[k].syntax.conv)
  {
    hide Parse, Stands, IsConversion;
    ParseSound(f, 0);
  }
}
