/** What a whole format string means: its directives, the arguments they use, and the
    records that printf_parse describes them with. */
module PrintfDirectives {
  import opened Options
  import opened CStrings
  import opened PrintfSyntax
  import opened XSize

  // ----- argument types -----------------------------------------------------

  /** arg_type. */
  datatype ArgType =
    | NoType
    | SChar | UChar | Short | UShort | Int | UInt | Long | ULong | LongLong | ULongLong
    | Double | LongDouble | Char | WideChar | Str | WideStr | Pointer
    | CountSChar | CountShort | CountInt | CountLong | CountLongLong

  predicate IsHalf(c: char) {
    c == 'h'
  }

  predicate IsBig(c: char) {
    c == 'L'
  }

  function Count(s: string, kind: char -> bool): nat {
    if s == "" then 0 else Count(s[..|s| - 1], kind) + if kind(s[|s| - 1]) then 1 else 0
  }

  /** The type among five of growing size that the size specifiers choose. */
  function Choose<T>(sizes: string, byte: T, short: T, plain: T, long: T, longLong: T): T {
    if Count(sizes, IsLong) >= 2 || Count(sizes, IsBig) >= 1 then longLong
    else if Count(sizes, IsLong) == 1 then long
    else if Count(sizes, IsHalf) >= 2 then byte
    else if Count(sizes, IsHalf) == 1 then short
    else plain
  }

  /** The type of the argument that a conversion takes; none for "%%". */
  function TypeOf(sizes: string, c: char): ArgType {
    if IsSigned(c) then Choose(sizes, SChar, Short, Int, Long, LongLong)
    else if IsUnsigned(c) then Choose(sizes, UChar, UShort, UInt, ULong, ULongLong)
    else if IsFloat(c) then Choose(sizes, Double, Double, Double, Double, LongDouble)
    else if c == 'c' then if Count(sizes, IsLong) >= 1 then WideChar else Char
    else if c == 's' then if Count(sizes, IsLong) >= 1 then WideStr else Str
    else if c == 'C' then WideChar
    else if c == 'S' then WideStr
    else if c == 'p' then Pointer
    else if c == 'n' then Choose(sizes, CountSChar, CountShort, CountInt, CountLong, CountLongLong)
    else NoType
  }

  lemma {:induction false} CountIs(s: string)
    ensures var m := multiset(s);
            && Count(s, IsLong) == m['l'] + m['j'] + m['z'] + m['Z'] + m['t']
            && Count(s, IsHalf) == m['h'] && Count(s, IsBig) == m['L']
  {
    if s != "" {
      var n := |s| - 1;
      CountIs(s[..n]);
      assert s == s[..n] + [s[n]];
      OneMore(multiset(s[..n]), s[n]);
      assert multiset(s) == multiset(s[..n]) + multiset{s[n]};
      hide IsLong, IsHalf, IsBig;
    }
  }

  lemma OneMore(m: multiset<char>, c: char)
    ensures var m' := m + multiset{c};
            && m'['l'] + m'['j'] + m'['z'] + m'['Z'] + m'['t'] ==
               m['l'] + m['j'] + m['z'] + m['Z'] + m['t'] + (if IsLong(c) then 1 else 0)
            && m'['h'] == m['h'] + (if IsHalf(c) then 1 else 0) && m'['L'] == m['L'] + if IsBig(c) then 1 else 0
  {
  }

  /** The type of an argument, from how often each size is given.  An 'L', or two sizes that
      stand for a long, make it a long long; "hh" a char and 'h' a short. */
  lemma TypeIs(sizes: string, c: char)
    ensures var m, kind := multiset(sizes), TypeOf(sizes, c);
            var longs := m['l'] + m['j'] + m['z'] + m['Z'] + m['t'];
            && (c in "di" ==>
                  && (longs >= 2 || m['L'] >= 1 ==> kind == LongLong)
                  && (longs == 1 && m['L'] == 0 ==> kind == Long)
                  && (longs == m['L'] == 0 ==> kind == if m['h'] == 0 then Int else if m['h'] == 1 then Short else SChar))
            && (c in "ouxX" ==>
                  && (longs >= 2 || m['L'] >= 1 ==> kind == ULongLong)
                  && (longs == 1 && m['L'] == 0 ==> kind == ULong)
                  && (longs == m['L'] == 0 ==> kind == if m['h'] == 0 then UInt else if m['h'] == 1 then UShort else UChar))
            && (c == 'n' ==>
                  && (longs >= 2 || m['L'] >= 1 ==> kind == CountLongLong)
                  && (longs == 1 && m['L'] == 0 ==> kind == CountLong)
                  && (longs == m['L'] == 0 ==>
                        kind == if m['h'] == 0 then CountInt else if m['h'] == 1 then CountShort else CountSChar))
            && (c in "fFeEgGaA" ==> kind == if longs >= 2 || m['L'] >= 1 then LongDouble else Double)
            && (c == 'c' ==> kind == if longs >= 1 then WideChar else Char)
            && (c == 's' ==> kind == if longs >= 1 then WideStr else Str)
            && (c == 'C' ==> kind == WideChar) && (c == 'S' ==> kind == WideStr)
            && (c == 'p' ==> kind == Pointer) && (c == '%' ==> kind == NoType)
  {
    CountIs(sizes);
    hide Count;
  }

  // ----- the arguments of a directive ---------------------------------------

  /** A use of an argument: of the one named, or of the next one. */
  datatype Use = Use(pos: Position, kind: ArgType)

  function StarUse(w: Field): seq<Use> {
    if w.Star? then [Use(w.pos, Int)] else []
  }

  function ValueUse(s: Syntax): seq<Use> {
    if TypeOf(s.sizes, s.conv) == NoType then [] else [Use(s.index, TypeOf(s.sizes, s.conv))]
  }

  function Uses(s: Syntax): seq<Use> {
    StarUse(s.width) + StarUse(s.precision) + ValueUse(s)
  }

  // ----- numbering ----------------------------------------------------------

  /** After some uses: how many arguments were taken in order, the index of the
      argument of each use, and the types of the arguments. */
  datatype Numbered = Numbered(posn: nat, index: seq<nat>, types: seq<ArgType>)

  function Padded(types: seq<ArgType>, n: nat): (p: seq<ArgType>)
    ensures |p| > n && types <= p && forall k :: |types| <= k < |p| ==> p[k] == NoType
    ensures |p| == if n < |types| then |types| else n + 1
  {
    if n < |types| then types else types + seq(n + 1 - |types|, _ => NoType)
  }

  /** An argument that has a type already has to be used with the same one. */
  function Register(types: seq<ArgType>, n: nat, kind: ArgType): Option<seq<ArgType>> {
    var p := Padded(types, n);
    if p[n] == NoType || p[n] == kind then Some(p[n := kind]) else None
  }

  ghost predicate ValidUse(u: Use) {
    ValidPosition(u.pos) && u.kind != NoType
  }

  function Consume(st: Numbered, u: Use): Option<Numbered> {
    var n := if u.pos.Position? then Named(u.pos) else st.posn;
    var types := Register(st.types, n, u.kind);
    if (u.pos.NoPosition? && st.posn >= SIZE_MAX) || types.None? then None
    else Some(Numbered(if u.pos.NoPosition? then st.posn + 1 else st.posn, st.index + [n], types.value))
  }

  ghost predicate ValidUses(us: seq<Use>) {
    forall k :: 0 <= k < |us| ==> ValidUse(us[k])
  }

  function Number(us: seq<Use>): Option<Numbered> {
    if us == [] then Some(Numbered(0, [], [])) else
      var st := Number(us[..|us| - 1]);
      if st.None? then None else Consume(st.value, us[|us| - 1])
  }

  /** How many uses take the next argument. */
  function Free(us: seq<Use>): nat {
    if us == [] then 0 else Free(us[..|us| - 1]) + if us[|us| - 1].pos.NoPosition? then 1 else 0
  }

  /** The argument of use k, as section 7.21.6.1 of ISO C11 and POSIX number them. */
  function IndexOf(us: seq<Use>, k: nat): nat
    requires k < |us|
  {
    if us[k].pos.Position? then Named(us[k].pos) else Free(us[..k])
  }

  /** No argument is used with two types. */
  ghost predicate Agree(us: seq<Use>) {
    forall j, k :: 0 <= j < k < |us| && IndexOf(us, j) == IndexOf(us, k) ==> us[j].kind == us[k].kind
  }

  /** Each argument used has its type, the others have none, and the last one is used. */
  ghost predicate Typed(us: seq<Use>, st: Numbered) {
    && st.posn == Free(us) <= SIZE_MAX && |st.index| == |us| && OnlyUsed(st.index, st.types)
    && forall k :: 0 <= k < |us| ==>
         st.index[k] == IndexOf(us, k) < |st.types| && st.types[st.index[k]] == us[k].kind && st.index[k] < SIZE_MAX
  }

  ghost predicate OnlyUsed(index: seq<nat>, types: seq<ArgType>) {
    && (forall n :: 0 <= n < |types| && types[n] != NoType ==> n in index)
    && (types != [] ==> types[|types| - 1] != NoType)
  }

  lemma PrefixUses(us: seq<Use>, j: nat)
    requires j <= |us|
    ensures ValidUses(us) ==> ValidUses(us[..j])
    ensures forall k :: 0 <= k < j ==> IndexOf(us[..j], k) == IndexOf(us, k)
  {
    forall k | 0 <= k < j
      ensures IndexOf(us[..j], k) == IndexOf(us, k)
    {
      assert us[..j][..k] == us[..k];
    }
  }

  lemma IndexOfLast(us: seq<Use>, st: Numbered)
    requires us != [] && st.posn == Free(us[..|us| - 1])
    ensures var u := us[|us| - 1];
            IndexOf(us, |us| - 1) == if u.pos.Position? then Named(u.pos) else st.posn
  {
  }

  lemma Registered(types: seq<ArgType>, n: nat, kind: ArgType)
    requires Register(types, n, kind).Some? && kind != NoType
    ensures var r := Register(types, n, kind).value;
            && n < |r| && |types| <= |r| && r[n] == kind
            && (forall k :: 0 <= k < |types| && types[k] != NoType ==> r[k] == types[k])
            && (forall k :: 0 <= k < |r| && k != n && r[k] != NoType ==> k < |types| && r[k] == types[k])
            && (|r| == |types| || |r| == n + 1)
  {
  }

  lemma NamedSmall(p: Position)
    requires ValidPosition(p)
    ensures p.Position? ==> Named(p) < SIZE_MAX
  {
  }

  lemma ConsumeIs(us: seq<Use>, st: Numbered)
    requires us != [] && st.posn == Free(us[..|us| - 1]) <= SIZE_MAX && Consume(st, us[|us| - 1]).Some?
    ensures var i := IndexOf(us, |us| - 1); var types := Register(st.types, i, us[|us| - 1].kind);
            types.Some? && Free(us) <= SIZE_MAX
            && Consume(st, us[|us| - 1]) == Some(Numbered(Free(us), st.index + [i], types.value))
            && (us[|us| - 1].pos.NoPosition? ==> i < SIZE_MAX)
  {
    hide Named, Register;
    IndexOfLast(us, st);
    hide IndexOf;
  }

  lemma TypedNext(us: seq<Use>, st: Numbered)
    requires us != [] && ValidUses(us) && Typed(us[..|us| - 1], st)
    requires Consume(st, us[|us| - 1]).Some?
    ensures Typed(us, Consume(st, us[|us| - 1]).value)
  {
    hide Named, ValidPosition, Register, OnlyUsed, IndexOf, Free, Consume, Padded;
    var n := |us| - 1;
    assert ValidUse(us[n]);
    ConsumeIs(us, st);
    PrefixUses(us, n);
    var i := IndexOf(us, n);
    NamedSmall(us[n].pos);
    assert i < SIZE_MAX by { IndexOfLast(us, st); }
    Registered(st.types, i, us[n].kind);
    var types := Register(st.types, i, us[n].kind).value;
    UsedNext(st, i, us[n].kind, types);
    forall k | 0 <= k < n
      ensures st.index[k] == IndexOf(us, k) < |types| && types[st.index[k]] == us[k].kind && st.index[k] < SIZE_MAX
    {
      assert us[..n][k] == us[k] && ValidUse(us[k]);
    }
  }

  lemma UsedNext(st: Numbered, n: nat, kind: ArgType, types: seq<ArgType>)
    requires OnlyUsed(st.index, st.types) && n < |types| && types[n] == kind != NoType
    requires forall k :: 0 <= k < |types| && k != n && types[k] != NoType ==> k < |st.types| && types[k] == st.types[k]
    requires |types| == |st.types| || |types| == n + 1
    requires forall k :: 0 <= k < |st.types| && st.types[k] != NoType ==> k < |types| && types[k] == st.types[k]
    ensures OnlyUsed(st.index + [n], types)
  {
    var index := st.index + [n];
    assert index[|st.index|] == n;
    forall m | 0 <= m < |types| && types[m] != NoType
      ensures m in index
    {
      if m != n {
        assert m in st.index;
      }
    }
  }

  /** The uses can be numbered exactly if every argument keeps its type and the count
      of arguments taken in order stays within a size_t. */
  lemma {:induction false} NumberIs(us: seq<Use>)
    requires ValidUses(us)
    ensures Number(us).Some? <==> Free(us) <= SIZE_MAX && Agree(us)
    ensures Number(us).Some? ==> Typed(us, Number(us).value)
  {
    hide Named, ValidPosition;
    if us != [] {
      var n := |us| - 1;
      PrefixUses(us, n);
      NumberIs(us[..n]);
      if Number(us[..n]).None? {
        NotAgree(us, n);
      } else {
        var st := Number(us[..n]).value;
        IndexOfLast(us, st);
        hide IndexOf;
        if Consume(st, us[n]).Some? {
          TypedNext(us, st);
          TypedAgree(us, Consume(st, us[n]).value);
        } else {
          Conflict(us, st);
        }
      }
    }
  }

  lemma TypedAgree(us: seq<Use>, st: Numbered)
    requires Typed(us, st)
    ensures Agree(us)
  {
    hide IndexOf;
  }

  lemma Conflict(us: seq<Use>, st: Numbered)
    requires us != [] && ValidUses(us) && Typed(us[..|us| - 1], st)
    requires Consume(st, us[|us| - 1]).None?
    ensures !(Free(us) <= SIZE_MAX && Agree(us))
  {
    hide Named, ValidPosition;
    var n := |us| - 1;
    PrefixUses(us, n);
    IndexOfLast(us, st);
    hide IndexOf;
    var i := IndexOf(us, n);
    if i < |st.types| && st.types[i] != NoType {
      var k :| 0 <= k < n && st.index[k] == i;
      assert us[..n][k] == us[k];
    }
  }

  lemma NotAgree(us: seq<Use>, n: nat)
    requires n <= |us| && !(Free(us[..n]) <= SIZE_MAX && Agree(us[..n]))
    ensures !(Free(us) <= SIZE_MAX && Agree(us))
  {
    PrefixUses(us, n);
    FreeGrows(us, n);
    hide IndexOf;
    if !Agree(us[..n]) {
      var j, k :| 0 <= j < k < n && IndexOf(us[..n], j) == IndexOf(us[..n], k) && us[..n][j].kind != us[..n][k].kind;
      assert us[j].kind != us[k].kind;
    }
  }

  lemma {:induction false} FreeGrows(us: seq<Use>, n: nat)
    requires n <= |us|
    ensures Free(us[..n]) <= Free(us) <= Free(us[..n]) + |us| - n
    decreases |us|
  {
    if n < |us| {
      FreeGrows(us[..|us| - 1], n);
      assert us[..|us| - 1][..n] == us[..n];
    } else {
      assert us[..n] == us;
    }
  }

  /** If the first uses cannot be numbered, all cannot. */
  lemma {:induction false} NumberPrefix(us: seq<Use>, n: nat)
    requires n <= |us|
    ensures Number(us[..n]).None? ==> Number(us).None?
    decreases |us|
  {
    if n < |us| {
      NumberPrefix(us[..|us| - 1], n);
      assert us[..|us| - 1][..n] == us[..n];
    } else {
      assert us[..n] == us;
    }
  }

  // ----- the directives of a format string ----------------------------------

  /** A directive and where it stands. */
  datatype Piece = Piece(at: nat, syntax: Syntax)

  function End(p: Piece): nat {
    p.at + |Print(p.syntax)|
  }

  /** The directives from i on, read from left to right. */
  function Parse(f: string, i: nat): Option<seq<Piece>>
    requires i <= |f|
    decreases |f| - i
  {
    if i == |f| then Some([])
    else if f[i] != '%' then Parse(f, i + 1)
    else
      var p := Piece(i, Read(f, i));
      if !Valid(p.syntax) then None else
        ReadSound(f, i);
        PrintStands(f, i, p.syntax);
        After([p], Parse(f, End(p)))
  }

  function After(ps: seq<Piece>, rest: Option<seq<Piece>>): Option<seq<Piece>> {
    if rest.None? then None else Some(ps + rest.value)
  }

  /** Valid directives stand one after the other from i on, and every '%' is in one. */
  ghost predicate Laid(f: string, i: nat, ps: seq<Piece>) {
    && (forall k :: 0 <= k < |ps| ==> i <= ps[k].at && Valid(ps[k].syntax) && Stands(f, ps[k].at, Print(ps[k].syntax)))
    && (forall j, k :: 0 <= j < k < |ps| ==> End(ps[j]) <= ps[k].at)
    && (forall j :: i <= j < |f| && f[j] == '%' ==> exists k :: 0 <= k < |ps| && ps[k].at <= j < End(ps[k]))
  }

  lemma PieceStands(f: string, p: Piece)
    requires Stands(f, p.at, Print(p.syntax))
    ensures p.at < End(p) <= |f| && f[p.at] == '%'
  {
    PrintStands(f, p.at, p.syntax);
    FirstOf(f, p.at, "%");
  }

  lemma {:induction false} ParseSound(f: string, i: nat)
    requires i <= |f| && Parse(f, i).Some?
    ensures Laid(f, i, Parse(f, i).value)
    decreases |f| - i
  {
    hide Valid, Read, Print, Stands;
    if i < |f| && f[i] != '%' {
      ParseSound(f, i + 1);
    } else if i < |f| {
      var p := Piece(i, Read(f, i));
      ReadConv(p.syntax);
      ReadSound(f, i);
      PieceStands(f, p);
      ParseSound(f, End(p));
      LaidFirst(f, p, Parse(f, End(p)).value);
    }
  }

  lemma ReadConv(s: Syntax)
    requires Valid(s)
    ensures IsConversion(s.conv)
  {
  }

  lemma LaidFirst(f: string, p: Piece, ps: seq<Piece>)
    requires Valid(p.syntax) && Stands(f, p.at, Print(p.syntax)) && Laid(f, End(p), ps)
    ensures Laid(f, p.at, [p] + ps)
  {
    hide Valid, Print, Stands;
    PieceStands(f, p);
    var all := [p] + ps;
    forall j | p.at <= j < |f| && f[j] == '%'
      ensures exists k :: 0 <= k < |all| && all[k].at <= j < End(all[k])
    {
      if j < End(p) {
        assert all[0] == p;
      } else {
        var k :| 0 <= k < |ps| && ps[k].at <= j < End(ps[k]);
        assert all[k + 1] == ps[k];
      }
    }
  }

  lemma {:induction false} ParseComplete(f: string, i: nat, ps: seq<Piece>)
    requires i <= |f| && Laid(f, i, ps)
    ensures Parse(f, i) == Some(ps)
    decreases |f| - i
  {
    hide Valid, Read, Print, Stands;
    if ps != [] {
      PieceStands(f, ps[0]);
    }
    if i < |f| && f[i] != '%' {
      LaidLater(f, i, ps);
      ParseComplete(f, i + 1, ps);
    } else if i < |f| {
      LaidHere(f, i, ps);
      ReadComplete(f, i, ps[0].syntax);
      LaidRest(f, i, ps);
      ParseComplete(f, End(ps[0]), ps[1..]);
      assert [ps[0]] + ps[1..] == ps;
    }
  }

  lemma LaidLater(f: string, i: nat, ps: seq<Piece>)
    requires i < |f| && f[i] != '%' && Laid(f, i, ps)
    ensures Laid(f, i + 1, ps)
  {
    hide Valid, Read, Print, Stands;
    forall k | 0 <= k < |ps|
      ensures i + 1 <= ps[k].at
    {
      PieceStands(f, ps[k]);
    }
  }

  lemma LaidHere(f: string, i: nat, ps: seq<Piece>)
    requires i < |f| && f[i] == '%' && Laid(f, i, ps)
    ensures ps != [] && ps[0].at == i
  {
    var k :| 0 <= k < |ps| && ps[k].at <= i < End(ps[k]);
    PieceStands(f, ps[0]);
  }

  lemma LaidRest(f: string, i: nat, ps: seq<Piece>)
    requires Laid(f, i, ps) && ps != [] && ps[0].at == i
    ensures Laid(f, End(ps[0]), ps[1..])
  {
    hide Valid, Print, Stands;
    var rest := ps[1..];
    forall j | End(ps[0]) <= j < |f| && f[j] == '%'
      ensures exists k :: 0 <= k < |rest| && rest[k].at <= j < End(rest[k])
    {
      var k :| 0 <= k < |ps| && ps[k].at <= j < End(ps[k]);
      assert rest[k - 1] == ps[k];
    }
  }

  // ----- the records --------------------------------------------------------

  const ARG_NONE := SIZE_MAX   // ~(size_t)0

  function FlagBit(c: char): bv8 {
    if c == '\'' then 1 else if c == '-' then 2 else if c == '+' then 4 else if c == ' ' then 8
    else if c == '#' then 16 else if c == '0' then 32 else if c == 'I' then 64 else 0
  }

  function FlagBits(s: string): bv8 {
    if s == "" then 0 else FlagBits(s[..|s| - 1]) | FlagBit(s[|s| - 1])
  }

  /** A flag's bit is set exactly if the flag is given. */
  lemma {:induction false} FlagSet(s: string, c: char)
    requires All(s, IsFlag) && IsFlag(c)
    ensures FlagBits(s) & FlagBit(c) != 0 <==> c in s
  {
    hide FlagBit, IsFlag;
    if s != "" {
      var n := |s| - 1;
      FlagSet(s[..n], c);
      assert c in s <==> c in s[..n] || c == s[n] by {
        assert s == s[..n] + [s[n]];
      }
      OneFlag(FlagBits(s[..n]), s[n], c);
    }
  }

  lemma OneFlag(b: bv8, c: char, d: char)
    requires IsFlag(c) && IsFlag(d)
    ensures (b | FlagBit(c)) & FlagBit(d) != 0 <==> b & FlagBit(d) != 0 || c == d
  {
  }

  /** A char_directive; pointers into the format are offsets, NULL is None. */
  datatype Directive = Directive(
    dirStart: nat, dirEnd: nat, flags: bv8,
    widthStart: Option<nat>, widthEnd: Option<nat>, widthArgIndex: nat,
    precisionStart: Option<nat>, precisionEnd: Option<nat>, precisionArgIndex: nat,
    conversion: char, argIndex: nat)

  /** The length of a width without the position behind its '*'. */
  function FieldLength(w: Field): nat {
    match w
    case NoField => 0
    case Star(_) => 1
    case Digits(digits) => |digits|
  }

  /** A precision's length includes its '.'. */
  function PrecisionLength(p: Field): nat {
    if p.NoField? then 0 else 1 + FieldLength(p)
  }

  function Conversion(c: char): char {
    if c == 'C' then 'c' else if c == 'S' then 's' else c
  }

  /** The record of a directive whose uses have the given argument indices. */
  function RecordOf(p: Piece, index: seq<nat>): Directive
    requires |index| == |Uses(p.syntax)|
  {
    var s := p.syntax;
    var o := OffsetsOf(s, p.at);
    var w, q := |StarUse(s.width)|, |StarUse(s.precision)|;
    Directive(
      p.at, End(p), FlagBits(s.flags),
      if s.width.NoField? then None else Some(o.width),
      if s.width.NoField? then None else Some(o.width + FieldLength(s.width)),
      if w == 0 then ARG_NONE else index[0],
      if s.precision.NoField? then None else Some(o.precision),
      if s.precision.NoField? then None else Some(o.precision + PrecisionLength(s.precision)),
      if q == 0 then ARG_NONE else index[w],
      Conversion(s.conv), if ValueUse(s) == [] then ARG_NONE else index[w + q])
  }

  function AllUses(ps: seq<Piece>): seq<Use> {
    if ps == [] then [] else AllUses(ps[..|ps| - 1]) + Uses(ps[|ps| - 1].syntax)
  }

  function Records(ps: seq<Piece>, index: seq<nat>): (ds: seq<Directive>)
    requires |index| == |AllUses(ps)|
    ensures |ds| == |ps|
  {
    if ps == [] then [] else
      var m := |AllUses(ps[..|ps| - 1])|;
      Records(ps[..|ps| - 1], index[..m]) + [RecordOf(ps[|ps| - 1], index[m..])]
  }

  function Max(a: nat, b: nat): nat {
    if a < b then b else a
  }

  function MaxWidth(ps: seq<Piece>): nat {
    if ps == [] then 0 else Max(MaxWidth(ps[..|ps| - 1]), FieldLength(ps[|ps| - 1].syntax.width))
  }

  function MaxPrecision(ps: seq<Piece>): nat {
    if ps == [] then 0 else Max(MaxPrecision(ps[..|ps| - 1]), PrecisionLength(ps[|ps| - 1].syntax.precision))
  }

  // ----- the meaning of a format string -------------------------------------

  datatype Parsed = Parsed(dirs: seq<Directive>, types: seq<ArgType>, maxWidth: nat, maxPrecision: nat)

  /** What is to be found in a format string, or None if it is not valid. */
  function Meaning(f: string): Option<Parsed> {
    var ps := Parse(f, 0);
    if ps.None? then None else
      var st := Number(AllUses(ps.value));
      if st.None? then None else
        NumberLength(AllUses(ps.value));
        Some(Parsed(Records(ps.value, st.value.index), st.value.types, MaxWidth(ps.value), MaxPrecision(ps.value)))
  }

  lemma {:induction false} NumberLength(us: seq<Use>)
    ensures Number(us).Some? ==> |Number(us).value.index| == |us|
  {
    if us != [] {
      NumberLength(us[..|us| - 1]);
    }
  }

  lemma {:induction false} AllUsesValid(ps: seq<Piece>)
    requires forall k :: 0 <= k < |ps| ==> Valid(ps[k].syntax)
    ensures ValidUses(AllUses(ps))
  {
    hide Valid, Uses, ValidUse;
    if ps != [] {
      AllUsesValid(ps[..|ps| - 1]);
      UsesValid(ps[|ps| - 1].syntax);
    }
  }

  lemma UsesValid(s: Syntax)
    requires Valid(s)
    ensures ValidUses(Uses(s))
  {
    hide TypeOf;
  }

  /** A format string is valid exactly if it divides into text and valid directives
      that do not use an argument with two types. */
  lemma MeaningIs(f: string)
    ensures Meaning(f).Some? <==>
            exists ps :: Laid(f, 0, ps) && Free(AllUses(ps)) <= SIZE_MAX && Agree(AllUses(ps))
  {
    hide Agree, Records, Valid, Stands, End;
    if Parse(f, 0).Some? {
      ParseSound(f, 0);
      AllUsesValid(Parse(f, 0).value);
      NumberIs(AllUses(Parse(f, 0).value));
    }
    if ps :| Laid(f, 0, ps) && Free(AllUses(ps)) <= SIZE_MAX && Agree(AllUses(ps)) {
      ParseComplete(f, 0, ps);
    }
  }

  /** The index, unless it is ARG_NONE, is that of an argument of the given type. */
  predicate Holds(types: seq<ArgType>, index: nat, kind: ArgType) {
    index != ARG_NONE ==> index < |types| && types[index] == kind
  }

  /** Widths and precisions taken from arguments are of type int, and the value of a
      directive has the type of its conversion. */
  predicate Typechecks(p: Piece, d: Directive, types: seq<ArgType>) {
    && (d.widthArgIndex != ARG_NONE <==> p.syntax.width.Star?)
    && (d.precisionArgIndex != ARG_NONE <==> p.syntax.precision.Star?)
    && (d.argIndex != ARG_NONE <==> ValueUse(p.syntax) != [])
    && Holds(types, d.widthArgIndex, Int) && Holds(types, d.precisionArgIndex, Int)
    && Holds(types, d.argIndex, TypeOf(p.syntax.sizes, p.syntax.conv))
  }

  lemma RecordTypes(p: Piece, index: seq<nat>, types: seq<ArgType>)
    requires |index| == |Uses(p.syntax)|
    requires forall k :: 0 <= k < |index| ==> index[k] < |types| && types[index[k]] == Uses(p.syntax)[k].kind && index[k] < SIZE_MAX
    ensures Typechecks(p, RecordOf(p, index), types)
  {
    hide TypeOf, FlagBits, Conversion, Print, PrintField, PrintPosition, PrintPrecision;
  }

  lemma {:induction false} RecordsType(ps: seq<Piece>, index: seq<nat>, types: seq<ArgType>)
    requires |index| == |AllUses(ps)|
    requires forall k :: 0 <= k < |index| ==> index[k] < |types| && types[index[k]] == AllUses(ps)[k].kind && index[k] < SIZE_MAX
    ensures forall k :: 0 <= k < |ps| ==> Typechecks(ps[k], Records(ps, index)[k], types)
  {
    hide Typechecks, RecordOf, Uses;
    if ps != [] {
      var n := |ps| - 1;
      var m := |AllUses(ps[..n])|;
      RecordsType(ps[..n], index[..m], types);
      RecordTypes(ps[n], index[m..], types);
      forall k | 0 <= k < n
        ensures Typechecks(ps[k], Records(ps, index)[k], types)
      {
        assert ps[..n][k] == ps[k];
      }
    }
  }

  /** The arguments of a valid format string: those that no directive refers to have no
      type, and the last one is referred to. */
  lemma MeaningArguments(f: string, ps: seq<Piece>)
    requires Meaning(f).Some? && Parse(f, 0) == Some(ps)
    ensures var types := Meaning(f).value.types; var us := AllUses(ps);
            && (forall k :: 0 <= k < |us| ==> IndexOf(us, k) < |types| && types[IndexOf(us, k)] == us[k].kind)
            && (forall n :: 0 <= n < |types| && types[n] != NoType ==> exists k :: 0 <= k < |us| && IndexOf(us, k) == n)
            && (types != [] ==> types[|types| - 1] != NoType)
  {
    hide *;
    MeaningNumbered(f, ps);
    UsesTyped(f, ps);
    TypedReferred(AllUses(ps), Number(AllUses(ps)).value);
  }

  lemma UsesTyped(f: string, ps: seq<Piece>)
    requires Parse(f, 0) == Some(ps) && Number(AllUses(ps)).Some?
    ensures Typed(AllUses(ps), Number(AllUses(ps)).value)
  {
    hide Parse, Number, AllUses, Typed, ValidUses, Valid, Stands, End;
    ParseSound(f, 0);
    AllUsesValid(ps);
    NumberIs(AllUses(ps));
  }

  lemma MeaningNumbered(f: string, ps: seq<Piece>)
    requires Meaning(f).Some? && Parse(f, 0) == Some(ps)
    ensures var st := Number(AllUses(ps));
            && st.Some? && |st.value.index| == |AllUses(ps)|
            && Meaning(f).value.types == st.value.types && Meaning(f).value.dirs == Records(ps, st.value.index)
  {
    hide Parse, Number, AllUses, Records;
    NumberLength(AllUses(ps));
  }

  lemma TypedReferred(us: seq<Use>, st: Numbered)
    requires Typed(us, st)
    ensures forall k :: 0 <= k < |us| ==> IndexOf(us, k) < |st.types| && st.types[IndexOf(us, k)] == us[k].kind
    ensures forall n :: 0 <= n < |st.types| && st.types[n] != NoType ==> exists k :: 0 <= k < |us| && IndexOf(us, k) == n
    ensures st.types != [] ==> st.types[|st.types| - 1] != NoType
  {
    hide IndexOf, Free;
    forall n | 0 <= n < |st.types| && st.types[n] != NoType
      ensures exists k :: 0 <= k < |us| && IndexOf(us, k) == n
    {
      var k :| 0 <= k < |us| && st.index[k] == n;
      assert IndexOf(us, k) == n;
    }
  }

  /** In a valid format string the records lie where the directives do, and every index
      in a record is that of an argument of the type it needs. */
  lemma MeaningTypes(f: string, ps: seq<Piece>)
    requires Meaning(f).Some? && Parse(f, 0) == Some(ps)
    ensures var m := Meaning(f).value;
            && |m.dirs| == |ps| && Laid(f, 0, ps)
            && (forall k :: 0 <= k < |ps| ==> m.dirs[k].dirStart == ps[k].at && m.dirs[k].dirEnd == End(ps[k]))
            && (forall k :: 0 <= k < |ps| ==> Typechecks(ps[k], m.dirs[k], m.types))
  {
    hide IndexOf, Typechecks, RecordOf, Free, Valid, Stands, End, OnlyUsed;
    ParseSound(f, 0);
    AllUsesValid(ps);
    hide Laid;
    NumberIs(AllUses(ps));
    var st := Number(AllUses(ps)).value;
    RecordsType(ps, st.index, st.types);
    RecordsPlaces(ps, st.index);
  }

  lemma {:induction false} RecordsPlaces(ps: seq<Piece>, index: seq<nat>)
    requires |index| == |AllUses(ps)|
    ensures forall k :: 0 <= k < |ps| ==> Records(ps, index)[k].dirStart == ps[k].at && Records(ps, index)[k].dirEnd == End(ps[k])
  {
    hide RecordOf, Uses, End;
    if ps != [] {
      var n := |ps| - 1;
      var m := |AllUses(ps[..n])|;
      RecordsPlaces(ps[..n], index[..m]);
      RecordPlace(ps[n], index[m..]);
    }
  }

  lemma RecordPlace(p: Piece, index: seq<nat>)
    requires |index| == |Uses(p.syntax)|
    ensures RecordOf(p, index).dirStart == p.at && RecordOf(p, index).dirEnd == End(p)
  {
  }

  // ----- the count of arguments ---------------------------------------------

  lemma UsesShort(s: Syntax)
    ensures |Uses(s)| <= |Print(s)|
  {
    PrintStands("", 0, s);
  }

  lemma {:induction false} FreeWithin(ps: seq<Piece>)
    requires forall j, k :: 0 <= j < k < |ps| ==> End(ps[j]) <= ps[k].at
    ensures Free(AllUses(ps)) <= if ps == [] then 0 else End(ps[|ps| - 1])
  {
    hide Print, Uses, Stands, Valid;
    if ps != [] {
      var n := |ps| - 1;
      FreeWithin(ps[..n]);
      UsesShort(ps[n].syntax);
      FreeGrows(AllUses(ps), |AllUses(ps[..n])|);
      assert AllUses(ps)[..|AllUses(ps[..n])|] == AllUses(ps[..n]);
    }
  }

  /** A string that fits into memory does not take more arguments than a size_t counts. */
  lemma NeverWraps(f: string)
    requires |f| <= SIZE_MAX
    ensures Meaning(f).Some? <==> exists ps :: Laid(f, 0, ps) && Agree(AllUses(ps))
  {
    MeaningIs(f);
    hide Agree, Meaning, Valid;
    forall ps | Laid(f, 0, ps)
      ensures Free(AllUses(ps)) <= SIZE_MAX
    {
      FreeWithin(ps);
      if ps != [] {
        PieceStands(f, ps[|ps| - 1]);
      }
    }
  }
}
