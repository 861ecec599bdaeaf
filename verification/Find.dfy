/** Finding the interpreters of a file: the records of the formats that are enabled, with
    their escapes expanded, are matched as the kernel matches them, and detectors are run. */
module Find {
  import opened Decimals
  import opened Options
  import opened Format
  import opened Words

  // ----- escapes ------------------------------------------------------------

  function HexDigit(c: char): Option<nat> {
    if '0' <= c <= '9' then Some(c as int - '0' as int)
    else if 'a' <= c <= 'f' then Some(c as int - 'a' as int + 10)
    else if 'A' <= c <= 'F' then Some(c as int - 'A' as int + 10)
    else None
  }

  /** strtol with base 16 on two characters, if it uses both: besides two digits these
      may be a blank or a sign and a digit (section 7.22.1.4 of ISO C11). */
  function HexPair(c: char, d: char): Option<int> {
    var low: Option<int> := HexDigit(d);
    if low.None? then None
    else if HexDigit(c).Some? then Some(16 * HexDigit(c).value + low.value)
    else if c == '-' then Some(0 - low.value)
    else if c == '+' || IsSpace(c) then Some(low.value)
    else None
  }

  function ByteOf(c: char): Byte {
    c as int % 256
  }

  /** Does s begin with an escape? */
  predicate Escaped(s: string) {
    |s| >= 4 && s[0] == '\\' && s[1] == 'x' && HexPair(s[2], s[3]).Some?
  }

  function Expand(s: string): (e: seq<Byte>)
    ensures |e| <= |s|
  {
    if s == "" then []
    else if Escaped(s) then [HexPair(s[2], s[3]).value % 256] + Expand(s[4..])
    else [ByteOf(s[0])] + Expand(s[1..])
  }

  function DigitChar(n: nat): char
    requires n < 16
  {
    if n < 10 then ('0' as int + n) as char else ('a' as int + n - 10) as char
  }

  /** Bytes written with escapes only. */
  function Escape(bytes: seq<Byte>): string {
    if bytes == [] then "" else
      ['\\', 'x', DigitChar(bytes[0] / 16), DigitChar(bytes[0] % 16)] + Escape(bytes[1..])
  }

  /** Every sequence of bytes can be written with escapes. */
  lemma {:induction false} ExpandEscape(bytes: seq<Byte>)
    ensures Expand(Escape(bytes)) == bytes
  {
    if bytes != [] {
      ExpandEscape(bytes[1..]);
      var s := Escape(bytes);
      var b := bytes[0];
      assert s[4..] == Escape(bytes[1..]);
      assert HexDigit(DigitChar(b / 16)) == Some(b / 16) && HexDigit(DigitChar(b % 16)) == Some(b % 16);
      assert HexPair(s[2], s[3]) == Some(b);
      assert bytes == [b] + bytes[1..];
    }
  }

  /** A character of a string, or an escaped byte with digits of either case. */
  datatype Piece = Raw(c: char) | Hex(byte: Byte, upperFirst: bool, upperSecond: bool)

  function HexChar(n: nat, upper: bool): char
    requires n < 16
  {
    if upper then "0123456789ABCDEF"[n] else "0123456789abcdef"[n]
  }

  function PieceText(p: Piece): string {
    match p
    case Raw(c) => [c]
    case Hex(b, first, second) => ['\\', 'x', HexChar(b / 16, first), HexChar(b % 16, second)]
  }

  function PiecesText(ps: seq<Piece>): string {
    if ps == [] then "" else PieceText(ps[0]) + PiecesText(ps[1..])
  }

  /** The bytes that the pieces stand for. */
  function PiecesBytes(ps: seq<Piece>): seq<Byte>
    requires forall k :: 0 <= k < |ps| && ps[k].Raw? ==> ps[k].c as int < 256
  {
    if ps == [] then [] else [if ps[0].Raw? then ps[0].c as int else ps[0].byte] + PiecesBytes(ps[1..])
  }

  lemma HexCharIs(n: nat, upper: bool)
    requires n < 16
    ensures HexDigit(HexChar(n, upper)) == Some(n)
  {
    if upper {
      assert n >= 10 ==> "0123456789ABCDEF"[n] as int == 'A' as int + n - 10;
    } else {
      assert n >= 10 ==> "0123456789abcdef"[n] as int == 'a' as int + n - 10;
    }
    assert n < 10 ==> "0123456789ABCDEF"[n] as int == '0' as int + n && "0123456789abcdef"[n] as int == '0' as int + n;
  }

  /** What is not an escape stays, and what is, in digits of either case, is its byte. */
  lemma {:induction false} ExpandPieces(ps: seq<Piece>)
    requires forall k :: 0 <= k < |ps| && ps[k].Raw? ==> ps[k].c as int < 256
    requires forall k :: 0 <= k < |ps| - 1 && ps[k] == Raw('\\') ==> ps[k + 1] != Raw('x')
    ensures Expand(PiecesText(ps)) == PiecesBytes(ps)
  {
    if ps != [] {
      ExpandPieces(ps[1..]);
      var rest := PiecesText(ps[1..]);
      match ps[0]
      case Raw(c) =>
        if c == '\\' && |ps| > 1 {
          FirstChar(ps[1], PiecesText(ps[1..][1..]));
        }
        RawFirst(c, rest);
      case Hex(b, first, second) =>
        HexFirst(b, first, second, rest);
    }
  }

  lemma FirstChar(p: Piece, rest: string)
    ensures PieceText(p) + rest != "" && ((PieceText(p) + rest)[0] == 'x' ==> p == Raw('x'))
  {
  }

  lemma RawFirst(c: char, rest: string)
    requires c as int < 256 && (c == '\\' && rest != "" ==> rest[0] != 'x')
    ensures Expand([c] + rest) == [c as int] + Expand(rest)
  {
    NoEscape(c, rest);
    hide Escaped, HexPair;
    assert ([c] + rest)[1..] == rest && ByteOf(c) == c as int;
  }

  lemma NoEscape(c: char, rest: string)
    requires c == '\\' && rest != "" ==> rest[0] != 'x'
    ensures !Escaped([c] + rest)
  {
    hide HexPair;
  }

  lemma HexFirst(b: Byte, first: bool, second: bool, rest: string)
    ensures Expand(PieceText(Hex(b, first, second)) + rest) == [b] + Expand(rest)
  {
    var c, d := HexChar(b / 16, first), HexChar(b % 16, second);
    HexCharIs(b / 16, first);
    HexCharIs(b % 16, second);
    hide HexDigit, HexChar;
    assert HexPair(c, d) == Some(b);
    hide HexPair, Expand;
    EscapeFirst(c, d, b, rest);
  }

  lemma EscapeFirst(c: char, d: char, value: int, rest: string)
    requires HexPair(c, d) == Some(value)
    ensures Expand(['\\', 'x', c, d] + rest) == [value % 256] + Expand(rest)
  {
    hide HexPair;
    var s := ['\\', 'x', c, d] + rest;
    assert s[4..] == rest;
  }

  /** A sign or a blank before one digit makes an escape, too. */
  lemma ExpandQuirks(c: char, n: nat, upper: bool, rest: string)
    requires n < 16 && (c == '+' || c == '-' || c == ' ' || 9 <= c as int <= 13)
    ensures Expand(['\\', 'x', c, HexChar(n, upper)] + rest) == [if c == '-' && n > 0 then 256 - n else n] + Expand(rest)
  {
    HexCharIs(n, upper);
    var d := HexChar(n, upper);
    assert HexDigit(c) == None && (IsSpace(c) <==> c == ' ' || 9 <= c as int <= 13);
    assert HexPair(c, d) == Some(if c == '-' then 0 - n else n);
    hide HexDigit, HexChar, HexPair, Expand;
    EscapeFirst(c, d, if c == '-' then 0 - n else n, rest);
  }

  /** One step of the expansion of what is at i. */
  lemma ExpandStep(s: string, i: nat)
    requires i < |s|
    ensures Escaped(s[i..]) <==> i + 4 <= |s| && s[i] == '\\' && s[i + 1] == 'x' && HexPair(s[i + 2], s[i + 3]).Some?
    ensures Escaped(s[i..]) ==> Expand(s[i..]) == [HexPair(s[i + 2], s[i + 3]).value % 256] + Expand(s[i + 4..])
    ensures !Escaped(s[i..]) ==> Expand(s[i..]) == [ByteOf(s[i])] + Expand(s[i + 1..])
  {
    var rest := s[i..];
    assert i + 4 <= |s| ==> rest[4..] == s[i + 4..];
    assert rest[1..] == s[i + 1..];
  }

  lemma Assoc(a: seq<Byte>, b: Byte, c: seq<Byte>)
    ensures a + ([b] + c) == a + [b] + c
  {
  }

  /** expand_hex: the result fits into a copy of the string with its terminator. */
  method ExpandHex(str: string) returns (bytes: seq<Byte>)
    ensures bytes == Expand(str)
  {
    hide Expand, Escaped, HexPair, ByteOf;
    var len := |str|;
    var copy := new Byte[len + 1];
    var p, s := 0, 0;
    ghost var done: seq<Byte> := [];
    assert str[0..] == str;
    assert done + Expand(str) == Expand(str);
    while s < len
      invariant s <= len && p <= s
      invariant copy[..p] == done && done + Expand(str[s..]) == Expand(str)
    {
      ExpandStep(str, s);
      ghost var from := s;
      if s + 4 <= len && str[s] == '\\' && str[s + 1] == 'x' && HexPair(str[s + 2], str[s + 3]).Some? {
        copy[p] := HexPair(str[s + 2], str[s + 3]).value % 256;
        s := s + 4;
      } else {
        copy[p] := ByteOf(str[s]);
        s := s + 1;
      }
      Assoc(done, copy[p], Expand(str[s..]));
      done := done + [copy[p]];
      p := p + 1;
    }
    ExpandEnd(str);
    copy[p] := 0;
    bytes := copy[..p];
  }

  lemma ExpandEnd(s: string)
    ensures Expand(s[|s|..]) == []
  {
  }

  // ----- the formats --------------------------------------------------------

  /** A record as it is used for matching: magic and mask are expanded. */
  datatype Target = Target(name: string, kind: string, offset: string, magic: seq<Byte>, mask: seq<Byte>,
                           interpreter: string, detector: string)

  function TargetOf(b: Binfmt): Target {
    Target(b.name, Text(b.kind), if Text(b.offset) == "" then "0" else Text(b.offset), Expand(Text(b.magic)),
           Expand(Text(b.mask)), Text(b.interpreter), Text(b.detector))
  }

  /** A mask has the length of its magic, or is empty. */
  predicate Fitting(t: Target) {
    t.mask == [] || |t.mask| == |t.magic|
  }

  /** The formats of a directory that are enabled in the kernel and have fitting masks,
      in the order in which the directory is read; None if a record cannot be loaded. */
  function Usable(entries: seq<(string, string)>, enabled: set<string>): Option<seq<Target>> {
    if entries == [] then Some([]) else
      var before := Usable(entries[..|entries| - 1], enabled);
      var (name, content) := entries[|entries| - 1];
      if before.None? || name == "." || name == ".." || name !in enabled then before
      else if Decode(name, content).None? then None
      else
        var t := TargetOf(Decode(name, content).value);
        Some(if Fitting(t) then before.value + [t] else before.value)
  }

  /** load_all_formats */
  method LoadTargets(entries: seq<(string, string)>, enabled: set<string>) returns (targets: Option<seq<Target>>)
    ensures targets == Usable(entries, enabled)
    ensures targets.Some? ==> forall k :: 0 <= k < |targets.value| ==> Fitting(targets.value[k])
  {
    hide Decode, Expand, Usable;
    NoneUsable(enabled);
    assert entries[..0] == [];
    var list: seq<Target> := [];
    for k := 0 to |entries|
      invariant Usable(entries[..k], enabled) == Some(list)
      invariant forall j :: 0 <= j < |list| ==> Fitting(list[j])
    {
      UsableNext(entries, enabled, k);
      var (name, content) := entries[k];
      if name == "." || name == ".." || name !in enabled {
        continue;
      }
      var r := Load(name, content, false);
      if !r.Loaded? {
        NeverUsable(entries, enabled, k + 1);
        return None;
      }
      var b := r.record;
      var magic := ExpandHex(Text(b.magic));
      var mask := ExpandHex(Text(b.mask));
      if |mask| != 0 && |mask| != |magic| {
        continue;
      }
      var offset := if Text(b.offset) == "" then "0" else Text(b.offset);
      list := list + [Target(b.name, Text(b.kind), offset, magic, mask, Text(b.interpreter), Text(b.detector))];
    }
    assert entries[..|entries|] == entries;
    targets := Some(list);
  }

  /** What is loaded: the enabled records, field by field, with a mask of the right length;
      all of the enabled ones have to be loadable. */
  lemma {:induction false} UsableAre(entries: seq<(string, string)>, enabled: set<string>)
    ensures Usable(entries, enabled).None? <==> SomeUnloadable(entries, enabled)
    ensures Usable(entries, enabled).Some? ==>
              forall t :: t in Usable(entries, enabled).value <==> SomeLoaded(entries, enabled, t)
  {
    if entries == [] {
      NoneUsable(enabled);
    } else {
      hide *;
      UsableAre(entries[..|entries| - 1], enabled);
      UsableStep(entries, enabled);
      SomeStep(entries, enabled);
    }
  }

  predicate SomeUnloadable(entries: seq<(string, string)>, enabled: set<string>) {
    exists k :: 0 <= k < |entries| && entries[k].0 !in {".", ".."} && entries[k].0 in enabled
                && Decode(entries[k].0, entries[k].1).None?
  }

  predicate SomeLoaded(entries: seq<(string, string)>, enabled: set<string>, t: Target) {
    exists k :: 0 <= k < |entries| && IsLoaded(entries[k], enabled, t)
  }

  lemma UsableStep(entries: seq<(string, string)>, enabled: set<string>)
    requires entries != []
    ensures var before, e := Usable(entries[..|entries| - 1], enabled), entries[|entries| - 1];
            && (Usable(entries, enabled).None? <==>
                  before.None? || (e.0 !in {".", ".."} && e.0 in enabled && Decode(e.0, e.1).None?))
            && (Usable(entries, enabled).Some? ==>
                  forall t :: t in Usable(entries, enabled).value <==> t in before.value || IsLoaded(e, enabled, t))
  {
    hide Decode, Expand;
  }

  lemma SomeStep(entries: seq<(string, string)>, enabled: set<string>)
    requires entries != []
    ensures var before, e := entries[..|entries| - 1], entries[|entries| - 1];
            && (SomeUnloadable(entries, enabled) <==>
                  SomeUnloadable(before, enabled) || (e.0 !in {".", ".."} && e.0 in enabled && Decode(e.0, e.1).None?))
            && (forall t :: SomeLoaded(entries, enabled, t) <==> SomeLoaded(before, enabled, t) || IsLoaded(e, enabled, t))
  {
    hide IsLoaded, Decode;
    var before, n := entries[..|entries| - 1], |entries| - 1;
    assert forall k :: 0 <= k < n ==> before[k] == entries[k];
    forall t
      ensures SomeLoaded(entries, enabled, t) <==> SomeLoaded(before, enabled, t) || IsLoaded(entries[n], enabled, t)
    {
      if k :| 0 <= k < n && IsLoaded(before[k], enabled, t) {
        assert IsLoaded(entries[k], enabled, t);
      }
    }
  }

  predicate IsLoaded(entry: (string, string), enabled: set<string>, t: Target) {
    && entry.0 !in {".", ".."} && entry.0 in enabled && Decode(entry.0, entry.1).Some?
    && var b := Decode(entry.0, entry.1).value;
    && t.name == b.name && t.kind == Text(b.kind) && t.offset == (if Text(b.offset) == "" then "0" else Text(b.offset))
    && t.magic == Expand(Text(b.magic)) && t.mask == Expand(Text(b.mask)) && (t.mask == [] || |t.mask| == |t.magic|)
    && t.interpreter == Text(b.interpreter) && t.detector == Text(b.detector)
  }

  lemma NoneUsable(enabled: set<string>)
    ensures Usable([], enabled) == Some([])
  {
  }

  lemma UsableNext(entries: seq<(string, string)>, enabled: set<string>, k: nat)
    requires k < |entries|
    ensures var before := Usable(entries[..k], enabled);
            var (name, content) := entries[k];
            Usable(entries[..k + 1], enabled) ==
              if before.None? || name == "." || name == ".." || name !in enabled then before
              else if Decode(name, content).None? then None
              else if Fitting(TargetOf(Decode(name, content).value)) then
                Some(before.value + [TargetOf(Decode(name, content).value)])
              else before
  {
    hide Decode, TargetOf;
    assert entries[..k + 1][..k] == entries[..k];
  }

  lemma {:induction false} NeverUsable(entries: seq<(string, string)>, enabled: set<string>, k: nat)
    requires k <= |entries| && Usable(entries[..k], enabled).None?
    ensures Usable(entries, enabled).None?
    decreases |entries|
  {
    if k == |entries| {
      assert entries[..k] == entries;
    } else {
      assert entries[..|entries| - 1][..k] == entries[..k];
      NeverUsable(entries[..|entries| - 1], enabled, k);
    }
  }

  // ----- matching -----------------------------------------------------------

  /** atoi on the digits of an offset, with blanks and a sign before them. */
  function Atoi(s: string): int {
    if s != "" && IsSpace(s[0]) then Atoi(s[1..])
    else if s != "" && s[0] == '-' then -Digits(s[1..], 0)
    else if s != "" && s[0] == '+' then Digits(s[1..], 0)
    else Digits(s, 0)
  }

  function Digits(s: string, n: int): int {
    if s != "" && '0' <= s[0] <= '9' then Digits(s[1..], 10 * n + (s[0] as int - '0' as int)) else n
  }

  /** The digits of a number are read as that number. */
  lemma {:induction false} DecimalRead(k: nat, rest: string)
    ensures Digits(Decimal(k) + rest, 0) == Digits(rest, k)
  {
    var d := "0123456789"[k % 10];
    DigitIs(k % 10);
    if k < 10 {
      assert (Decimal(k) + rest)[1..] == rest;
    } else {
      assert Decimal(k) + rest == Decimal(k / 10) + ([d] + rest);
      hide Decimal;
      DecimalRead(k / 10, [d] + rest);
      OneDigit(d, k % 10, rest, k / 10);
    }
  }

  lemma OneDigit(c: char, d: nat, rest: string, n: nat)
    requires d < 10 && c as int == '0' as int + d
    ensures Digits([c] + rest, n) == Digits(rest, 10 * n + d)
  {
    assert ([c] + rest)[1..] == rest;
  }

  /** atoi of a number in decimal, behind blanks and a sign, is that number, whatever follows
      that is not a digit. */
  lemma AtoiIs(blanks: string, sign: string, k: nat, rest: string)
    requires forall i :: 0 <= i < |blanks| ==> blanks[i] == ' ' || 9 <= blanks[i] as int <= 13
    requires sign in {"", "+", "-"} && (rest == "" || !('0' <= rest[0] <= '9'))
    ensures var n: int := k;
            Atoi(blanks + sign + Decimal(k) + rest) == if sign == "-" then -n else n
  {
    hide *;
    var t := sign + (Decimal(k) + rest);
    Regroup(blanks, sign, Decimal(k), rest);
    BlanksRead(blanks, t);
    SignRead(sign, k, rest);
  }

  lemma Regroup(a: string, b: string, c: string, d: string)
    ensures a + b + c + d == a + (b + (c + d))
  {
  }

  lemma {:induction false} BlanksRead(blanks: string, t: string)
    requires forall i :: 0 <= i < |blanks| ==> blanks[i] == ' ' || 9 <= blanks[i] as int <= 13
    ensures Atoi(blanks + t) == Atoi(t)
  {
    hide *;
    if blanks == "" {
      assert blanks + t == t;
    } else {
      assert (blanks + t)[0] == blanks[0] && (blanks + t)[1..] == blanks[1..] + t;
      BlanksRead(blanks[1..], t);
      BlankRead(blanks + t);
    }
  }

  lemma BlankRead(s: string)
    requires s != "" && (s[0] == ' ' || 9 <= s[0] as int <= 13)
    ensures Atoi(s) == Atoi(s[1..])
  {
  }

  lemma SignRead(sign: string, k: nat, rest: string)
    requires sign in {"", "+", "-"} && (rest == "" || !('0' <= rest[0] <= '9'))
    ensures var n: int := k;
            Atoi(sign + (Decimal(k) + rest)) == if sign == "-" then -n else n
  {
    var t := Decimal(k) + rest;
    assert t[0] == Decimal(k)[0];
    DecimalRead(k, rest);
    hide Decimal;
    if sign == "" {
      assert sign + t == t;
    } else {
      assert (sign + t)[0] == sign[0] && (sign + t)[1..] == t;
    }
  }

  /** An offset written in decimal. */
  lemma OffsetIs(t: Target, k: nat)
    requires t.offset == Decimal(k)
    ensures Atoi(t.offset) == k
  {
    AtoiIs("", "", k, "");
    assert "" + "" + Decimal(k) + "" == Decimal(k);
  }

  /** The matching in the program: what is read, masked, is the magic.  A mask that
      begins with a zero byte is not used. */
  predicate UserMatch(t: Target, buf: seq<Byte>)
    requires Fitting(t) && |buf| == |t.magic|
  {
    forall i :: 0 <= i < |buf| ==>
      (if t.mask != [] && t.mask[0] != 0 then AndByte(buf[i], t.mask[i]) else buf[i]) == t.magic[i]
  }

  /** The matching in the kernel: nothing differs under the mask. */
  predicate KernelMatch(t: Target, buf: seq<Byte>)
    requires Fitting(t) && |buf| == |t.magic|
  {
    forall i :: 0 <= i < |buf| ==>
      AndByte(XorByte(buf[i], t.magic[i]), if t.mask == [] then 255 else t.mask[i]) == 0
  }

  /** Does the magic have no bits outside the mask, and is the mask used? */
  predicate Faithful(t: Target)
    requires Fitting(t)
  {
    t.mask == [] || (t.mask[0] != 0 && forall i :: 0 <= i < |t.magic| ==> AndByte(t.magic[i], NotByte(t.mask[i])) == 0)
  }

  lemma MaskBits(b: bv8, g: bv8, m: bv8)
    ensures b & m == g ==> (b ^ g) & m == 0 && g & !m == 0
  {
  }

  lemma CoveredBits(b: bv8, g: bv8, m: bv8)
    requires g & !m == 0
    ensures b & m == g <==> (b ^ g) & m == 0
  {
  }

  lemma PlainBits(b: bv8, g: bv8, m: bv8)
    ensures (g ^ g) & m == 0 && (b ^ g) & 0 == 0 && ((b ^ g) & 255 == 0 <==> b == g)
  {
  }

  /** AndByte on the bits of its arguments and of its result. */
  lemma AndIs(x: Byte, y: Byte, z: Byte)
    ensures AndByte(x, y) == z <==> Bits(x) & Bits(y) == Bits(z)
  {
    hide Bits, Num;
    BitsNum(Bits(x) & Bits(y));
    NumBits(AndByte(x, y));
    NumBits(z);
  }

  lemma XorIs(x: Byte, y: Byte)
    ensures Bits(XorByte(x, y)) == Bits(x) ^ Bits(y) && Bits(NotByte(x)) == !Bits(x)
  {
    hide Bits, Num;
    BitsNum(Bits(x) ^ Bits(y));
    BitsNum(!Bits(x));
  }

  lemma MaskedBytes(b: Byte, g: Byte, m: Byte)
    requires AndByte(b, m) == g
    ensures AndByte(XorByte(b, g), m) == 0 && AndByte(g, NotByte(m)) == 0
  {
    AllBits();
    XorIs(b, g);
    XorIs(m, m);
    AndIs(b, m, g);
    AndIs(XorByte(b, g), m, 0);
    AndIs(g, NotByte(m), 0);
    hide AndByte, XorByte, NotByte, Bits;
    MaskBits(Bits(b), Bits(g), Bits(m));
  }

  lemma CoveredBytes(b: Byte, g: Byte, m: Byte)
    requires AndByte(g, NotByte(m)) == 0
    ensures AndByte(b, m) == g <==> AndByte(XorByte(b, g), m) == 0
  {
    hide AndByte, XorByte, NotByte, Bits;
    AllBits();
    XorIs(b, g);
    XorIs(m, m);
    AndIs(b, m, g);
    AndIs(XorByte(b, g), m, 0);
    AndIs(g, NotByte(m), 0);
    CoveredBits(Bits(b), Bits(g), Bits(m));
  }

  lemma MaskBytes(b: Byte, g: Byte, m: Byte)
    ensures AndByte(b, m) == g ==> AndByte(XorByte(b, g), m) == 0 && AndByte(g, NotByte(m)) == 0
    ensures AndByte(g, NotByte(m)) == 0 ==> (AndByte(b, m) == g <==> AndByte(XorByte(b, g), m) == 0)
  {
    hide AndByte, XorByte, NotByte;
    if AndByte(b, m) == g {
      MaskedBytes(b, g, m);
    }
    if AndByte(g, NotByte(m)) == 0 {
      CoveredBytes(b, g, m);
    }
  }

  lemma PlainBytes(b: Byte, g: Byte, m: Byte)
    ensures AndByte(XorByte(g, g), m) == 0 && AndByte(XorByte(b, g), 0) == 0
    ensures AndByte(XorByte(b, g), 255) == 0 <==> b == g
  {
    AllBits();
    XorIs(b, g);
    XorIs(g, g);
    AndIs(XorByte(g, g), m, 0);
    AndIs(XorByte(b, g), 0, 0);
    AndIs(XorByte(b, g), 255, 0);
    NumBits(b);
    NumBits(g);
    hide AndByte, XorByte, NotByte, Bits, Num;
    PlainBits(Bits(b), Bits(g), Bits(m));
  }

  lemma AllBits()
    ensures Bits(0) == 0 && Bits(255) == 255
  {
  }

  /** What matches here matches in the kernel. */
  lemma UserMatchesKernel(t: Target, buf: seq<Byte>)
    requires Fitting(t) && |buf| == |t.magic| && UserMatch(t, buf)
    ensures KernelMatch(t, buf)
  {
    hide AndByte, XorByte;
    forall i | 0 <= i < |buf|
      ensures AndByte(XorByte(buf[i], t.magic[i]), if t.mask == [] then 255 else t.mask[i]) == 0
    {
      var m: Byte := if t.mask == [] then 255 else t.mask[i];
      PlainBytes(buf[i], t.magic[i], m);
      MaskBytes(buf[i], t.magic[i], m);
    }
  }

  /** The two matches agree on every file exactly if the mask is empty, or used and
      covers the magic. */
  lemma MatchesAgree(t: Target)
    requires Fitting(t)
    ensures Faithful(t) <==> forall buf: seq<Byte> :: |buf| == |t.magic| ==> (UserMatch(t, buf) <==> KernelMatch(t, buf))
  {
    if Faithful(t) {
      forall buf: seq<Byte> | |buf| == |t.magic|
        ensures UserMatch(t, buf) <==> KernelMatch(t, buf)
      {
        FaithfulMatches(t, buf);
      }
    } else {
      var buf := Differing(t);
      assert |buf| == |t.magic|;
    }
  }

  lemma FaithfulMatches(t: Target, buf: seq<Byte>)
    requires Fitting(t) && Faithful(t) && |buf| == |t.magic|
    ensures UserMatch(t, buf) <==> KernelMatch(t, buf)
  {
    hide AndByte, XorByte, NotByte;
    forall i | 0 <= i < |buf|
      ensures AndByte(XorByte(buf[i], t.magic[i]), if t.mask == [] then 255 else t.mask[i]) == 0
              <==> (if t.mask != [] && t.mask[0] != 0 then AndByte(buf[i], t.mask[i]) else buf[i]) == t.magic[i]
    {
      var m: Byte := if t.mask == [] then 255 else t.mask[i];
      PlainBytes(buf[i], t.magic[i], m);
      MaskBytes(buf[i], t.magic[i], m);
    }
  }

  /** A file beginning that the kernel matches and the program does not. */
  lemma Differing(t: Target) returns (buf: seq<Byte>)
    requires Fitting(t) && !Faithful(t)
    ensures |buf| == |t.magic| && KernelMatch(t, buf) && !UserMatch(t, buf)
  {
    hide AndByte, XorByte, NotByte;
    buf := t.magic;
    if t.mask[0] == 0 {
      buf := buf[0 := if buf[0] == 0 then 1 else 0];
      assert buf[0] != t.magic[0];
    } else {
      var i :| 0 <= i < |t.magic| && AndByte(t.magic[i], NotByte(t.mask[i])) != 0;
      MaskBytes(t.magic[i], t.magic[i], t.mask[i]);
      assert AndByte(buf[i], t.mask[i]) != t.magic[i];
    }
    forall i | 0 <= i < |buf|
      ensures AndByte(XorByte(buf[i], t.magic[i]), t.mask[i]) == 0
    {
      PlainBytes(buf[i], t.magic[i], t.mask[i]);
    }
  }

  // ----- finding interpreters -----------------------------------------------

  /** What is behind the last dot of a path. */
  function Extension(path: string): Option<string> {
    if path == "" then None
    else if path[|path| - 1] == '.' then Some("")
    else
      var before := Extension(path[..|path| - 1]);
      if before.None? then None else Some(before.value + [path[|path| - 1]])
  }

  function BytesOf(s: string): seq<Byte> {
    seq(|s|, i requires 0 <= i < |s| => ByteOf(s[i]))
  }

  /** What strcmp sees of the bytes. */
  function BeforeZero(bytes: seq<Byte>): seq<Byte> {
    if bytes == [] || bytes[0] == 0 then [] else [bytes[0]] + BeforeZero(bytes[1..])
  }

  /** The first n bytes of a file that is followed by zeros. */
  function Beginning(file: seq<Byte>, n: nat): (b: seq<Byte>)
    ensures |b| == n
  {
    seq(n, i requires i >= 0 => if i < |file| then file[i] else 0)
  }

  /** Offsets are not negative. */
  predicate Sound(t: Target) {
    Fitting(t) && Atoi(t.offset) >= 0
  }

  /** The bytes that a magic is compared with. */
  function Segment(t: Target, file: seq<Byte>): (segment: seq<Byte>)
    requires Sound(t)
    ensures |segment| == |t.magic|
  {
    Beginning(file, Atoi(t.offset) + |t.magic|)[Atoi(t.offset)..]
  }

  predicate Matches(t: Target, path: string, file: seq<Byte>)
    requires Sound(t)
  {
    if t.kind == "magic" then UserMatch(t, Segment(t, file))
    else Extension(path).Some? && BytesOf(Extension(path).value) == BeforeZero(t.magic)
  }

  /** The formats without those that do not pass, in order. */
  function Filter(ts: seq<Target>, passes: Target -> bool): (r: seq<Target>)
    ensures forall t :: t in r <==> t in ts && passes(t)
  {
    if ts == [] then [] else
      assert ts == ts[..|ts| - 1] + [ts[|ts| - 1]];
      Filter(ts[..|ts| - 1], passes) + if passes(ts[|ts| - 1]) then [ts[|ts| - 1]] else []
  }

  lemma FilterNext(ts: seq<Target>, passes: Target -> bool, k: nat)
    requires k < |ts|
    ensures Filter(ts[..k + 1], passes) == Filter(ts[..k], passes) + if passes(ts[k]) then [ts[k]] else []
  {
    assert ts[..k + 1][..k] == ts[..k];
  }

  /** How much of the file the magics need. */
  function Needed(ts: seq<Target>): nat
    requires forall k :: 0 <= k < |ts| ==> Sound(ts[k])
  {
    if ts == [] then 0 else
      var before, t := Needed(ts[..|ts| - 1]), ts[|ts| - 1];
      if t.kind == "magic" && Atoi(t.offset) + |t.magic| > before then Atoi(t.offset) + |t.magic| else before
  }

  lemma {:induction false} NeededCovers(ts: seq<Target>, k: nat)
    requires (forall j :: 0 <= j < |ts| ==> Sound(ts[j])) && k < |ts| && ts[k].kind == "magic"
    ensures Atoi(ts[k].offset) + |ts[k].magic| <= Needed(ts)
  {
    if k < |ts| - 1 {
      NeededCovers(ts[..|ts| - 1], k);
    }
  }

  /** One magic against the buffer: every byte copied is in it, and the mask is applied
      to all of them. */
  method TryMagic(t: Target, buf: array<Byte>) returns (matched: bool)
    requires Sound(t) && Atoi(t.offset) + |t.magic| <= buf.Length
    ensures matched <==> UserMatch(t, buf[Atoi(t.offset)..Atoi(t.offset) + |t.magic|])
  {
    hide Atoi, AndByte;
    ghost var read := buf[Atoi(t.offset)..Atoi(t.offset) + |t.magic|];
    var offset: nat, size := Atoi(t.offset), |t.magic|;
    var segment := new Byte[size](i requires 0 <= i < size reads buf => buf[offset + i]);
    var masked := t.mask != [] && t.mask[0] != 0;
    if masked {
      var i := 0;
      while i < buf.Length && i < size
        invariant i <= size
        invariant forall j :: 0 <= j < i ==> segment[j] == AndByte(read[j], t.mask[j])
        invariant forall j :: i <= j < size ==> segment[j] == read[j]
        decreases size - i
      {
        segment[i] := AndByte(segment[i], t.mask[i]);
        i := i + 1;
      }
      assert i == size;
    }
    assert forall j :: 0 <= j < size ==> segment[j] == if masked then AndByte(read[j], t.mask[j]) else read[j];
    matched := segment[..] == t.magic;
    assert matched <==> forall j :: 0 <= j < size ==> segment[j] == t.magic[j];
  }

  /** The buffer, filled with zeros and then with what is read of the file. */
  method ReadBeginning(file: seq<Byte>, toread: nat) returns (buf: array<Byte>)
    ensures fresh(buf) && buf[..] == Beginning(file, toread)
  {
    buf := new Byte[toread](_ => 0);
    var i := 0;
    while i < toread && i < |file|
      invariant i <= toread && i <= |file|
      invariant forall j :: 0 <= j < toread ==> buf[j] == if j < i then file[j] else 0
    {
      buf[i] := file[i];
      i := i + 1;
    }
  }

  lemma SegmentIs(t: Target, file: seq<Byte>, n: nat)
    requires Sound(t) && Atoi(t.offset) + |t.magic| <= n
    ensures Beginning(file, n)[Atoi(t.offset)..Atoi(t.offset) + |t.magic|] == Segment(t, file)
  {
  }

  function Matching(path: string, file: seq<Byte>): Target -> bool {
    (t: Target) => Sound(t) && Matches(t, path, file)
  }

  function Accepting(accepts: Target -> bool): Target -> bool {
    (t: Target) => t.detector != "" && accepts(t)
  }

  function Undetected(): Target -> bool {
    (t: Target) => t.detector == ""
  }

  /** The matching formats, in order. */
  method MatchAll(formats: seq<Target>, path: string, file: seq<Byte>, buf: array<Byte>) returns (ok: seq<Target>)
    requires forall k :: 0 <= k < |formats| ==> Sound(formats[k])
    requires buf[..] == Beginning(file, Needed(formats))
    ensures ok == Filter(formats, Matching(path, file))
  {
    hide Atoi, Extension, Beginning, UserMatch, BeforeZero, Needed;
    ok := [];
    var extension := Extension(path);
    for k := 0 to |formats|
      invariant ok == Filter(formats[..k], Matching(path, file))
    {
      FilterNext(formats, Matching(path, file), k);
      var t := formats[k];
      if t.kind == "magic" {
        NeededCovers(formats, k);
        SegmentIs(t, file, buf.Length);
        assert buf[..][Atoi(t.offset)..Atoi(t.offset) + |t.magic|] == buf[Atoi(t.offset)..Atoi(t.offset) + |t.magic|];
        var matched := TryMagic(t, buf);
        if matched {
          ok := ok + [t];
        }
      } else if extension.Some? && BytesOf(extension.value) == BeforeZero(t.magic) {
        ok := ok + [t];
      }
    }
    assert formats[..|formats|] == formats;
  }

  /** The loop over the formats before the file is read. */
  method CountBytes(formats: seq<Target>) returns (toread: nat)
    requires forall k :: 0 <= k < |formats| ==> Sound(formats[k])
    ensures toread == Needed(formats)
  {
    hide Atoi;
    toread := 0;
    for k := 0 to |formats|
      invariant toread == Needed(formats[..k])
    {
      assert formats[..k + 1][..k] == formats[..k];
      var t := formats[k];
      if t.kind == "magic" {
        var size := Atoi(t.offset) + |t.magic|;
        if size > toread {
          toread := size;
        }
      }
    }
    assert formats[..|formats|] == formats;
  }

  /** The loop that runs the detectors. */
  method WithDetector(ok: seq<Target>, accepts: Target -> bool) returns (interpreters: seq<Target>)
    ensures interpreters == Filter(ok, Accepting(accepts))
  {
    interpreters := [];
    for k := 0 to |ok|
      invariant interpreters == Filter(ok[..k], Accepting(accepts))
    {
      FilterNext(ok, Accepting(accepts), k);
      if ok[k].detector != "" {
        if accepts(ok[k]) {
          interpreters := interpreters + [ok[k]];
        }
      }
    }
    assert ok[..|ok|] == ok;
  }

  /** The loop that adds the formats without a detector. */
  method WithoutDetector(ok: seq<Target>, first: seq<Target>) returns (interpreters: seq<Target>)
    ensures interpreters == first + Filter(ok, Undetected())
  {
    interpreters := first;
    for k := 0 to |ok|
      invariant interpreters == first + Filter(ok[..k], Undetected())
    {
      FilterNext(ok, Undetected(), k);
      if ok[k].detector == "" {
        interpreters := interpreters + [ok[k]];
      }
    }
    assert ok[..|ok|] == ok;
  }

  /** The interpreters of a file: first the matching formats whose detector accepts it,
      then the matching ones without a detector. */
  function Interpreters(formats: seq<Target>, path: string, file: seq<Byte>, accepts: Target -> bool): seq<Target> {
    var ok := Filter(formats, Matching(path, file));
    Filter(ok, Accepting(accepts)) + Filter(ok, Undetected())
  }

  /** The bytes of the file from k on are the magic, where the mask has bits; a mask that
      begins with zero is not used, and a file is followed by zeros. */
  predicate MagicAt(t: Target, file: seq<Byte>, k: nat)
    requires t.mask == [] || |t.mask| == |t.magic|
  {
    forall i :: 0 <= i < |t.magic| ==>
      var byte := if k + i < |file| then file[k + i] else 0;
      t.magic[i] == if t.mask == [] || t.mask[0] == 0 then byte else AndByte(byte, t.mask[i])
  }

  lemma TwoLists(formats: seq<Target>, path: string, file: seq<Byte>, accepts: Target -> bool)
    ensures var ok := Filter(formats, Matching(path, file));
            Interpreters(formats, path, file, accepts) == Filter(ok, Accepting(accepts)) + Filter(ok, Undetected())
  {
  }

  lemma FoundPlain(formats: seq<Target>, path: string, file: seq<Byte>, accepts: Target -> bool)
    requires forall j :: 0 <= j < |formats| ==> Sound(formats[j])
    ensures forall t, k: nat ::
              t in formats && t.kind == "magic" && t.mask == [] && t.offset == Decimal(k) && t.detector == "" ==>
                (t in Interpreters(formats, path, file, accepts) <==>
                   forall i :: 0 <= i < |t.magic| ==> t.magic[i] == if k + i < |file| then file[k + i] else 0)
  {
    forall t, k: nat | t in formats && t.kind == "magic" && t.mask == [] && t.offset == Decimal(k) && t.detector == ""
      ensures t in Interpreters(formats, path, file, accepts) <==>
              forall i :: 0 <= i < |t.magic| ==> t.magic[i] == if k + i < |file| then file[k + i] else 0
    {
      hide Interpreters, Sound, Decimal;
      FoundAt(formats, path, file, accepts, t, k);
    }
  }

  /** A format is found by its magic exactly if that is in the file at its offset. */
  lemma FoundAt(formats: seq<Target>, path: string, file: seq<Byte>, accepts: Target -> bool, t: Target, k: nat)
    requires (forall j :: 0 <= j < |formats| ==> Sound(formats[j])) && t in formats
    requires t.kind == "magic" && t.offset == Decimal(k)
    ensures t.mask == [] || |t.mask| == |t.magic|
    ensures t in Interpreters(formats, path, file, accepts) <==> MagicAt(t, file, k) && (t.detector == "" || accepts(t))
  {
    OffsetIs(t, k);
    InterpretersAre(formats, path, file, accepts, t);
    assert forall i :: 0 <= i < |t.magic| ==> Segment(t, file)[i] == if k + i < |file| then file[k + i] else 0;
    hide Interpreters, Decimal, Atoi, AndByte;
  }

  // ----- extensions ---------------------------------------------------------

  lemma {:induction false} ExtensionIs(stem: string, extension: string)
    requires '.' !in extension
    ensures Extension(stem + "." + extension) == Some(extension)
  {
    var path := stem + "." + extension;
    if extension == "" {
      assert path[|path| - 1] == '.';
    } else {
      var n := |extension| - 1;
      assert path[..|path| - 1] == stem + "." + extension[..n] && path[|path| - 1] == extension[n] && extension[n] in extension;
      ExtensionIs(stem, extension[..n]);
      assert extension == extension[..n] + [extension[n]];
    }
  }

  lemma {:induction false} NoExtension(path: string)
    requires '.' !in path
    ensures Extension(path) == None
  {
    if path != "" {
      assert path[|path| - 1] in path;
      NoExtension(path[..|path| - 1]);
    }
  }

  /** A format of another type is found exactly if its magic, up to a zero byte, is what is
      behind the last dot of the path. */
  lemma FoundByExtension(formats: seq<Target>, stem: string, extension: string, file: seq<Byte>, accepts: Target -> bool, t: Target)
    requires (forall j :: 0 <= j < |formats| ==> Sound(formats[j])) && t in formats && t.kind != "magic"
    requires '.' !in extension && forall c :: c in extension ==> 0 < c as int < 256
    ensures t in Interpreters(formats, stem + "." + extension, file, accepts) <==>
              && |extension| <= |t.magic| && (forall i :: 0 <= i < |extension| ==> t.magic[i] == extension[i] as int)
              && (|extension| < |t.magic| ==> t.magic[|extension|] == 0)
              && (t.detector == "" || accepts(t))
  {
    InterpretersAre(formats, stem + "." + extension, file, accepts, t);
    assert Sound(t);
    hide Interpreters, Extension, BytesOf, BeforeZero, Sound, UserMatch;
    ExtensionIs(stem, extension);
    SameBytes(t.magic, extension);
  }

  lemma {:induction false} SameBytes(magic: seq<Byte>, extension: string)
    requires forall c :: c in extension ==> 0 < c as int < 256
    ensures BytesOf(extension) == BeforeZero(magic) <==>
            && |extension| <= |magic| && (forall i :: 0 <= i < |extension| ==> magic[i] == extension[i] as int)
            && (|extension| < |magic| ==> magic[|extension|] == 0)
  {
    if extension == "" {
      assert BytesOf(extension) == [];
    } else {
      var c := extension[0];
      assert c in extension && ByteOf(c) == c as int && forall d :: d in extension[1..] ==> d in extension;
      assert BytesOf(extension) == [c as int] + BytesOf(extension[1..]);
      if magic != [] && magic[0] == c as int {
        SameBytes(magic[1..], extension[1..]);
        assert BeforeZero(magic) == [c as int] + BeforeZero(magic[1..]);
        FirstSame(magic, extension);
        hide *;
        SameRest(c as int, BytesOf(extension[1..]), BeforeZero(magic[1..]));
      } else if magic != [] {
        assert BytesOf(extension)[0] == c as int;
      }
    }
  }

  lemma SameRest(c: Byte, a: seq<Byte>, b: seq<Byte>)
    ensures [c] + a == [c] + b <==> a == b
  {
    assert ([c] + a)[1..] == a && ([c] + b)[1..] == b;
  }

  lemma FirstSame(magic: seq<Byte>, extension: string)
    requires magic != [] && extension != "" && magic[0] == extension[0] as int
    ensures var m, e := magic[1..], extension[1..];
            && ((|e| <= |m| && (forall i :: 0 <= i < |e| ==> m[i] == e[i] as int) && (|e| < |m| ==> m[|e|] == 0)) <==>
                && |extension| <= |magic| && (forall i :: 0 <= i < |extension| ==> magic[i] == extension[i] as int)
                && (|extension| < |magic| ==> magic[|extension|] == 0))
  {
    var m, e := magic[1..], extension[1..];
    if |e| <= |m| && forall i :: 0 <= i < |e| ==> m[i] == e[i] as int {
      forall i | 0 <= i < |extension|
        ensures magic[i] == extension[i] as int
      {
        assert i > 0 ==> m[i - 1] == magic[i] && e[i - 1] == extension[i];
      }
    }
  }

  // ----- order --------------------------------------------------------------

  /** The elements of r are elements of ts, from left to right. */
  ghost predicate InOrder(r: seq<Target>, ts: seq<Target>) {
    exists at: seq<nat> :: Places(r, ts, at)
  }

  ghost predicate Places(r: seq<Target>, ts: seq<Target>, at: seq<nat>) {
    && |at| == |r| && (forall i :: 0 <= i < |r| ==> at[i] < |ts| && r[i] == ts[at[i]])
    && (forall i, j :: 0 <= i < j < |r| ==> at[i] < at[j])
  }

  lemma {:induction false} FilterInOrder(ts: seq<Target>, passes: Target -> bool) returns (at: seq<nat>)
    ensures Places(Filter(ts, passes), ts, at)
  {
    at := [];
    if ts != [] {
      var n := |ts| - 1;
      assert Filter(ts, passes) == Filter(ts[..n], passes) + if passes(ts[n]) then [ts[n]] else [];
      at := FilterInOrder(ts[..n], passes);
      PlacesNext(Filter(ts[..n], passes), ts, at);
      at := if passes(ts[n]) then at + [n] else at;
    }
  }

  lemma PlacesNext(r: seq<Target>, ts: seq<Target>, at: seq<nat>)
    requires ts != [] && Places(r, ts[..|ts| - 1], at)
    ensures Places(r + [], ts, at) && Places(r + [ts[|ts| - 1]], ts, at + [|ts| - 1])
  {
    assert r + [] == r;
  }

  lemma {:induction false} FilterCounts(ts: seq<Target>, passes: Target -> bool, t: Target)
    ensures multiset(Filter(ts, passes))[t] == if passes(t) then multiset(ts)[t] else 0
  {
    if ts != [] {
      var n := |ts| - 1;
      FilterCounts(ts[..n], passes, t);
      assert ts == ts[..n] + [ts[n]];
    }
  }

  lemma PlacesTwice(r: seq<Target>, s: seq<Target>, ts: seq<Target>, a: seq<nat>, b: seq<nat>)
    requires Places(r, s, a) && Places(s, ts, b)
    ensures InOrder(r, ts)
  {
    assert Places(r, ts, seq(|a|, i requires 0 <= i < |a| => b[a[i]]));
  }

  /** The formats with a detector come first; both parts are in the order of the formats,
      and no format is there more often than it was loaded. */
  lemma InterpretersInOrder(formats: seq<Target>, path: string, file: seq<Byte>, accepts: Target -> bool) returns (n: nat)
    ensures var r := Interpreters(formats, path, file, accepts);
            && n <= |r| && InOrder(r[..n], formats) && InOrder(r[n..], formats)
            && (forall i :: 0 <= i < |r| ==> (i < n <==> r[i].detector != ""))
            && (forall t :: t in r ==> multiset(r)[t] == multiset(formats)[t])
  {
    var ok := Filter(formats, Matching(path, file));
    var first, second := Filter(ok, Accepting(accepts)), Filter(ok, Undetected());
    var all := FilterInOrder(formats, Matching(path, file));
    var a := FilterInOrder(ok, Accepting(accepts));
    var b := FilterInOrder(ok, Undetected());
    PlacesTwice(first, ok, formats, a, all);
    PlacesTwice(second, ok, formats, b, all);
    n := |first|;
    var r := first + second;
    assert r[..n] == first && r[n..] == second;
    forall i | 0 <= i < |r|
      ensures i < n <==> r[i].detector != ""
    {
      if i < n {
        assert r[i] in first;
      } else {
        assert r[i] in second;
      }
    }
    forall t | t in r
      ensures multiset(r)[t] == multiset(formats)[t]
    {
      assert multiset(r) == multiset(first) + multiset(second);
      FilterCounts(formats, Matching(path, file), t);
      FilterCounts(ok, Accepting(accepts), t);
      FilterCounts(ok, Undetected(), t);
    }
  }

  /** find_interpreters on the formats that were loaded. */
  method FindInterpreters(formats: seq<Target>, path: string, file: seq<Byte>, accepts: Target -> bool)
    returns (interpreters: seq<Target>)
    requires forall k :: 0 <= k < |formats| ==> Sound(formats[k])
    ensures interpreters == Interpreters(formats, path, file, accepts)
    ensures forall t, k: nat ::
              t in formats && t.kind == "magic" && t.mask == [] && t.offset == Decimal(k) && t.detector == "" ==>
                (t in interpreters <==> forall i :: 0 <= i < |t.magic| ==>
                                          t.magic[i] == if k + i < |file| then file[k + i] else 0)
  {
    FoundPlain(formats, path, file, accepts);
    hide *;
    var toread := CountBytes(formats);
    var buf := ReadBeginning(file, toread);
    var ok := MatchAll(formats, path, file, buf);
    interpreters := WithDetector(ok, accepts);
    interpreters := WithoutDetector(ok, interpreters);
    TwoLists(formats, path, file, accepts);
  }

  /** Exactly the matching formats whose detector, if they have one, accepts the file,
      and the kernel matches all of those with a magic. */
  lemma InterpretersAre(formats: seq<Target>, path: string, file: seq<Byte>, accepts: Target -> bool, t: Target)
    requires forall k :: 0 <= k < |formats| ==> Sound(formats[k])
    ensures t in Interpreters(formats, path, file, accepts) <==>
            t in formats && Sound(t) && Matches(t, path, file) && (t.detector == "" || accepts(t))
    ensures t in Interpreters(formats, path, file, accepts) && t.kind == "magic" ==>
              Sound(t) && KernelMatch(t, Segment(t, file))
  {
    hide UserMatch, KernelMatch, Segment, Beginning;
    if t in formats && t.kind == "magic" && UserMatch(t, Segment(t, file)) {
      UserMatchesKernel(t, Segment(t, file));
    }
  }
}
