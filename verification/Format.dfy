/** The records of binary formats and the files that hold them: nine lines, of which
    the last three may be missing. */
module Format {
  import opened Options

  // ----- characters and C strings -------------------------------------------

  /** isspace in the POSIX locale. */
  predicate IsSpace(c: char) {
    c == ' ' || '\t' <= c <= '\r'
  }

  function Trim(s: string): (t: string)
    ensures t <= s && (t == "" || !IsSpace(t[|t| - 1]))
  {
    if s != "" && IsSpace(s[|s| - 1]) then Trim(s[..|s| - 1]) else s
  }

  /** What is before the first NUL. */
  function CString(s: string): (t: string)
    ensures t <= s && '\0' !in t
  {
    if s == "" || s[0] == '\0' then "" else
      var t := CString(s[1..]);
      assert s == [s[0]] + s[1..];
      [s[0]] + t
  }

  lemma {:induction false} CStringSame(s: string)
    requires '\0' !in s
    ensures CString(s) == s
  {
    if s != "" {
      CStringSame(s[1..]);
      assert s == [s[0]] + s[1..];
    }
  }

  lemma TrimSame(s: string)
    requires s == "" || !IsSpace(s[|s| - 1])
    ensures Trim(s) == s
  {
  }

  lemma TrimTwice(s: string)
    ensures Trim(Trim(s)) == Trim(s)
  {
    TrimSame(Trim(s));
  }

  lemma TrimLine(s: string)
    ensures Trim(s + "\n") == Trim(s)
  {
    assert (s + "\n")[..|s|] == s;
  }

  // ----- lines --------------------------------------------------------------

  /** The length of the first line with its newline. */
  function LineLength(s: string): (n: nat)
    ensures n <= |s| && (s != "" ==> n > 0)
    ensures forall k :: 0 <= k < n - 1 ==> s[k] != '\n'
    ensures n < |s| ==> s[n - 1] == '\n'
  {
    if s == "" then 0 else if s[0] == '\n' then 1 else 1 + LineLength(s[1..])
  }

  lemma LineLengthIs(s: string, n: nat)
    requires 0 < n <= |s| && (forall k :: 0 <= k < n - 1 ==> s[k] != '\n') && (n < |s| ==> s[n - 1] == '\n')
    ensures LineLength(s) == n
  {
  }

  /** The lines of a file as getline returns them. */
  function Lines(s: string): seq<string> {
    if s == "" then [] else [s[..LineLength(s)]] + Lines(s[LineLength(s)..])
  }

  /** What READ_LINE makes of a line. */
  function FieldOf(line: string): string {
    CString(Trim(line))
  }

  // ----- records ------------------------------------------------------------

  /** struct binfmt; a NULL field is None. */
  datatype Binfmt = Binfmt(
    name: string, package: Option<string>, kind: Option<string>, offset: Option<string>, magic: Option<string>,
    mask: Option<string>, interpreter: Option<string>, detector: Option<string>, credentials: Option<string>,
    preserve: Option<string>)

  /** The fields in the order in which they are written. */
  function Fields(b: Binfmt): (fs: seq<Option<string>>)
    ensures |fs| == 9
  {
    [b.package, b.kind, b.offset, b.magic, b.mask, b.interpreter, b.detector, b.credentials, b.preserve]
  }

  function Text(o: Option<string>): string {
    if o.Some? then o.value else ""
  }

  function RecordOf(name: string, fs: seq<string>): Binfmt
    requires |fs| == 9
  {
    Binfmt(name, Some(fs[0]), Some(fs[1]), Some(fs[2]), Some(fs[3]), Some(fs[4]), Some(fs[5]), Some(fs[6]), Some(fs[7]), Some(fs[8]))
  }

  /** The text of line k, where the last three lines may be missing. */
  function LineField(lines: seq<string>, k: nat): string {
    if k < |lines| then FieldOf(lines[k]) else ""
  }

  /** The record in a file, if the file has the six lines it must have. */
  function Decode(name: string, content: string): Option<Binfmt> {
    var lines := Lines(content);
    if |lines| < 6 then None else Some(RecordOf(name, seq(9, k requires 0 <= k < 9 => LineField(lines, k))))
  }

  function EncodeFields(fs: seq<string>): string {
    if fs == [] then "" else EncodeFields(fs[..|fs| - 1]) + fs[|fs| - 1] + "\n"
  }

  /** The file of a record. */
  function Encode(b: Binfmt): string {
    EncodeFields(seq(9, k requires 0 <= k < 9 => Text(Fields(b)[k])))
  }

  /** The record with its fields as they come back from a file. */
  function Trimmed(name: string, b: Binfmt): Binfmt {
    RecordOf(name, seq(9, k requires 0 <= k < 9 => Trim(Text(Fields(b)[k]))))
  }

  /** A string that can be a line's text. */
  predicate Plain(s: string) {
    '\n' !in s && '\0' !in s
  }

  ghost predicate PlainRecord(b: Binfmt) {
    forall k :: 0 <= k < 9 ==> Plain(Text(Fields(b)[k]))
  }

  // ----- round trips --------------------------------------------------------

  lemma FirstLine(s: string, t: string)
    requires s != "" && s[|s| - 1] == '\n'
    ensures var n := LineLength(s);
            LineLength(s + t) == n && (s + t)[..n] == s[..n] && (s + t)[n..] == s[n..] + t
  {
    LineLengthIs(s + t, LineLength(s));
  }

  lemma LinesNext(s: string)
    requires s != ""
    ensures Lines(s) == [s[..LineLength(s)]] + Lines(s[LineLength(s)..])
  {
  }

  lemma EndStays(s: string, n: nat)
    requires s != "" && n <= |s|
    ensures s[n..] == "" || s[n..][|s[n..]| - 1] == s[|s| - 1]
  {
  }

  lemma {:induction false} LinesAppend(s: string, t: string)
    requires s == "" || s[|s| - 1] == '\n'
    ensures Lines(s + t) == Lines(s) + Lines(t)
  {
    hide *;
    if s == "" {
      assert s + t == t;
      NoLines();
    } else {
      FirstLine(s, t);
      var n := LineLength(s);
      LinesNext(s);
      LinesNext(s + t);
      EndStays(s, n);
      LinesAppend(s[n..], t);
    }
  }

  lemma NoLines()
    ensures Lines("") == []
  {
  }

  lemma OneLine(s: string)
    requires '\n' !in s
    ensures Lines(s + "\n") == [s + "\n"]
  {
    LineLengthIs(s + "\n", |s| + 1);
    assert (s + "\n")[..|s| + 1] == s + "\n";
  }

  lemma {:induction false} LinesOfFields(fs: seq<string>)
    requires forall k :: 0 <= k < |fs| ==> '\n' !in fs[k]
    ensures Lines(EncodeFields(fs)) == Ended(fs)
  {
    if fs != [] {
      var n := |fs| - 1;
      assert EncodeFields(fs) == EncodeFields(fs[..n]) + (fs[n] + "\n");
      assert '\n' !in fs[n];
      hide *;
      LinesOfFields(fs[..n]);
      EndsLine(fs[..n]);
      LinesAppend(EncodeFields(fs[..n]), fs[n] + "\n");
      OneLine(fs[n]);
      EndedNext(fs);
    }
  }

  /** Each string as a line. */
  function Ended(fs: seq<string>): seq<string> {
    seq(|fs|, k requires 0 <= k < |fs| => fs[k] + "\n")
  }

  lemma EndedNext(fs: seq<string>)
    requires fs != []
    ensures Ended(fs) == Ended(fs[..|fs| - 1]) + [fs[|fs| - 1] + "\n"]
  {
  }

  lemma EndsLine(fs: seq<string>)
    ensures EncodeFields(fs) == "" || EncodeFields(fs)[|EncodeFields(fs)| - 1] == '\n'
  {
  }

  lemma FieldBack(s: string)
    requires Plain(s)
    ensures FieldOf(s + "\n") == Trim(s)
  {
    TrimLine(s);
    CStringSame(Trim(s));
  }

  /** A record that is written and loaded loses its trailing blanks, and NULL fields
      become empty. */
  lemma RoundTrip(name: string, b: Binfmt)
    requires PlainRecord(b)
    ensures Decode(name, Encode(b)) == Some(Trimmed(name, b))
  {
    var fs := seq(9, k requires 0 <= k < 9 => Text(Fields(b)[k]));
    assert forall k :: 0 <= k < 9 ==> Plain(fs[k]);
    hide EncodeFields, Fields, Lines;
    LinesOfFields(fs);
    var lines := Lines(Encode(b));
    forall k | 0 <= k < 9
      ensures LineField(lines, k) == Trim(fs[k])
    {
      FieldBack(fs[k]);
    }
    assert seq(9, k requires 0 <= k < 9 => LineField(lines, k)) == seq(9, k requires 0 <= k < 9 => Trim(Text(Fields(b)[k])));
  }

  lemma {:induction false} LineHasNoNewline(s: string, k: nat)
    requires k < |Lines(s)|
    ensures '\n' !in Trim(Lines(s)[k])
  {
    if k == 0 {
      var line := s[..LineLength(s)];
      TrimNewline(line);
    } else {
      LineHasNoNewline(s[LineLength(s)..], k - 1);
    }
  }

  lemma TrimNewline(line: string)
    requires line != "" && forall k :: 0 <= k < |line| - 1 ==> line[k] != '\n'
    ensures '\n' !in Trim(line)
  {
    var t := Trim(line);
    if t == line {
      assert line[|line| - 1] != '\n';
    }
  }

  lemma DecodedFields(name: string, content: string)
    requires Decode(name, content).Some?
    ensures forall k :: 0 <= k < 9 ==> Fields(Decode(name, content).value)[k] == Some(LineField(Lines(content), k))
  {
    hide Lines, LineField;
  }

  /** A loaded record has no newlines and no NULs. */
  lemma DecodedPlain(name: string, content: string)
    requires Decode(name, content).Some?
    ensures PlainRecord(Decode(name, content).value)
  {
    hide Lines, Decode, Trim, CString;
    DecodedFields(name, content);
    forall k | 0 <= k < 9
      ensures Plain(LineField(Lines(content), k))
    {
      if k < |Lines(content)| {
        LineHasNoNewline(content, k);
      }
    }
  }

  /** No field ends with a blank. */
  ghost predicate Trim9(b: Binfmt) {
    forall k :: 0 <= k < 9 ==> Trim(Text(Fields(b)[k])) == Text(Fields(b)[k])
  }

  lemma TrimmedSame(name: string, b: Binfmt)
    requires b.name == name && forall k :: 0 <= k < 9 ==> Fields(b)[k].Some?
    ensures Trimmed(name, b) == b <==> Trim9(b)
  {
    hide Trim;
    var fs := seq(9, k requires 0 <= k < 9 => Trim(Text(Fields(b)[k])));
    assert forall k :: 0 <= k < 9 ==> Fields(Trimmed(name, b))[k] == Some(Trim(Text(Fields(b)[k]))) by {
      FieldsOfRecord(name, fs);
    }
    SameFields(Trimmed(name, b), b);
  }

  lemma FieldsOfRecord(name: string, fs: seq<string>)
    requires |fs| == 9
    ensures forall k :: 0 <= k < 9 ==> Fields(RecordOf(name, fs))[k] == Some(fs[k])
  {
  }

  lemma SameFields(a: Binfmt, b: Binfmt)
    ensures a == b <==> a.name == b.name && forall k :: 0 <= k < 9 ==> Fields(a)[k] == Fields(b)[k]
  {
    if forall k :: 0 <= k < 9 ==> Fields(a)[k] == Fields(b)[k] {
      assert forall k :: 0 <= k < 9 ==> Fields(a)[k] == Fields(b)[k];
      assert Fields(a) == Fields(b);
      assert Fields(a)[0] == Fields(b)[0] && Fields(a)[1] == Fields(b)[1] && Fields(a)[2] == Fields(b)[2];
      assert Fields(a)[3] == Fields(b)[3] && Fields(a)[4] == Fields(b)[4] && Fields(a)[5] == Fields(b)[5];
      assert Fields(a)[6] == Fields(b)[6] && Fields(a)[7] == Fields(b)[7] && Fields(a)[8] == Fields(b)[8];
    }
  }

  /** Loading, writing and loading again changes nothing exactly if no field ended with
      blanks before a NUL. */
  lemma LoadWriteLoad(name: string, content: string)
    requires Decode(name, content).Some?
    ensures var b := Decode(name, content).value;
            Decode(name, Encode(b)) == Some(b) <==> Trim9(b)
  {
    DecodedPlain(name, content);
    DecodedFields(name, content);
    RoundTrip(name, Decode(name, content).value);
    TrimmedSame(name, Decode(name, content).value);
  }

  lemma {:induction false} LinesHave(s: string, k: nat)
    requires k < |Lines(s)| && '\0' !in s
    ensures '\0' !in Lines(s)[k]
  {
    if k > 0 {
      LinesHave(s[LineLength(s)..], k - 1);
    }
  }

  /** In particular nothing changes for a file without NULs. */
  lemma LoadWriteLoadPlain(name: string, content: string)
    requires Decode(name, content).Some? && '\0' !in content
    ensures var b := Decode(name, content).value; Decode(name, Encode(b)) == Some(b)
  {
    LoadWriteLoad(name, content);
    DecodedFields(name, content);
    hide Decode, Lines, Trim, CString, Encode;
    forall k | 0 <= k < 9
      ensures Trim(LineField(Lines(content), k)) == LineField(Lines(content), k)
    {
      if k < |Lines(content)| {
        LinesHave(content, k);
        CStringSame(Trim(Lines(content)[k]));
        TrimTwice(Lines(content)[k]);
      } else {
        TrimSame("");
      }
    }
  }

  // ----- the lines of a file --------------------------------------------------

  lemma EncodeNext(fs: seq<string>, f: string)
    ensures EncodeFields(fs + [f]) == EncodeFields(fs) + f + "\n"
  {
    assert (fs + [f])[..|fs|] == fs;
  }

  /** Which field is on which line. */
  lemma EncodeIs(b: Binfmt)
    ensures Encode(b) ==
            Text(b.package) + "\n" + Text(b.kind) + "\n" + Text(b.offset) + "\n" + Text(b.magic) + "\n" + Text(b.mask) + "\n"
            + Text(b.interpreter) + "\n" + Text(b.detector) + "\n" + Text(b.credentials) + "\n" + Text(b.preserve) + "\n"
  {
    var fs := [Text(b.package), Text(b.kind), Text(b.offset), Text(b.magic), Text(b.mask),
               Text(b.interpreter), Text(b.detector), Text(b.credentials), Text(b.preserve)];
    assert seq(9, k requires 0 <= k < 9 => Text(Fields(b)[k])) == fs;
    assert Encode(b) == EncodeFields(fs) && EncodeFields([]) == "";
    hide *;
    assert fs[..3] == [] + [fs[0]] + [fs[1]] + [fs[2]] && fs[..6] == fs[..3] + [fs[3]] + [fs[4]] + [fs[5]];
    assert fs == fs[..6] + [fs[6]] + [fs[7]] + [fs[8]];
    EncodeThree([], fs[0], fs[1], fs[2]);
    EncodeThree(fs[..3], fs[3], fs[4], fs[5]);
    EncodeThree(fs[..6], fs[6], fs[7], fs[8]);
    EmptyFirst(fs[0]);
  }

  lemma EncodeThree(fs: seq<string>, a: string, b: string, c: string)
    ensures EncodeFields(fs + [a] + [b] + [c]) == EncodeFields(fs) + a + "\n" + b + "\n" + c + "\n"
  {
    hide *;
    EncodeNext(fs, a);
    EncodeNext(fs + [a], b);
    EncodeNext(fs + [a] + [b], c);
  }

  lemma EmptyFirst(s: string)
    ensures "" + s == s
  {
  }

  /** A text that fits on a line and ends with no blank. */
  predicate LineText(s: string) {
    (forall c :: c in s ==> c != '\n' && c != '\0') && (s != "" ==> !(s[|s| - 1] == ' ' || 9 <= s[|s| - 1] as int <= 13))
  }

  /** Nine lines are a record's fields, in this order. */
  lemma DecodeIs(name: string, package: string, kind: string, offset: string, magic: string, mask: string,
                 interpreter: string, detector: string, credentials: string, preserve: string)
    requires LineText(package) && LineText(kind) && LineText(offset) && LineText(magic) && LineText(mask)
    requires LineText(interpreter) && LineText(detector) && LineText(credentials) && LineText(preserve)
    ensures Decode(name, package + "\n" + kind + "\n" + offset + "\n" + magic + "\n" + mask + "\n" + interpreter + "\n"
                         + detector + "\n" + credentials + "\n" + preserve + "\n") ==
            Some(Binfmt(name, Some(package), Some(kind), Some(offset), Some(magic), Some(mask),
                        Some(interpreter), Some(detector), Some(credentials), Some(preserve)))
  {
    hide Decode, Encode, LineText, Trim, Plain, Trimmed, RecordOf;
    var b := Binfmt(name, Some(package), Some(kind), Some(offset), Some(magic), Some(mask),
                    Some(interpreter), Some(detector), Some(credentials), Some(preserve));
    EncodeIs(b);
    assert Fields(b) == [Some(package), Some(kind), Some(offset), Some(magic), Some(mask),
                         Some(interpreter), Some(detector), Some(credentials), Some(preserve)];
    forall k | 0 <= k < 9
      ensures Plain(Text(Fields(b)[k])) && Trim(Text(Fields(b)[k])) == Text(Fields(b)[k])
    {
      LineIs(Text(Fields(b)[k]));
    }
    RoundTrip(name, b);
    TrimmedSame(name, b);
  }

  lemma LineIs(s: string)
    requires LineText(s)
    ensures Plain(s) && Trim(s) == s
  {
    TrimSame(s);
  }

  /** The text of a line is what stands before its trailing blanks, or before a NUL. */
  lemma FieldIs(text: string, blanks: string, rest: string)
    requires LineText(text) && forall i :: 0 <= i < |blanks| ==> blanks[i] == ' ' || 9 <= blanks[i] as int <= 13
    requires rest != "" ==> rest[0] == '\0' && rest[|rest| - 1] != ' ' && !(9 <= rest[|rest| - 1] as int <= 13)
    ensures FieldOf(text + rest + blanks) == text
  {
    var t := text + rest;
    assert t != "" ==> t[|t| - 1] == if rest != "" then rest[|rest| - 1] else text[|text| - 1];
    assert forall c: char :: IsSpace(c) <==> c == ' ' || 9 <= c as int <= 13;
    TrimBlanks(t, blanks);
    CStringIs(text, rest);
  }

  lemma {:induction false} TrimBlanks(text: string, blanks: string)
    requires text == "" || !IsSpace(text[|text| - 1])
    requires forall i :: 0 <= i < |blanks| ==> IsSpace(blanks[i])
    ensures Trim(text + blanks) == text
  {
    if blanks == "" {
      assert text + blanks == text;
      TrimSame(text);
    } else {
      assert (text + blanks)[..|text + blanks| - 1] == text + blanks[..|blanks| - 1];
      TrimBlanks(text, blanks[..|blanks| - 1]);
    }
  }

  lemma {:induction false} CStringIs(text: string, rest: string)
    requires '\0' !in text && (rest != "" ==> rest[0] == '\0')
    ensures CString(text + rest) == text
  {
    if text == "" {
      assert text + rest == rest;
    } else {
      assert text[0] in text && '\0' !in text[1..] && (text + rest)[1..] == text[1..] + rest;
      CStringIs(text[1..], rest);
    }
  }

  // ----- loading ------------------------------------------------------------

  /** A file open for reading. */
  class Stream {
    const content: string
    var pos: nat

    ghost predicate Valid()
      reads this
    {
      pos <= |content|
    }

    /** The lines not read yet. */
    ghost function Rest(): seq<string>
      requires Valid()
      reads this
    {
      Lines(content[pos..])
    }

    constructor (content: string)
      ensures Valid() && Rest() == Lines(content)
    {
      this.content, pos := content, 0;
      new;
      assert content[0..] == content;
    }

    /** getline: the next line with its newline, None at the end of the file. */
    method GetLine() returns (line: Option<string>)
      requires Valid()
      modifies this
      ensures Valid()
      ensures old(Rest()) == [] ==> line.None? && Rest() == []
      ensures old(Rest()) != [] ==> line == Some(old(Rest())[0]) && Rest() == old(Rest())[1..]
    {
      if pos == |content| {
        return None;
      }
      ghost var rest := content[pos..];
      var n: nat := 0;
      while pos + n < |content| && (n == 0 || content[pos + n - 1] != '\n')
        invariant Valid() && pos == old(pos) && n <= |rest| && forall k :: 0 <= k < n - 1 ==> rest[k] != '\n'
        decreases |content| - pos - n
      {
        n := n + 1;
      }
      LineLengthIs(rest, n);
      line := Some(content[pos..pos + n]);
      pos := pos + n;
      assert content[pos..] == rest[n..] && line.value == rest[..n];
    }
  }

  /** READ_LINE, which trims the line in place; None if a line is missing that must be
      there. */
  method ReadLine(file: Stream, optional: bool) returns (field: Option<string>)
    requires file.Valid()
    modifies file
    ensures file.Valid()
    ensures old(file.Rest()) == [] ==> file.Rest() == [] && field == if optional then Some("") else None
    ensures old(file.Rest()) != [] ==> field == Some(FieldOf(old(file.Rest())[0])) && file.Rest() == old(file.Rest())[1..]
  {
    var line := file.GetLine();
    if line.None? {
      return if optional then Some("") else None;
    }
    var len: nat := |line.value|;
    assert line.value[..len] == line.value;
    while len > 0 && IsSpace(line.value[len - 1])
      invariant len <= |line.value| && Trim(line.value[..len]) == Trim(line.value)
    {
      assert line.value[..len][..len - 1] == line.value[..len - 1];
      len := len - 1;
    }
    TrimSame(line.value[..len]);
    field := Some(CString(line.value[..len]));
  }

  /** The result of binfmt_load: a record, NULL, or the end of the program. */
  datatype Loading = Loaded(record: Binfmt) | Null | Quit

  /** The first six lines, of which all must be there. */
  method ReadRequired(file: Stream) returns (fs: Option<seq<string>>)
    requires file.Valid()
    modifies file
    ensures file.Valid()
    ensures fs.None? <==> |old(file.Rest())| < 6
    ensures fs.Some? ==> |fs.value| == 6 && file.Rest() == old(file.Rest())[6..]
                         && forall k :: 0 <= k < 6 ==> fs.value[k] == FieldOf(old(file.Rest())[k])
  {
    hide FieldOf;
    ghost var lines := file.Rest();
    var read := [];
    for k := 0 to 6
      invariant file.Valid() && |read| == k <= |lines| && file.Rest() == lines[k..]
      invariant forall j :: 0 <= j < k ==> read[j] == FieldOf(lines[j])
    {
      var field := ReadLine(file, false);
      if field.None? {
        return None;
      }
      read := read + [field.value];
    }
    fs := Some(read);
  }

  /** The last three lines, which are empty where they are missing. */
  method ReadOptional(file: Stream) returns (fs: seq<string>)
    requires file.Valid()
    modifies file
    ensures |fs| == 3 && forall k :: 0 <= k < 3 ==> fs[k] == LineField(old(file.Rest()), k)
  {
    hide FieldOf;
    ghost var lines := file.Rest();
    fs := [];
    for k := 0 to 3
      invariant file.Valid() && |fs| == k && file.Rest() == if k <= |lines| then lines[k..] else []
      invariant forall j :: 0 <= j < k ==> fs[j] == LineField(lines, j)
    {
      var field := ReadLine(file, true);
      fs := fs + [field.value];
    }
  }

  /** binfmt_load on a file that could be opened. */
  method Load(name: string, content: string, quiet: bool) returns (r: Loading)
    ensures Decode(name, content).Some? ==> r == Loaded(Decode(name, content).value)
    ensures Decode(name, content).None? ==> r == if quiet then Null else Quit
  {
    hide FieldOf, Lines;
    var file := new Stream(content);
    ghost var lines := file.Rest();
    var required := ReadRequired(file);
    if required.None? {
      return if quiet then Null else Quit;
    }
    var optional := ReadOptional(file);
    var fs := required.value + optional;
    assert fs == seq(9, k requires 0 <= k < 9 => LineField(lines, k));
    r := Loaded(RecordOf(name, fs));
  }

  /** binfmt_write on a file that could be opened. */
  method Write(b: Binfmt) returns (content: string)
    ensures content == Encode(b)
  {
    ghost var all := seq(9, k requires 0 <= k < 9 => Text(Fields(b)[k]));
    content := "";
    for k := 0 to 9
      invariant content == EncodeFields(all[..k])
    {
      assert all[..k + 1][..k] == all[..k];
      content := content + Text(Fields(b)[k]) + "\n";
    }
    assert all[..9] == all;
  }

  // ----- making -------------------------------------------------------------

  /** A hash of arguments whose values may be NULL. */
  type Args = map<string, Option<string>>

  function Lookup(args: Args, key: string): Option<string> {
    if key in args then args[key] else None
  }

  /** The values of the fields that binfmt_new sets first. */
  function Given(name: string, args: Args): Binfmt {
    Binfmt(name, Lookup(args, "package"), Lookup(args, "type"), Lookup(args, "offset"), Lookup(args, "magic"),
           Lookup(args, "mask"), Lookup(args, "interpreter"), Lookup(args, "detector"), Lookup(args, "credentials"),
           Lookup(args, "preserve"))
  }

  /** The type that is given or follows from the other arguments. */
  function KindOf(args: Args): Option<string> {
    if Lookup(args, "type").Some? then Lookup(args, "type")
    else if Lookup(args, "magic").Some? then if "extension" in args then None else Some("magic")
    else if "extension" in args then Some("extension") else None
  }

  predicate HasNewline(o: Option<string>) {
    o.Some? && '\n' in o.value
  }

  datatype Making = Made(record: Binfmt) | Refused | Prohibited

  ghost predicate Prohibits(args: Args) {
    || (exists k :: 0 <= k < 9 && HasNewline(Fields(Given("", args))[k]))
    || (KindOf(args) == Some("extension") && HasNewline(Lookup(args, "extension")))
  }

  /** Both a magic and an extension, neither of them, or an extension with a mask or offset. */
  predicate Refuses(args: Args) {
    || KindOf(args).None?
    || (KindOf(args) == Some("extension") && (Lookup(args, "mask").Some? || Lookup(args, "offset").Some?))
  }

  /** What binfmt_new makes of arguments that it does not refuse. */
  function Completed(name: string, args: Args): Binfmt {
    var extension := KindOf(args) == Some("extension");
    Given(name, args).(
      kind := KindOf(args),
      magic := if extension then Lookup(args, "extension") else Lookup(args, "magic"),
      mask := Some(Text(Lookup(args, "mask"))),
      offset := Some(if Text(Lookup(args, "offset")) == "" then "0" else Lookup(args, "offset").value))
  }

  /** SET_FIELD for each field; None if one has a newline. */
  method SetFields(name: string, args: Args) returns (b: Option<Binfmt>)
    ensures b.None? <==> exists k :: 0 <= k < 9 && HasNewline(Fields(Given("", args))[k])
    ensures b.Some? ==> b.value == Given(name, args)
  {
    var given := Given(name, args);
    assert Fields(given) == Fields(Given("", args));
    hide Given, Fields;
    for k := 0 to 9
      invariant forall j :: 0 <= j < k ==> !HasNewline(Fields(given)[j])
    {
      if HasNewline(Fields(given)[k]) {
        return None;
      }
    }
    b := Some(given);
  }

  lemma CompletedPlain(name: string, args: Args)
    requires !Prohibits(args)
    ensures NoNewlines(Completed(name, args))
  {
    var b, given := Completed(name, args), Given("", args);
    forall k | 0 <= k < 9
      ensures !HasNewline(Fields(b)[k])
    {
      assert !HasNewline(Fields(given)[k]);
    }
  }

  /** binfmt_new */
  method New(name: string, args: Args) returns (r: Making)
    ensures r.Prohibited? <==> Prohibits(args)
    ensures r.Refused? <==> !Prohibits(args) && Refuses(args)
    ensures r.Made? ==> r.record == Completed(name, args) && NoNewlines(r.record)
    ensures r.Made? ==> FilledIn(name, args, r.record)
    ensures r.Refused? ==> var kind := ValueAt(args, "type");
              || (kind == None && (ValueAt(args, "magic") != None <==> "extension" in args))
              || ((kind == Some("extension") || (kind == None && ValueAt(args, "magic") == None))
                  && (ValueAt(args, "mask") != None || ValueAt(args, "offset") != None))
  {
    var fields := SetFields(name, args);
    if fields.None? {
      return Prohibited;
    }
    if !Prohibits(args) {
      CompletedPlain(name, args);
    }
    hide NoNewlines, HasNewline, Fields;
    var b := fields.value;
    if b.kind.None? {
      if b.magic.Some? {
        if "extension" in args {
          return Refused;
        }
        b := b.(kind := Some("magic"));
      } else if "extension" in args {
        b := b.(kind := Some("extension"));
      } else {
        return Refused;
      }
    }
    if b.kind.value == "extension" {
      var extension := Lookup(args, "extension");
      if HasNewline(extension) {
        return Prohibited;
      }
      b := b.(magic := extension);
      if b.mask.Some? || b.offset.Some? {
        return Refused;
      }
    }
    if b.mask.None? {
      b := b.(mask := Some(""));
    }
    if b.offset.None? || b.offset.value == "" {
      b := b.(offset := Some("0"));
    }
    r := Made(b);
  }

  /** The value of an option, if it is given and has one. */
  function ValueAt(args: Args, key: string): Option<string> {
    if key in args && args[key].Some? then args[key] else None
  }

  /** Where the fields of a record come from: an extension takes the place of a magic, and
      the type follows from these if it is not given; offset and mask have defaults. */
  predicate FilledIn(name: string, args: Args, b: Binfmt) {
    && b.name == name && b.package == ValueAt(args, "package") && b.interpreter == ValueAt(args, "interpreter")
    && b.detector == ValueAt(args, "detector") && b.credentials == ValueAt(args, "credentials")
    && b.preserve == ValueAt(args, "preserve")
    && (if ValueAt(args, "type") != None then b.kind == ValueAt(args, "type")
        else if ValueAt(args, "magic") != None then b.kind == Some("magic") && "extension" !in args
        else b.kind == Some("extension") && "extension" in args)
    && b.magic == ValueAt(args, if b.kind == Some("extension") then "extension" else "magic")
    && (b.kind == Some("extension") ==> ValueAt(args, "mask") == None && ValueAt(args, "offset") == None)
    && b.mask == (if ValueAt(args, "mask") != None then ValueAt(args, "mask") else Some(""))
    && b.offset == if ValueAt(args, "offset") in {None, Some("")} then Some("0") else ValueAt(args, "offset")
  }

  ghost predicate NoNewlines(b: Binfmt) {
    forall k :: 0 <= k < 9 ==> !HasNewline(Fields(b)[k])
  }

  /** Every record that binfmt_new makes survives being written and loaded, but for
      trailing blanks; arguments are C strings. */
  lemma MadeRoundTrip(name: string, args: Args, b: Binfmt)
    requires forall key :: key in args ==> '\0' !in Text(args[key])
    requires !Prohibits(args) && !Refuses(args) && b == Completed(name, args) && NoNewlines(b)
    ensures Decode(name, Encode(b)) == Some(Trimmed(name, b))
  {
    forall k | 0 <= k < 9
      ensures Plain(Text(Fields(b)[k]))
    {
      LookupPlain(name, args, k);
      assert !HasNewline(Fields(b)[k]);
    }
    RoundTrip(name, b);
  }

  lemma LookupPlain(name: string, args: Args, k: nat)
    requires k < 9 && !Refuses(args) && forall key :: key in args ==> '\0' !in Text(args[key])
    ensures '\0' !in Text(Fields(Completed(name, args))[k])
  {
  }

  /** binfmt_equals: do two records match the same files? */
  predicate SameSpec(a: Binfmt, b: Binfmt) {
    && Text(a.kind) == Text(b.kind) && Text(a.offset) == Text(b.offset)
    && Text(a.magic) == Text(b.magic) && Text(a.mask) == Text(b.mask)
  }
}
