/** What import files say: lines with a key and a value each, of which the first of a key
    counts. */
module ImportFiles {
  import opened Options
  import opened Format
  import opened Registry

  datatype Setting = Setting(key: string, value: Option<string>)

  predicate IsBlank(c: char) {
    c == ' ' || 9 <= c as int <= 13
  }

  /** A key has no blanks; a value fits on a line, and does not end with a blank. */
  predicate IsSetting(s: Setting) {
    && s.key != "" && (forall c :: c in s.key ==> !IsBlank(c) && c != '\0')
    && (s.value.Some? ==>
          && s.value.value != "" && (forall c :: c in s.value.value ==> c != '\n' && c != '\0')
          && !IsBlank(s.value.value[|s.value.value| - 1]))
  }

  function SettingText(s: Setting): string {
    if s.value.Some? then s.key + " " + s.value.value else s.key
  }

  function FileText(settings: seq<Setting>): string {
    if settings == [] then "" else
      FileText(settings[..|settings| - 1]) + SettingText(settings[|settings| - 1]) + "\n"
  }

  /** A letter in lower case. */
  function LowerLetter(c: char): char {
    if 65 <= c as int <= 90 then "abcdefghijklmnopqrstuvwxyz"[c as int - 65] else c
  }

  function LowerCase(s: string): (t: string)
    ensures |t| == |s| && forall i :: 0 <= i < |s| ==> t[i] == LowerLetter(s[i])
  {
    seq(|s|, i requires 0 <= i < |s| => LowerLetter(s[i]))
  }

  /** The first value of every key, the keys in lower case. */
  predicate FirstValues(settings: seq<Setting>, args: Args) {
    && (forall j :: 0 <= j < |settings| && !KeyBefore(settings, j, LowerCase(settings[j].key)) ==>
          LowerCase(settings[j].key) in args && args[LowerCase(settings[j].key)] == settings[j].value)
    && (forall key :: key in args ==> KeyBefore(settings, |settings|, key))
  }

  /** Do the first n settings have the key? */
  predicate KeyBefore(settings: seq<Setting>, n: nat, key: string)
    requires n <= |settings|
  {
    exists i :: 0 <= i < n && LowerCase(settings[i].key) == key
  }

  lemma LowerLetterIs(c: char)
    ensures LowerChar(c) == LowerLetter(c)
  {
    var letters := "abcdefghijklmnopqrstuvwxyz";
    assert forall i :: 0 <= i < 26 ==> letters[i] as int == 97 + i;
  }

  lemma {:induction false} LowerIs(s: string)
    ensures Lower(s) == LowerCase(s)
  {
    if s == "" {
      assert LowerCase(s) == "";
    } else {
      assert Lower(s) == Lower(s[..|s| - 1]) + [LowerChar(s[|s| - 1])];
      hide *;
      LowerIs(s[..|s| - 1]);
      LowerLetterIs(s[|s| - 1]);
      LowerLast(s);
    }
  }

  lemma LowerLast(s: string)
    requires s != ""
    ensures LowerCase(s) == LowerCase(s[..|s| - 1]) + [LowerLetter(s[|s| - 1])]
  {
    hide LowerLetter;
  }

  /** A line is read as its setting. */
  lemma SettingRead(s: Setting)
    requires IsSetting(s)
    ensures KeyOf(SettingText(s) + "\n") == LowerCase(s.key) && ValueOf(SettingText(s) + "\n") == s.value
    ensures '\n' !in SettingText(s)
  {
    var text := SettingText(s);
    SettingPlain(s);
    FieldBack(text);
    TrimSame(text);
    KeyEnds(s);
    LowerIs(s.key);
    hide Lower, LowerCase, FieldOf, Trim;
    assert text[..|s.key|] == s.key;
    assert s.value.Some? ==> text[|s.key| + 1..] == s.value.value;
  }

  lemma SettingPlain(s: Setting)
    requires IsSetting(s)
    ensures Plain(SettingText(s)) && SettingText(s) != "" && !IsSpace(SettingText(s)[|SettingText(s)| - 1])
  {
    assert s.key[|s.key| - 1] in s.key;
  }

  lemma KeyEnds(s: Setting)
    requires IsSetting(s)
    ensures KeyLength(SettingText(s)) == |s.key|
  {
    var more := if s.value.Some? then " " + s.value.value else "";
    assert SettingText(s) == s.key + more;
    forall i | 0 <= i < |s.key|
      ensures s.key[i] != ' '
    {
      assert s.key[i] in s.key;
    }
    KeyLengthIs(s.key, more);
  }

  lemma {:induction false} KeyLengthIs(key: string, more: string)
    requires (forall i :: 0 <= i < |key| ==> key[i] != ' ') && (more == "" || more[0] == ' ')
    ensures KeyLength(key + more) == |key|
  {
    if key == "" {
      assert key + more == more;
    } else {
      assert (key + more)[1..] == key[1..] + more;
      KeyLengthIs(key[1..], more);
    }
  }

  /** The lines of the file are the settings. */
  lemma {:induction false} FileLines(settings: seq<Setting>)
    requires forall k :: 0 <= k < |settings| ==> IsSetting(settings[k])
    ensures FileText(settings) == "" || FileText(settings)[|FileText(settings)| - 1] == '\n'
    ensures settings != [] ==> var n := |settings| - 1;
              Lines(FileText(settings)) == Lines(FileText(settings[..n])) + [SettingText(settings[n]) + "\n"]
  {
    if settings != [] {
      var n := |settings| - 1;
      var before, last := FileText(settings[..n]), SettingText(settings[n]);
      assert FileText(settings) == before + (last + "\n");
      FileLines(settings[..n]);
      SettingRead(settings[n]);
      hide *;
      LinesAppend(before, last + "\n");
      OneLine(last);
    }
  }

  /** What get_import makes of the settings of a file. */
  lemma {:induction false} SettingsRead(settings: seq<Setting>)
    requires forall k :: 0 <= k < |settings| ==> IsSetting(settings[k])
    ensures FirstValues(settings, ArgsOf(Lines(FileText(settings))))
  {
    if settings != [] {
      hide *;
      var n := |settings| - 1;
      SettingsRead(settings[..n]);
      FileLines(settings);
      SettingRead(settings[n]);
      var before, line := Lines(FileText(settings[..n])), SettingText(settings[n]) + "\n";
      ArgsNext(before, line);
      FirstNext(settings, ArgsOf(before));
    }
  }

  lemma ArgsNext(lines: seq<string>, line: string)
    ensures ArgsOf(lines + [line]) ==
            if KeyOf(line) in ArgsOf(lines) then ArgsOf(lines) else ArgsOf(lines)[KeyOf(line) := ValueOf(line)]
  {
    assert (lines + [line])[..|lines|] == lines;
  }

  lemma FirstNext(settings: seq<Setting>, args: Args)
    requires settings != [] && FirstValues(settings[..|settings| - 1], args)
    ensures var s := settings[|settings| - 1]; var key := LowerCase(s.key);
            FirstValues(settings, if key in args then args else args[key := s.value])
  {
    hide LowerCase;
    var n := |settings| - 1;
    var s := settings[n];
    var key := LowerCase(s.key);
    var next := if key in args then args else args[key := s.value];
    hide KeyBefore;
    KeysBeforeSame(settings, n);
    forall j | 0 <= j < |settings| && !KeyBefore(settings, j, LowerCase(settings[j].key))
      ensures LowerCase(settings[j].key) in next && next[LowerCase(settings[j].key)] == settings[j].value
    {
      assert j < n ==> settings[..n][j] == settings[j];
    }
    forall k | k in next
      ensures KeyBefore(settings, |settings|, k)
    {
      KeyBeforeNext(settings, n, k);
    }
  }

  lemma KeysBeforeSame(settings: seq<Setting>, n: nat)
    requires n <= |settings|
    ensures forall j, k :: 0 <= j <= n ==> (KeyBefore(settings, j, k) <==> KeyBefore(settings[..n], j, k))
  {
    hide KeyBefore;
    forall j, k | 0 <= j <= n
      ensures KeyBefore(settings, j, k) <==> KeyBefore(settings[..n], j, k)
    {
      KeyBeforeSame(settings, n, j, k);
    }
  }

  lemma KeyBeforeSame(settings: seq<Setting>, n: nat, j: nat, key: string)
    requires j <= n <= |settings|
    ensures KeyBefore(settings, j, key) <==> KeyBefore(settings[..n], j, key)
  {
    hide LowerCase;
    assert forall i :: 0 <= i < j ==> settings[..n][i] == settings[i];
  }

  lemma KeyBeforeNext(settings: seq<Setting>, n: nat, key: string)
    requires n < |settings|
    ensures KeyBefore(settings, n + 1, key) <==> KeyBefore(settings, n, key) || LowerCase(settings[n].key) == key
  {
    hide LowerCase;
  }

  /** get_import on a file of settings. */
  method ReadSettings(settings: seq<Setting>) returns (args: Args)
    requires forall k :: 0 <= k < |settings| ==> IsSetting(settings[k])
    ensures FirstValues(settings, args)
  {
    SettingsRead(settings);
    args := GetImport(FileText(settings));
  }

  /** The package for which a file is imported is the value of its first such line. */
  lemma PackageIs(settings: seq<Setting>, j: nat)
    requires (forall k :: 0 <= k < |settings| ==> IsSetting(settings[k])) && j <= |settings|
    requires !KeyBefore(settings, j, "package") && (j < |settings| ==> LowerCase(settings[j].key) == "package")
    ensures PackageIn(FileText(settings)) == if j < |settings| then settings[j].value else None
  {
    SettingsRead(settings);
    hide LowerCase, ArgsOf, FileText, Lines;
  }

  /** The record that a file of settings describes. */
  lemma DescribedIs(importdir: string, name: string, settings: seq<Setting>, b: Binfmt)
    requires forall k :: 0 <= k < |settings| ==> IsSetting(settings[k])
    requires '/' !in name && ImportableIn(importdir, map[], map[], name, FileText(settings))
    requires b == DescribedIn(importdir, name, FileText(settings))
    ensures exists args :: FirstValues(settings, args) && FilledIn(importdir + "/" + name, args, b)
  {
    SettingsRead(settings);
    CompletedFilled(PathOf(importdir, name), ArgsOf(Lines(FileText(settings))));
    hide FirstValues, FilledIn, ArgsOf, FileText, Lines, Completed;
  }

  lemma CompletedFilled(name: string, args: Args)
    requires !Refuses(args)
    ensures FilledIn(name, args, Completed(name, args))
  {
  }

  // ----- the name of an import file ------------------------------------------

  /** A file is imported under the last component of its name. */
  lemma {:induction false} BaseNameIs(dir: string, id: string)
    requires '/' !in id
    ensures BaseName(dir + "/" + id) == id && BaseName(id) == id
  {
    BaseNameSame(id);
    if id == "" {
      assert (dir + "/" + id)[|dir|] == '/';
    } else {
      var n := |id| - 1;
      assert id[n] in id && '/' !in id[..n] && id == id[..n] + [id[n]];
      assert (dir + "/" + id)[..|dir| + 1 + n] == dir + "/" + id[..n];
      BaseNameIs(dir, id[..n]);
    }
  }
}
