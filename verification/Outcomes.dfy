/** What a run of update-binfmts brings about, from its options or import file to the
    fields of the record in the directory and of the registration. */
module Outcomes {
  import opened Options
  import opened Format
  import opened Registry
  import opened Reinstall
  import opened ImportFiles

  /** The record of a format as it is loaded again: an unset field is empty. */
  function Filed(name: string, b: Binfmt): Binfmt {
    Binfmt(name, Some(Text(b.package)), Some(Text(b.kind)), Some(Text(b.offset)), Some(Text(b.magic)), Some(Text(b.mask)),
           Some(Text(b.interpreter)), Some(Text(b.detector)), Some(Text(b.credentials)), Some(Text(b.preserve)))
  }

  /** Is a name free, or does its record in the directory belong to a package? */
  predicate FreeFor(files: Files, name: string, package: Option<string>) {
    name in files && Decode(name, files[name]).Some? ==> Decode(name, files[name]).value.package == package
  }

  /** Every value fits on a line of a record. */
  predicate LineArgs(args: Args) {
    forall key :: key in args && args[key].Some? ==> LineText(args[key].value)
  }

  /** The format is in the directory as given, and registered as the directory says if it was
      not there before; no other format is touched. */
  ghost predicate InPlace(runDetectors: string, mounted: bool, files: Files, files': Files,
                    kernel: map<string, Registration>, kernel': map<string, Registration>, name: string, b: Binfmt) {
    && name in files' && Decode(name, files'[name]) == Some(Filed(name, b)) && name + ".tmp" !in files'
    && (forall n :: n != name && n != name + ".tmp" ==> SameAt(files, files', n))
    && name in kernel' && (!mounted && name in kernel ==> kernel' == kernel) && (forall n :: n != name ==> SameAt(kernel, kernel', n))
    && ((mounted || name !in kernel) && (name !in files || Decode(name, files[name]).None?) && b.interpreter.Some? ==>
          AsRecorded(files', name, runDetectors, kernel'[name]))
  }

  // ----- records ------------------------------------------------------------

  lemma GivenPlain(args: Args, key: string)
    requires LineArgs(args)
    ensures LineText(Text(Lookup(args, key))) && LineText(Text(ValueAt(args, key))) && !HasNewline(Lookup(args, key))
  {
  }

  lemma NotProhibited(args: Args)
    requires LineArgs(args)
    ensures !Prohibits(args)
  {
    GivenPlain(args, "package");
    GivenPlain(args, "type");
    GivenPlain(args, "offset");
    GivenPlain(args, "magic");
    GivenPlain(args, "mask");
    GivenPlain(args, "interpreter");
    GivenPlain(args, "detector");
    GivenPlain(args, "credentials");
    GivenPlain(args, "preserve");
    GivenPlain(args, "extension");
    hide LineArgs, LineText, Lookup, HasNewline;
  }

  lemma FilledIs(name: string, args: Args, b: Binfmt)
    requires FilledIn(name, args, b)
    ensures !Refuses(args) && b == Completed(name, args)
  {
  }

  predicate LineFields(b: Binfmt) {
    && LineText(Text(b.package)) && LineText(Text(b.kind)) && LineText(Text(b.offset)) && LineText(Text(b.magic))
    && LineText(Text(b.mask)) && LineText(Text(b.interpreter)) && LineText(Text(b.detector))
    && LineText(Text(b.credentials)) && LineText(Text(b.preserve))
  }

  lemma FilledLines(name: string, args: Args, b: Binfmt)
    requires LineArgs(args) && FilledIn(name, args, b)
    ensures LineFields(b)
  {
    GivenPlain(args, "package");
    GivenPlain(args, "type");
    GivenPlain(args, "offset");
    GivenPlain(args, "magic");
    GivenPlain(args, "mask");
    GivenPlain(args, "interpreter");
    GivenPlain(args, "detector");
    GivenPlain(args, "credentials");
    GivenPlain(args, "preserve");
    GivenPlain(args, "extension");
    Literals();
    hide LineArgs, LineText, ValueAt, Lookup, HasNewline;
  }

  lemma Literals()
    ensures LineText("") && LineText("0") && LineText("magic") && LineText("extension")
  {
  }

  lemma FiledIs(name: string, b: Binfmt)
    requires LineFields(b)
    ensures PlainRecord(b) && Trimmed(name, b) == Filed(name, b)
  {
    LineIs(Text(b.package));
    LineIs(Text(b.kind));
    LineIs(Text(b.offset));
    LineIs(Text(b.magic));
    LineIs(Text(b.mask));
    LineIs(Text(b.interpreter));
    LineIs(Text(b.detector));
    LineIs(Text(b.credentials));
    LineIs(Text(b.preserve));
    hide LineText, Plain, Trim, Text;
  }

  // ----- installations ------------------------------------------------------

  /** To the kernel the record is the same before and after it is filed. */
  lemma FiledSame(others: Formats, name: string, b: Binfmt, runDetectors: string)
    requires b.interpreter.Some?
    ensures SameToKernel(others, name, b, Filed(name, b), runDetectors)
  {
    assert Shared(others, name, b) <==> Shared(others, name, Filed(name, b));
  }

  lemma InstalledInPlace(runDetectors: string, mounted: bool, files: Files, files': Files, kernel: map<string, Registration>,
                         kernel': map<string, Registration>, name: string, b: Binfmt)
    requires LineFields(b) && Installed(runDetectors, mounted, map[], files, files', kernel, kernel', name, b)
    requires SameElse(kernel, kernel', name)
    requires mounted && name in kernel ==> name in files
    ensures InPlace(runDetectors, mounted, files, files', kernel, kernel', name, b)
  {
    hide *;
    FiledIs(name, b);
    InstalledIs(runDetectors, mounted, files, files', kernel, kernel', name, b);
    InstalledFrame(runDetectors, mounted, files, files', kernel, kernel', name, b);
    if b.interpreter.Some? && (name !in files || Decode(name, files[name]).None?) {
      FiledSame(Others(files, name), name, b, runDetectors);
      NotInCache(files, name, b);
    }
    AllInPlace(runDetectors, mounted, files, files', kernel, kernel', name, b);
  }

  lemma NotInCache(files: Files, name: string, b: Binfmt)
    requires name !in files || Decode(name, files[name]).None?
    ensures InCache(files, name, b) == b
  {
    hide Decode;
  }

  lemma InstalledFrame(runDetectors: string, mounted: bool, files: Files, files': Files, kernel: map<string, Registration>,
                       kernel': map<string, Registration>, name: string, b: Binfmt)
    requires Installed(runDetectors, mounted, map[], files, files', kernel, kernel', name, b)
    requires mounted && name in kernel ==> name in files
    ensures name in files' && name + ".tmp" !in files' && forall n :: n != name && n != name + ".tmp" ==> SameAt(files, files', n)
    ensures name in kernel' && (!mounted && name in kernel ==> kernel' == kernel)
  {
    assert |name + ".tmp"| != |name|;
    hide Encode, Register, Cached, KnownIn, RecordAt;
  }

  lemma AllInPlace(runDetectors: string, mounted: bool, files: Files, files': Files, kernel: map<string, Registration>,
                   kernel': map<string, Registration>, name: string, b: Binfmt)
    requires RecordAt(files', name) == Some(Filed(name, b)) && name in files' && name + ".tmp" !in files'
    requires forall n :: n != name && n != name + ".tmp" ==> SameAt(files, files', n)
    requires name in kernel' && (!mounted && name in kernel ==> kernel' == kernel) && SameElse(kernel, kernel', name)
    requires (mounted || name !in kernel) && (name !in files || Decode(name, files[name]).None?) && b.interpreter.Some? ==>
               AsRecorded(files', name, runDetectors, kernel'[name])
    ensures InPlace(runDetectors, mounted, files, files', kernel, kernel', name, b)
  {
    hide Decode, Filed, AsRecorded;
  }

  lemma OwnerIs(files: Files, name: string)
    ensures OwnerIn(map[], files, name) ==
            if name in files && Decode(name, files[name]).Some? then Decode(name, files[name]).value.package else None
  {
    if name in files && Decode(name, files[name]).Some? {
      DecodedFields(name, files[name]);
      var b := Decode(name, files[name]).value;
      assert Fields(b)[0].Some?;
    }
    hide Decode, LineField;
  }

  /** Installing a format from options that make a record with a package and a magic, under
      a name that is free or the package's own and that the kernel has from nowhere else. */
  lemma InstallOutcome(runDetectors: string, importdir: string, s: Status, mounted: bool, files: Files, files': Files,
                       kernel: map<string, Registration>, kernel': map<string, Registration>, name: string, args: Args, b: Binfmt)
    requires Achieved(InstallOne(name, args), importdir, runDetectors, s, mounted, files, files', kernel, kernel')
    requires name !in {".", "..", "register", "status"} && LineArgs(args)
    requires FilledIn(name, args, b) && b.package.Some? && b.magic.Some?
    requires FreeFor(files, name, b.package) && (mounted && name in kernel ==> name in files)
    ensures s.Worked? && InPlace(runDetectors, mounted, files, files', kernel, kernel', name, b)
  {
    hide *;
    NotProhibited(args);
    FilledIs(name, args, b);
    FilledLines(name, args, b);
    FiledIs(name, b);
    Installable(files, name, b);
    InstallAchieved(runDetectors, importdir, s, mounted, files, files', kernel, kernel', name, args);
    InstalledInPlace(runDetectors, mounted, files, files', kernel, kernel', name, b);
  }

  lemma Installable(files: Files, name: string, b: Binfmt)
    requires name !in {".", "..", "register", "status"}
    requires PlainRecord(b) && b.package.Some? && b.magic.Some? && FreeFor(files, name, b.package)
    ensures CompleteIn(map[], files, name, b) && !Reserved(name)
  {
    OwnerIs(files, name);
    hide Decode, PlainRecord, OwnerIn;
  }

  lemma InstallAchieved(runDetectors: string, importdir: string, s: Status, mounted: bool, files: Files, files': Files,
                        kernel: map<string, Registration>, kernel': map<string, Registration>, name: string, args: Args)
    requires Achieved(InstallOne(name, args), importdir, runDetectors, s, mounted, files, files', kernel, kernel')
    requires !Reserved(name) && !Prohibits(args) && !Refuses(args) && CompleteIn(map[], files, name, Completed(name, args))
    ensures s.Worked? && Installed(runDetectors, mounted, map[], files, files', kernel, kernel', name, Completed(name, args))
    ensures SameElse(kernel, kernel', name)
  {
    hide ImportableIn, DescribedIn, Installed, BaseName, Enabled, AllInstalled, AllImportable, Expected, Prohibits, Refuses,
      CompleteIn, Completed, RecordAt, Reserved;
  }

  // ----- imports ------------------------------------------------------------

  lemma {:induction false} FirstKey(settings: seq<Setting>, n: nat, key: string) returns (j: nat)
    requires n <= |settings| && KeyBefore(settings, n, key)
    ensures j < n && LowerCase(settings[j].key) == key && !KeyBefore(settings, j, key)
  {
    hide LowerCase;
    if KeyBefore(settings, n - 1, key) {
      j := FirstKey(settings, n - 1, key);
    } else {
      j := n - 1;
    }
  }

  /** The settings determine the options. */
  lemma FirstValuesUnique(settings: seq<Setting>, a: Args, b: Args)
    requires FirstValues(settings, a) && FirstValues(settings, b)
    ensures a == b
  {
    hide LowerCase, KeyBefore;
    forall key | key in a || key in b
      ensures key in a && key in b && a[key] == b[key]
    {
      var j := FirstKey(settings, |settings|, key);
    }
  }

  lemma SettingsAreLines(settings: seq<Setting>, args: Args)
    requires (forall k :: 0 <= k < |settings| ==> IsSetting(settings[k])) && FirstValues(settings, args)
    ensures LineArgs(args)
  {
    hide LowerCase, KeyBefore;
    forall key | key in args && args[key].Some?
      ensures LineText(args[key].value)
    {
      var j := FirstKey(settings, |settings|, key);
      assert IsSetting(settings[j]);
    }
  }

  /** Importing a format from a file of settings that make a record with a package and a
      magic, under a name that is free or the package's own. */
  lemma ImportOutcome(runDetectors: string, importdir: string, s: Status, mounted: bool, files: Files, files': Files,
                      kernel: map<string, Registration>, kernel': map<string, Registration>,
                      name: string, settings: seq<Setting>, args: Args, b: Binfmt)
    requires forall k :: 0 <= k < |settings| ==> IsSetting(settings[k])
    requires Achieved(ImportOne(name, Some(FileText(settings))), importdir, runDetectors, s, mounted, files, files', kernel, kernel')
    requires name !in {".", "..", "register", "status"} && '/' !in name
    requires FirstValues(settings, args) && FilledIn(importdir + "/" + name, args, b) && b.package.Some? && b.magic.Some?
    requires FreeFor(files, name, b.package) && (mounted && name in kernel ==> name in files)
    requires name in files && Decode(name, files[name]).Some? ==> b.package != Some(":")
    ensures s.Worked? && InPlace(runDetectors, mounted, files, files', kernel, kernel', name, b)
  {
    hide *;
    SettingsRead(settings);
    FirstValuesUnique(settings, args, ArgsOf(Lines(FileText(settings))));
    SettingsAreLines(settings, args);
    NotProhibited(args);
    FilledIs(importdir + "/" + name, args, b);
    FilledLines(importdir + "/" + name, args, b);
    FiledIs(name, b);
    BaseNameSame(name);
    Importable(importdir, files, name, FileText(settings), b);
    ImportAchieved(runDetectors, importdir, s, mounted, files, files', kernel, kernel', name, FileText(settings), b);
    InstalledInPlace(runDetectors, mounted, files, files', kernel, kernel', name, b);
  }

  lemma Importable(importdir: string, files: Files, name: string, content: string, b: Binfmt)
    requires name !in {".", "..", "register", "status"} && '/' !in name && BaseName(name) == name
    requires var args := ArgsOf(Lines(content)); !Prohibits(args) && !Refuses(args) && b == Completed(importdir + "/" + name, args)
    requires PlainRecord(b) && b.package.Some? && b.magic.Some? && FreeFor(files, name, b.package)
    requires name in files && Decode(name, files[name]).Some? ==> b.package != Some(":")
    ensures ImportableIn(importdir, map[], files, name, content) && DescribedIn(importdir, name, content) == b
  {
    OwnerIs(files, name);
    hide Decode, ArgsOf, Lines, Completed, Prohibits, Refuses, PlainRecord, OwnerIn, BaseName;
  }

  lemma ImportAchieved(runDetectors: string, importdir: string, s: Status, mounted: bool, files: Files, files': Files,
                       kernel: map<string, Registration>, kernel': map<string, Registration>,
                       name: string, content: string, b: Binfmt)
    requires Achieved(ImportOne(name, Some(content)), importdir, runDetectors, s, mounted, files, files', kernel, kernel')
    requires ImportableIn(importdir, map[], files, name, content) && DescribedIn(importdir, name, content) == b
    requires BaseName(name) == name
    ensures s.Worked? && Installed(runDetectors, mounted, map[], files, files', kernel, kernel', name, b)
    ensures SameElse(kernel, kernel', name)
  {
    hide ImportableIn, DescribedIn, Installed, BaseName, Enabled, AllInstalled, AllImportable, Expected, Prohibits, Refuses, CompleteIn;
  }

  // ----- the other actions --------------------------------------------------

  /** Removing a format of a package, and enabling one that can be loaded. */
  lemma RemoveOutcome(runDetectors: string, importdir: string, s: Status, mounted: bool, files: Files, files': Files,
                      kernel: map<string, Registration>, kernel': map<string, Registration>, name: string, package: string)
    requires Achieved(RemoveOne(name, package), importdir, runDetectors, s, mounted, files, files', kernel, kernel')
    requires name !in {".", "..", "register", "status"} && name in files && FreeFor(files, name, Some(package))
    ensures s.Worked? && name !in files' && (forall n :: n != name ==> SameAt(files, files', n) && SameAt(kernel, kernel', n))
    ensures if mounted then name !in kernel' else kernel' == kernel
  {
    OwnerIs(files, name);
    hide Decode, OwnerIn;
  }

  lemma EnableOutcome(runDetectors: string, importdir: string, s: Status, mounted: bool, files: Files, files': Files,
                      kernel: map<string, Registration>, kernel': map<string, Registration>, name: string)
    requires Achieved(EnableOne(name), importdir, runDetectors, s, mounted, files, files', kernel, kernel')
    requires name !in {".", "..", "register", "status"} && name in files && Decode(name, files[name]).Some?
    ensures s.Worked? && files' == files && name in kernel' && (forall n :: n != name ==> SameAt(kernel, kernel', n))
    ensures if name in kernel then kernel' == kernel else AsRecorded(files, name, runDetectors, kernel'[name])
  {
    hide *;
    RecordIs(files, name);
    ExpectedIsRecorded(files, name, runDetectors);
    EnableAchieved(runDetectors, importdir, s, mounted, files, files', kernel, kernel', name);
    AddedOnly(kernel, kernel', name, Expected(files, name, runDetectors));
  }

  lemma RecordIs(files: Files, name: string)
    requires name in files && name !in {".", "..", "register", "status"}
    ensures RecordAt(files, name) == Decode(name, files[name]) && !Reserved(name)
  {
    hide Decode;
  }

  lemma AddedOnly(kernel: map<string, Registration>, kernel': map<string, Registration>, name: string, r: Registration)
    requires kernel' == if name in kernel then kernel else kernel[name := r]
    ensures name in kernel' && (name !in kernel ==> kernel'[name] == r) && forall n :: n != name ==> SameAt(kernel, kernel', n)
  {
  }

  lemma EnableAchieved(runDetectors: string, importdir: string, s: Status, mounted: bool, files: Files, files': Files,
                       kernel: map<string, Registration>, kernel': map<string, Registration>, name: string)
    requires Achieved(EnableOne(name), importdir, runDetectors, s, mounted, files, files', kernel, kernel')
    requires !Reserved(name) && RecordAt(files, name).Some?
    ensures s.Worked? && files' == files
    ensures kernel' == if name in kernel then kernel else kernel[name := Expected(files, name, runDetectors)]
  {
    hide ImportableIn, DescribedIn, Installed, BaseName, Enabled, AllInstalled, AllImportable, Expected, Prohibits, Refuses,
      CompleteIn, RecordAt, Reserved;
  }

  /** A record without an interpreter is registered with what printf makes of NULL, unless a
      detector or a record like it calls for run-detectors. */
  lemma Unset(formats: Formats, name: string, b: Binfmt, runDetectors: string)
    requires b.interpreter == None && b.detector in {None, Some("")}
    requires forall n :: n in formats && n != name ==>
               Text(formats[n].magic) != Text(b.magic) || Text(formats[n].mask) != Text(b.mask)
               || Text(formats[n].kind) != Text(b.kind) || Text(formats[n].offset) != Text(b.offset)
    ensures Register(formats, name, b, runDetectors).interpreter == "(null)"
  {
  }
}
