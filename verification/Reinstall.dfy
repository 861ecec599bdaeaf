/** What an installation registers with the kernel, compared with what the directory then
    says: the two differ where an old record is replaced by another one, and where a field
    of the new record ends with blanks. */
module Reinstall {
  import opened Options
  import opened Format
  import opened Registry

  /** The records that a name shares the directory with. */
  function Others(files: Files, name: string): Formats {
    Cached(map[], files - {name, name + ".tmp"})
  }

  /** The record that the cache has when a name is installed: the old one, if there is one. */
  function InCache(files: Files, name: string, b: Binfmt): Binfmt {
    if RecordAt(files, name).Some? then RecordAt(files, name).value else b
  }

  function Interpreter(others: Formats, name: string, b: Binfmt, runDetectors: string): string {
    if NeedsDetector(others, name, b) then runDetectors else Printed(b.interpreter)
  }

  /** Are two records of a name registered in the same way? */
  predicate SameToKernel(others: Formats, name: string, k: Binfmt, t: Binfmt, runDetectors: string) {
    && (Text(k.kind) == "magic" <==> Text(t.kind) == "magic") && Text(k.offset) == Text(t.offset)
    && Text(k.magic) == Text(t.magic) && Text(k.mask) == Text(t.mask)
    && (Text(k.credentials) == "yes" <==> Text(t.credentials) == "yes")
    && (Text(k.preserve) == "yes" <==> Text(t.preserve) == "yes")
    && Interpreter(others, name, k, runDetectors) == Interpreter(others, name, t, runDetectors)
  }

  lemma RegisterIs(f: Formats, others: Formats, name: string, k: Binfmt, t: Binfmt, runDetectors: string)
    requires forall n :: n != name ==> SameAt(f, others, n)
    ensures Register(f, name, k, runDetectors) == Register(others, name, k, runDetectors)
    ensures Register(others, name, k, runDetectors) == Register(others, name, t, runDetectors) <==>
            SameToKernel(others, name, k, t, runDetectors)
  {
    hide SameSpec;
    assert Shared(f, name, k) <==> Shared(others, name, k) by {
      if other :| other in f && other != name && SameSpec(k, f[other]) {
        assert SameAt(f, others, other);
      }
      if other :| other in others && other != name && SameSpec(k, others[other]) {
        assert SameAt(f, others, other);
      }
    }
  }

  /** What is cached besides a name does not depend on the name. */
  lemma OthersSame(before: Formats, files: Files, files': Files, name: string, content: string)
    requires files' == files[name := content] - {name + ".tmp"} && before.Keys <= {name}
    ensures forall n :: n != name ==> SameAt(Cached(before, files'), Others(files, name), n)
  {
    hide RecordAt, Cached;
    forall n | n != name
      ensures SameAt(Cached(before, files'), Others(files, name), n)
    {
      CachedAt(before, files', n);
      CachedAt(map[], files - {name, name + ".tmp"}, n);
      RecordsSame(files', files - {name, name + ".tmp"}, n);
    }
  }

  lemma RecordsSame(a: Files, b: Files, n: string)
    requires SameAt(a, b, n)
    ensures RecordAt(a, n) == RecordAt(b, n)
  {
  }

  /** An installation registers a format as the directory then has it exactly if the record
      in the cache and the one in the directory, as they can be told before, look the same
      to the kernel; or, where a registration comes to light, if that is already so. */
  lemma InstalledIs(runDetectors: string, mounted: bool, files: Files, files': Files, kernel: map<string, Registration>,
                    kernel': map<string, Registration>, name: string, b: Binfmt)
    requires PlainRecord(b) && Installed(runDetectors, mounted, map[], files, files', kernel, kernel', name, b)
    requires mounted && name in kernel ==> name in files
    ensures RecordAt(files', name) == Some(Trimmed(name, b)) && name in kernel'
    ensures kernel'[name] == if name in kernel && !mounted then kernel[name]
                             else Register(Others(files, name), name, InCache(files, name, b), runDetectors)
    ensures kernel'[name] == Expected(files', name, runDetectors) <==>
              if name in kernel && !mounted then kernel[name] == Register(Others(files, name), name, Trimmed(name, b), runDetectors)
              else SameToKernel(Others(files, name), name, InCache(files, name, b), Trimmed(name, b), runDetectors)
    ensures kernel'[name] == Expected(files', name, runDetectors) ==> AsRecorded(files', name, runDetectors, kernel'[name])
  {
    WrittenRecord(files, name, b);
    ExpectedIsRecorded(files', name, runDetectors);
    var k, t, others := InCache(files, name, b), Trimmed(name, b), Others(files, name);
    var before := KnownIn(map[], files, name, b);
    assert before == map[name := k];
    OthersSame(before, files, files', name, Encode(b));
    OthersSame(map[], files, files', name, Encode(b));
    CachedAt(before, files', name);
    RegisterIs(Cached(before, files'), others, name, k, t, runDetectors);
    RegisterIs(Cached(map[], files'), others, name, t, t, runDetectors);
    hide Others, Cached, Register, SameToKernel, RecordAt, Encode, Trimmed, AsRecorded, Expected;
  }

  // ----- two installations ---------------------------------------------------

  /** A format as package "p" has it installed. */
  function JarArgs(interpreter: string, magic: string): Args {
    map["package" := Some("p"), "type" := Some("magic"), "magic" := Some(magic), "interpreter" := Some(interpreter)]
  }

  function Jar(interpreter: string, magic: string): Binfmt {
    Completed("jar", JarArgs(interpreter, magic))
  }

  lemma JarIs(interpreter: string, magic: string)
    requires Plain(interpreter) && Plain(magic)
    ensures PlainRecord(Jar(interpreter, magic))
    ensures !Prohibits(JarArgs(interpreter, magic)) && !Refuses(JarArgs(interpreter, magic))
    ensures Jar(interpreter, magic) ==
            Binfmt("jar", Some("p"), Some("magic"), Some("0"), Some(magic), Some(""), Some(interpreter), None, None, None)
  {
    var args := JarArgs(interpreter, magic);
    assert Plain("p") && Plain("magic") && Plain("0") && Plain("");
    assert Fields(Given("", args)) ==
           [Some("p"), Some("magic"), None, Some(magic), None, Some(interpreter), None, None, None];
    forall k | 0 <= k < 9
      ensures !HasNewline(Fields(Given("", args))[k])
    {
    }
    var fs := Fields(Jar(interpreter, magic));
    assert fs == [Some("p"), Some("magic"), Some("0"), Some(magic), Some(""), Some(interpreter), None, None, None];
    forall k | 0 <= k < 9
      ensures Plain(Text(fs[k]))
    {
    }
  }

  /** The record as the directory has it. */
  function JarFiled(interpreter: string, magic: string): Binfmt {
    Binfmt("jar", Some("p"), Some("magic"), Some("0"), Some(magic), Some(""), Some(interpreter), Some(""), Some(""), Some(""))
  }

  lemma JarTrimmed(interpreter: string, magic: string)
    requires Plain(interpreter) && Plain(magic)
    ensures Trimmed("jar", Jar(interpreter, magic)) == JarFiled(Trim(interpreter), Trim(magic))
    ensures Decode("jar", Encode(Jar(interpreter, magic))) == Some(JarFiled(Trim(interpreter), Trim(magic)))
  {
    JarIs(interpreter, magic);
    RoundTrip("jar", Jar(interpreter, magic));
    TrimSame("p");
    TrimSame("magic");
    TrimSame("0");
    TrimSame("");
    hide Trim;
    assert Fields(Jar(interpreter, magic)) ==
           [Some("p"), Some("magic"), Some("0"), Some(magic), Some(""), Some(interpreter), None, None, None];
  }

  /** The only format of a directory is registered with its interpreter. */
  lemma RegisteredAlone(files: Files, b: Binfmt, runDetectors: string)
    requires files.Keys <= {"jar"} && Text(b.detector) == "" && b.interpreter.Some?
    ensures var r := Register(Others(files, "jar"), "jar", b, runDetectors);
            r.interpreter == b.interpreter.value && r.magic == Text(b.magic)
  {
    hide RecordAt, SameSpec;
    assert files - {"jar", "jar" + ".tmp"} == map[];
    assert Others(files, "jar") == map[];
  }

  /** A directory with nothing but the format. */
  function JarFiles(interpreter: string, magic: string): Files {
    map["jar" := Encode(Jar(interpreter, magic))]
  }

  /** Where only the installed format is around, and the records in the cache and in the
      directory differ, they also differ to the kernel. */
  lemma Differs(runDetectors: string, files: Files, files': Files, kernel': map<string, Registration>, b: Binfmt, k: Binfmt, t: Binfmt)
    requires PlainRecord(b) && Installed(runDetectors, true, map[], files, files', map[], kernel', "jar", b)
    requires files.Keys <= {"jar"} && k == InCache(files, "jar", b) && t == Trimmed("jar", b)
    requires Text(k.detector) == "" && Text(t.detector) == "" && k.interpreter.Some? && t.interpreter.Some?
    requires k.interpreter != t.interpreter || Text(k.magic) != Text(t.magic)
    ensures RecordAt(files', "jar") == Some(t) && "jar" in kernel' && kernel'["jar"] != Expected(files', "jar", runDetectors)
    ensures kernel'["jar"].interpreter == k.interpreter.value && kernel'["jar"].magic == Text(k.magic)
  {
    InstalledIs(runDetectors, true, files, files', map[], kernel', "jar", b);
    RegisteredAlone(files, k, runDetectors);
    RegisteredAlone(files, t, runDetectors);
    RegisterIs(Others(files, "jar"), Others(files, "jar"), "jar", k, t, runDetectors);
    hide *;
  }

  lemma JarInstalled(runDetectors: string, s: Status, files: Files, files': Files, kernel': map<string, Registration>,
                     interpreter: string, magic: string)
    requires Achieved(InstallOne("jar", JarArgs(interpreter, magic)), "", runDetectors, s, true, files, files', map[], kernel')
    requires Plain(interpreter) && Plain(magic) && OwnerIn(map[], files, "jar") in {None, Some("p")}
    ensures s.Worked? && Installed(runDetectors, true, map[], files, files', map[], kernel', "jar", Jar(interpreter, magic))
  {
    JarIs(interpreter, magic);
    hide OwnerIn, PlainRecord, Prohibits, Refuses, JarArgs, Completed, Installed;
  }

  /** A package that installs its format again, with a new interpreter, leaves the old one
      registered. */
  lemma ReinstallMisses(runDetectors: string, s: Status, files': Files, kernel': map<string, Registration>)
    requires Achieved(InstallOne("jar", JarArgs("/new", "ab")), "", runDetectors, s, true, JarFiles("/old", "ab"), files',
                      map[], kernel')
    ensures s.Worked? && RecordAt(files', "jar") == Some(JarFiled("/new", "ab"))
    ensures "jar" in kernel' && kernel'["jar"].interpreter == "/old"
    ensures kernel'["jar"] != Expected(files', "jar", runDetectors)
  {
    var files, b, k, t := JarFiles("/old", "ab"), Jar("/new", "ab"), JarFiled("/old", "ab"), JarFiled("/new", "ab");
    OldJar();
    OtherJar();
    hide *;
    JarInstalled(runDetectors, s, files, files', kernel', "/new", "ab");
    Differs(runDetectors, files, files', kernel', b, k, t);
  }

  lemma OldJar()
    ensures var files, k := JarFiles("/old", "ab"), JarFiled("/old", "ab");
            && files.Keys <= {"jar"} && OwnerIn(map[], files, "jar") == Some("p")
            && (forall b :: InCache(files, "jar", b) == k)
            && Text(k.detector) == "" && k.interpreter == Some("/old") && Text(k.magic) == "ab"
            && Text(JarFiled("/new", "ab").detector) == "" && JarFiled("/new", "ab").interpreter == Some("/new")
  {
    assert Plain("/old") && Plain("ab");
    JarTrimmed("/old", "ab");
    TrimSame("/old");
    TrimSame("ab");
    hide Encode, Decode, Trim, Jar;
  }

  lemma OtherJar()
    ensures Plain("/new") && Plain("ab") && PlainRecord(Jar("/new", "ab"))
    ensures Trimmed("jar", Jar("/new", "ab")) == JarFiled("/new", "ab")
    ensures Some("/old") != Some("/new")
  {
    JarIs("/new", "ab");
    JarTrimmed("/new", "ab");
    TrimSame("/new");
    TrimSame("ab");
    assert "/old"[1] != "/new"[1];
    hide Jar, Trim, Trimmed, PlainRecord;
  }

  /** A first installation of a magic that ends with a blank registers the blank, which is
      not in the directory. */
  lemma BlankMisses(runDetectors: string, s: Status, files': Files, kernel': map<string, Registration>)
    requires Achieved(InstallOne("jar", JarArgs("/new", "ab ")), "", runDetectors, s, true, map[], files', map[], kernel')
    ensures s.Worked? && RecordAt(files', "jar") == Some(JarFiled("/new", "ab"))
    ensures "jar" in kernel' && kernel'["jar"].magic == "ab "
    ensures kernel'["jar"] != Expected(files', "jar", runDetectors)
  {
    var b, t := Jar("/new", "ab "), JarFiled("/new", "ab");
    NewJar();
    assert Plain("/new") && Plain("ab ");
    JarIs("/new", "ab ");
    assert Text(b.detector) == "" && b.interpreter == Some("/new") && Text(b.magic) == "ab ";
    assert Text(t.detector) == "" && t.interpreter == Some("/new") && Text(t.magic) == "ab";
    hide *;
    JarInstalled(runDetectors, s, map[], files', kernel', "/new", "ab ");
    Differs(runDetectors, map[], files', kernel', b, b, t);
  }

  lemma NewJar()
    ensures OwnerIn(map[], map[], "jar") == None && forall b :: InCache(map[], "jar", b) == b
    ensures Trimmed("jar", Jar("/new", "ab ")) == JarFiled("/new", "ab")
  {
    assert Plain("/new") && Plain("ab ");
    JarTrimmed("/new", "ab ");
    TrimSame("/new");
    assert Trim("ab ") == "ab" by {
      assert "ab "[..2] == "ab" && IsSpace(' ');
      TrimSame("ab");
    }
    hide Jar, Trim, Trimmed;
  }

  /** Both happen: the directory and the kernel after such runs. */
  method InstallTwice() returns (r: Registry)
    ensures r.Valid() && RecordAt(r.admindir, "jar") == Some(JarFiled("/new", "ab"))
    ensures "jar" in r.kernel && r.kernel["jar"].interpreter == "/old"
    ensures r.kernel["jar"] != Expected(r.admindir, "jar", r.runDetectors)
  {
    var content := Write(Jar("/old", "ab"));
    r := new Registry("/run-detectors", "", false, map["jar" := content], map[], true, true);
    var s := r.Run(InstallOne("jar", JarArgs("/new", "ab")), false);
    ReinstallMisses(r.runDetectors, s, r.admindir, r.kernel);
  }

  method InstallWithBlank() returns (r: Registry)
    ensures r.Valid() && RecordAt(r.admindir, "jar") == Some(JarFiled("/new", "ab"))
    ensures "jar" in r.kernel && r.kernel["jar"].magic == "ab "
    ensures r.kernel["jar"] != Expected(r.admindir, "jar", r.runDetectors)
  {
    r := new Registry("/run-detectors", "", false, map[], map[], true, true);
    var s := r.Run(InstallOne("jar", JarArgs("/new", "ab ")), false);
    BlankMisses(r.runDetectors, s, r.admindir, r.kernel);
  }

  // ----- a stale registration --------------------------------------------------

  lemma StaleJar(stale: Registration)
    requires stale.kind == 'E'
    ensures var files := map["jar" := Encode(Jar("/new", "ab"))];
            AllLoadable(files) && RecordAt(files, "jar").Some? && forall rd :: Expected(files, "jar", rd) != stale
  {
    assert Plain("/new") && Plain("ab");
    JarTrimmed("/new", "ab");
    hide Encode, Decode, Trim, Jar, Cached, NeedsDetector;
  }

  /** A format of the directory that the kernel has in another way, while procdir is not
      mounted, is still there in that way after all formats are disabled and enabled. */
  method KeepStale() returns (r: Registry)
    ensures r.Valid() && AllLoadable(r.admindir) && "jar" in r.admindir && "jar" in r.kernel
    ensures RecordAt(r.admindir, "jar").Some? && r.kernel["jar"] != Expected(r.admindir, "jar", r.runDetectors)
  {
    var stale := Registration('E', "0", "jar", "", "/old", false, false);
    var content := Write(Jar("/new", "ab"));
    StaleJar(stale);
    r := new Registry("/run-detectors", "", false, map["jar" := content], map["jar" := stale], false, true);
    hide Jar, JarFiles, Encode, Decode, RecordAt, AllLoadable, Expected, Cached;
    var s := r.DisableThenEnable();
  }
}
