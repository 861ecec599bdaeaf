/** update-binfmts: the records in the administrative directory, the formats registered
    with the kernel, and the actions that keep the two in step.

    The file system is a map from file names to contents, the kernel a map from names to
    registrations.  While faults is set every operation on either may fail. */
module Registry {
  import opened Options
  import opened Format

  /** What is written to the register file. */
  datatype Registration = Registration(
    kind: char, offset: string, magic: string, mask: string, interpreter: string, credentials: bool, preserve: bool)

  /** The names that are not formats in procdir. */
  predicate Reserved(name: string) {
    name == "." || name == ".." || name == "register" || name == "status"
  }

  /** An action returns 1 or 0, ends the program, or passes NULL to a function that does
      not take it. */
  datatype Status = Worked | Failed | Exited | Crashed

  type Files = map<string, string>
  type Formats = map<string, Binfmt>

  /** The record in a file of the administrative directory. */
  function RecordAt(files: Files, name: string): Option<Binfmt> {
    if name in files then Decode(name, files[name]) else None
  }

  /** The cache after loading every record; what is in it already stays. */
  function Cached(formats: Formats, files: Files): Formats {
    map n | n in formats.Keys + files.Keys && (n in formats || RecordAt(files, n).Some?) ::
      if n in formats then formats[n] else RecordAt(files, n).value
  }

  /** The cache after loading one record. */
  function CachedOne(formats: Formats, files: Files, name: string): Formats {
    if name !in formats && RecordAt(files, name).Some? then formats[name := RecordAt(files, name).value] else formats
  }

  /** Everything in a is in b. */
  predicate Within<T(==)>(a: map<string, T>, b: map<string, T>) {
    forall n :: n in a ==> n in b && b[n] == a[n]
  }

  predicate AllLoadable(files: Files) {
    forall n :: n in files ==> RecordAt(files, n).Some?
  }

  // ----- registrations ------------------------------------------------------

  /** Does another format match the same files? */
  predicate Shared(formats: Formats, name: string, b: Binfmt) {
    exists other :: other in formats && other != name && SameSpec(b, formats[other])
  }

  /** run-detectors is registered for a format with a detector, and for one that shares
      its specification with another. */
  predicate NeedsDetector(formats: Formats, name: string, b: Binfmt) {
    Text(b.detector) != "" || Shared(formats, name, b)
  }

  /** What printf makes of a string that may be NULL. */
  function Printed(o: Option<string>): string {
    if o.Some? then o.value else "(null)"
  }

  function Register(formats: Formats, name: string, b: Binfmt, runDetectors: string): Registration {
    Registration(
      if Text(b.kind) == "magic" then 'M' else 'E', Text(b.offset), Text(b.magic), Text(b.mask),
      if NeedsDetector(formats, name, b) then runDetectors else Printed(b.interpreter),
      Text(b.credentials) == "yes", Text(b.preserve) == "yes")
  }

  /** The registration that the administrative directory alone determines. */
  function Expected(files: Files, name: string, runDetectors: string): Registration
    requires RecordAt(files, name).Some?
  {
    Register(Cached(map[], files), name, RecordAt(files, name).value, runDetectors)
  }

  /** Is a record of the directory, with all fields that decide which files it matches, like
      that of another name? */
  predicate LikeAnother(files: Files, name: string) {
    name in files && Decode(name, files[name]).Some? &&
    exists other :: other in files && other != name && Decode(other, files[other]).Some? &&
      var b, o := Decode(name, files[name]).value, Decode(other, files[other]).value;
      b.kind == o.kind && b.offset == o.offset && b.magic == o.magic && b.mask == o.mask
  }

  /** A registration is read off the record of its name, field by field; run-detectors takes
      the place of the interpreter of a record that has a detector or is like another. */
  predicate AsRecorded(files: Files, name: string, runDetectors: string, r: Registration) {
    name in files && Decode(name, files[name]).Some? &&
    var b := Decode(name, files[name]).value;
    && r.kind == (if b.kind == Some("magic") then 'M' else 'E')
    && Some(r.offset) == b.offset && Some(r.magic) == b.magic && Some(r.mask) == b.mask
    && (r.credentials <==> b.credentials == Some("yes")) && (r.preserve <==> b.preserve == Some("yes"))
    && (if b.detector != Some("") || LikeAnother(files, name) then r.interpreter == runDetectors
        else Some(r.interpreter) == b.interpreter)
  }

  lemma ExpectedIsRecorded(files: Files, name: string, runDetectors: string)
    requires RecordAt(files, name).Some?
    ensures AsRecorded(files, name, runDetectors, Expected(files, name, runDetectors))
  {
    var b, all := RecordAt(files, name).value, Cached(map[], files);
    DecodedFields(name, files[name]);
    assert Fields(b)[0].Some? && Fields(b)[1].Some? && Fields(b)[2].Some? && Fields(b)[3].Some? && Fields(b)[4].Some?
           && Fields(b)[5].Some? && Fields(b)[6].Some? && Fields(b)[7].Some? && Fields(b)[8].Some?;
    CachedKeys(files);
    LikeShared(files, name);
    hide Decode, Cached, LikeAnother, Shared, LineField;
  }

  lemma LikeShared(files: Files, name: string)
    requires RecordAt(files, name).Some?
    ensures LikeAnother(files, name) <==> Shared(Cached(map[], files), name, RecordAt(files, name).value)
  {
    var all, b := Cached(map[], files), RecordAt(files, name).value;
    CachedKeys(files);
    hide Cached, SameSpec;
    forall n | n in files && RecordAt(files, n).Some?
      ensures var o := RecordAt(files, n).value;
              SameSpec(b, o) <==> b.kind == o.kind && b.offset == o.offset && b.magic == o.magic && b.mask == o.mask
    {
      SameLoaded(files, name, n);
    }
    hide Decode;
  }

  lemma SameLoaded(files: Files, m: string, n: string)
    requires RecordAt(files, m).Some? && RecordAt(files, n).Some?
    ensures var b, o := RecordAt(files, m).value, RecordAt(files, n).value;
            SameSpec(b, o) <==> b.kind == o.kind && b.offset == o.offset && b.magic == o.magic && b.mask == o.mask
  {
    DecodedFields(m, files[m]);
    DecodedFields(n, files[n]);
    var b, o := RecordAt(files, m).value, RecordAt(files, n).value;
    assert Fields(b)[1].Some? && Fields(b)[2].Some? && Fields(b)[3].Some? && Fields(b)[4].Some?;
    assert Fields(o)[1].Some? && Fields(o)[2].Some? && Fields(o)[3].Some? && Fields(o)[4].Some?;
    hide Decode, LineField;
  }

  /** Where its own interpreter is another program, a format is registered with run-detectors
      exactly if it has a detector, or another record has its type, offset, magic and mask. */
  lemma DetectorsExactly(files: Files, name: string, runDetectors: string, r: Registration)
    requires AsRecorded(files, name, runDetectors, r)
    requires Decode(name, files[name]).value.interpreter != Some(runDetectors)
    ensures var b := Decode(name, files[name]).value;
            r.interpreter == runDetectors <==>
              || b.detector != Some("")
              || exists other :: other in files && other != name && Decode(other, files[other]).Some? &&
                   var o := Decode(other, files[other]).value;
                   b.kind == o.kind && b.offset == o.offset && b.magic == o.magic && b.mask == o.mask
  {
    hide Decode;
  }

  /** Two maps are the same at a name. */
  predicate SameAt<T(==)>(a: map<string, T>, b: map<string, T>, name: string) {
    (name in a <==> name in b) && (name in a && name in b ==> a[name] == b[name])
  }

  /** Two maps are the same but for a name. */
  predicate SameElse<T(==)>(a: map<string, T>, b: map<string, T>, name: string) {
    (forall n :: n in a && n != name ==> n in b && b[n] == a[n]) && (forall n :: n in b && n != name ==> n in a)
  }

  /** What a run achieves that is not a test and meets no faults.  What the kernel has is
      out of reach where procdir does not show it. */
  ghost predicate Achieved(command: Command, importdir: string, runDetectors: string, s: Status, mounted: bool,
                           files: Files, files': Files, kernel: map<string, Registration>, kernel': map<string, Registration>) {
    match command
    case InstallOne(name, args) =>
      !Reserved(name) && !Prohibits(args) && !Refuses(args) && CompleteIn(map[], files, name, Completed(name, args))
      ==> s.Worked? && SameElse(kernel, kernel', name)
          && Installed(runDetectors, mounted, map[], files, files', kernel, kernel', name, Completed(name, args))
    case RemoveOne(name, package) =>
      !Reserved(name) && name in files && (OwnerIn(map[], files, name).Some? ==> OwnerIn(map[], files, name) == Some(package))
      ==> s.Worked? && files' == files - {name} && kernel' == if mounted then kernel - {name} else kernel
    case ImportOne(name, file) =>
      file.Some? && ImportableIn(importdir, map[], files, name, file.value)
      ==> s.Worked? && SameElse(kernel, kernel', BaseName(name))
          && Installed(runDetectors, mounted, map[], files, files', kernel, kernel', BaseName(name),
                       DescribedIn(importdir, name, file.value))
    case ImportDir(fs) =>
      AllImportable(importdir, fs, files, kernel) ==> s.Worked? && AllInstalled(importdir, fs, files')
    case EnableOne(name) =>
      && files' == files
      && (!Reserved(name) && RecordAt(files, name).Some? ==>
            s.Worked? && kernel' == if name in kernel then kernel else kernel[name := Expected(files, name, runDetectors)])
    case EnableDir =>
      && files' == files
      && (AllLoadable(files) ==> s.Worked? && Enabled(Cached(map[], files), files.Keys, kernel, kernel', runDetectors))
    case DisableOne(name) =>
      files' == files && (!Reserved(name) ==> s.Worked? && kernel' == if mounted then kernel - {name} else kernel)
    case DisableDir =>
      files' == files && (AllLoadable(files) ==> if mounted then NoneOf(kernel', files.Keys) else kernel' == kernel)
  }

  /** What the installation of a complete record leaves.  A format that only the kernel
      knows is left alone.  Otherwise the record is in the directory, and what the cache
      then has for the name is registered, unless a registration comes to light that was
      out of reach before. */
  ghost predicate Installed(runDetectors: string, mounted: bool, formats: Formats, files: Files, files': Files,
                            kernel: map<string, Registration>, kernel': map<string, Registration>, name: string, b: Binfmt) {
    if mounted && name in kernel && name !in files then files' == files && kernel' == kernel
    else
      && files' == files[name := Encode(b)] - {name + ".tmp"}
      && (if !mounted && name in kernel then kernel' == kernel
          else RegistersIn(runDetectors, files', kernel', name, KnownIn(formats, files, name, b)))
  }

  // ----- runs over all formats ----------------------------------------------

  /** Formats have been added to the kernel, all with names from keys. */
  predicate Grown(before: map<string, Registration>, after: map<string, Registration>, keys: set<string>) {
    Within(before, after) && forall n :: n in after ==> n in before || n in keys
  }

  /** The formats that are done are in the kernel: as before, or as they are to be. */
  predicate Enabled(all: Formats, done: set<string>, before: map<string, Registration>, after: map<string, Registration>,
                    runDetectors: string) {
    done <= all.Keys && forall n :: n in done && !Reserved(n) ==>
      n in after && (n in before || after[n] == Register(all, n, all[n], runDetectors))
  }

  /** The state of a walk that enables formats; without faults it is sure to succeed. */
  predicate Progress(all: Formats, done: set<string>, start: map<string, Registration>, now: map<string, Registration>,
                     runDetectors: string, sure: bool) {
    done <= all.Keys && Grown(start, now, done) && (sure ==> Enabled(all, done, start, now, runDetectors))
  }

  lemma ProgressStart(all: Formats, kernel: map<string, Registration>, runDetectors: string, sure: bool)
    ensures Progress(all, {}, kernel, kernel, runDetectors, sure)
  {
  }

  lemma ProgressNext(all: Formats, done: set<string>, start: map<string, Registration>, before: map<string, Registration>,
                     after: map<string, Registration>, runDetectors: string, sure: bool, n: string)
    requires Progress(all, done, start, before, runDetectors, sure)
    requires n in all && n !in done && SameElse(before, after, n) && (n in before ==> after == before)
    requires sure && !Reserved(n) ==> n in after && (n in before || after[n] == Register(all, n, all[n], runDetectors))
    ensures Progress(all, done + {n}, start, after, runDetectors, sure)
  {
    hide Register;
  }

  lemma ProgressMeans(all: Formats, done: set<string>, start: map<string, Registration>, now: map<string, Registration>,
                      runDetectors: string, sure: bool)
    requires Progress(all, done, start, now, runDetectors, sure)
    ensures Grown(start, now, all.Keys) && (sure ==> Enabled(all, done, start, now, runDetectors))
  {
    hide Register;
  }

  /** Except for a name, the cache has only what it had before and what is on disk. */
  predicate FromDisk(before: Formats, after: Formats, files: Files, name: string) {
    forall n :: n in after && n != name ==>
      (n in before && before[n] == after[n]) || RecordAt(files, n) == Some(after[n])
  }

  // ----- ownership ----------------------------------------------------------

  /** A run's main action; import files come with their contents. */
  datatype Command =
    | InstallOne(name: string, args: Args)
    | RemoveOne(name: string, package: string)
    | ImportOne(name: string, file: Option<string>)
    | ImportDir(files: Files)
    | EnableOne(name: string)
    | EnableDir
    | DisableOne(name: string)
    | DisableDir

  /** Directory entries have no slashes. */
  predicate WellFormed(command: Command) {
    command.ImportDir? ==> forall id :: id in command.files ==> '/' !in id
  }

  /** A name together with the package for which it is acted on. */
  type Acts = set<(string, string)>

  function Act(name: string, package: Option<string>): Acts {
    if package.Some? then {(name, package.value)} else {}
  }

  function Imports(files: Files): Acts {
    set id | id in files && PackageIn(files[id]).Some? :: (id, PackageIn(files[id]).value)
  }

  function ActsFor(command: Command): Acts {
    match command
    case InstallOne(name, args) => Act(name, Lookup(args, "package"))
    case RemoveOne(name, package) => Act(name, Some(package))
    case ImportOne(name, file) => Act(BaseName(name), if file.Some? then PackageIn(file.value) else None)
    case ImportDir(files) => Imports(files)
    case _ => {}
  }

  /** The temporary files in which new records are written. */
  function TempsOf(names: set<string>): set<string> {
    set n | n in names :: n + ".tmp"
  }

  function TempsFor(command: Command): set<string> {
    match command
    case InstallOne(name, _) => TempsOf({name})
    case ImportOne(name, _) => TempsOf({BaseName(name)})
    case ImportDir(files) => TempsOf(files.Keys)
    case _ => {}
  }

  function AllTemps(commands: seq<(Command, bool)>): set<string> {
    if commands == [] then {} else AllTemps(commands[..|commands| - 1]) + TempsFor(commands[|commands| - 1].0)
  }

  function AllActs(commands: seq<(Command, bool)>): Acts {
    if commands == [] then {} else AllActs(commands[..|commands| - 1]) + ActsFor(commands[|commands| - 1].0)
  }

  /** Records are as they were, but for those acted on for their own package and for
      those in temporary files. */
  ghost predicate Kept(before: Files, after: Files, acts: Acts, temps: set<string>) {
    forall n :: n !in temps && RecordAt(before, n).Some? && (n, Text(RecordAt(before, n).value.package)) !in acts ==>
      SameAt(before, after, n)
  }

  /** Records that were installed locally are as they were. */
  ghost predicate LocalKept(before: Files, after: Files, temps: set<string>) {
    forall n :: n !in temps && RecordAt(before, n).Some? && Text(RecordAt(before, n).value.package) == ":" ==>
      SameAt(before, after, n)
  }

  lemma KeptStart(files: Files, acts: Acts, temps: set<string>)
    ensures Kept(files, files, acts, temps) && LocalKept(files, files, temps)
  {
  }

  lemma KeptTrans(a: Files, b: Files, c: Files, x: Acts, y: Acts, t: set<string>, u: set<string>)
    requires Kept(a, b, x, t) && Kept(b, c, y, u)
    ensures Kept(a, c, x + y, t + u)
  {
    hide Decode;
    forall n | n !in t + u && RecordAt(a, n).Some? && (n, Text(RecordAt(a, n).value.package)) !in x + y
      ensures SameAt(a, c, n)
    {
      assert SameAt(a, b, n);
      assert RecordAt(b, n) == RecordAt(a, n);
    }
  }

  /** The package of a name, by the cache or else by the directory. */
  function OwnerIn(formats: Formats, files: Files, name: string): Option<string> {
    var all := CachedOne(formats, files, name);
    if name in all then Some(Text(all[name].package)) else None
  }

  /** An action on one name. */
  lemma OneKept(before: Files, after: Files, name: string, package: Option<string>, temps: set<string>)
    requires forall n :: n != name && n !in temps ==> SameAt(before, after, n)
    requires OwnerIn(map[], before, name).Some? && OwnerIn(map[], before, name) != package ==> SameAt(before, after, name)
    ensures Kept(before, after, Act(name, package), temps)
  {
    hide Decode;
  }

  lemma LocalKeptOne(before: Files, after: Files, name: string, temps: set<string>)
    requires forall n :: n != name && n !in temps ==> SameAt(before, after, n)
    requires OwnerIn(map[], before, name) == Some(":") ==> SameAt(before, after, name)
    ensures LocalKept(before, after, temps)
  {
    hide Decode;
  }

  /** The cache is as the directory, but for the names in done and temporary files. */
  ghost predicate Agrees(formats: Formats, files: Files, done: set<string>, temps: set<string>) {
    forall n :: n in formats && n !in done && n !in temps ==> RecordAt(files, n) == Some(formats[n])
  }

  lemma AgreesStart(files: Files, temps: set<string>)
    ensures Agrees(map[], files, {}, temps)
  {
  }

  /** Importing one more file of a directory. */
  lemma ImportKeeps(start: Files, before: Files, after: Files, cache: Formats, next: Formats, files: Files,
                    done: set<string>, id: string)
    requires var temps := TempsOf(files.Keys);
             Kept(start, before, Imports(files), temps) && LocalKept(start, before, temps) && Agrees(cache, before, done, temps)
    requires id in files && id !in done && FromDisk(cache, next, after, id)
    requires forall n :: n != id && n != id + ".tmp" ==> SameAt(before, after, n)
    requires OwnerIn(cache, before, id) == Some(":") ==> SameAt(before, after, id)
    requires OwnerIn(cache, before, id).Some? && OwnerIn(cache, before, id) != PackageIn(files[id]) ==> SameAt(before, after, id)
    ensures var temps := TempsOf(files.Keys);
            Kept(start, after, Imports(files), temps) && LocalKept(start, after, temps) && Agrees(next, after, done + {id}, temps)
  {
    hide Decode, PackageIn;
    var temps := TempsOf(files.Keys);
    assert id + ".tmp" in temps;
    hide TempsOf;
    forall n | n !in temps && RecordAt(start, n).Some? && (n, Text(RecordAt(start, n).value.package)) !in Imports(files)
      ensures SameAt(start, after, n)
    {
      assert SameAt(start, before, n) && RecordAt(before, n) == RecordAt(start, n);
      NotImported(files, id, Text(RecordAt(start, n).value.package));
      OtherSame(before, after, cache, done, temps, id, PackageIn(files[id]), n);
    }
    forall n | n !in temps && RecordAt(start, n).Some? && Text(RecordAt(start, n).value.package) == ":"
      ensures SameAt(start, after, n)
    {
      assert SameAt(start, before, n) && RecordAt(before, n) == RecordAt(start, n);
      OtherSame(before, after, cache, done, temps, id, PackageIn(files[id]), n);
    }
    forall n | n in next && n !in done + {id} && n !in temps
      ensures RecordAt(after, n) == Some(next[n])
    {
      assert SameAt(before, after, n) && RecordAt(after, n) == RecordAt(before, n);
    }
  }

  /** What act_enable has registered for the record that it finds for a name. */
  ghost predicate RegistersIn(runDetectors: string, files: Files, kernel: map<string, Registration>, name: string, before: Formats) {
    var all := Cached(before, files);
    name in all && name in kernel && kernel[name] == Register(all, name, all[name], runDetectors)
  }

  /** The cache with a record for name: the one there is, else b. */
  ghost function KnownIn(formats: Formats, files: Files, name: string, b: Binfmt): Formats {
    var one := CachedOne(formats, files, name);
    if name in one then one else one[name := b]
  }

  // ----- complete records -----------------------------------------------------

  /** The record is complete, and the name free or its package's own. */
  ghost predicate CompleteIn(formats: Formats, files: Files, name: string, b: Binfmt) {
    var owner := OwnerIn(formats, files, name);
    PlainRecord(b) && b.package.Some? && b.magic.Some? && (owner.Some? ==> owner == b.package)
  }

  /** Where an import file is looked for. */
  function PathOf(importdir: string, name: string): string {
    if '/' in name then name else importdir + "/" + name
  }

  /** The record that an import file describes. */
  function DescribedIn(importdir: string, name: string, content: string): Binfmt {
    Completed(PathOf(importdir, name), ArgsOf(Lines(content)))
  }

  /** The import file describes a complete record, and its name is free or belongs to the
      package that the file names, and not to the administrator. */
  ghost predicate ImportableIn(importdir: string, formats: Formats, files: Files, name: string, content: string) {
    var args := ArgsOf(Lines(content));
    && !Reserved(BaseName(name)) && OwnerIn(formats, files, BaseName(name)) != Some(":")
    && !Prohibits(args) && !Refuses(args)
    && CompleteIn(formats, files, BaseName(name), DescribedIn(importdir, name, content))
  }

  /** The imports that are done are in the directory, and nothing has been done yet about
      the other names. */
  ghost predicate Settled(importdir: string, files: Files, done: set<string>, start: Files, now: Files,
                          kernel: map<string, Registration>, kernel': map<string, Registration>) {
    && (forall n :: n in done ==> n in files && n in now && now[n] == Encode(DescribedIn(importdir, n, files[n])))
    && (forall n :: n in files && n !in done ==> SameAt(start, now, n) && SameAt(kernel, kernel', n))
  }

  /** Every file of an import directory can be imported, none has the name of another's
      temporary file, and the kernel knows none that the directory does not. */
  ghost predicate AllImportable(importdir: string, files: Files, start: Files, kernel: map<string, Registration>) {
    forall n :: n in files ==>
      n !in TempsOf(files.Keys) && ImportableIn(importdir, map[], start, n, files[n]) && (n in kernel ==> n in start)
  }

  /** The records described by the import files are in the directory. */
  ghost predicate AllInstalled(importdir: string, files: Files, now: Files) {
    forall n :: n in files ==> n in now && now[n] == Encode(DescribedIn(importdir, n, files[n]))
  }

  lemma InstalledFiles(runDetectors: string, mounted: bool, formats: Formats, files: Files, files': Files,
                       kernel: map<string, Registration>, kernel': map<string, Registration>, name: string, b: Binfmt)
    requires Installed(runDetectors, mounted, formats, files, files', kernel, kernel', name, b) && (name in kernel ==> name in files)
    ensures files' == files[name := Encode(b)] - {name + ".tmp"}
  {
  }

  lemma SettledAll(importdir: string, files: Files, start: Files, now: Files,
                   kernel: map<string, Registration>, kernel': map<string, Registration>)
    requires Settled(importdir, files, files.Keys, start, now, kernel, kernel')
    ensures AllInstalled(importdir, files, now)
  {
    hide Encode, DescribedIn;
  }

  lemma NoTemps(importdir: string, files: Files, start: Files, kernel: map<string, Registration>)
    requires AllImportable(importdir, files, start, kernel)
    ensures forall n :: n in files ==> n !in TempsOf(files.Keys)
  {
    hide ImportableIn, TempsOf;
  }

  lemma SettledStart(importdir: string, files: Files, start: Files, kernel: map<string, Registration>)
    ensures Settled(importdir, files, {}, start, start, kernel, kernel)
  {
  }

  lemma SettledNext(importdir: string, files: Files, done: set<string>, start: Files, before: Files, after: Files,
                    k0: map<string, Registration>, k1: map<string, Registration>, k2: map<string, Registration>, id: string)
    requires Settled(importdir, files, done, start, before, k0, k1) && forall n :: n in files ==> n !in TempsOf(files.Keys)
    requires id in files && id !in done && SameElse(k1, k2, id)
    requires after == before[id := Encode(DescribedIn(importdir, id, files[id]))] - {id + ".tmp"}
    ensures Settled(importdir, files, done + {id}, start, after, k0, k2)
  {
    hide DescribedIn, Encode;
    assert id + ".tmp" in TempsOf(files.Keys);
  }

  /** What could be imported at the start still can. */
  lemma StillImportable(importdir: string, files: Files, done: set<string>, start: Files, now: Files,
                        k0: map<string, Registration>, k1: map<string, Registration>, cache: Formats, id: string)
    requires Settled(importdir, files, done, start, now, k0, k1) && Agrees(cache, now, done, TempsOf(files.Keys))
    requires id in files && id !in done && BaseName(id) == id && AllImportable(importdir, files, start, k0)
    ensures ImportableIn(importdir, cache, now, id, files[id]) && (id in k1 ==> id in now)
  {
    hide DescribedIn, Prohibits, Refuses, PlainRecord, Decode, ArgsOf;
  }

  lemma NotImported(files: Files, id: string, package: string)
    requires id in files
    ensures (id, package) !in Imports(files) ==> PackageIn(files[id]) != Some(package)
  {
    hide PackageIn;
  }

  /** A record that an import must leave alone, because it is local or another package's. */
  lemma OtherSame(before: Files, after: Files, cache: Formats, done: set<string>, temps: set<string>,
                  id: string, package: Option<string>, n: string)
    requires Agrees(cache, before, done, temps) && id !in done && id + ".tmp" in temps && n !in temps && RecordAt(before, n).Some?
    requires forall m :: m != id && m != id + ".tmp" ==> SameAt(before, after, m)
    requires OwnerIn(cache, before, id) == Some(":") ==> SameAt(before, after, id)
    requires OwnerIn(cache, before, id).Some? && OwnerIn(cache, before, id) != package ==> SameAt(before, after, id)
    requires var q := Text(RecordAt(before, n).value.package);
             n == id ==> q == ":" || package != Some(q)
    ensures SameAt(before, after, n)
  {
    hide RecordAt;
    if n == id {
      assert OwnerIn(cache, before, id) == Some(Text(RecordAt(before, n).value.package));
    }
  }

  lemma {:induction false} BaseNameSame(id: string)
    requires '/' !in id
    ensures BaseName(id) == id
  {
    if id != "" {
      var n := |id| - 1;
      assert id[n] in id && '/' !in id[..n];
      BaseNameSame(id[..n]);
      assert id == id[..n] + [id[n]];
    }
  }

  predicate NoneOf(kernel: map<string, Registration>, keys: set<string>) {
    forall n :: n in keys && !Reserved(n) ==> n !in kernel
  }

  class Registry {
    const runDetectors: string
    const importdir: string
    const faults: bool
    var test: bool
    var admindir: Files
    var kernel: map<string, Registration>
    var mounted: bool    // procdir shows the kernel's formats, which it has all the same if not
    var procDir: bool    // procdir is a directory
    var formats: Formats // the cache

    predicate Valid()
      reads this`kernel, this`mounted, this`procDir
    {
      (mounted ==> procDir) && forall n :: n in kernel ==> !Reserved(n)
    }

    constructor (runDetectors: string, importdir: string, faults: bool, admindir: Files, kernel: map<string, Registration>,
                 mounted: bool, procDir: bool)
      requires (mounted ==> procDir) && forall n :: n in kernel ==> !Reserved(n)
      ensures Valid() && !test && formats == map[]
      ensures this.runDetectors == runDetectors && this.importdir == importdir && this.faults == faults
      ensures this.admindir == admindir && this.kernel == kernel && this.mounted == mounted && this.procDir == procDir
    {
      this.runDetectors, this.importdir, this.faults := runDetectors, importdir, faults;
      this.admindir, this.kernel, this.mounted, this.procDir := admindir, kernel, mounted, procDir;
      test, formats := false, map[];
    }

    /** Does the name exist in procdir? */
    predicate Exists(name: string)
      reads this`kernel, this`mounted, this`procDir
    {
      || (procDir && (name == "." || name == ".."))
      || (mounted && (name == "register" || name == "status" || name in kernel))
    }

    method Fails() returns (f: bool)
      ensures f ==> faults
    {
      f := faults;
      if * {
        f := false;
      }
    }

    // ----- the kernel -------------------------------------------------------

    /** load_binfmt_misc */
    method LoadBinfmtMisc() returns (ok: bool)
      requires Valid()
      modifies this`mounted, this`procDir
      ensures Valid() && (ok && !test ==> mounted) && (!ok ==> faults)
      ensures test || !ok ==> mounted == old(mounted)
      ensures procDir || mounted == old(mounted)
      ensures old(mounted) ==> mounted
      ensures test ==> procDir == old(procDir)
    {
      if test {
        return true;
      }
      ok := Fails();
      ok := !ok;
      if ok {
        mounted, procDir := true, true;
      }
    }

    /** unload_binfmt_misc: unmounting hides the kernel's formats, and may drop them. */
    method UnloadBinfmtMisc()
      requires Valid()
      modifies this`mounted, this`kernel
      ensures Valid() && (test ==> mounted == old(mounted) && kernel == old(kernel))
      ensures mounted ==> old(mounted)
      ensures kernel == old(kernel) || (old(mounted) && !mounted && kernel == map[])
    {
      if test || !mounted {
        return;
      }
      if * {
        mounted := false;
        if * {
          kernel := map[];
        }
      }
    }

    // ----- the cache --------------------------------------------------------

    /** load_format */
    method LoadFormat(name: string, quiet: bool) returns (s: Status)
      modifies this`formats
      ensures s.Worked? ==> formats == CachedOne(old(formats), admindir, name)
      ensures s.Worked? && !quiet && name in admindir ==> RecordAt(admindir, name).Some?
      ensures s.Worked? || (s.Exited? && formats == old(formats)
                            && (faults || (!quiet && name in admindir && RecordAt(admindir, name).None?)))
    {
      hide Decode;
      s := Worked;
      if name in admindir {
        var failed := Fails();
        if failed {
          return Exited;
        }
        var r := Load(name, admindir[name], quiet);
        match r {
          case Loaded(b) =>
            if name !in formats {
              formats := formats[name := b];
            }
          case Null =>
          case Quit =>
            return Exited;
        }
      }
    }

    /** load_all_formats, in whatever order the directory is read. */
    method LoadAllFormats(quiet: bool) returns (s: Status)
      modifies this`formats
      ensures Within(old(formats), formats) && Within(formats, Cached(old(formats), admindir))
      ensures s.Worked? ==> formats == Cached(old(formats), admindir)
      ensures s.Worked? && !quiet ==> AllLoadable(admindir)
      ensures s.Worked? || (s.Exited? && (faults || (!quiet && !AllLoadable(admindir))))
    {
      hide Decode, RecordAt, Cached;
      CachedWithin(formats, admindir);
      var failed := Fails();
      if failed {
        return Exited;
      }
      ghost var before := formats;
      var todo := admindir.Keys;
      s := Worked;
      while todo != {}
        invariant todo <= admindir.Keys && s.Worked?
        invariant Within(before, formats) && Within(formats, Cached(before, admindir))
        invariant forall n :: n in admindir && n !in todo ==>
                    RecordAt(admindir, n).Some? ==> n in formats
        invariant forall n :: n in admindir && n !in todo && !quiet ==> RecordAt(admindir, n).Some?
        decreases |todo|
      {
        var n :| n in todo;
        todo := todo - {n};
        CachedAt(before, admindir, n);
        s := LoadFormat(n, quiet);
        if s.Exited? {
          return;
        }
      }
      CachedIs(before, formats, admindir);
    }

    // ----- enable and disable -----------------------------------------------

    /** Looks for another format with the same specification. */
    method FindShared(name: string, b: Binfmt) returns (found: bool)
      ensures found <==> Shared(formats, name, b)
    {
      found := false;
      var todo := formats.Keys;
      while todo != {}
        invariant todo <= formats.Keys
        invariant forall n :: n in formats && n !in todo && n != name ==> !SameSpec(b, formats[n])
        decreases |todo|
      {
        var n :| n in todo;
        todo := todo - {n};
        if n != name && SameSpec(b, formats[n]) {
          return true;
        }
      }
    }

    /** The part of act_enable that finds out whether a detector is needed. */
    method FindDetector(name: string, b: Binfmt) returns (s: Status, needed: bool)
      modifies this`formats
      ensures Within(old(formats), formats) && Within(formats, Cached(old(formats), admindir))
      ensures s.Worked? || (s.Exited? && faults)
      ensures s.Worked? ==> (needed <==> NeedsDetector(Cached(old(formats), admindir), name, b))
    {
      hide SameSpec, Shared, Cached;
      CachedWithin(formats, admindir);
      s, needed := Worked, Text(b.detector) != "";
      if !needed {
        s := LoadAllFormats(true);
        if s.Worked? {
          needed := FindShared(name, b);
        }
      }
    }

    /** Writes a format to the register file. */
    method WriteRegister(name: string, b: Binfmt, needDetector: bool) returns (s: Status)
      requires Valid() && (test || (mounted && !Reserved(name)))
      modifies this`kernel
      ensures Valid() && (s.Worked? || (s.Failed? && faults))
      ensures test ==> kernel == old(kernel)
      ensures SameElse(old(kernel), kernel, name)
      ensures s.Worked? && !test ==> name in kernel && kernel[name] == Registration(
                if Text(b.kind) == "magic" then 'M' else 'E', Text(b.offset), Text(b.magic), Text(b.mask),
                if needDetector then runDetectors else Printed(b.interpreter),
                Text(b.credentials) == "yes", Text(b.preserve) == "yes")
      ensures s.Failed? ==> kernel == old(kernel)
    {
      if test {
        return Worked;
      }
      var failed := Fails();
      if failed {
        return Failed;
      }
      kernel := kernel[name := Registration(
        if Text(b.kind) == "magic" then 'M' else 'E', Text(b.offset), Text(b.magic), Text(b.mask),
        if needDetector then runDetectors else Printed(b.interpreter),
        Text(b.credentials) == "yes", Text(b.preserve) == "yes")];
      s := Worked;
    }

    ghost predicate Registers(name: string, before: Formats)
      reads this`kernel, this`admindir
    {
      RegistersIn(runDetectors, admindir, kernel, name, before)
    }

    /** Can the record be found without ending the program? */
    ghost predicate Findable(name: string)
      reads this`formats, this`admindir
    {
      (name in formats || name in admindir) && (name in admindir ==> RecordAt(admindir, name).Some?)
    }

    /** act_enable for one format. */
    method Enable(name: string) returns (s: Status)
      requires Valid()
      modifies this`mounted, this`procDir, this`formats, this`kernel
      ensures Valid() && Within(old(formats), formats) && Within(formats, Cached(old(formats), admindir))
      ensures old(mounted) ==> mounted
      ensures test || name in old(kernel) ==> kernel == old(kernel)
      ensures test ==> mounted == old(mounted) && procDir == old(procDir)
      ensures SameElse(old(kernel), kernel, name)
      ensures !faults && !test ==> mounted
      ensures !faults && !test && !Reserved(name) && name !in old(kernel) && old(Findable(name)) ==>
                s.Worked? && Registers(name, old(formats))
      ensures s.Crashed? ==> test && name !in old(formats) && RecordAt(admindir, name).None?
      ensures s.Exited? ==> faults || (name in admindir && RecordAt(admindir, name).None?)
      ensures !faults && (old(Exists(name)) || old(Findable(name))) ==> s.Worked?
    {
      hide RecordAt, SameSpec, NeedsDetector, Cached, CachedOne, Registers;
      CachedWithin(formats, admindir);
      var loaded := LoadBinfmtMisc();
      if !loaded || Exists(name) {
        return Worked;
      }
      s := EnableNew(name);
    }

    /** act_enable for a format that the kernel does not have. */
    method EnableNew(name: string) returns (s: Status)
      requires Valid() && (test || (mounted && !Reserved(name)))
      modifies this`formats, this`kernel
      ensures Valid() && Within(old(formats), formats) && Within(formats, Cached(old(formats), admindir))
      ensures test ==> kernel == old(kernel)
      ensures SameElse(old(kernel), kernel, name)
      ensures !faults && !test && old(Findable(name)) ==> s.Worked? && Registers(name, old(formats))
      ensures s.Crashed? ==> test && name !in old(formats) && RecordAt(admindir, name).None?
      ensures s.Exited? ==> faults || (name in admindir && RecordAt(admindir, name).None?)
      ensures !faults && old(Findable(name)) ==> s.Worked?
    {
      hide RecordAt, SameSpec, NeedsDetector, Cached, CachedOne, Valid;
      CachedWithin(formats, admindir);
      CachedOneThenAll(formats, admindir, name);
      CachedAt(formats, admindir, name);
      s := LoadFormat(name, false);
      if s.Exited? {
        return;
      }
      if name !in formats {
        return if test then Crashed else Failed;
      }
      var b := formats[name];
      var needDetector;
      s, needDetector := FindDetector(name, b);
      if s.Worked? {
        s := WriteRegister(name, b, needDetector);
      }
    }

    /** act_disable for one format: "-1" is written to its file.  Written to the status
        file this disables all formats. */
    method Disable(name: string) returns (s: Status)
      requires Valid()
      modifies this`kernel
      ensures Valid() && (s.Worked? || s.Failed?)
      ensures Within(kernel, old(kernel)) && (test ==> kernel == old(kernel))
      ensures name != "status" ==> SameElse(old(kernel), kernel, name)
      ensures s.Worked? && !test && !Reserved(name) && mounted ==> name !in kernel
      ensures !mounted ==> kernel == old(kernel)
      ensures !faults && !Reserved(name) ==>
                s.Worked? && kernel == if mounted && !test then old(kernel) - {name} else old(kernel)
    {
      if !procDir || !Exists(name) || test {
        return Worked;
      }
      var failed := Fails();
      if failed || name == "." || name == ".." || name == "register" {
        return Failed;
      }
      var ignored := Fails();
      if !ignored {
        kernel := if name == "status" then map[] else kernel - {name};
      }
      s := if Exists(name) then Failed else Worked;
    }

    // ----- all formats ------------------------------------------------------

    /** One turn of the walk over a full table, which it leaves as it is. */
    method EnableNext(n: string) returns (s: Status)
      requires Valid() && n in formats && Cached(formats, admindir) == formats && AllLoadable(admindir)
      modifies this`mounted, this`procDir, this`formats, this`kernel
      ensures Valid() && formats == old(formats) && (old(mounted) ==> mounted)
      ensures test || n in old(kernel) ==> kernel == old(kernel)
      ensures SameElse(old(kernel), kernel, n)
      ensures s.Worked? || (faults && (s.Failed? || s.Exited?))
      ensures !faults && !test && !Reserved(n) ==>
                n in kernel && (n in old(kernel) || kernel[n] == Register(formats, n, formats[n], runDetectors))
    {
      hide Decode, RecordAt, Cached, Register;
      s := Worked;
      if !Exists(n) {
        s := Enable(n);
        WithinBoth(old(formats), formats);
      }
    }

    /** The walk that enables every format in the table. */
    method EnableWalk() returns (s: Status)
      requires Valid() && Cached(formats, admindir) == formats && AllLoadable(admindir)
      modifies this`mounted, this`procDir, this`formats, this`kernel
      ensures Valid() && (test ==> kernel == old(kernel)) && !s.Crashed?
      ensures Grown(old(kernel), kernel, old(formats).Keys)
      ensures !faults && !test ==>
                s.Worked? && Enabled(old(formats), old(formats).Keys, old(kernel), kernel, runDetectors)
    {
      hide RecordAt, Cached, Register, Progress, SameElse, Valid, AllLoadable, Grown, Enabled;
      ghost var all, start, done, sure := formats, kernel, {}, !faults && !test;
      ProgressStart(all, kernel, runDetectors, sure);
      ProgressMeans(all, done, start, kernel, runDetectors, sure);
      var todo, worked := formats.Keys, true;
      while todo != {}
        invariant Valid() && formats == all && done == all.Keys - todo && todo <= all.Keys
        invariant (test ==> kernel == start) && (sure ==> worked)
        invariant Progress(all, done, start, kernel, runDetectors, sure)
        decreases |todo|
      {
        var n :| n in todo;
        ghost var before := kernel;
        todo := todo - {n};
        s := EnableNext(n);
        ProgressNext(all, done, start, before, kernel, runDetectors, sure, n);
        done := done + {n};
        ProgressMeans(all, done, start, kernel, runDetectors, sure);
        if s.Exited? {
          return;
        }
        worked := worked && s.Worked?;
      }
      assert done == all.Keys;
      ProgressMeans(all, done, start, kernel, runDetectors, sure);
      s := if worked then Worked else Failed;
    }

    /** act_enable for all formats.  Enabling one of them may load records again, which
        does not change the table being walked. */
    method EnableAll() returns (s: Status)
      requires Valid() && formats == map[]
      modifies this`mounted, this`procDir, this`formats, this`kernel
      ensures Valid() && (test ==> kernel == old(kernel)) && !s.Crashed?
      ensures Grown(old(kernel), kernel, admindir.Keys)
      ensures !faults && !test && AllLoadable(admindir) ==>
                s.Worked? && Enabled(Cached(map[], admindir), admindir.Keys, old(kernel), kernel, runDetectors)
      ensures !faults && !test && AllLoadable(admindir) ==>
                forall n :: n in admindir && n !in {".", "..", "register", "status"} && n !in old(kernel) ==>
                  n in kernel && AsRecorded(admindir, n, runDetectors, kernel[n])
    {
      hide RecordAt, Cached, Register, SameElse, Valid, Enabled, AllLoadable, AsRecorded;
      var loaded := LoadBinfmtMisc();
      if !loaded {
        return Worked;
      }
      s := LoadAllFormats(false);
      if s.Exited? {
        return;
      }
      CachedTwice(map[], admindir);
      CachedKeys(admindir);
      AllLoadableKeys(admindir);
      assert formats.Keys == admindir.Keys;
      s := EnableWalk();
      EnabledRecorded(admindir, old(kernel), kernel, runDetectors);
    }

    /** One turn of the walk that disables formats. */
    method DisableNext(n: string, ghost done: set<string>) returns (s: Status)
      requires Valid() && procDir && (!faults && !test && mounted ==> NoneOf(kernel, done))
      modifies this`kernel
      ensures Valid() && (s.Worked? || s.Failed?) && Within(kernel, old(kernel)) && (test ==> kernel == old(kernel))
      ensures !faults && !test && mounted ==> NoneOf(kernel, done + {n})
      ensures !mounted ==> kernel == old(kernel)
    {
      s := Worked;
      if Exists(n) {
        s := Disable(n);
      }
    }

    /** The walk that disables every format in the table. */
    method DisableWalk() returns (s: Status)
      requires Valid() && procDir
      modifies this`kernel
      ensures Valid() && (s.Worked? || s.Failed?) && Within(kernel, old(kernel)) && (test ==> kernel == old(kernel))
      ensures !faults && !test && mounted ==> NoneOf(kernel, formats.Keys)
      ensures !mounted ==> kernel == old(kernel)
    {
      ghost var keys, done, start := formats.Keys, {}, kernel;
      var todo, worked := formats.Keys, true;
      assert NoneOf(kernel, {});
      hide NoneOf, Valid;
      while todo != {}
        invariant Valid() && done == keys - todo && todo <= keys
        invariant Within(kernel, start) && (test || !mounted ==> kernel == start)
        invariant !faults && !test && mounted ==> NoneOf(kernel, done)
        decreases |todo|
      {
        var n :| n in todo;
        todo := todo - {n};
        s := DisableNext(n, done);
        done := done + {n};
        worked := worked && s.Worked?;
      }
      assert done == keys;
      s := if worked then Worked else Failed;
    }

    /** act_disable for all formats: for those that procdir shows. */
    method DisableAll() returns (s: Status)
      requires Valid() && formats == map[]
      modifies this`mounted, this`formats, this`kernel
      ensures Valid() && (test ==> kernel == old(kernel)) && Within(kernel, old(kernel)) && !s.Crashed?
      ensures !faults && !test && AllLoadable(admindir) ==>
                !s.Exited? && if old(mounted) then NoneOf(kernel, admindir.Keys) else kernel == old(kernel)
    {
      hide RecordAt, Cached;
      if !procDir {
        return Worked;
      }
      s := LoadAllFormats(false);
      if s.Exited? {
        return;
      }
      CachedKeys(admindir);
      assert formats.Keys == admindir.Keys;
      s := DisableWalk();
      UnloadBinfmtMisc();
    }

    /** Is a format registered in another way than the directory has it? */
    ghost predicate Stale(n: string)
      reads this`kernel, this`admindir
    {
      n in kernel && RecordAt(admindir, n).Some? && kernel[n] != Expected(admindir, n, runDetectors)
    }

    /** A run that disables all formats, then one that enables them all.  The formats of the
        directory end as it has them exactly if the kernel's were in view or none was stale. */
    method DisableThenEnable() returns (s: Status)
      requires Valid() && !faults && !test && AllLoadable(admindir)
      modifies this`mounted, this`procDir, this`formats, this`kernel
      ensures Valid() && s.Worked?
      ensures (forall n :: n in admindir && !Reserved(n) ==> n in kernel && kernel[n] == Expected(admindir, n, runDetectors))
              <==> old(mounted) || forall n :: n in admindir && !Reserved(n) ==> !old(Stale(n))
      ensures forall n :: n in admindir && !Reserved(n) ==>
                n in kernel && kernel[n] == if !old(mounted) && n in old(kernel) then old(kernel)[n]
                                            else Expected(admindir, n, runDetectors)
      ensures old(mounted) ==>
                forall n :: n in admindir && n !in {".", "..", "register", "status"} ==>
                  n in kernel && AsRecorded(admindir, n, runDetectors, kernel[n])
      ensures forall n :: n in kernel && n !in admindir ==> n in old(kernel) && kernel[n] == old(kernel)[n]
      ensures !old(mounted) ==> forall n :: n in old(kernel) ==> n in kernel && kernel[n] == old(kernel)[n]
    {
      hide AllLoadable, RecordAt, Register, AsRecorded;
      formats := map[];
      s := DisableAll();
      formats := map[];
      s := EnableAll();
      CachedKeys(admindir);
    }

    // ----- install, remove and import ---------------------------------------

    /** The package that a name belongs to as far as an action can tell. */
    ghost function Owner(name: string): Option<string>
      reads this`formats, this`admindir
    {
      OwnerIn(formats, admindir, name)
    }

    /** binfmt_write to the temporary file and rename_mv to the real one. */
    method Replace(name: string, b: Binfmt) returns (s: Status)
      modifies this`admindir
      ensures s.Worked? || (s.Failed? && faults)
      ensures forall n :: n != name && n != name + ".tmp" ==> SameAt(old(admindir), admindir, n)
      ensures s.Worked? ==> admindir == old(admindir)[name := Encode(b)] - {name + ".tmp"}
      ensures s.Failed? ==> SameAt(old(admindir), admindir, name)
    {
      hide Encode;
      var tmp := name + ".tmp";
      assert tmp[|name|..] == ".tmp";
      var failed := Fails();
      if failed {
        return Failed;
      }
      admindir := admindir - {tmp};
      failed := Fails();
      if failed {
        return Failed;
      }
      var content := Write(b);
      admindir := admindir[tmp := content];
      failed := Fails();
      if failed {
        var partly: nat :| partly <= |content|;
        admindir := admindir[tmp := content[..partly]];
        return Failed;
      }
      failed := Fails();
      if failed {
        return Failed;
      }
      admindir := admindir[name := admindir[tmp]] - {tmp};
      s := Worked;
    }

    ghost predicate Complete(name: string, b: Binfmt)
      reads this`formats, this`admindir
    {
      CompleteIn(formats, admindir, name, b)
    }

    /** The checks of act_install; the old format is disabled. */
    method Prepare(name: string, package: string) returns (s: Status, go: bool)
      requires Valid() && !Reserved(name)
      modifies this`formats, this`kernel
      ensures Valid() && SameElse(old(kernel), kernel, name) && (test ==> kernel == old(kernel))
      ensures go ==> formats == old(CachedOne(formats, admindir, name)) && (test || !mounted || name !in kernel)
      ensures old(Owner(name)).Some? && old(Owner(name)) != Some(package) ==> !go && !s.Worked? && kernel == old(kernel)
      ensures !s.Crashed?
      ensures FromDisk(old(formats), formats, admindir, name)
      ensures !faults && !test && (old(Owner(name)).Some? ==> old(Owner(name)) == Some(package)) ==>
                if mounted && name in old(kernel) && name !in admindir then !go && s.Worked? && kernel == old(kernel)
                else go && kernel == if mounted then old(kernel) - {name} else old(kernel)
    {
      hide RecordAt;
      s := LoadFormat(name, true);
      go := false;
      if s.Exited? {
        return;
      }
      if name in formats && Text(formats[name].package) != package {
        return Failed, false;
      }
      if name in admindir {
        s := Disable(name);
        if s.Failed? {
          return;
        }
      }
      if Exists(name) && !test {
        return Worked, false;
      }
      go := true;
    }

    /** The end of act_install: the record goes into the cache if there is none, and the
        format is enabled. */
    method FinishInstall(name: string, b: Binfmt) returns (s: Status)
      requires Valid()
      modifies this`mounted, this`procDir, this`formats, this`kernel
      ensures Valid() && SameElse(old(kernel), kernel, name) && (test ==> kernel == old(kernel)) && !s.Crashed?
      ensures FromDisk(old(formats), formats, admindir, name)
      ensures !faults && !test && !Reserved(name) && RecordAt(admindir, name).Some? ==>
                s.Worked? && if name in old(kernel) then kernel == old(kernel)
                             else Registers(name, if name in old(formats) then old(formats) else old(formats)[name := b])
    {
      hide RecordAt, Registers, Valid;
      RecordThere(admindir, name);
      if name !in formats {
        formats := formats[name := b];
      }
      ghost var before := formats;
      s := Enable(name);
      CachedFrom(before, formats, admindir);
    }

    /** act_install.  The new record goes into the cache only if there is none, so that
        in the case of a reinstallation the old one is registered with the kernel. */
    method Install(name: string, b: Binfmt) returns (s: Status)
      requires Valid() && !Reserved(name)
      modifies this`mounted, this`procDir, this`formats, this`kernel, this`admindir
      ensures Valid() && SameElse(old(kernel), kernel, name)
      ensures forall n :: n != name && n != name + ".tmp" ==> SameAt(old(admindir), admindir, n)
      ensures test ==> admindir == old(admindir) && kernel == old(kernel)
      ensures FromDisk(old(formats), formats, admindir, name)
      ensures old(Owner(name)).Some? && old(Owner(name)) != b.package ==>
                SameAt(old(admindir), admindir, name) && kernel == old(kernel) && !s.Worked?
      ensures s.Crashed? ==> b.package.None? || b.magic.None?
      ensures !faults && !test && old(Complete(name, b)) ==>
                s.Worked? && Installed(runDetectors, old(mounted), old(formats), old(admindir), admindir, old(kernel), kernel, name, b)
    {
      hide RecordAt, Encode, Valid, PlainRecord, RegistersIn, Reserved;
      if b.package.None? || b.magic.None? {
        return Crashed;
      }
      var go;
      s, go := Prepare(name, b.package.value);
      if go {
        s := StoreRecord(name, b);
      }
    }

    /** The rest of act_install: the record is written, and the format enabled. */
    method StoreRecord(name: string, b: Binfmt) returns (s: Status)
      requires Valid() && !Reserved(name)
      modifies this`mounted, this`procDir, this`formats, this`kernel, this`admindir
      ensures Valid() && SameElse(old(kernel), kernel, name) && !s.Crashed?
      ensures forall n :: n != name && n != name + ".tmp" ==> SameAt(old(admindir), admindir, n)
      ensures test ==> admindir == old(admindir) && kernel == old(kernel)
      ensures FromDisk(old(formats), formats, admindir, name)
      ensures !faults && !test && PlainRecord(b) ==>
                && s.Worked? && admindir == old(admindir)[name := Encode(b)] - {name + ".tmp"}
                && if name in old(kernel) then kernel == old(kernel)
                   else Registers(name, if name in old(formats) then old(formats) else old(formats)[name := b])
    {
      hide RecordAt, Encode, Valid, PlainRecord, Registers, Reserved;
      if !test {
        s := Replace(name, b);
        if s.Failed? {
          return;
        }
      }
      if PlainRecord(b) {
        WrittenRecord(old(admindir), name, b);
      }
      s := FinishInstall(name, b);
    }

    /** act_remove */
    method Remove(name: string, package: string) returns (s: Status)
      requires Valid()
      modifies this`formats, this`kernel, this`admindir
      ensures Valid() && Within(kernel, old(kernel))
      ensures forall n :: n != name ==> SameAt(old(admindir), admindir, n)
      ensures test ==> admindir == old(admindir) && kernel == old(kernel)
      ensures old(Owner(name)).Some? && old(Owner(name)) != Some(package) ==>
                admindir == old(admindir) && kernel == old(kernel)
      ensures name !in old(admindir) ==> admindir == old(admindir)
      ensures !faults && !test && !Reserved(name) && name in old(admindir)
              && (old(Owner(name)).Some? ==> old(Owner(name)) == Some(package)) ==>
                s.Worked? && admindir == old(admindir) - {name} && name !in formats
                && kernel == if mounted then old(kernel) - {name} else old(kernel)
    {
      hide Decode, Valid;
      if name !in admindir {
        return Worked;
      }
      s := LoadFormat(name, true);
      if s.Exited? {
        return;
      }
      if name in formats && Text(formats[name].package) != package {
        return Worked;
      }
      s := Disable(name);
      if s.Failed? {
        return;
      }
      if !test {
        var failed := Fails();
        if failed {
          return Failed;
        }
        admindir := admindir - {name};
        formats := formats - {name};
      }
      s := Worked;
    }

    /** The record that an import file describes. */
    function Described(name: string, content: string): Binfmt {
      DescribedIn(importdir, name, content)
    }

    ghost predicate Importable(name: string, content: string)
      reads this`formats, this`admindir
    {
      ImportableIn(importdir, formats, admindir, name, content)
    }

    /** act_import for one format, from a file that may be missing. */
    method Import(name: string, file: Option<string>) returns (s: Status)
      requires Valid()
      modifies this`mounted, this`procDir, this`formats, this`kernel, this`admindir
      ensures Valid() && (test ==> admindir == old(admindir) && kernel == old(kernel))
      ensures FromDisk(old(formats), formats, admindir, BaseName(name))
      ensures forall n :: n != BaseName(name) && n != BaseName(name) + ".tmp" ==> SameAt(old(admindir), admindir, n)
      ensures old(Owner(BaseName(name))) == Some(":") ==> SameAt(old(admindir), admindir, BaseName(name))
      ensures old(Owner(BaseName(name))).Some? && (file.None? || old(Owner(BaseName(name))) != PackageIn(file.value)) ==>
                SameAt(old(admindir), admindir, BaseName(name))
      ensures SameElse(old(kernel), kernel, BaseName(name))
      ensures !faults && !test && file.Some? && old(Importable(name, file.value)) ==>
                var id, b := BaseName(name), Described(name, file.value);
                && s.Worked?
                && Installed(runDetectors, old(mounted), old(formats), old(admindir), admindir, old(kernel), kernel, id, b)
    {
      hide RecordAt, Valid, Completed, Prohibits, Refuses, NoNewlines, ArgsOf, Registers, Installed, Reserved, PlainRecord,
        BaseName, Encode;
      var id := BaseName(name);
      if Reserved(id) || file.None? {
        return Failed;
      }
      var args := GetImport(file.value);
      CompletedPackage(PathOf(importdir, name), args);
      if args == map[] {
        return Failed;
      }
      s := ImportRecord(id, PathOf(importdir, name), args);
    }

    /** The rest of act_import, with the contents of the import file. */
    method ImportRecord(id: string, path: string, args: Args) returns (s: Status)
      requires Valid() && !Reserved(id)
      modifies this`mounted, this`procDir, this`formats, this`kernel, this`admindir
      ensures Valid() && (test ==> admindir == old(admindir) && kernel == old(kernel))
      ensures FromDisk(old(formats), formats, admindir, id)
      ensures forall n :: n != id && n != id + ".tmp" ==> SameAt(old(admindir), admindir, n)
      ensures old(Owner(id)) == Some(":") || (old(Owner(id)).Some? && old(Owner(id)) != Lookup(args, "package")) ==>
                SameAt(old(admindir), admindir, id)
      ensures SameElse(old(kernel), kernel, id)
      ensures !faults && !test && !Prohibits(args) && !Refuses(args) && old(Owner(id)) != Some(":")
              && old(Complete(id, Completed(path, args))) ==>
                var b := Completed(path, args);
                && s.Worked?
                && Installed(runDetectors, old(mounted), old(formats), old(admindir), admindir, old(kernel), kernel, id, b)
    {
      hide RecordAt, Valid, Completed, Prohibits, Refuses, NoNewlines, Registers, Reserved, PlainRecord, Encode;
      CompletedPackage(path, args);
      s := LoadFormat(id, true);
      if s.Exited? {
        return;
      }
      if id in formats && Text(formats[id].package) == ":" {
        return Worked;
      }
      if "package" !in args {
        return Failed;
      }
      var r := New(path, args);
      if r.Prohibited? {
        return Exited;
      }
      if r.Refused? {
        return Crashed;
      }
      s := Install(id, r.record);
      if s.Failed? {
        s := Worked;
      }
    }

    /** act_import for the whole import directory, in whatever order it is read. */
    method ImportAll(files: Files) returns (s: Status)
      requires Valid() && formats == map[] && forall id :: id in files ==> '/' !in id
      modifies this`mounted, this`procDir, this`formats, this`kernel, this`admindir
      ensures Valid() && (test ==> admindir == old(admindir) && kernel == old(kernel))
      ensures Kept(old(admindir), admindir, Imports(files), TempsOf(files.Keys)) && LocalKept(old(admindir), admindir, TempsOf(files.Keys))
      ensures !faults && !test && AllImportable(importdir, files, old(admindir), old(kernel)) ==>
                s.Worked? && AllInstalled(importdir, files, admindir)
    {
      ghost var start, kernel0 := admindir, kernel;
      ghost var sure := !faults && !test && AllImportable(importdir, files, start, kernel0);
      StartImport(files);
      hide *;
      var failed := Fails();
      if failed {
        EndImport(files, {}, start, kernel0, sure);
        return Failed;
      }
      ghost var done;
      s, done := ImportWalk(files, start, kernel0, sure);
      EndImport(files, done, start, kernel0, sure);
    }

    /** The walk over the import directory, which ends early if the program does. */
    method ImportWalk(files: Files, ghost start: Files, ghost kernel0: map<string, Registration>, ghost sure: bool)
      returns (s: Status, ghost done: set<string>)
      requires Valid() && Importing(files, {}, start, kernel0, sure) && forall id :: id in files ==> '/' !in id
      modifies this`mounted, this`procDir, this`formats, this`kernel, this`admindir
      ensures Valid() && Importing(files, done, start, kernel0, sure)
      ensures sure ==> s.Worked? && done == files.Keys
    {
      hide *;
      done := {};
      var todo, worked := files.Keys, true;
      while todo != {}
        invariant Valid() && done == files.Keys - todo && todo <= files.Keys
        invariant Importing(files, done, start, kernel0, sure) && (sure ==> worked)
        decreases |todo|
      {
        var id :| id in todo;
        todo := todo - {id};
        s := ImportNext(files, id, start, kernel0, done, sure);
        done := done + {id};
        if s.Exited? || s.Crashed? {
          return;
        }
        worked := worked && s.Worked?;
      }
      s := if worked then Worked else Failed;
    }

    /** The state of the walk, from a directory and a kernel at its start; it is sure to
        succeed without faults if all files can be imported. */
    ghost predicate Importing(files: Files, done: set<string>, start: Files, kernel0: map<string, Registration>, sure: bool)
      reads this
    {
      var temps := TempsOf(files.Keys);
      && Agrees(formats, admindir, done, temps)
      && Kept(start, admindir, Imports(files), temps) && LocalKept(start, admindir, temps)
      && (test ==> admindir == start && kernel == kernel0)
      && (sure ==> !faults && !test && AllImportable(importdir, files, start, kernel0)
                   && Settled(importdir, files, done, start, admindir, kernel0, kernel))
    }

    lemma StartImport(files: Files)
      requires formats == map[]
      ensures Importing(files, {}, admindir, kernel, !faults && !test && AllImportable(importdir, files, admindir, kernel))
    {
      hide AllImportable;
      KeptStart(admindir, Imports(files), TempsOf(files.Keys));
      AgreesStart(admindir, TempsOf(files.Keys));
      SettledStart(importdir, files, admindir, kernel);
    }

    lemma EndImport(files: Files, done: set<string>, start: Files, kernel0: map<string, Registration>, sure: bool)
      requires Importing(files, done, start, kernel0, sure)
      ensures (test ==> admindir == start && kernel == kernel0)
      ensures Kept(start, admindir, Imports(files), TempsOf(files.Keys)) && LocalKept(start, admindir, TempsOf(files.Keys))
      ensures sure && done == files.Keys ==> AllInstalled(importdir, files, admindir)
    {
      hide AllImportable, AllInstalled, Settled;
      if sure && done == files.Keys {
        SettledAll(importdir, files, start, admindir, kernel0, kernel);
      }
    }

    /** One turn of that walk. */
    method ImportNext(files: Files, id: string, ghost start: Files, ghost kernel0: map<string, Registration>,
                      ghost done: set<string>, ghost sure: bool) returns (s: Status)
      requires Valid() && id in files && id !in done && '/' !in id
      requires Importing(files, done, start, kernel0, sure)
      modifies this`mounted, this`procDir, this`formats, this`kernel, this`admindir
      ensures Valid() && Importing(files, done + {id}, start, kernel0, sure) && (sure ==> s.Worked?)
    {
      hide Kept, LocalKept, Agrees, Valid, PackageIn, FromDisk, RecordAt, BaseName, Imports, Settled, Encode, DescribedIn,
        ImportableIn, Registers, SameElse, SameAt, TempsOf, Installed, AllImportable;
      ghost var cache, before, kernel1 := formats, admindir, kernel;
      BaseNameSame(id);
      if sure {
        StillImportable(importdir, files, done, start, admindir, kernel0, kernel, formats, id);
      }
      s := Import(id, Some(files[id]));
      ImportKeeps(start, before, admindir, cache, formats, files, done, id);
      if sure {
        InstalledFiles(runDetectors, old(mounted), cache, before, admindir, kernel1, kernel, id, Described(id, files[id]));
        NoTemps(importdir, files, start, kernel0);
        SettledNext(importdir, files, done, start, before, admindir, kernel0, kernel1, kernel, id);
      }
    }

    // ----- runs of the program ----------------------------------------------

    /** One run of the program, which starts with an empty cache. */
    method Run(command: Command, test: bool) returns (s: Status)
      requires Valid() && WellFormed(command)
      modifies this
      ensures Valid() && Kept(old(admindir), admindir, ActsFor(command), TempsFor(command))
      ensures command.ImportOne? || command.ImportDir? ==> LocalKept(old(admindir), admindir, TempsFor(command))
      ensures test ==> admindir == old(admindir) && kernel == old(kernel)
      ensures !faults && !test ==>
                Achieved(command, importdir, runDetectors, s, old(mounted), old(admindir), admindir, old(kernel), kernel)
    {
      hide Kept, LocalKept, Valid, PackageIn, RecordAt, Encode, PlainRecord, Decode, Enabled, AllImportable, AllInstalled,
        Register, Cached, ImportableIn, CompleteIn, Installed, RegistersIn, DescribedIn, Completed, Prohibits, Refuses, ArgsOf;
      this.test, formats := test, map[];
      KeptStart(admindir, ActsFor(command), TempsFor(command));
      ghost var before := admindir;
      match command {
        case InstallOne(name, args) =>
          if Reserved(name) {
            return Exited;
          }
          var r := New(name, args);
          if r.Made? {
            CompletedPackage(name, args);
            s := Install(name, r.record);
            OneKept(before, admindir, name, r.record.package, TempsOf({name}));
          } else {
            s := if r.Prohibited? then Exited else Crashed;
          }
        case RemoveOne(name, package) =>
          s := Remove(name, package);
          OneKept(before, admindir, name, Some(package), {});
        case ImportOne(name, file) =>
          s := Import(name, file);
          OneKept(before, admindir, BaseName(name), if file.Some? then PackageIn(file.value) else None, TempsOf({BaseName(name)}));
          LocalKeptOne(before, admindir, BaseName(name), TempsOf({BaseName(name)}));
        case ImportDir(files) =>
          s := ImportAll(files);
        case EnableOne(name) =>
          s := Enable(name);
          ExpectedIs(runDetectors, admindir, kernel, name);
        case EnableDir =>
          s := EnableAll();
        case DisableOne(name) =>
          s := Disable(name);
        case DisableDir =>
          s := DisableAll();
      }
    }

    /** Any number of runs: a record that can be loaded stays as it is unless one of them
        acts on its name for its package, or has its name for the temporary file of a name
        that it acts on. */
    method RunAll(commands: seq<(Command, bool)>)
      requires Valid() && forall k :: 0 <= k < |commands| ==> WellFormed(commands[k].0)
      modifies this
      ensures Valid() && Kept(old(admindir), admindir, AllActs(commands), AllTemps(commands))
    {
      hide Kept, Valid, RecordAt, ActsFor, TempsFor, Achieved;
      KeptStart(admindir, AllActs(commands[..0]), AllTemps(commands[..0]));
      for k := 0 to |commands|
        invariant Valid() && Kept(old(admindir), admindir, AllActs(commands[..k]), AllTemps(commands[..k]))
      {
        ghost var before := admindir;
        var s := Run(commands[k].0, commands[k].1);
        assert commands[..k + 1][..k] == commands[..k];
        KeptTrans(old(admindir), before, admindir, AllActs(commands[..k]), ActsFor(commands[k].0),
                  AllTemps(commands[..k]), TempsFor(commands[k].0));
      }
      assert commands[..|commands|] == commands;
    }
  }

  lemma CachedAt(formats: Formats, files: Files, n: string)
    ensures n in Cached(formats, files) <==> n in formats || RecordAt(files, n).Some?
    ensures n in formats ==> Cached(formats, files)[n] == formats[n]
    ensures n !in formats && RecordAt(files, n).Some? ==> Cached(formats, files)[n] == RecordAt(files, n).value
  {
    assert RecordAt(files, n).Some? ==> n in files;
    hide RecordAt;
  }

  /** What has every record that there is, and nothing else, is the full cache. */
  lemma CachedIs(before: Formats, formats: Formats, files: Files)
    requires Within(before, formats) && Within(formats, Cached(before, files))
    requires forall n :: n in files && RecordAt(files, n).Some? ==> n in formats
    ensures formats == Cached(before, files)
  {
    hide Decode;
  }

  lemma CachedOneThenAll(formats: Formats, files: Files, name: string)
    ensures Cached(CachedOne(formats, files, name), files) == Cached(formats, files)
    ensures Within(formats, CachedOne(formats, files, name)) && Within(CachedOne(formats, files, name), Cached(formats, files))
    ensures name in CachedOne(formats, files, name) <==> name in Cached(formats, files)
  {
    var one := CachedOne(formats, files, name);
    var a, b := Cached(one, files), Cached(formats, files);
    hide RecordAt, Cached;
    forall n
      ensures (n in a <==> n in b) && (n in a && n in b ==> a[n] == b[n]) && (n in one ==> n in b && b[n] == one[n])
    {
      CachedAt(one, files, n);
      CachedAt(formats, files, n);
    }
    assert a == b;
    CachedAt(one, files, name);
  }

  lemma CachedWithin(formats: Formats, files: Files)
    ensures Within(formats, Cached(formats, files))
  {
    hide RecordAt;
  }

  lemma RecordThere(files: Files, name: string)
    ensures RecordAt(files, name).Some? ==> name in files
  {
  }

  lemma CachedFrom(before: Formats, after: Formats, files: Files)
    requires Within(after, Cached(before, files))
    ensures forall n :: n in after ==> (n in before && before[n] == after[n]) || RecordAt(files, n) == Some(after[n])
  {
    hide Decode;
  }

  lemma WrittenRecord(files: Files, name: string, b: Binfmt)
    requires PlainRecord(b)
    ensures RecordAt(files[name := Encode(b)] - {name + ".tmp"}, name) == Some(Trimmed(name, b))
  {
    hide Decode, Encode;
    RoundTrip(name, b);
    assert name + ".tmp" != name by {
      assert |name + ".tmp"| == |name| + 4;
    }
  }

  lemma WithinBoth(a: Formats, b: Formats)
    ensures Within(a, b) && Within(b, a) ==> a == b
  {
  }

  lemma CachedTwice(formats: Formats, files: Files)
    ensures Cached(Cached(formats, files), files) == Cached(formats, files)
  {
    hide Decode;
  }

  lemma ExpectedIs(runDetectors: string, files: Files, kernel: map<string, Registration>, name: string)
    ensures RecordAt(files, name).Some? ==>
              name in files
              && (RegistersIn(runDetectors, files, kernel, name, map[]) <==>
                    name in kernel && kernel[name] == Expected(files, name, runDetectors))
  {
    hide Register;
  }

  lemma AllLoadableKeys(files: Files)
    ensures AllLoadable(files) ==> Cached(map[], files).Keys == files.Keys
  {
    CachedKeys(files);
    hide Decode, Cached;
  }

  lemma EnabledRecorded(files: Files, before: map<string, Registration>, after: map<string, Registration>, runDetectors: string)
    ensures AllLoadable(files) && Enabled(Cached(map[], files), files.Keys, before, after, runDetectors) ==>
              forall n :: n in files && n !in {".", "..", "register", "status"} && n !in before ==>
                n in after && AsRecorded(files, n, runDetectors, after[n])
  {
    CachedKeys(files);
    hide Decode, Cached, AsRecorded, Register;
    if AllLoadable(files) && Enabled(Cached(map[], files), files.Keys, before, after, runDetectors) {
      forall n | n in files && n !in {".", "..", "register", "status"} && n !in before
        ensures n in after && AsRecorded(files, n, runDetectors, after[n])
      {
        ExpectedIsRecorded(files, n, runDetectors);
      }
    }
  }

  lemma CachedKeys(files: Files)
    ensures forall n :: n in Cached(map[], files) <==> n in files && RecordAt(files, n).Some?
    ensures forall n :: n in Cached(map[], files) ==> Cached(map[], files)[n] == RecordAt(files, n).value
  {
    hide Decode;
  }

  // ----- import files -------------------------------------------------------

  /** What is behind the last slash. */
  function BaseName(path: string): string {
    if path == "" || path[|path| - 1] == '/' then "" else BaseName(path[..|path| - 1]) + [path[|path| - 1]]
  }

  /** tolower in the POSIX locale. */
  function Lower(s: string): string {
    if s == "" then "" else Lower(s[..|s| - 1]) + [LowerChar(s[|s| - 1])]
  }

  function LowerChar(c: char): char {
    if 'A' <= c <= 'Z' then (c as int + 32) as char else c
  }

  /** The length of what is before the first blank. */
  function KeyLength(s: string): (n: nat)
    ensures n <= |s| && (n < |s| ==> s[n] == ' ')
  {
    if s == "" || s[0] == ' ' then 0 else 1 + KeyLength(s[1..])
  }

  function KeyOf(line: string): string {
    Lower(FieldOf(line)[..KeyLength(FieldOf(line))])
  }

  /** A line without a blank has no value. */
  function ValueOf(line: string): Option<string> {
    var text := FieldOf(line);
    if KeyLength(text) < |text| then Some(text[KeyLength(text) + 1..]) else None
  }

  /** The arguments in the lines of a file; the first value of a key counts. */
  function ArgsOf(lines: seq<string>): Args {
    if lines == [] then map[] else
      var before, line := ArgsOf(lines[..|lines| - 1]), lines[|lines| - 1];
      if KeyOf(line) in before then before else before[KeyOf(line) := ValueOf(line)]
  }

  /** get_import on a file that could be opened. */
  method GetImport(content: string) returns (args: Args)
    ensures args == ArgsOf(Lines(content))
  {
    hide KeyOf, ValueOf, Lines;
    var file := new Stream(content);
    ghost var lines, read := file.Rest(), 0;
    args := map[];
    var line := file.GetLine();
    while line.Some?
      invariant file.Valid() && fresh(file) && read <= |lines| && args == ArgsOf(lines[..read])
      invariant line.Some? ==> read < |lines| && line.value == lines[read] && file.Rest() == lines[read + 1..]
      invariant line.None? ==> read == |lines|
      decreases |lines| - read
    {
      var key := KeyOf(line.value);
      if key !in args {
        args := args[key := ValueOf(line.value)];
      }
      assert lines[..read + 1][..read] == lines[..read];
      read := read + 1;
      line := file.GetLine();
    }
    assert lines[..read] == lines;
  }

  lemma CompletedPackage(name: string, args: Args)
    ensures Completed(name, args).package == Lookup(args, "package")
  {
  }

  /** The package that an import file names. */
  function PackageIn(content: string): Option<string> {
    Lookup(ArgsOf(Lines(content)), "package")
  }
}
