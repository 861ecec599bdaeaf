/** What a path name means: the component-by-component resolver that POSIX
    describes, over a fixed file system.  The buffer-pushing realpath is in
    RealPath.dfy. */
module PathNames {

  const MAXSYMLINKS := 20

  datatype Errno = EINVAL | ENOENT | ELOOP | ENOTDIR | ENAMETOOLONG | ENOMEM | Host(code: nat)

  /** What lstat and readlink tell about one name. */
  datatype Node = Missing(errno: Errno) | Directory | NonDirectory | Link(target: string) | Unreadable(errno: Errno)

  /** A file system maps the components of an absolute path to a node. */
  type FileSystem = seq<string> -> Node

  // ----- text ---------------------------------------------------------------

  /** Number of leading slashes. */
  function Slashes(t: string): (n: nat)
    ensures n <= |t| && (n < |t| ==> t[n] != '/') && forall k :: 0 <= k < n ==> t[k] == '/'
  {
    if t == "" || t[0] != '/' then 0 else 1 + Slashes(t[1..])
  }

  /** Length of the leading component, up to a slash or the end. */
  function WordLength(t: string): (n: nat)
    ensures n <= |t| && (n < |t| ==> t[n] == '/') && '/' !in t[..n]
  {
    if t == "" || t[0] == '/' then 0 else
      var n := WordLength(t[1..]);
      assert t[..n + 1] == [t[0]] + t[1..][..n];
      n + 1
  }

  predicate IsName(c: string) {
    c != "" && '/' !in c && '\0' !in c
  }

  /** A component that stays in a canonical name. */
  predicate IsProper(c: string) {
    IsName(c) && c != "." && c != ".."
  }

  /** "/a/b" for [a, b]; nothing for the root. */
  function Body(path: seq<string>): string {
    if path == [] then "" else Body(path[..|path| - 1]) + "/" + path[|path| - 1]
  }

  /** The absolute name of a path. */
  function Text(path: seq<string>): string {
    if path == [] then "/" else Body(path)
  }

  function Pop(path: seq<string>): seq<string> {
    if path == [] then [] else path[..|path| - 1]
  }

  /** The components of a name: what the kernel looks up, one after the other. */
  function Components(t: string): seq<string>
    decreases |t|
  {
    var u := t[Slashes(t)..];
    if u == "" then []
    else
      assert WordLength(u) > 0 by { assert u[0] == t[Slashes(t)]; }
      assert |u[WordLength(u)..]| < |t|;
      [u[..WordLength(u)]] + Components(u[WordLength(u)..])
  }

  // ----- the resolver -------------------------------------------------------

  datatype Resolution = Resolved(path: seq<string>) | Failed(errno: Errno)

  /** readlink stores at most size bytes. */
  function ReadLink(target: string, size: nat): string {
    if |target| <= size then target else target[..size]
  }

  /** Resolve `text` from directory `path`, after following `links` symbolic links.
      No link text together with what follows it may reach pathMax bytes; with
      `bounded`, no intermediate name may either. */
  function Resolve(fs: FileSystem, pathMax: nat, bounded: bool, path: seq<string>, text: string, links: nat): Resolution
    requires links <= MAXSYMLINKS && pathMax >= 2
    decreases MAXSYMLINKS - links, |text|, 1
  {
    var t := text[Slashes(text)..];
    if t == "" then Resolved(path)
    else
      assert WordLength(t) > 0 by { assert t[0] == text[Slashes(text)]; }
      var name, rest := t[..WordLength(t)], t[WordLength(t)..];
      assert |rest| < |text|;
      if name == "." then Resolve(fs, pathMax, bounded, path, rest, links)
      else if name == ".." then Resolve(fs, pathMax, bounded, Pop(path), rest, links)
      else ResolveEntry(fs, pathMax, bounded, path, name, rest, links)
  }

  /** Look up one directory entry and go on with `rest`. */
  function ResolveEntry(fs: FileSystem, pathMax: nat, bounded: bool, path: seq<string>, name: string, rest: string, links: nat): Resolution
    requires links <= MAXSYMLINKS && pathMax >= 2
    decreases MAXSYMLINKS - links, |rest| + 1, 0
  {
    var full := path + [name];
    if bounded && |Body(full)| >= pathMax then Failed(ENAMETOOLONG)
    else match fs(full)
      case Missing(e) => Failed(e)
      case Directory => Resolve(fs, pathMax, bounded, full, rest, links)
      case NonDirectory => if rest != "" then Failed(ENOTDIR) else Resolved(full)
      case Unreadable(e) => if links == MAXSYMLINKS then Failed(ELOOP) else Failed(e)
      case Link(target) =>
        var buf := ReadLink(target, pathMax - 1);
        if links == MAXSYMLINKS then Failed(ELOOP)
        else if |buf| + |rest| >= pathMax then Failed(ENAMETOOLONG)
        else Resolve(fs, pathMax, bounded, if buf != "" && buf[0] == '/' then [] else path, buf + rest, links + 1)
  }

  /** One turn of the resolver, with the shape of the component it finds. */
  lemma ResolveUnfold(fs: FileSystem, pathMax: nat, bounded: bool, path: seq<string>, text: string, links: nat)
    requires links <= MAXSYMLINKS && pathMax >= 2 && text != "" && '\0' !in text
    ensures var t := text[Slashes(text)..];
            var name, rest := t[..WordLength(t)], t[WordLength(t)..];
            var r := Resolve(fs, pathMax, bounded, path, text, links);
            && |rest| < |text|
            && if name == "" then r == Resolved(path)
               else if name == "." then r == Resolve(fs, pathMax, bounded, path, rest, links)
               else if name == ".." then r == Resolve(fs, pathMax, bounded, Pop(path), rest, links)
               else IsProper(name) && r == ResolveEntry(fs, pathMax, bounded, path, name, rest, links)
  {
    hide ResolveEntry, Pop, Slashes, WordLength;
    SuffixNulFree(text, Slashes(text));
    var t := text[Slashes(text)..];
    PrefixNulFree(t, WordLength(t));
  }

  lemma SuffixNulFree(t: string, n: nat)
    requires '\0' !in t && n <= |t|
    ensures '\0' !in t[n..]
  {
  }

  lemma PrefixNulFree(t: string, n: nat)
    requires '\0' !in t && n <= |t|
    ensures '\0' !in t[..n]
  {
  }

  lemma ResolveEnd(fs: FileSystem, pathMax: nat, bounded: bool, path: seq<string>, links: nat)
    requires links <= MAXSYMLINKS && pathMax >= 2
    ensures Resolve(fs, pathMax, bounded, path, "", links) == Resolved(path)
  {
  }

  // ----- what a resolution is worth -----------------------------------------

  /** An existing path through directories, free of ".", ".." and symbolic links. */
  predicate Canonical(fs: FileSystem, path: seq<string>) {
    && (forall k :: 0 <= k < |path| ==> IsProper(path[k]))
    && (forall k :: 0 < k < |path| ==> fs(path[..k]) == Directory)
    && (path != [] ==> fs(path) == Directory || fs(path) == NonDirectory)
  }

  /** A canonical path that can be continued. */
  predicate InDirectory(fs: FileSystem, path: seq<string>) {
    && (forall k :: 0 <= k < |path| ==> IsProper(path[k]))
    && (forall k :: 0 < k <= |path| ==> fs(path[..k]) == Directory)
  }

  ghost predicate NulFree(fs: FileSystem) {
    forall p :: fs(p).Link? ==> '\0' !in fs(p).target
  }

  /** A name that resolves, resolves to a canonical path. */
  lemma {:induction false} ResolveCanonical(fs: FileSystem, pathMax: nat, bounded: bool, path: seq<string>, text: string, links: nat)
    requires links <= MAXSYMLINKS && pathMax >= 2
    requires InDirectory(fs, path) && NulFree(fs) && '\0' !in text
    ensures var r := Resolve(fs, pathMax, bounded, path, text, links);
            r.Resolved? ==> Canonical(fs, r.path)
    decreases MAXSYMLINKS - links, |text|, 1
  {
    if text == "" {
      ResolveEnd(fs, pathMax, bounded, path, links);
      assert path[..|path|] == path;
    } else {
      hide Resolve, ResolveEntry;
      ResolveUnfold(fs, pathMax, bounded, path, text, links);
      var t := text[Slashes(text)..];
      var name, rest := t[..WordLength(t)], t[WordLength(t)..];
      if name == "" {
        assert path[..|path|] == path;
      } else if name == "." {
        ResolveCanonical(fs, pathMax, bounded, path, rest, links);
      } else if name == ".." {
        PopInDirectory(fs, path);
        ResolveCanonical(fs, pathMax, bounded, Pop(path), rest, links);
      } else {
        EntryCanonical(fs, pathMax, bounded, path, name, rest, links);
      }
    }
  }

  lemma {:induction false} EntryCanonical(fs: FileSystem, pathMax: nat, bounded: bool, path: seq<string>, name: string, rest: string, links: nat)
    requires links <= MAXSYMLINKS && pathMax >= 2
    requires InDirectory(fs, path) && NulFree(fs) && IsProper(name) && '\0' !in rest
    ensures var r := ResolveEntry(fs, pathMax, bounded, path, name, rest, links);
            r.Resolved? ==> Canonical(fs, r.path)
    decreases MAXSYMLINKS - links, |rest| + 1, 0
  {
    var full := path + [name];
    Extended(fs, path, name);
    hide Canonical, InDirectory, Resolve, Body, IsProper, Slashes, WordLength;
    match fs(full)
    case Missing(e) =>
    case Unreadable(e) =>
    case NonDirectory =>
    case Directory =>
      ResolveCanonical(fs, pathMax, bounded, full, rest, links);
    case Link(target) =>
      var buf := ReadLink(target, pathMax - 1);
      if links < MAXSYMLINKS && |buf| + |rest| < pathMax {
        RootInDirectory(fs);
        PrefixNulFree(target, |buf|);
        assert target[..|buf|] == buf;
        ResolveCanonical(fs, pathMax, bounded, if buf != "" && buf[0] == '/' then [] else path, buf + rest, links + 1);
      }
  }

  /** An entry of a directory that is no link. */
  lemma Extended(fs: FileSystem, path: seq<string>, name: string)
    requires InDirectory(fs, path) && IsProper(name)
    ensures fs(path + [name]) == Directory ==> InDirectory(fs, path + [name])
    ensures fs(path + [name]) == NonDirectory ==> Canonical(fs, path + [name])
  {
    var full := path + [name];
    assert forall k :: 0 < k < |full| ==> full[..k] == path[..k];
    assert full[..|full|] == full;
  }

  lemma RootInDirectory(fs: FileSystem)
    ensures InDirectory(fs, [])
  {
  }

  lemma PopInDirectory(fs: FileSystem, path: seq<string>)
    requires InDirectory(fs, path)
    ensures InDirectory(fs, Pop(path))
  {
    if path != [] {
      forall k | 0 < k <= |path| - 1
        ensures Pop(path)[..k] == path[..k]
      {
      }
    }
  }

  // ----- names and their components -----------------------------------------

  lemma BodyLong(path: seq<string>)
    requires forall k :: 0 <= k < |path| ==> IsName(path[k])
    ensures path != [] ==> |Body(path)| >= 2
  {
  }

  lemma {:induction false} BodyFirst(path: seq<string>)
    requires path != []
    ensures Body(path) == "/" + path[0] + Body(path[1..])
  {
    if |path| > 1 {
      BodyFirst(path[..|path| - 1]);
      assert path[1..][..|path| - 2] == path[..|path| - 1][1..];
    }
  }

  /** The first component of "/name/more...". */
  lemma FirstWord(name: string, more: string)
    requires IsName(name) && (more == "" || more[0] == '/')
    ensures var t := "/" + name + more;
            Slashes(t) == 1 && t[1..] == name + more && WordLength(name + more) == |name|
  {
    assert name[0] in name;
    hide *;
    SlashesFirst(name, more);
    WordFirst(name, more);
  }

  lemma SlashesFirst(name: string, more: string)
    requires name != "" && name[0] != '/'
    ensures Slashes("/" + name + more) == 1 && ("/" + name + more)[1..] == name + more
  {
    hide *;
    var t := "/" + name + more;
    assert t[1] == name[0];
    SlashesUnique(t, 1);
  }

  lemma WordFirst(name: string, more: string)
    requires '/' !in name && (more == "" || more[0] == '/')
    ensures WordLength(name + more) == |name|
  {
    hide *;
    assert (name + more)[..|name|] == name;
    WordLengthUnique(name + more, |name|);
  }

  lemma {:induction false} SlashesUnique(t: string, n: nat)
    requires n <= |t| && (n < |t| ==> t[n] != '/') && forall k :: 0 <= k < n ==> t[k] == '/'
    ensures n == Slashes(t)
  {
    if n > 0 {
      SlashesUnique(t[1..], n - 1);
    }
  }

  lemma {:induction false} WordLengthUnique(t: string, n: nat)
    requires n <= |t| && (n < |t| ==> t[n] == '/') && '/' !in t[..n]
    ensures n == WordLength(t)
  {
    if n > 0 {
      assert t[..n][0] == t[0];
      assert t[1..][..n - 1] == t[..n][1..];
      WordLengthUnique(t[1..], n - 1);
    }
  }

  lemma {:induction false} ComponentsOfBody(path: seq<string>)
    requires forall k :: 0 <= k < |path| ==> IsName(path[k])
    ensures Components(Body(path)) == path
  {
    if path == [] {
      assert Body(path) == "";
    } else {
      var t, rest := Body(path), path[1..];
      BodyFirst(path);
      if rest != [] {
        BodyFirst(rest);
      }
      FirstWord(path[0], Body(rest));
      ComponentsOfBody(rest);
      assert t[1..][..|path[0]|] == path[0] && t[1..][|path[0]|..] == Body(rest);
    }
  }

  /** One existing component, not a link, is kept. */
  lemma ResolveName(fs: FileSystem, pathMax: nat, bounded: bool, path: seq<string>, name: string, more: string, links: nat)
    requires links <= MAXSYMLINKS && pathMax >= 2
    requires IsProper(name) && (more == "" || more[0] == '/')
    requires bounded ==> |Body(path + [name])| < pathMax
    requires fs(path + [name]) == Directory || (more == "" && fs(path + [name]) == NonDirectory)
    ensures Resolve(fs, pathMax, bounded, path, "/" + name + more, links) ==
            Resolve(fs, pathMax, bounded, path + [name], more, links)
  {
    FirstWord(name, more);
    var t := name + more;
    assert t[..|name|] == name && t[|name|..] == more;
    assert more == "" ==> Resolve(fs, pathMax, bounded, path + [name], more, links) == Resolved(path + [name]);
  }

  /** A slash in front makes no difference: names are separated by any number of them. */
  lemma ResolveSlash(fs: FileSystem, pathMax: nat, bounded: bool, path: seq<string>, text: string, links: nat)
    requires links <= MAXSYMLINKS && pathMax >= 2
    ensures Resolve(fs, pathMax, bounded, path, "/" + text, links) == Resolve(fs, pathMax, bounded, path, text, links)
  {
    hide ResolveEntry, Pop, WordLength;
    var t := "/" + text;
    assert t[1..] == text && Slashes(t) == 1 + Slashes(text);
    assert t[1 + Slashes(text)..] == text[Slashes(text)..];
  }

  /** What a name in front of `more` does: "." stays, ".." goes up and stays in the
      root, an entry is looked up, and a symbolic link puts its target in its place. */
  lemma ResolveStep(fs: FileSystem, pathMax: nat, bounded: bool, path: seq<string>, name: string, more: string, links: nat)
    requires links <= 20 && pathMax >= 2
    requires IsName(name) && (more == "" || more[0] == '/')
    ensures var r, full := Resolve(fs, pathMax, bounded, path, "/" + name + more, links), path + [name];
            && (name == "." ==> r == Resolve(fs, pathMax, bounded, path, more, links))
            && (name == ".." && path == [] ==> r == Resolve(fs, pathMax, bounded, [], more, links))
            && (name == ".." && path != [] ==> r == Resolve(fs, pathMax, bounded, path[..|path| - 1], more, links))
            && (IsProper(name) && bounded && |Body(full)| >= pathMax ==> r == Failed(ENAMETOOLONG))
            && (IsProper(name) && (bounded ==> |Body(full)| < pathMax) ==>
                  && (fs(full) == Directory ==> r == Resolve(fs, pathMax, bounded, full, more, links))
                  && (fs(full) == NonDirectory ==> r == if more == "" then Resolved(full) else Failed(ENOTDIR))
                  && (fs(full).Missing? ==> r == Failed(fs(full).errno))
                  && (fs(full).Unreadable? ==> r == Failed(if links == 20 then ELOOP else fs(full).errno))
                  && (fs(full).Link? && links == 20 ==> r == Failed(ELOOP)))
  {
    StepIs(fs, pathMax, bounded, path, name, more, links);
    hide Resolve, IsProper, IsName, Body;
  }

  /** A followed link: a relative target goes on in the same directory, an absolute one
      in the root, and what was behind the link comes behind the target.  Of a target
      that is too long for readlink's buffer only what fits is read. */
  lemma ResolveLink(fs: FileSystem, pathMax: nat, bounded: bool, path: seq<string>, name: string, more: string, links: nat)
    requires links < 20 && pathMax >= 2
    requires IsProper(name) && (more == "" || more[0] == '/')
    requires bounded ==> |Body(path + [name])| < pathMax
    requires fs(path + [name]).Link?
    ensures var r, target := Resolve(fs, pathMax, bounded, path, "/" + name + more, links), fs(path + [name]).target;
            && (|target| < pathMax && |target| + |more| >= pathMax ==> r == Failed(ENAMETOOLONG))
            && (|target| + |more| < pathMax ==>
                  r == Resolve(fs, pathMax, bounded, if "/" <= target then [] else path, target + more, links + 1))
            && (|target| >= pathMax && more != "" ==> r == Failed(ENAMETOOLONG))
            && (|target| >= pathMax && more == "" ==>
                  r == Resolve(fs, pathMax, bounded, if "/" <= target then [] else path, target[..pathMax - 1], links + 1))
  {
    StepIs(fs, pathMax, bounded, path, name, more, links);
    assert name != "." && name != "..";
    hide Resolve, IsProper, IsName, Body;
    var target := fs(path + [name]).target;
    if |target| >= pathMax {
      assert target[..pathMax - 1] + "" == target[..pathMax - 1] && target[..pathMax - 1][0] == target[0];
      assert "/" <= target <==> target[0] == '/';
    }
  }

  lemma StepIs(fs: FileSystem, pathMax: nat, bounded: bool, path: seq<string>, name: string, more: string, links: nat)
    requires links <= MAXSYMLINKS && pathMax >= 2
    requires IsName(name) && (more == "" || more[0] == '/')
    ensures Resolve(fs, pathMax, bounded, path, "/" + name + more, links) ==
            if name == "." then Resolve(fs, pathMax, bounded, path, more, links)
            else if name == ".." then Resolve(fs, pathMax, bounded, Pop(path), more, links)
            else ResolveEntry(fs, pathMax, bounded, path, name, more, links)
    ensures Resolve(fs, pathMax, bounded, path, name + more, links) ==
            Resolve(fs, pathMax, bounded, path, "/" + name + more, links)
  {
    hide ResolveEntry, Pop, Slashes, WordLength;
    FirstWord(name, more);
    var t := name + more;
    assert name[0] in name;
    SlashesUnique(t, 0);
    assert t[0..] == t && t[..|name|] == name && t[|name|..] == more;
  }

  /** A link to each following name, and then an entry that is no link. */
  predicate LinkChain(fs: FileSystem, pathMax: nat, path: seq<string>, names: seq<string>) {
    && names != []
    && (forall k :: 0 <= k < |names| ==> IsProper(names[k]) && |Body(path + [names[k]])| < pathMax)
    && (forall k :: 0 <= k < |names| - 1 ==> fs(path + [names[k]]) == Link(names[k + 1]))
    && (fs(path + [names[|names| - 1]]) == Directory || fs(path + [names[|names| - 1]]) == NonDirectory)
  }

  /** A chain of links is followed to its end if it has at most 20, and is ELOOP otherwise. */
  lemma {:induction false} ResolveChain(fs: FileSystem, pathMax: nat, bounded: bool, path: seq<string>, names: seq<string>, links: nat)
    requires pathMax >= 2 && links <= 20 && LinkChain(fs, pathMax, path, names)
    ensures Resolve(fs, pathMax, bounded, path, names[0], links) ==
            if links + |names| - 1 <= 20 then Resolved(path + [names[|names| - 1]]) else Failed(ELOOP)
    decreases |names|
  {
    assert IsProper(names[0]);
    ChainFirst(fs, pathMax, path, names);
    hide *;
    if |names| == 1 {
      EntryAlone(fs, pathMax, bounded, path, names[0], links);
    } else {
      LinkAlone(fs, pathMax, bounded, path, names[0], names[1], links);
      if links < 20 {
        ResolveChain(fs, pathMax, bounded, path, names[1..], links + 1);
      }
    }
  }

  lemma EntryAlone(fs: FileSystem, pathMax: nat, bounded: bool, path: seq<string>, name: string, links: nat)
    requires pathMax >= 2 && links <= 20 && IsProper(name) && |Body(path + [name])| < pathMax
    requires fs(path + [name]) == Directory || fs(path + [name]) == NonDirectory
    ensures Resolve(fs, pathMax, bounded, path, name, links) == Resolved(path + [name])
  {
    assert name + "" == name && "/" + name + "" == "/" + name;
    StepIs(fs, pathMax, bounded, path, name, "", links);
    ResolveEnd(fs, pathMax, bounded, path + [name], links);
    hide Resolve, Body, IsProper, IsName;
  }

  lemma LinkAlone(fs: FileSystem, pathMax: nat, bounded: bool, path: seq<string>, name: string, target: string, links: nat)
    requires pathMax >= 2 && links <= 20 && IsProper(name) && |Body(path + [name])| < pathMax
    requires fs(path + [name]) == Link(target) && |target| < pathMax && !("/" <= target)
    ensures Resolve(fs, pathMax, bounded, path, name, links) ==
            if links == 20 then Failed(ELOOP) else Resolve(fs, pathMax, bounded, path, target, links + 1)
  {
    assert name + "" == name && "/" + name + "" == "/" + name && target + "" == target;
    StepIs(fs, pathMax, bounded, path, name, "", links);
    if links < 20 {
      hide *;
      ResolveLink(fs, pathMax, bounded, path, name, "", links);
    } else {
      hide Resolve, Body, IsName;
    }
  }

  lemma ChainFirst(fs: FileSystem, pathMax: nat, path: seq<string>, names: seq<string>)
    requires LinkChain(fs, pathMax, path, names)
    ensures |Body(path + [names[0]])| < pathMax
    ensures |names| > 1 ==> LinkChain(fs, pathMax, path, names[1..]) && fs(path + [names[0]]) == Link(names[1])
                            && |names[1]| < pathMax && !("/" <= names[1])
    ensures |names| == 1 ==> fs(path + [names[0]]) == Directory || fs(path + [names[0]]) == NonDirectory
  {
    if |names| > 1 {
      assert IsProper(names[1]);
      NameShort(path, names[1]);
      hide Body;
      var rest := names[1..];
      forall k | 0 <= k < |rest|
        ensures rest[k] == names[k + 1] && IsProper(rest[k])
      {
        assert IsProper(names[k + 1]);
      }
      assert names[1][0] in names[1];
    }
  }

  lemma NameShort(path: seq<string>, name: string)
    ensures |name| < |Body(path + [name])|
  {
    assert (path + [name])[..|path|] == path;
  }

  /** Walking down a canonical path, from its first k components on. */
  lemma {:induction false} ResolveDown(fs: FileSystem, pathMax: nat, bounded: bool, path: seq<string>, k: nat, links: nat)
    requires links <= MAXSYMLINKS && pathMax >= 2 && k <= |path|
    requires Canonical(fs, path) && (bounded ==> |Body(path)| < pathMax)
    ensures Resolve(fs, pathMax, bounded, path[..k], Body(path[k..]), links) == Resolved(path)
    decreases |path| - k
  {
    if k == |path| {
      assert Body(path[k..]) == "" && path[..k] == path;
    } else {
      var name, rest := path[k], path[k + 1..];
      assert IsProper(name) && path[..k] + [name] == path[..k + 1];
      DownRest(path, k);
      BodyPrefix(path, k + 1);
      assert k + 1 == |path| ==> path[..k + 1] == path && Body(rest) == "";
      hide Resolve, IsProper, Body;
      ResolveName(fs, pathMax, bounded, path[..k], name, Body(rest), links);
      ResolveDown(fs, pathMax, bounded, path, k + 1, links);
    }
  }

  lemma DownRest(path: seq<string>, k: nat)
    requires k < |path|
    ensures Body(path[k..]) == "/" + path[k] + Body(path[k + 1..])
    ensures Body(path[k + 1..]) == "" || Body(path[k + 1..])[0] == '/'
  {
    BodyFirst(path[k..]);
    assert path[k..][1..] == path[k + 1..];
    if k + 1 < |path| {
      BodyFirst(path[k + 1..]);
    }
  }

  lemma {:induction false} BodyPrefix(path: seq<string>, k: nat)
    requires k <= |path|
    ensures |Body(path[..k])| <= |Body(path)|
  {
    if k == |path| {
      assert path[..k] == path;
    } else {
      BodyPrefix(path[..|path| - 1], k);
      assert path[..|path| - 1][..k] == path[..k];
    }
  }

  /** Resolving a resolved name changes nothing. */
  lemma ResolveIdempotent(fs: FileSystem, pathMax: nat, bounded: bool, path: seq<string>, text: string, again: bool)
    requires pathMax >= 2 && InDirectory(fs, path) && NulFree(fs) && '\0' !in text
    ensures var r := Resolve(fs, pathMax, bounded, path, text, 0);
            r.Resolved? && (again ==> |Text(r.path)| < pathMax) ==>
              Resolve(fs, pathMax, again, [], Text(r.path), 0) == r
  {
    var r := Resolve(fs, pathMax, bounded, path, text, 0);
    ResolveCanonical(fs, pathMax, bounded, path, text, 0);
    if r.Resolved? && (again ==> |Text(r.path)| < pathMax) {
      assert r.path[..0] == [] && r.path[0..] == r.path;
      if r.path == [] {
        assert Text(r.path)[Slashes(Text(r.path))..] == "";
      } else {
        ResolveDown(fs, pathMax, again, r.path, 0, 0);
      }
    }
  }
}
