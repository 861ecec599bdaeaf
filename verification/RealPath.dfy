/** realpath as written: two pointers into the text still to be read, which moves
    into a second buffer when a symbolic link is spliced in, and a result buffer
    that grows at its end and backs up at slashes.  Array bounds are proof
    obligations of every access. */
module RealPath {
  import opened Options
  import opened Allocation
  import opened PathNames

  datatype Result = Ok(text: string) | Fail(errno: Errno)

  /** The C string t starts at index i of memory m. */
  ghost predicate TextAt(m: seq<char>, i: nat, t: string) {
    '\0' !in t && i + |t| < |m| && m[i..i + |t|] == t && m[i + |t|] == '\0'
  }

  lemma ReadText(m: seq<char>, i: nat, t: string, k: nat)
    requires TextAt(m, i, t) && i <= k <= i + |t|
    ensures m[k] == if k < i + |t| then t[k - i] else '\0'
    ensures m[k] == '\0' <==> k == i + |t|
  {
    if k < i + |t| {
      assert m[i..i + |t|][k - i] == m[k] && t[k - i] in t;
    }
  }

  lemma SplicedText(m: seq<char>, buf: string, t: string, m0: seq<char>, i: nat)
    requires '\0' !in buf && TextAt(m0, i, t) && |buf| + |t| < |m|
    requires forall k :: 0 <= k < |buf| ==> m[k] == buf[k]
    requires m[|buf|..|buf| + |t| + 1] == m0[i..i + |t| + 1]
    ensures TextAt(m, 0, buf + t)
  {
    forall k | 0 <= k < |t|
      ensures m[|buf| + k] == t[k]
    {
      ReadText(m0, i, t, i + k);
      assert m[|buf|..|buf| + |t| + 1][k] == m0[i..i + |t| + 1][k];
    }
    assert m[|buf|..|buf| + |t| + 1][|t|] == m0[i..i + |t| + 1][|t|];
    assert m[0..|buf + t|] == buf + t;
  }

  lemma TodoNulFree(m: seq<char>, i: nat, t: string)
    requires TextAt(m, i, t)
    ensures '\0' !in t
  {
  }

  lemma TextFrom(m: seq<char>, i: nat, t: string, n: nat)
    requires TextAt(m, i, t) && n <= |t|
    ensures TextAt(m, i + n, t[n..]) && m[i..i + n] == t[..n]
  {
    assert m[i..i + |t|][n..] == m[i + n..i + |t|];
    assert m[i..i + |t|][..n] == m[i..i + n];
  }

  /** The local variables of __realpath.  Pointers are indices: `start` and `end`
      into extraBuf if inExtra, else into name; `dest` into rpath. */
  class Walk {
    const fs: FileSystem
    const pathMax: nat
    const bounded: bool      // the caller passed a buffer of pathMax bytes
    const name: string
    const scarce: bool       // may allocations fail?
    var rpath: array<char>   // rpath_limit is rpath + rpath.Length
    var dest: nat
    var extraBuf: array?<char>
    var inExtra: bool
    var start: nat
    var end: nat
    var numLinks: nat

    ghost var path: seq<string>   // the components in rpath[..dest]
    ghost var todo: string        // the text at `end`

    /** The memory that `start` and `end` point into. */
    ghost function Source(): seq<char>
      reads this`inExtra, this`extraBuf, extraBuf
    {
      if inExtra && extraBuf != null then extraBuf[..] else name + ['\0']
    }

    ghost predicate TextValid()
      reads this`inExtra, this`extraBuf, this`end, this`todo, extraBuf
    {
      && (extraBuf != null ==> extraBuf.Length == pathMax)
      && (inExtra ==> extraBuf != null)
      && TextAt(Source(), end, todo)
    }

    ghost predicate NameValid()
      reads this`rpath, this`dest, this`path, rpath
    {
      && pathMax >= 2 && (if bounded then rpath.Length == pathMax else rpath.Length >= pathMax)
      && 1 <= dest < rpath.Length
      && (forall k :: 0 <= k < |path| ==> IsName(path[k]))
      && (rpath[..dest] == Body(path) + "/" || (path != [] && rpath[..dest] == Body(path)))
    }

    ghost predicate Valid()
      reads this, rpath, extraBuf
    {
      TextValid() && NameValid() && rpath != extraBuf && numLinks <= MAXSYMLINKS && pathMax >= 2
    }

    /** The character a pointer into the pending text points to. */
    function Read(i: nat): (c: char)
      requires (inExtra ==> extraBuf != null) && i < |Source()|
      reads this, extraBuf
      ensures c == Source()[i]
    {
      if inExtra then extraBuf[i] else if i < |name| then name[i] else '\0'
    }

    method ScanSlashes() returns (stop: nat)
      requires TextValid()
      ensures stop == end + Slashes(todo)
    {
      stop := end;
      while Read(stop) == '/'
        invariant end <= stop <= end + |todo|
        invariant forall k :: 0 <= k < stop - end ==> todo[k] == '/'
        decreases |todo| - (stop - end)
      {
        ReadText(Source(), end, todo, stop);
        stop := stop + 1;
      }
      ReadText(Source(), end, todo, stop);
      SlashesUnique(todo, stop - end);
    }

    method ScanWord() returns (stop: nat)
      requires TextValid()
      ensures stop == end + WordLength(todo)
    {
      stop := end;
      while Read(stop) != '\0' && Read(stop) != '/'
        invariant end <= stop <= end + |todo|
        invariant '/' !in todo[..stop - end]
        decreases |todo| - (stop - end)
      {
        ReadText(Source(), end, todo, stop);
        stop := stop + 1;
      }
      ReadText(Source(), end, todo, stop);
      WordLengthUnique(todo, stop - end);
    }

    method SkipSlashes()
      requires TextValid()
      modifies this`start, this`end, this`todo
      ensures TextValid() && start == end && todo == old(todo)[Slashes(old(todo))..]
    {
      hide TextAt, Slashes;
      start := ScanSlashes();
      TextFrom(Source(), end, todo, start - end);
      todo := todo[start - end..];
      end := start;
    }

    method FindEnd() returns (ghost component: string)
      requires TextValid() && start == end
      modifies this`end, this`todo
      ensures TextValid() && end == start + |component| < |Source()|
      ensures component == old(todo)[..WordLength(old(todo))] && todo == old(todo)[WordLength(old(todo))..]
      ensures Source()[start..end] == component
    {
      hide WordLength;
      var stop := ScanWord();
      TextFrom(Source(), end, todo, stop - end);
      component := todo[..stop - end];
      todo := todo[stop - end..];
      end := stop;
    }

    /** Skip slashes, then find the end of the next component [start, end). */
    method NextComponent() returns (ghost component: string)
      requires TextValid()
      modifies this`start, this`end, this`todo
      ensures TextValid() && end == start + |component| < |Source()|
      ensures var t := old(todo)[Slashes(old(todo))..];
              component == t[..WordLength(t)] && todo == t[WordLength(t)..]
      ensures Source()[start..end] == component
    {
      hide TextAt, Slashes, WordLength;
      SkipSlashes();
      component := FindEnd();
    }

    /** Back up to the parent: ".." and relative links do this. */
    method PopComponent()
      requires Valid()
      modifies this`dest, this`path
      ensures Valid() && path == Pop(old(path)) && dest <= old(dest)
    {
      hide TextAt;
      BodyLong(path);
      if dest > 1 {
        ghost var up, last := Body(Pop(path)), path[|path| - 1];
        ghost var t := up + "/" + last;
        assert rpath[..dest] == t || rpath[..dest] == t + "/";
        dest := dest - 1;
        while dest > 0 && rpath[dest - 1] != '/'
          invariant path == old(path) && |up| + 1 <= dest <= |t|
          invariant forall k :: 0 <= k < dest ==> rpath[k] == t[k]
        {
          assert rpath[dest - 1] == t[dest - 1];
          dest := dest - 1;
        }
        LastSlash(up, last, dest);
        assert rpath[..dest] == up + "/";
        path := Pop(path);
      }
    }

    // ----- appending a component --------------------------------------------

    method EnsureSlash()
      requires NameValid()
      modifies this`dest, rpath
      ensures 1 <= dest <= rpath.Length && rpath[..dest] == Body(path) + "/"
    {
      BodyNoSlash(path);
      assert rpath[dest - 1] == rpath[..dest][dest - 1];
      if rpath[dest - 1] != '/' {
        rpath[dest] := '/';
        dest := dest + 1;
      }
    }

    /** Make room for len more characters and a NUL; a caller's buffer cannot grow. */
    method EnsureRoom(len: nat) returns (r: Option<Errno>)
      requires pathMax >= 2 && (if bounded then rpath.Length == pathMax else rpath.Length >= pathMax)
      requires 1 <= dest <= rpath.Length
      modifies this`rpath, this`dest, rpath
      ensures rpath == old(rpath) || (fresh(rpath) && !bounded)
      ensures if bounded then rpath.Length == pathMax else rpath.Length >= pathMax
      ensures r.None? ==> dest == old(dest) && dest + len < rpath.Length && rpath[..dest] == old(rpath[..dest])
      ensures r.Some? ==> if bounded then r.value == ENAMETOOLONG else r.value == ENOMEM && scarce
      ensures bounded ==> (r.Some? <==> old(dest) + len >= pathMax)
    {
      if dest + len >= rpath.Length {
        if bounded {
          if dest > 1 {
            dest := dest - 1;
          }
          rpath[dest] := '\0';
          return Some(ENAMETOOLONG);
        }
        var newSize := rpath.Length + if len + 1 > pathMax then len + 1 else pathMax;
        var reallocOk := Succeeds(scarce);
        if !reallocOk {
          return Some(ENOMEM);
        }
        var old_ := rpath;
        rpath := new char[newSize](i requires 0 <= i < newSize reads old_ => if i < old_.Length then old_[i] else '\0');
      }
      r := None;
    }

    /** memcpy of the component [start, end), then a NUL. */
    method CopyComponent(ghost component: string)
      requires TextValid() && rpath != extraBuf
      requires end == start + |component| < |Source()| && Source()[start..end] == component
      requires dest + |component| < rpath.Length
      modifies this`dest, rpath
      ensures TextValid() && dest == old(dest) + |component|
      ensures rpath[..dest] == old(rpath[..dest]) + component && rpath[dest] == '\0'
    {
      hide TextAt;
      ghost var before := rpath[..dest];
      for k := 0 to end - start
        invariant TextValid() && dest == old(dest) && Source() == old(Source())
        invariant rpath[..dest + k] == before + component[..k]
      {
        assert component[k] == Source()[start..end][k];
        rpath[dest + k] := Read(start + k);
        assert rpath[..dest + k + 1] == rpath[..dest + k] + [component[k]];
      }
      dest := dest + (end - start);
      rpath[dest] := '\0';
      assert component[..|component|] == component;
    }

    method PushComponent(ghost component: string) returns (r: Option<Errno>)
      requires Valid() && IsName(component)
      requires end == start + |component| < |Source()| && Source()[start..end] == component
      modifies this`rpath, this`dest, this`path, rpath
      ensures rpath == old(rpath) || (fresh(rpath) && !bounded)
      ensures r.None? ==> Valid() && path == old(path) + [component]
      ensures r.None? ==> rpath[..dest] == Body(path) && rpath[dest] == '\0'
      ensures r.Some? ==> if bounded then r.value == ENAMETOOLONG else r.value == ENOMEM && scarce
      ensures bounded ==> (r.Some? <==> |Body(old(path) + [component])| >= pathMax)
    {
      hide TextAt, IsName, Body;
      ghost var full := path + [component];
      BodyNext(path, component);
      EnsureSlash();
      assert dest == |Body(path)| + 1;
      r := EnsureRoom(end - start);
      if r.Some? {
        return;
      }
      assert TextValid();
      CopyComponent(component);
      path := full;
    }

    // ----- symbolic links ---------------------------------------------------

    method StringLength() returns (len: nat)
      requires TextValid()
      ensures len == |todo|
    {
      len := 0;
      while Read(end + len) != '\0'
        invariant len <= |todo|
        decreases |todo| - len
      {
        ReadText(Source(), end, todo, end + len);
        len := len + 1;
      }
      ReadText(Source(), end, todo, end + len);
    }

    /** Move the pending text, NUL included, to index n of extraBuf (memmove: it may
        already be in there), then put buf in front of it. */
    method Splice(buf: string, len: nat)
      requires TextValid() && extraBuf != null && '\0' !in buf
      requires len == |todo| && |buf| + len < extraBuf.Length
      modifies this`inExtra, this`end, this`todo, extraBuf
      ensures TextValid() && todo == buf + old(todo)
    {
      ghost var text, m, from := todo, Source(), end;
      var n := |buf|;
      if inExtra {
        forall k | 0 <= k <= len {
          extraBuf[n + k] := extraBuf[end + k];
        }
      } else {
        forall k | 0 <= k <= len {
          extraBuf[n + k] := Read(end + k);
        }
      }
      assert extraBuf[n..n + len + 1] == m[from..from + len + 1];
      forall k | 0 <= k < n {
        extraBuf[k] := buf[k];
      }
      assert extraBuf[n..n + len + 1] == m[from..from + len + 1];
      inExtra, end := true, 0;
      todo := buf + text;
      SplicedText(extraBuf[..], buf, text, m, from);
    }

    /** The name in rpath is a link: read on from its target. */
    method FollowLink(link: Node) returns (r: Option<Errno>)
      requires Valid() && rpath[..dest] == Body(path)
      requires link.Unreadable? || (link.Link? && '\0' !in link.target)
      modifies this`dest, this`path, this`inExtra, this`end, this`todo, this`extraBuf, this`numLinks, rpath, extraBuf
      ensures extraBuf == old(extraBuf) || fresh(extraBuf)
      ensures link.Unreadable? ==>
              r.Some? && ((r.value == ENOMEM && scarce) || r.value == if old(numLinks) == MAXSYMLINKS then ELOOP else link.errno)
      ensures link.Link? ==>
              var buf := ReadLink(link.target, pathMax - 1);
              && (r.None? ==> Valid() && numLinks == old(numLinks) + 1 && todo == buf + old(todo))
              && (r.None? ==> path == if buf != "" && buf[0] == '/' then [] else Pop(old(path)))
              && (r.None? ==> old(numLinks) < MAXSYMLINKS && |buf| + |old(todo)| < pathMax)
              && (r.Some? ==> (r.value == ENOMEM && scarce) || r.value == ELOOP || r.value == ENAMETOOLONG)
              && (r == Some(ENAMETOOLONG) ==> old(numLinks) < MAXSYMLINKS && |buf| + |old(todo)| >= pathMax)
              && (r == Some(ELOOP) ==> old(numLinks) == MAXSYMLINKS)
    {
      hide TextAt, NameValid, Body, Pop;
      if numLinks + 1 > MAXSYMLINKS {
        return Some(ELOOP);
      }
      numLinks := numLinks + 1;
      var mallocOk := Succeeds(scarce);
      if !mallocOk {
        return Some(ENOMEM);
      }
      if link.Unreadable? {
        return Some(link.errno);
      }
      var buf := ReadLink(link.target, pathMax - 1);
      var ok := AllocateExtra();
      if !ok {
        return Some(ENOMEM);
      }
      var len := StringLength();
      if |buf| + len >= pathMax {
        return Some(ENAMETOOLONG);
      }
      Splice(buf, len);
      LeaveLink(buf);
      r := None;
    }

    /** An absolute link starts over at the root, a relative one in the directory of
        the link. */
    method LeaveLink(buf: string)
      requires Valid()
      modifies this`dest, this`path, rpath
      ensures Valid() && path == if buf != "" && buf[0] == '/' then [] else Pop(old(path))
    {
      hide TextAt;
      if buf != "" && buf[0] == '/' {
        rpath[0] := '/';
        dest := 1;
        path := [];
        assert rpath[..1] == Body([]) + "/";
      } else {
        PopComponent();
      }
    }

    method AllocateExtra() returns (ok: bool)
      requires TextValid()
      modifies this`extraBuf
      ensures extraBuf == old(extraBuf) || fresh(extraBuf)
      ensures ok ==> TextValid() && extraBuf != null
      ensures !ok ==> scarce
    {
      ok := true;
      if extraBuf == null {
        ok := Succeeds(scarce);
        if ok {
          extraBuf := new char[pathMax];
        }
      }
    }

    // ----- the main loop ----------------------------------------------------

    /** What the resolver says about the text still to be read. */
    ghost function Meaning(): Resolution
      requires numLinks <= MAXSYMLINKS && pathMax >= 2
      reads this`path, this`todo, this`numLinks
    {
      Resolve(fs, pathMax, bounded, path, todo, numLinks)
    }

    /** lstat on the string in rpath. */
    method LStat() returns (node: Node)
      requires NameValid() && rpath[..dest] == Body(path) && rpath[dest] == '\0'
      ensures node == fs(path)
    {
      ComponentsOfBody(path);
      node := fs(Components(rpath[..dest]));
    }

    /** A component that is neither "." nor "..". */
    method Visit(ghost component: string) returns (r: Option<Errno>)
      requires Valid() && NulFree(fs) && IsProper(component)
      requires end == start + |component| < |Source()| && Source()[start..end] == component
      modifies this, rpath, extraBuf
      ensures (rpath == old(rpath) || (fresh(rpath) && !bounded)) && (extraBuf == old(extraBuf) || fresh(extraBuf))
      ensures var expected := ResolveEntry(fs, pathMax, bounded, old(path), component, old(todo), old(numLinks));
              && (r.None? ==> Valid() && Meaning() == expected)
              && (r.Some? ==> (r.value == ENOMEM && scarce) || expected == Failed(r.value))
      ensures r.None? ==> numLinks > old(numLinks) || (numLinks == old(numLinks) && todo == old(todo))
    {
      hide NameValid, Body, Resolve, ResolveEntry, IsName, Pop;
      ghost var up := path;
      r := PushComponent(component);
      if r.Some? {
        TooLong(fs, pathMax, bounded, up, component, todo, numLinks);
        return;
      }
      r := Enter(up, component);
    }

    /** The rest of the turn, with the component's name in rpath. */
    method Enter(ghost up: seq<string>, ghost component: string) returns (r: Option<Errno>)
      requires Valid() && NulFree(fs) && path == up + [component] && !(bounded && |Body(path)| >= pathMax)
      requires rpath[..dest] == Body(path) && rpath[dest] == '\0'
      modifies this, rpath, extraBuf
      ensures rpath == old(rpath) && (extraBuf == old(extraBuf) || fresh(extraBuf))
      ensures var expected := ResolveEntry(fs, pathMax, bounded, up, component, old(todo), old(numLinks));
              && (r.None? ==> Valid() && Meaning() == expected)
              && (r.Some? ==> (r.value == ENOMEM && scarce) || expected == Failed(r.value))
      ensures r.None? ==> numLinks > old(numLinks) || (numLinks == old(numLinks) && todo == old(todo))
    {
      hide NameValid, Body, Resolve, IsName;
      assert Pop(path) == up;
      r := None;
      var node := LStat();
      match node
      case Missing(e) =>
        r := Some(e);
      case Link(_) | Unreadable(_) =>
        r := FollowLink(node);
      case NonDirectory =>
        ReadText(Source(), end, todo, end);
        if Read(end) != '\0' {
          return Some(ENOTDIR);
        }
        ResolveEnd(fs, pathMax, bounded, path, numLinks);
      case Directory =>
    }

    /** One turn of the loop over the components.  `stop` is the break. */
    method Turn() returns (r: Option<Errno>, stop: bool)
      requires Valid() && NulFree(fs) && todo != ""
      modifies this, rpath, extraBuf
      ensures (rpath == old(rpath) || (fresh(rpath) && !bounded)) && (extraBuf == old(extraBuf) || fresh(extraBuf))
      ensures r.None? ==> Valid() && old(Meaning()) == if stop then Resolved(path) else Meaning()
      ensures r.Some? ==> (r.value == ENOMEM && scarce) || old(Meaning()) == Failed(r.value)
      ensures r.None? ==> numLinks > old(numLinks) || (numLinks == old(numLinks) && |todo| < |old(todo)|)
    {
      hide NameValid, TextAt, Body, Resolve, ResolveEntry, IsName, Slashes, WordLength;
      r, stop := None, false;
      TodoNulFree(Source(), end, todo);
      ResolveUnfold(fs, pathMax, bounded, path, todo, numLinks);
      ghost var component := NextComponent();
      ghost var m := Source();
      assert component == m[start..end];
      DotNames(component);
      assert forall k :: 0 <= k < |component| ==> component[k] == m[start + k];
      if end - start == 0 {
        stop := true;
      } else if end - start == 1 && Read(start) == '.' {
      } else if end - start == 2 && Read(start) == '.' && Read(start + 1) == '.' {
        PopComponent();
      } else {
        r := Visit(component);
      }
    }

    /** The loop over the components, up to the final NUL. */
    method Run() returns (r: Option<Errno>)
      requires Valid() && NulFree(fs)
      modifies this, rpath, extraBuf
      ensures rpath == old(rpath) || (fresh(rpath) && !bounded)
      ensures r.None? ==> NameValid() && old(Meaning()) == Resolved(path)
      ensures r.Some? ==> (r.value == ENOMEM && scarce) || old(Meaning()) == Failed(r.value)
    {
      hide NameValid, Resolve;
      var stop := false;
      r := None;
      while Read(end) != '\0'
        invariant Valid() && Meaning() == old(Meaning())
        invariant (rpath == old(rpath) || (fresh(rpath) && !bounded)) && (extraBuf == old(extraBuf) || fresh(extraBuf))
        decreases MAXSYMLINKS - numLinks, |todo|
      {
        ReadText(Source(), end, todo, end);
        r, stop := Turn();
        if stop || r.Some? {
          return;
        }
      }
      ReadText(Source(), end, todo, end);
      ResolveEnd(fs, pathMax, bounded, path, numLinks);
      r := None;
    }

    /** realpath: the locals before the loop.  `cwd`, the root for an absolute name,
        is already in rpath. */
    constructor (fs: FileSystem, pathMax: nat, bounded: bool, buffer: array<char>, name: string, cwd: seq<string>,
                 scarce: bool)
      requires pathMax >= 2 && buffer.Length == pathMax && '\0' !in name && name != ""
      requires InDirectory(fs, cwd) && |Text(cwd)| < pathMax
      requires buffer[..|Text(cwd)|] == Text(cwd)
      ensures Valid() && rpath == buffer && extraBuf == null
      ensures this.fs == fs && this.pathMax == pathMax && this.bounded == bounded && this.scarce == scarce
      ensures path == cwd && todo == name && numLinks == 0
      ensures Meaning() == Resolve(fs, pathMax, bounded, cwd, name, 0)
    {
      this.fs, this.pathMax, this.bounded, this.name, this.scarce := fs, pathMax, bounded, name, scarce;
      rpath := buffer;
      extraBuf, inExtra, start, end, numLinks := null, false, 0, 0, 0;
      dest := |Text(cwd)|;
      path, todo := cwd, name;
      new;
      assert (name + ['\0'])[0..|name|] == name;
      assert cwd == [] ==> rpath[..1] == Body([]) + "/";
      BodyLong(cwd);
    }

    /** The end: drop a trailing slash and terminate the string. */
    method Finish() returns (text: string)
      requires NameValid()
      modifies this`dest, rpath
      ensures text == Text(path) && dest < rpath.Length && rpath[..dest] == text && rpath[dest] == '\0'
    {
      BodyNoSlash(path);
      BodyLong(path);
      assert rpath[dest - 1] == rpath[..dest][dest - 1];
      if dest > 1 && rpath[dest - 1] == '/' {
        dest := dest - 1;
      }
      rpath[dest] := '\0';
      text := rpath[..dest];
    }
  }

  /** __realpath, with a buffer of pathMax bytes if `resolved` is given.  But for running
      out of memory, which it may if that is scarce, the result is that of the resolver: same name, same error. */
  method Canonicalize(fs: FileSystem, pathMax: nat, name: Option<string>, resolved: array?<char>, cwd: Option<seq<string>>,
                      scarce: bool)
    returns (r: Result)
    requires pathMax >= 2 && NulFree(fs) && (name.Some? ==> '\0' !in name.value)
    requires resolved != null ==> resolved.Length == pathMax
    requires cwd.Some? ==> InDirectory(fs, cwd.value) && |Text(cwd.value)| < pathMax
    modifies resolved
    ensures name.None? ==> r == Fail(EINVAL)
    ensures name == Some("") ==> r == Fail(ENOENT)
    ensures name.Some? && name.value != "" && name.value[0] != '/' && cwd.None? ==> r.Fail?
    ensures name.Some? && name.value != "" && (name.value[0] == '/' || cwd.Some?) ==>
              var from := if name.value[0] == '/' then [] else cwd.value;
              match Resolve(fs, pathMax, resolved != null, from, name.value, 0)
              case Resolved(path) => r == Ok(Text(path)) || (scarce && r == Fail(ENOMEM))
              case Failed(e) => r == Fail(e) || (scarce && r == Fail(ENOMEM))
    ensures r.Ok? && resolved != null ==> |r.text| < resolved.Length && resolved[..|r.text|] == r.text && resolved[|r.text|] == '\0'
  {
    if name.None? {
      return Fail(EINVAL);
    }
    if name.value == "" {
      return Fail(ENOENT);
    }
    assert InDirectory(fs, []) && Text([]) == "/";
    hide *;
    var buffer := new char[0];
    if resolved == null {
      var mallocOk := Succeeds(scarce);
      if !mallocOk {
        return Fail(ENOMEM);
      }
      buffer := new char[pathMax];
    } else {
      buffer := resolved;
    }
    if name.value[0] != '/' && cwd.None? {
      buffer[0] := '\0';
      return Fail(Host(0));
    }
    r := ResolveFrom(fs, pathMax, resolved != null, buffer, name.value, if name.value[0] == '/' then [] else cwd.value, scarce);
  }

  /** The rest of __realpath, with a result buffer and the directory to start from. */
  method ResolveFrom(fs: FileSystem, pathMax: nat, bounded: bool, buffer: array<char>, name: string, from: seq<string>,
                     scarce: bool) returns (r: Result)
    requires pathMax >= 2 && NulFree(fs) && buffer.Length == pathMax && '\0' !in name && name != ""
    requires InDirectory(fs, from) && |Text(from)| < pathMax
    modifies buffer
    ensures match Resolve(fs, pathMax, bounded, from, name, 0)
            case Resolved(path) => r == Ok(Text(path)) || (scarce && r == Fail(ENOMEM))
            case Failed(e) => r == Fail(e) || (scarce && r == Fail(ENOMEM))
    ensures r.Ok? && bounded ==> |r.text| < buffer.Length && buffer[..|r.text|] == r.text && buffer[|r.text|] == '\0'
  {
    hide *;
    GetCwd(buffer, from);
    var walk := new Walk(fs, pathMax, bounded, buffer, name, from, scarce);
    var e := walk.Run();
    if e.Some? {
      return Fail(e.value);
    }
    var text := walk.Finish();
    r := Ok(text);
  }

  /** The directory to start from goes into the result buffer. */
  method GetCwd(buffer: array<char>, cwd: seq<string>)
    requires |Text(cwd)| < buffer.Length
    modifies buffer
    ensures buffer[..|Text(cwd)|] == Text(cwd)
  {
    var text := Text(cwd);
    forall k | 0 <= k < |text| {
      buffer[k] := text[k];
    }
  }

  lemma BodyNext(path: seq<string>, name: string)
    ensures Body(path + [name]) == Body(path) + "/" + name
  {
    assert (path + [name])[..|path|] == path;
  }

  lemma TooLong(fs: FileSystem, pathMax: nat, bounded: bool, path: seq<string>, name: string, rest: string, links: nat)
    requires links <= MAXSYMLINKS && pathMax >= 2
    ensures bounded && |Body(path + [name])| >= pathMax ==>
              ResolveEntry(fs, pathMax, bounded, path, name, rest, links) == Failed(ENAMETOOLONG)
  {
  }

  /** In "up/last" no slash follows the one before `last`. */
  lemma LastSlash(up: string, last: string, dest: nat)
    requires '/' !in last && |up| + 1 <= dest <= |up| + 1 + |last|
    ensures dest > |up| + 1 ==> (up + "/" + last)[dest - 1] != '/'
  {
    if dest > |up| + 1 {
      var k := dest - 1 - |up| - 1;
      assert (up + "/" + last)[dest - 1] == last[k] && last[k] in last;
    }
  }

  /** The text of a path does not end in a slash. */
  lemma BodyNoSlash(path: seq<string>)
    requires forall k :: 0 <= k < |path| ==> IsName(path[k])
    ensures path != [] ==> Body(path) != "" && Body(path)[|Body(path)| - 1] != '/'
  {
    if path != [] {
      var last := path[|path| - 1];
      assert last[|last| - 1] in last;
      assert Body(path)[|Body(path)| - 1] == last[|last| - 1];
    }
  }

  lemma DotNames(c: string)
    ensures c == "." <==> |c| == 1 && c[0] == '.'
    ensures c == ".." <==> |c| == 2 && c[0] == '.' && c[1] == '.'
  {
  }
}
