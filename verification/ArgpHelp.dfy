/** argp's list of options for help (hol): which option shows which short letter.

    Every table is filled through cursors into buffers sized beforehand; the bounds
    are proof obligations of every write. */
module ArgpHelp {
  import opened Options
  import opened ArgpTree

  /** An option with its aliases; shortOptions is an index into the hol's letters. */
  datatype HolEntry = HolEntry(opts: seq<Opt>, shortOptions: nat, argp: nat)

  /** The entries split the items into runs, each pointing to the letters that come
      after those of the earlier items. */
  ghost predicate Covers(entries: seq<HolEntry>, its: seq<Item>) {
    if entries == [] then its == [] else
      var e := entries[|entries| - 1];
      && |e.opts| <= |its|
      && var start := |its| - |e.opts|;
      && EntryFor(e, its, start)
      && Covers(entries[..|entries| - 1], its[..start])
  }

  ghost predicate EntryFor(e: HolEntry, its: seq<Item>, start: nat) {
    && start + |e.opts| <= |its|
    && e.shortOptions == |Letters(its[..start])|
    && RunOf(e, its[start..start + |e.opts|])
  }

  /** The items of one entry: its options, in its argp. */
  ghost predicate RunOf(e: HolEntry, run: seq<Item>) {
    |run| == |e.opts| && forall k :: 0 <= k < |run| ==> run[k].opt == e.opts[k] && run[k].group == e.argp
  }

  lemma CoversSnoc(entries: seq<HolEntry>, its: seq<Item>, e: HolEntry, more: seq<Item>)
    requires Covers(entries, its) && RunOf(e, more) && e.shortOptions == |Letters(its)|
    ensures Covers(entries + [e], its + more)
  {
    var all := entries + [e];
    assert all[..|all| - 1] == entries;
    assert (its + more)[..|its|] == its;
    assert (its + more)[|its|..|its| + |more|] == more;
  }

  /** The letters in a buffer: a NUL-terminated string. */
  ghost predicate LettersIn(buffer: array<int>, its: seq<Item>)
    reads buffer
  {
    var n := |Letters(its)|;
    n < buffer.Length && buffer[..n] == Letters(its) && buffer[n] == 0
  }

  function NonAliases(opts: seq<Opt>): nat {
    if opts == [] then 0 else NonAliases(opts[..|opts| - 1]) + if opts[|opts| - 1].alias then 0 else 1
  }

  function ShortCount(opts: seq<Opt>): nat {
    if opts == [] then 0 else ShortCount(opts[..|opts| - 1]) + if IsShort(opts[|opts| - 1]) then 1 else 0
  }

  lemma {:induction false} CountsGrow(opts: seq<Opt>, k: nat)
    requires k <= |opts|
    ensures NonAliases(opts[..k]) <= NonAliases(opts) && ShortCount(opts[..k]) <= ShortCount(opts)
    decreases |opts|
  {
    if k < |opts| {
      CountsGrow(opts[..|opts| - 1], k);
      assert opts[..|opts| - 1][..k] == opts[..k];
    } else {
      assert opts[..k] == opts;
    }
  }

  lemma CountsNext(opts: seq<Opt>, k: nat)
    requires k < |opts|
    ensures NonAliases(opts[..k + 1]) == NonAliases(opts[..k]) + if opts[k].alias then 0 else 1
    ensures ShortCount(opts[..k + 1]) == ShortCount(opts[..k]) + if IsShort(opts[k]) then 1 else 0
    ensures NonAliases(opts[..k + 1]) <= NonAliases(opts) && ShortCount(opts[..k + 1]) <= ShortCount(opts)
  {
    assert opts[..k + 1][..k] == opts[..k];
    CountsGrow(opts, k + 1);
  }

  method FindChar(ch: int, buffer: array<int>, end: nat) returns (found: bool)
    requires end <= buffer.Length
    ensures found <==> ch in buffer[..end]
  {
    for beg := 0 to end
      invariant ch !in buffer[..beg]
    {
      if buffer[beg] == ch {
        assert buffer[..end][beg] == ch;
        return true;
      }
    }
    found := false;
  }

  /** strlen of the letters. */
  method StringLength(buffer: array<int>, ghost its: seq<Item>) returns (n: nat)
    requires LettersIn(buffer, its)
    ensures n == |Letters(its)|
  {
    n := 0;
    LettersNonzero(its);
    ghost var letters := Letters(its);
    assert forall i :: 0 <= i < |letters| ==> buffer[i] == buffer[..|letters|][i] != 0;
    while buffer[n] != 0
      invariant n <= |letters|
      decreases |letters| - n
    {
      n := n + 1;
    }
  }

  lemma {:induction false} LettersNonzero(its: seq<Item>)
    ensures forall i :: 0 <= i < |Letters(its)| ==> Letters(its)[i] != 0
  {
    if its != [] {
      LettersNonzero(its[..|its| - 1]);
    }
  }

  class Hol {
    var numEntries: nat
    var entries: array<HolEntry>
    var shortOptions: array<int>
    ghost var items: seq<Item>

    ghost predicate Valid()
      reads this, entries, shortOptions
    {
      && numEntries <= entries.Length
      && Covers(entries[..numEntries], items)
      && (numEntries > 0 ==> LettersIn(shortOptions, items))
    }

    /** make_hol: one entry for each option that is not an alias, with the letters
        not yet used.  The first option must not be an alias. */
    constructor MakeHol(options: Option<seq<Opt>>, g: nat)
      requires options.Some? && options.value != [] ==> !options.value[0].alias
      ensures Valid() && fresh(entries) && fresh(shortOptions)
      ensures items == OwnItems(if options.Some? then options.value else [], g)
    {
      var opts := if options.Some? then options.value else [];
      var num, numShort := CountOptions(opts);
      var theEntries := new HolEntry[num](_ => HolEntry([], 0, 0));
      var letters := new int[numShort + 1];
      FillEntries(opts, g, theEntries, letters);
      numEntries, entries, shortOptions := num, theEntries, letters;
      items := OwnItems(opts, g);
      new;
      assert entries[..numEntries] == entries[..];
    }

    /** hol_append: the entries of `more` come behind, and of its letters only those
        that this hol does not use. */
    method Append(more: Hol)
      requires Valid() && more.Valid() && more != this
      modifies this
      ensures Valid() && items == old(items) + more.items
      ensures (entries == old(entries) || entries == more.entries || fresh(entries))
      ensures (shortOptions == old(shortOptions) || shortOptions == more.shortOptions || fresh(shortOptions))
    {
      if more.numEntries > 0 {
        if numEntries == 0 {
          assert entries[..numEntries] == [] && items == [];
          assert items + more.items == more.items;
          numEntries, entries, shortOptions, items := more.numEntries, more.entries, more.shortOptions, more.items;
        } else {
          Merge(more);
        }
      } else {
        assert more.entries[..more.numEntries] == [];
        assert items + more.items == items;
      }
    }

    method Merge(more: Hol)
      requires Valid() && more.Valid() && more != this && numEntries > 0 && more.numEntries > 0
      modifies this
      ensures Valid() && items == old(items) + more.items && fresh(entries) && fresh(shortOptions)
    {
      hide Covers;
      var n := numEntries + more.numEntries;
      var holLen := StringLength(shortOptions, items);
      var moreLen := StringLength(more.shortOptions, more.items);
      var merged := new HolEntry[n](_ => HolEntry([], 0, 0));
      var letters := new int[holLen + moreLen + 1];
      CopyInto(merged, letters, holLen);
      MergeEntries(items, more, merged, numEntries, letters, holLen);
      entries, numEntries, shortOptions := merged, n, letters;
      items := items + more.items;
      assert merged[..n] == merged[..];
    }

    method CopyInto(merged: array<HolEntry>, letters: array<int>, holLen: nat)
      requires Valid() && numEntries > 0 && holLen == |Letters(items)|
      requires numEntries <= merged.Length && holLen <= letters.Length && letters as object != merged
      requires merged != entries && letters != shortOptions
      modifies merged, letters
      ensures Valid() && Covers(merged[..numEntries], items) && letters[..holLen] == Letters(items)
    {
      hide Covers, Letters;
      forall k | 0 <= k < numEntries {
        merged[k] := entries[k];
      }
      forall k | 0 <= k < holLen {
        letters[k] := shortOptions[k];
      }
      assert merged[..numEntries] == entries[..numEntries];
    }
  }

  function Total(entries: seq<HolEntry>): nat {
    if entries == [] then 0 else Total(entries[..|entries| - 1]) + |entries[|entries| - 1].opts|
  }

  /** Where the entries of a cover start. */
  lemma {:induction false} CoversAt(entries: seq<HolEntry>, its: seq<Item>, k: nat)
    requires Covers(entries, its) && k <= |entries|
    ensures Total(entries[..k]) <= |its|
    ensures k == |entries| ==> Total(entries) == |its|
    ensures k < |entries| ==> EntryFor(entries[k], its, Total(entries[..k]))
                              && Total(entries[..k + 1]) == Total(entries[..k]) + |entries[k].opts|
    decreases |entries|
  {
    if entries == [] {
      assert entries[..k] == [];
    } else {
      var m := |entries| - 1;
      var start := |its| - |entries[m].opts|;
      if k < m {
        CoversAt(entries[..m], its[..start], k);
        assert entries[..m][..k] == entries[..k] && entries[..m][..k + 1] == entries[..k + 1];
        var at := Total(entries[..k]);
        assert its[..start][..at] == its[..at];
        assert its[..start][at..at + |entries[k].opts|] == its[at..at + |entries[k].opts|];
      } else {
        CoversAt(entries[..m], its[..start], m);
        assert entries[..m][..m] == entries[..m];
        assert k == |entries| ==> entries[..k] == entries;
        assert k == m ==> entries[..k + 1] == entries;
      }
    }
  }

  method CountOptions(opts: seq<Opt>) returns (num: nat, numShort: nat)
    ensures num == NonAliases(opts) && numShort == ShortCount(opts)
  {
    num, numShort := 0, 0;
    for o := 0 to |opts|
      invariant num == NonAliases(opts[..o]) && numShort == ShortCount(opts[..o])
    {
      CountsNext(opts, o);
      if !opts[o].alias {
        num := num + 1;
      }
      if IsShort(opts[o]) {
        numShort := numShort + 1;
      }
    }
    assert opts[..|opts|] == opts;
  }

  /** The letters of the first o options are in the buffer, which has room for the
      letters of all of them. */
  ghost predicate Filled(letters: array<int>, so: nat, opts: seq<Opt>, g: nat, o: nat)
    reads letters
  {
    && o <= |opts| && letters.Length == ShortCount(opts) + 1
    && so == |Letters(OwnItems(opts, g)[..o])| <= ShortCount(opts[..o]) < letters.Length
    && letters[..so] == Letters(OwnItems(opts, g)[..o])
  }

  /** Add the letter of option o unless it is already among the letters. */
  method AddLetter(opts: seq<Opt>, g: nat, o: nat, letters: array<int>, so: nat) returns (so': nat)
    requires o < |opts| && Filled(letters, so, opts, g, o)
    modifies letters
    ensures Filled(letters, so', opts, g, o + 1)
  {
    ghost var its := OwnItems(opts, g);
    CountsNext(opts, o);
    LettersNext(its, o);
    FreshLetter(its, o);
    var found := FindChar(opts[o].key, letters, so);
    so' := so;
    if IsShort(opts[o]) && !found {
      letters[so] := opts[o].key;
      so' := so + 1;
    }
  }

  /** The inner loop of make_hol: an option and the aliases behind it. */
  method FillRun(opts: seq<Opt>, g: nat, first: nat, letters: array<int>, so: nat) returns (o: nat, so': nat)
    requires first < |opts| && !opts[first].alias && Filled(letters, so, opts, g, first)
    modifies letters
    ensures first < o <= |opts| && Filled(letters, so', opts, g, o)
    ensures NonAliases(opts[..o]) == NonAliases(opts[..first]) + 1 <= NonAliases(opts)
    ensures o < |opts| ==> !opts[o].alias
  {
    hide Filled;
    CountsNext(opts, first);
    so' := AddLetter(opts, g, first, letters, so);
    o := first + 1;
    while o < |opts| && opts[o].alias
      invariant first < o <= |opts| && Filled(letters, so', opts, g, o)
      invariant NonAliases(opts[..o]) == NonAliases(opts[..first]) + 1
    {
      CountsNext(opts, o);
      so' := AddLetter(opts, g, o, letters, so');
      o := o + 1;
    }
  }

  /** One turn of the outer loop of make_hol. */
  method FillEntry(opts: seq<Opt>, g: nat, o: nat, entries: array<HolEntry>, e: nat, letters: array<int>, so: nat)
    returns (o': nat, so': nat)
    requires o < |opts| && !opts[o].alias && e == NonAliases(opts[..o]) && entries.Length == NonAliases(opts)
    requires Filled(letters, so, opts, g, o) && e <= entries.Length && Covers(entries[..e], OwnItems(opts, g)[..o])
    requires entries as object != letters
    modifies entries, letters
    ensures o < o' <= |opts| && e + 1 == NonAliases(opts[..o']) <= entries.Length && (o' < |opts| ==> !opts[o'].alias)
    ensures Filled(letters, so', opts, g, o') && Covers(entries[..e + 1], OwnItems(opts, g)[..o'])
  {
    hide Filled, Covers, Letters;
    FilledCursor(letters, so, opts, g, o);
    ghost var before := entries[..e];
    o', so' := FillRun(opts, g, o, letters, so);
    var entry := HolEntry(opts[o..o'], so, g);
    CoversRun(before, OwnItems(opts, g), o, o', entry);
    entries[e] := entry;
    assert entries[..e + 1] == before + [entry];
  }

  /** The outer loop of make_hol. */
  method FillEntries(opts: seq<Opt>, g: nat, entries: array<HolEntry>, letters: array<int>)
    requires opts != [] ==> !opts[0].alias
    requires entries.Length == NonAliases(opts) && letters.Length == ShortCount(opts) + 1
    requires entries as object != letters
    modifies entries, letters
    ensures Covers(entries[..], OwnItems(opts, g)) && LettersIn(letters, OwnItems(opts, g))
  {
    hide *;
    var so := FillRuns(opts, g, entries, letters);
    FillEnd(letters, so, opts, g);
    letters[so] := 0;
    LettersEnd(letters, so, OwnItems(opts, g));
    assert entries[..NonAliases(opts)] == entries[..];
  }

  method FillRuns(opts: seq<Opt>, g: nat, entries: array<HolEntry>, letters: array<int>) returns (so: nat)
    requires opts != [] ==> !opts[0].alias
    requires entries.Length == NonAliases(opts) && letters.Length == ShortCount(opts) + 1
    requires entries as object != letters
    modifies entries, letters
    ensures Filled(letters, so, opts, g, |opts|) && Covers(entries[..NonAliases(opts)], OwnItems(opts, g))
  {
    hide *;
    ghost var its := OwnItems(opts, g);
    var o: nat, e: nat := 0, 0;
    so := 0;
    FillStart(letters, opts, g);
    assert entries[..e] == [];
    while o < |opts|
      invariant o <= |opts| && e == NonAliases(opts[..o]) <= entries.Length && (o < |opts| ==> !opts[o].alias)
      invariant Filled(letters, so, opts, g, o)
      invariant Covers(entries[..e], its[..o])
    {
      o, so := FillEntry(opts, g, o, entries, e, letters, so);
      e := e + 1;
    }
    WholePrefix(opts);
    WholePrefix(its);
  }

  lemma WholePrefix<T>(s: seq<T>)
    ensures s[..|s|] == s
  {
  }

  lemma FillStart(letters: array<int>, opts: seq<Opt>, g: nat)
    requires letters.Length == ShortCount(opts) + 1
    ensures Filled(letters, 0, opts, g, 0) && Covers([], OwnItems(opts, g)[..0]) && |OwnItems(opts, g)| == |opts|
    ensures NonAliases(opts[..0]) == 0
  {
    CountsGrow(opts, 0);
    assert OwnItems(opts, g)[..0] == [];
  }

  lemma FillEnd(letters: array<int>, so: nat, opts: seq<Opt>, g: nat)
    requires Filled(letters, so, opts, g, |opts|)
    ensures so < letters.Length && so == |Letters(OwnItems(opts, g))| && letters[..so] == Letters(OwnItems(opts, g))
  {
    hide OwnItems, Letters, ShortCount;
    assert OwnItems(opts, g)[..|opts|] == OwnItems(opts, g);
  }

  lemma LettersEnd(letters: array<int>, so: nat, its: seq<Item>)
    requires so < letters.Length && so == |Letters(its)| && letters[..so] == Letters(its) && letters[so] == 0
    ensures LettersIn(letters, its)
  {
  }

  lemma FilledCursor(letters: array<int>, so: nat, opts: seq<Opt>, g: nat, o: nat)
    requires Filled(letters, so, opts, g, o)
    ensures o <= |OwnItems(opts, g)| && so == |Letters(OwnItems(opts, g)[..o])|
  {
  }

  lemma CoversRun(entries: seq<HolEntry>, its: seq<Item>, first: nat, o: nat, e: HolEntry)
    requires first <= o <= |its| && Covers(entries, its[..first])
    requires e.shortOptions == |Letters(its[..first])| && RunOf(e, its[first..o])
    ensures Covers(entries + [e], its[..o])
  {
    assert its[..o][..first] == its[..first];
    assert its[..o] == its[..first] + its[first..o];
    CoversSnoc(entries, its[..first], e, its[first..o]);
  }

  // ----- merging two lists --------------------------------------------------

  /** The letters of two lists together. */
  lemma LettersOfBoth(a: seq<Item>, b: seq<Item>, c: int)
    ensures c in Letters(a + b) <==> c in Letters(a) || c in Letters(b)
  {
    LettersAre(a, c);
    LettersAre(b, c);
    LettersAre(a + b, c);
    if k :| 0 <= k < |a| && HelpShort(a[k]) && a[k].opt.key == c {
      assert HelpShort((a + b)[k]);
    }
    if k :| 0 <= k < |b| && HelpShort(b[k]) && b[k].opt.key == c {
      assert HelpShort((a + b)[|a| + k]);
    }
    if k :| 0 <= k < |a + b| && HelpShort((a + b)[k]) && (a + b)[k].opt.key == c {
      assert if k < |a| then HelpShort(a[k]) else HelpShort(b[k - |a|]);
    }
  }

  /** Option j of the second list, behind all of the first. */
  lemma FreshBehind(a: seq<Item>, b: seq<Item>, j: nat)
    requires j < |b|
    ensures Fresh(a + b, |a| + j) <==> Fresh(b, j) && b[j].opt.key !in Letters(a)
    ensures Letters(a + b[..j + 1]) ==
            Letters(a + b[..j]) + if Fresh(b, j) && b[j].opt.key !in Letters(a) then [b[j].opt.key] else []
  {
    hide Letters, Fresh;
    FreshLetter(b, j);
    FreshLetter(a + b, |a| + j);
    LettersOfBoth(a, b[..j], b[j].opt.key);
    LettersNext(a + b, |a| + j);
    assert (a + b)[|a| + j] == b[j];
    assert (a + b)[..|a| + j] == a + b[..j];
    assert (a + b)[..|a| + j + 1] == a + b[..j + 1];
  }

  lemma {:induction false} LettersBound(a: seq<Item>, b: seq<Item>)
    ensures |Letters(a + b)| <= |Letters(a)| + |Letters(b)| && Letters(a) <= Letters(a + b)
  {
    if b == [] {
      assert a + b == a;
    } else {
      var j := |b| - 1;
      LettersBound(a, b[..j]);
      FreshBehind(a, b, j);
      assert b[..j + 1] == b;
    }
  }

  /** The letters of list a and of the first j items of list b are in the buffer. */
  ghost predicate Merged(letters: array<int>, so: nat, a: seq<Item>, b: seq<Item>, j: nat)
    reads letters
  {
    && j <= |b| && letters.Length == |Letters(a)| + |Letters(b)| + 1
    && so == |Letters(a + b[..j])| < letters.Length && letters[..so] == Letters(a + b[..j])
  }

  lemma MergedRoom(a: seq<Item>, b: seq<Item>, j: nat)
    requires j <= |b|
    ensures |Letters(a + b[..j])| <= |Letters(a)| + |Letters(b)| && Letters(a) <= Letters(a + b[..j])
  {
    LettersBound(a, b[..j]);
    LettersPrefix(b, j);
  }

  /** The inner loop body of hol_append, for item j of `more`. */
  method MergeOption(ghost a: seq<Item>, ghost b: seq<Item>, ghost j: nat, opt: Opt,
                     moreLetters: array<int>, moreSo: nat, letters: array<int>, holLen: nat, so: nat)
    returns (moreSo': nat, so': nat)
    requires j < |b| && opt == b[j].opt && letters != moreLetters
    requires LettersIn(moreLetters, b) && moreSo == |Letters(b[..j])|
    requires holLen == |Letters(a)| && Merged(letters, so, a, b, j)
    modifies letters
    ensures LettersIn(moreLetters, b) && moreSo' == |Letters(b[..j + 1])|
    ensures Merged(letters, so', a, b, j + 1)
  {
    LettersNext(b, j);
    FreshBehind(a, b, j);
    MergedRoom(a, b, j);
    MergedRoom(a, b, j + 1);
    LettersPrefix(b, j);
    ghost var before := letters[..];
    assert letters[..holLen] == letters[..so][..holLen] == Letters(a);
    moreSo', so' := moreSo, so;
    var ch := moreLetters[moreSo];
    assert moreSo < |Letters(b)| ==> ch == moreLetters[..|Letters(b)|][moreSo];
    if IsShort(opt) && ch == opt.key {
      NextLetterTells(b, j);
      var found := FindChar(ch, letters, holLen);
      if !found {
        letters[so] := ch;
        so' := so + 1;
        assert letters[..so] == before[..so];
      }
      moreSo' := moreSo + 1;
    } else if IsShort(opt) {
      NextLetterTells(b, j);
    }
  }

  /** One entry of `more`: its options in order. */
  method MergeOptions(ghost a: seq<Item>, ghost b: seq<Item>, ghost start: nat, e: HolEntry,
                      moreLetters: array<int>, moreSo: nat, letters: array<int>, holLen: nat, so: nat)
    returns (moreSo': nat, so': nat)
    requires EntryFor(e, b, start) && letters != moreLetters
    requires LettersIn(moreLetters, b) && moreSo == |Letters(b[..start])|
    requires holLen == |Letters(a)| && Merged(letters, so, a, b, start)
    modifies letters
    ensures LettersIn(moreLetters, b) && moreSo' == |Letters(b[..start + |e.opts|])|
    ensures Merged(letters, so', a, b, start + |e.opts|)
  {
    hide Letters, Merged, LettersIn;
    moreSo', so' := moreSo, so;
    for k := 0 to |e.opts|
      invariant LettersIn(moreLetters, b) && moreSo' == |Letters(b[..start + k])|
      invariant Merged(letters, so', a, b, start + k)
    {
      assert b[start..start + |e.opts|][k] == b[start + k];
      moreSo', so' := MergeOption(a, b, start + k, e.opts[k], moreLetters, moreSo', letters, holLen, so');
    }
  }

  /** The state of the entry loop of hol_append: `merged` holds the entries of list
      a and the first k entries of `more`. */
  ghost predicate Merging(a: seq<Item>, more: Hol, merged: array<HolEntry>, n: nat, k: nat,
                          letters: array<int>, so: nat, moreSo: nat)
    reads more, more.entries, more.shortOptions, merged, letters
  {
    && more.Valid() && k <= more.numEntries && more.numEntries > 0 && merged.Length == n + more.numEntries
    && var j := Total(more.entries[..k]);
    && j <= |more.items| && moreSo == |Letters(more.items[..j])|
    && Merged(letters, so, a, more.items, j)
    && Covers(merged[..n + k], a + more.items[..j])
  }

  method MergeEntry(ghost a: seq<Item>, more: Hol, merged: array<HolEntry>, n: nat, k: nat,
                    letters: array<int>, holLen: nat, so: nat, moreSo: nat)
    returns (so': nat, moreSo': nat)
    requires Merging(a, more, merged, n, k, letters, so, moreSo) && k < more.numEntries && holLen == |Letters(a)|
    requires merged != more.entries && letters != more.shortOptions && letters as object != merged
    modifies merged, letters
    ensures Merging(a, more, merged, n, k + 1, letters, so', moreSo')
  {
    hide Letters, Merged, LettersIn, Covers, Total;
    ghost var b := more.items;
    ghost var all := more.entries[..more.numEntries];
    var e := more.entries[k];
    CoversAt(all, b, k);
    CoversAt(all, b, k + 1);
    assert all[..k] == more.entries[..k] && all[..k + 1] == more.entries[..k + 1];
    ghost var j := Total(more.entries[..k]);
    var entry := HolEntry(e.opts, so, e.argp);
    ghost var before := merged[..n + k];
    MergedCover(before, a, b, j, entry, letters, so);
    moreSo', so' := MergeOptions(a, b, j, e, more.shortOptions, moreSo, letters, holLen, so);
    merged[n + k] := entry;
    assert merged[..n + (k + 1)] == before + [entry];
    assert more.entries[..k + 1] == all[..k + 1];
    assert more.entries[..more.numEntries] == all;
  }

  method MergeEntries(ghost a: seq<Item>, more: Hol, merged: array<HolEntry>, n: nat, letters: array<int>, holLen: nat)
    requires more.Valid() && more.numEntries > 0 && merged.Length == n + more.numEntries && Covers(merged[..n], a)
    requires holLen == |Letters(a)| && letters.Length == holLen + |Letters(more.items)| + 1 && letters[..holLen] == Letters(a)
    requires merged != more.entries && letters != more.shortOptions && letters as object != merged
    modifies merged, letters
    ensures Covers(merged[..], a + more.items) && LettersIn(letters, a + more.items)
  {
    hide Covers, Merging;
    var so, moreSo := holLen, 0;
    StartMerge(a, more, merged, n, letters, holLen);
    for k := 0 to more.numEntries
      invariant Merging(a, more, merged, n, k, letters, so, moreSo)
    {
      so, moreSo := MergeEntry(a, more, merged, n, k, letters, holLen, so, moreSo);
    }
    EndMerge(a, more, merged, n, letters, so, moreSo);
    letters[so] := 0;
  }

  lemma StartMerge(a: seq<Item>, more: Hol, merged: array<HolEntry>, n: nat, letters: array<int>, holLen: nat)
    requires more.Valid() && more.numEntries > 0 && merged.Length == n + more.numEntries && Covers(merged[..n], a)
    requires holLen == |Letters(a)| && letters.Length == holLen + |Letters(more.items)| + 1 && letters[..holLen] == Letters(a)
    ensures Merging(a, more, merged, n, 0, letters, holLen, 0)
  {
    hide Covers;
    assert a + more.items[..0] == a;
  }

  lemma EndMerge(a: seq<Item>, more: Hol, merged: array<HolEntry>, n: nat, letters: array<int>, so: nat, moreSo: nat)
    requires Merging(a, more, merged, n, more.numEntries, letters, so, moreSo)
    ensures Covers(merged[..], a + more.items)
    ensures so == |Letters(a + more.items)| < letters.Length && letters[..so] == Letters(a + more.items)
  {
    hide Covers, Total;
    ghost var b := more.items;
    CoversAt(more.entries[..more.numEntries], b, more.numEntries);
    assert more.entries[..more.numEntries][..more.numEntries] == more.entries[..more.numEntries];
    assert b[..|b|] == b && merged[..n + more.numEntries] == merged[..];
  }

  lemma MergedCover(entries: seq<HolEntry>, a: seq<Item>, b: seq<Item>, j: nat, e: HolEntry, letters: array<int>, so: nat)
    requires j + |e.opts| <= |b| && Covers(entries, a + b[..j]) && Merged(letters, so, a, b, j)
    requires e.shortOptions == so && RunOf(e, b[j..j + |e.opts|])
    ensures Covers(entries + [e], a + b[..j + |e.opts|])
  {
    var its := a + b[..j];
    var run := b[j..j + |e.opts|];
    assert its + run == a + b[..j + |e.opts|];
    CoversSnoc(entries, its, e, run);
  }

  // ----- the whole tree -----------------------------------------------------

  /** make_hol asserts this of every argp with options. */
  predicate WellFormed(a: Argp) {
    && (OwnOptions(a) != [] ==> !OwnOptions(a)[0].alias)
    && forall k :: 0 <= k < |a.children| ==> WellFormed(a.children[k])
  }

  lemma FirstNotAlias(a: Argp)
    requires WellFormed(a)
    ensures a.options.Some? && a.options.value != [] ==> !a.options.value[0].alias
    ensures forall k :: 0 <= k < |a.children| ==> WellFormed(a.children[k])
  {
  }

  lemma ItemsAre(a: Argp, g: nat)
    ensures Items(a, g) == OwnItems(if a.options.Some? then a.options.value else [], g) + ItemsOf(a.children, g + OwnGroups(a))
  {
  }

  /** argp_hol: the list of a whole tree covers its options in preorder. */
  method ArgpHol(a: Argp, g: nat) returns (hol: Hol)
    requires WellFormed(a)
    ensures fresh(hol) && fresh(hol.entries) && fresh(hol.shortOptions)
    ensures hol.Valid() && hol.items == Items(a, g)
    decreases a
  {
    hide *;
    ItemsAre(a, g);
    FirstNotAlias(a);
    hol := new Hol.MakeHol(a.options, g);
    var first := g + OwnGroups(a);
    ItemsOfAll(a.children, first);
    ghost var own := hol.items;
    var next := first;
    for k := 0 to |a.children|
      invariant fresh(hol) && fresh(hol.entries) && fresh(hol.shortOptions) && hol.Valid()
      invariant hol.items == own + ItemsOf(a.children[..k], first)
      invariant next == first + GroupsOf(a.children[..k])
    {
      ItemsOfNext(a.children, k, first);
      var more := ArgpHol(a.children[k], next);
      hol.Append(more);
      next := next + Groups(a.children[k]);
    }
  }

  /** hol_entry_short_iterate over one entry: an option is met under its letter if
      the next letter of the entry is its own. */
  method ShortIterate(hol: Hol, k: nat) returns (claims: seq<Claim>)
    requires hol.Valid() && k < hol.numEntries
    ensures var start := Total(hol.entries[..k]);
            && start + |hol.entries[k].opts| <= |hol.items|
            && Total(hol.entries[..k + 1]) == start + |hol.entries[k].opts|
            && Shown(hol.items[..start + |hol.entries[k].opts|]) == Shown(hol.items[..start]) + claims
  {
    ghost var all := hol.entries[..hol.numEntries];
    CoversAt(all, hol.items, k);
    assert all[..k] == hol.entries[..k] && all[..k + 1] == hol.entries[..k + 1];
    ghost var its, start := hol.items, Total(hol.entries[..k]);
    claims := IterateOptions(hol.shortOptions, its, start, hol.entries[k]);
  }

  method IterateOptions(letters: array<int>, ghost its: seq<Item>, ghost start: nat, e: HolEntry) returns (claims: seq<Claim>)
    requires LettersIn(letters, its) && EntryFor(e, its, start)
    ensures Shown(its[..start + |e.opts|]) == Shown(its[..start]) + claims
  {
    hide LettersIn, Letters, Shown, Fresh;
    var so := e.shortOptions;
    claims := [];
    for j := 0 to |e.opts|
      invariant so == |Letters(its[..start + j])|
      invariant Shown(its[..start + j]) == Shown(its[..start]) + claims
    {
      assert its[start..start + |e.opts|][j] == its[start + j];
      LettersNext(its, start + j);
      ShownNext(its, start + j);
      LetterTells(letters, its, start + j);
      if IsShort(e.opts[j]) && letters[so] == e.opts[j].key {
        claims := claims + [Claim(e.opts[j].key, e.argp)];
        so := so + 1;
      }
    }
  }

  lemma LetterTells(letters: array<int>, its: seq<Item>, k: nat)
    requires LettersIn(letters, its) && k < |its|
    ensures var so := |Letters(its[..k])|;
            so < letters.Length && (Fresh(its, k) <==> HelpShort(its[k]) && letters[so] == its[k].opt.key)
  {
    var all := Letters(its);
    LettersPrefix(its, k);
    var so := |Letters(its[..k])|;
    assert so < |all| ==> letters[so] == letters[..|all|][so];
    if HelpShort(its[k]) {
      NextLetterTells(its, k);
    }
  }

  /** Help for a whole tree shows each letter once, for its first option in preorder. */
  method HelpClaims(a: Argp) returns (claims: seq<Claim>)
    requires WellFormed(a)
    ensures claims == Shown(Items(a, 0))
  {
    hide Items, Shown, Letters, Covers, LettersIn;
    var hol := ArgpHol(a, 0);
    claims := [];
    ghost var all := hol.entries[..hol.numEntries];
    ghost var its := hol.items;
    assert its[..0] == [] && all[..0] == [] && Total([]) == 0 && Shown([]) == [] by { NoClaims(); }
    for k := 0 to hol.numEntries
      invariant hol.Valid() && hol.items == its && all == hol.entries[..hol.numEntries]
      invariant Total(hol.entries[..k]) <= |its| && claims == Shown(its[..Total(hol.entries[..k])])
    {
      hide Hol.Valid, Total;
      var some := ShortIterate(hol, k);
      claims := claims + some;
    }
    CoversAt(all, its, hol.numEntries);
    assert its[..|its|] == its && all[..hol.numEntries] == all;
  }

  lemma NoClaims()
    ensures Total([]) == 0 && Shown([]) == []
  {
  }
}
