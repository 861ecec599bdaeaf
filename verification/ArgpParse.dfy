/** argp's parser tables: the options of a whole tree, converted for getopt into
    buffers whose sizes are computed beforehand, and the way back from what getopt
    returns to the group that owns the option. */
module ArgpParse {
  import opened Options
  import opened ArgpTree

  const COLON := ':' as int

  // ----- what the tables must hold ------------------------------------------

  function Colons(o: Opt): seq<int> {
    if !o.hasArg then [] else if o.argOptional then [COLON, COLON] else [COLON]
  }

  /** A short option and what getopt needs to know about its argument. */
  function ShortChars(opt: Opt, target: Opt): seq<int> {
    if IsShort(opt) && !target.doc then [opt.key] + Colons(target) else []
  }

  function ShortOf(i: Item): seq<int> {
    ShortChars(i.opt, i.target)
  }

  /** The short-option string of a list of options. */
  function ShortText(its: seq<Item>): seq<int> {
    if its == [] then [] else ShortText(its[..|its| - 1]) + ShortOf(its[|its| - 1])
  }

  /** A getopt option; the table ends with a NULL name. */
  datatype LongOpt = LongOpt(name: Option<string>, hasArg: int, val: int)

  const USER_RANGE := 0x100_0000     // 1 << USER_BITS
  const INT_RANGE := 0x1_0000_0000   // an int has 32 bits

  /** The value of an int whose bits are those of x. */
  function AsInt(x: int): int {
    (x + INT_RANGE / 2) % INT_RANGE - INT_RANGE / 2
  }

  /** The user's key in the low 24 bits, the group number plus one above. */
  function EncodeValue(key: int, group: nat): int {
    AsInt(key % USER_RANGE + (group + 1) * USER_RANGE)
  }

  /** val >> USER_BITS. */
  function GroupKey(val: int): int {
    val / USER_RANGE
  }

  /** (val << GROUP_BITS) >> GROUP_BITS: the low 24 bits with their sign. */
  function UserKey(val: int): int {
    (val + USER_RANGE / 2) % USER_RANGE - USER_RANGE / 2
  }

  /** A long option gets back to its group with its own key exactly if there are at
      most 127 groups up to it and the key fits into 24 bits. */
  lemma ValueRoundTrip(key: int, group: nat)
    ensures GroupKey(EncodeValue(key, group)) == group + 1 && UserKey(EncodeValue(key, group)) == key
            <==> group + 1 <= 127 && -0x80_0000 <= key < 0x80_0000
  {
    var low := key % USER_RANGE;
    var x := low + (group + 1) * USER_RANGE;
    var v := AsInt(x);
    assert -INT_RANGE / 2 <= v < INT_RANGE / 2;
    var q := (x + INT_RANGE / 2) / INT_RANGE;
    assert v == x - q * INT_RANGE;
    assert v == low + (group + 1 - 256 * q) * USER_RANGE;
    DivMod(v, group + 1 - 256 * q, low);
    SignExtend(low, group + 1 - 256 * q);
    assert key == low + (key / USER_RANGE) * USER_RANGE;
  }

  lemma DivMod(v: int, q: int, r: int)
    requires 0 <= r < USER_RANGE && v == r + q * USER_RANGE
    ensures v / USER_RANGE == q && v % USER_RANGE == r
  {
  }

  lemma SignExtend(low: int, q: int)
    requires 0 <= low < USER_RANGE
    ensures UserKey(low + q * USER_RANGE) == if low < USER_RANGE / 2 then low else low - USER_RANGE
  {
    var y := low + USER_RANGE / 2;
    if low < USER_RANGE / 2 {
      DivMod(y + q * USER_RANGE, q, y);
    } else {
      DivMod(y + q * USER_RANGE, q + 1, y - USER_RANGE);
    }
  }

  function LongOf(i: Item): LongOpt {
    LongOpt(i.opt.name,
            if !i.target.hasArg then 0 else if i.target.argOptional then 2 else 1,
            EncodeValue(if i.opt.key != 0 then i.opt.key else i.target.key, i.group))
  }

  ghost predicate HasName(table: seq<LongOpt>, name: string) {
    exists k :: 0 <= k < |table| && table[k].name == Some(name)
  }

  /** The long options: the first of each name. */
  ghost function LongTable(its: seq<Item>): (t: seq<LongOpt>)
    ensures |t| <= |its|
    ensures forall k :: 0 <= k < |t| ==> t[k].name.Some?
  {
    if its == [] then [] else
      var i, t := its[|its| - 1], LongTable(its[..|its| - 1]);
      if !i.target.doc && i.opt.name.Some? && !HasName(t, i.opt.name.value) then t + [LongOf(i)] else t
  }

  /** Number of leading items in groups up to k. */
  function UpTo(its: seq<Item>, k: nat): (n: nat)
    ensures n <= |its|
  {
    if its == [] || its[|its| - 1].group <= k then |its| else UpTo(its[..|its| - 1], k)
  }

  lemma {:induction false} ShortTextBound(its: seq<Item>)
    ensures |ShortText(its)| <= 3 * |its|
  {
    if its != [] {
      ShortTextBound(its[..|its| - 1]);
    }
  }

  lemma {:induction false} ShortTextPrefix(its: seq<Item>, k: nat)
    requires k <= |its|
    ensures ShortText(its[..k]) <= ShortText(its)
    decreases |its|
  {
    if k < |its| {
      ShortTextPrefix(its[..|its| - 1], k);
      assert its[..|its| - 1][..k] == its[..k];
    } else {
      assert its[..k] == its;
    }
  }

  lemma ShortNext(its: seq<Item>, k: nat)
    requires k < |its|
    ensures ShortText(its[..k + 1]) == ShortText(its[..k]) + ShortOf(its[k])
    ensures |ShortText(its[..k + 1])| <= |ShortText(its)| && ShortOf(its[k]) == ShortChars(its[k].opt, its[k].target)
  {
    hide ShortText;
    ShortTextNext(its, k);
    ShortTextPrefix(its, k + 1);
  }

  lemma ShortTextNext(its: seq<Item>, k: nat)
    requires k < |its|
    ensures ShortText(its[..k + 1]) == ShortText(its[..k]) + ShortOf(its[k])
  {
    assert its[..k + 1][..k] == its[..k];
  }

  lemma {:induction false} LongTablePrefix(its: seq<Item>, k: nat)
    requires k <= |its|
    ensures LongTable(its[..k]) <= LongTable(its)
    decreases |its|
  {
    if k < |its| {
      LongTablePrefix(its[..|its| - 1], k);
      assert its[..|its| - 1][..k] == its[..k];
    } else {
      assert its[..k] == its;
    }
  }

  // ----- sizes --------------------------------------------------------------

  function ChildSlots(a: Argp): nat {
    |a.children| + ChildSlotsOf(a.children)
  }

  function ChildSlotsOf(cs: seq<Argp>): nat {
    if cs == [] then 0 else ChildSlotsOf(cs[..|cs| - 1]) + ChildSlots(cs[|cs| - 1])
  }

  /** struct parser_sizes. */
  class Sizes {
    var shortLen: nat
    var longLen: nat
    var numGroups: nat
    var numChildInputs: nat

    constructor (shortLen: nat)
      ensures this.shortLen == shortLen && longLen == numGroups == numChildInputs == 0
    {
      this.shortLen, longLen, numGroups, numChildInputs := shortLen, 0, 0, 0;
    }
  }

  function Prefix(inOrder: bool, noArgs: bool): seq<int> {
    if inOrder then ['-' as int] else if noArgs then ['+' as int] else []
  }

  /** Does the option string with its NUL fit into the bytes reserved for it? */
  ghost predicate Fits(a: Argp, inOrder: bool, noArgs: bool) {
    |Prefix(inOrder, noArgs)| + |ShortText(Items(a, 0))| + 1
      <= (if noArgs then 0 else 1) + 3 * |Items(a, 0)| + 1
  }

  /** Does some option leave one of its three bytes unused? */
  ghost predicate LeavesByte(its: seq<Item>) {
    exists k :: 0 <= k < |its| && |ShortOf(its[k])| < 3
  }

  /** The reserved bytes fall short exactly when no byte is reserved for the '+' (or
      '-') and no option leaves one of its three bytes unused. */
  lemma FitsExactly(a: Argp, inOrder: bool, noArgs: bool)
    ensures Fits(a, inOrder, noArgs) <==> !noArgs || LeavesByte(Items(a, 0))
  {
    ShortTextBound(Items(a, 0));
    ShortTextFull(Items(a, 0));
  }

  lemma {:induction false} ShortTextFull(its: seq<Item>)
    ensures |ShortText(its)| == 3 * |its| <==> !LeavesByte(its)
  {
    if its != [] {
      var n := |its| - 1;
      ShortTextFull(its[..n]);
      ShortTextBound(its[..n]);
      LeavesNext(its);
      hide LeavesByte, ShortOf;
    }
  }

  lemma LeavesNext(its: seq<Item>)
    requires its != []
    ensures LeavesByte(its) <==> LeavesByte(its[..|its| - 1]) || |ShortOf(its[|its| - 1])| < 3
    ensures |ShortOf(its[|its| - 1])| <= 3
  {
    hide Items;
    var n := |its| - 1;
    if LeavesByte(its) {
      var k :| 0 <= k < |its| && |ShortOf(its[k])| < 3;
      assert k < n ==> its[..n][k] == its[k];
    }
    if LeavesByte(its[..n]) {
      var k :| 0 <= k < n && |ShortOf(its[..n][k])| < 3;
      assert its[..n][k] == its[k];
    }
  }

  /** A parser without options, told not to take arguments, does not fit. */
  lemma DoesNotFit()
    ensures !Fits(Argp(None, true, []), false, true)
  {
  }

  /** calc_sizes: three characters and one long option for every option. */
  method CalcSizes(a: Argp, szs: Sizes)
    modifies szs
    ensures szs.shortLen == old(szs.shortLen) + 3 * |Items(a, 0)|
    ensures szs.longLen == old(szs.longLen) + |Items(a, 0)|
    ensures szs.numGroups == old(szs.numGroups) + Groups(a)
    ensures szs.numChildInputs == old(szs.numChildInputs) + ChildSlots(a)
    decreases a
  {
    if a.options.Some? || a.hasParser {
      szs.numGroups := szs.numGroups + 1;
      if a.options.Some? {
        var numOpts := |a.options.value|;
        szs.shortLen := szs.shortLen + numOpts * 3;
        szs.longLen := szs.longLen + numOpts;
      }
    }
    ItemsOfAll(a.children, 0);
    ghost var own := |OwnOptions(a)|;
    for k := 0 to |a.children|
      invariant szs.shortLen == old(szs.shortLen) + 3 * (own + |ItemsOf(a.children[..k], 0)|)
      invariant szs.longLen == old(szs.longLen) + own + |ItemsOf(a.children[..k], 0)|
      invariant szs.numGroups == old(szs.numGroups) + OwnGroups(a) + GroupsOf(a.children[..k])
      invariant szs.numChildInputs == old(szs.numChildInputs) + k + ChildSlotsOf(a.children[..k])
    {
      hide Items, ItemsOf, GroupsOf, Groups;
      ItemsOfNext(a.children, k, 0);
      SameCount(a.children[k], 0, GroupsOf(a.children[..k]));
      assert a.children[..k + 1][..k] == a.children[..k];
      CalcSizes(a.children[k], szs);
      szs.numChildInputs := szs.numChildInputs + 1;
    }
    SameCountOf(a.children, 0, OwnGroups(a));
  }

  /** The numbering does not change how many options there are. */
  lemma {:induction false} SameCount(a: Argp, g: nat, h: nat)
    ensures |Items(a, g)| == |Items(a, h)|
  {
    SameCountOf(a.children, g + OwnGroups(a), h + OwnGroups(a));
  }

  lemma {:induction false} SameCountOf(cs: seq<Argp>, g: nat, h: nat)
    ensures |ItemsOf(cs, g)| == |ItemsOf(cs, h)|
  {
    if cs != [] {
      var rest := cs[..|cs| - 1];
      SameCountOf(rest, g, h);
      SameCount(cs[|cs| - 1], g + GroupsOf(rest), h + GroupsOf(rest));
    }
  }

  // ----- conversion ---------------------------------------------------------

  /** struct group: parent is the index of the parent's group, childInputs the index
      of its first child input slot. */
  datatype Group = Group(argp: Argp, shortEnd: nat, parent: Option<nat>, parentIndex: nat, childInputs: nat)

  class Parser {
    const shortOpts: array<int>
    const longOpts: array<LongOpt>
    const groups: array<Group>
    const numChildInputs: nat
    var shortEnd: nat
    var longEnd: nat
    var egroup: nat
    var childInputsEnd: nat

    ghost const prefix: seq<int>  // a leading '-' or '+' of the option string
    ghost const all: seq<Item>    // the options of the whole tree
    ghost var pos: nat            // how many are converted

    /** The options converted so far. */
    ghost function Done(): seq<Item>
      requires pos <= |all|
      reads this`pos
    {
      all[..pos]
    }

    ghost predicate Roomy() {
      |prefix| + |ShortText(all)| < shortOpts.Length && |LongTable(all)| < longOpts.Length
    }

    ghost predicate ShortOk()
      reads this`pos, this`shortEnd, shortOpts
    {
      && pos <= |all| && shortEnd == |prefix| + |ShortText(Done())| < shortOpts.Length
      && shortOpts[..shortEnd] == prefix + ShortText(Done()) && shortOpts[shortEnd] == 0
    }

    ghost predicate LongOk()
      reads this`pos, this`longEnd, longOpts
    {
      && pos <= |all| && longEnd == |LongTable(Done())| < longOpts.Length
      && longOpts[..longEnd] == LongTable(Done()) && longOpts[longEnd].name == None
    }

    ghost predicate GroupOk(k: nat)
      requires k < groups.Length && pos <= |all|
      reads this`pos, this`childInputsEnd, groups
    {
      var g := groups[k];
      && g.shortEnd == |prefix| + |ShortText(Done()[..UpTo(Done(), k)])|
      && g.childInputs + |g.argp.children| <= childInputsEnd
      && (g.parent.Some? ==>
            && g.parent.value < k
            && var p := groups[g.parent.value].argp;
            && g.parentIndex < |p.children| && p.children[g.parentIndex] == g.argp)
    }

    ghost predicate GroupsOk()
      reads this`pos, this`childInputsEnd, this`egroup, groups
    {
      && pos <= |all| && egroup <= groups.Length && childInputsEnd <= numChildInputs
      && forall k :: 0 <= k < egroup ==> GroupOk(k)
    }

    ghost predicate Valid()
      reads this, shortOpts, longOpts, groups
    {
      Roomy() && ShortOk() && LongOk() && GroupsOk()
    }

    /** Buffers of the given sizes, with the tables empty: a leading '-' asks getopt to
        report arguments in order, a leading '+' to stop at the first. */
    constructor (shortLen: nat, longLen: nat, numGroups: nat, numChildInputs: nat,
                 inOrder: bool, noArgs: bool, ghost its: seq<Item>)
      requires |Prefix(inOrder, noArgs)| + |ShortText(its)| <= shortLen && |its| <= longLen
      ensures Valid() && pos == 0 && egroup == 0 && childInputsEnd == 0
      ensures prefix == Prefix(inOrder, noArgs) && all == its
      ensures groups.Length == numGroups + 1 && this.numChildInputs == numChildInputs
      ensures fresh(shortOpts) && fresh(longOpts) && fresh(groups)
    {
      hide ShortText, LongTable;
      var theShort := new int[shortLen + 1];
      var start := 0;
      if inOrder {
        theShort[0] := '-' as int;
        start := 1;
      } else if noArgs {
        theShort[0] := '+' as int;
        start := 1;
      }
      theShort[start] := 0;
      shortOpts := theShort;
      longOpts := new LongOpt[longLen + 1](_ => LongOpt(None, 0, 0));
      groups := new Group[numGroups + 1](_ => Group(Argp(None, false, []), 0, None, 0, 0));
      this.numChildInputs := numChildInputs;
      shortEnd, longEnd, egroup, childInputsEnd := start, 0, 0, 0;
      prefix, all, pos := Prefix(inOrder, noArgs), its, 0;
      new;
      NothingConverted(its);
      assert Done() == [] && shortOpts[..shortEnd] == prefix;
    }

    /** find_long_option, for a name. */
    method FindLongOption(name: string) returns (found: bool)
      requires LongOk()
      ensures found <==> HasName(LongTable(Done()), name)
    {
      ghost var table := LongTable(Done());
      assert forall k :: 0 <= k < |table| ==> longOpts[k] == longOpts[..longEnd][k];
      var l := 0;
      while longOpts[l].name != None
        invariant l <= longEnd
        invariant forall k :: 0 <= k < l ==> longOpts[k].name != Some(name)
        decreases longEnd - l
      {
        if longOpts[l].name == Some(name) {
          return true;
        }
        l := l + 1;
      }
      found := false;
    }

    method PutShort(c: int)
      requires shortEnd < shortOpts.Length
      modifies this`shortEnd, shortOpts
      ensures shortEnd == old(shortEnd) + 1
      ensures shortOpts[..shortEnd] == old(shortOpts[..shortEnd]) + [c]
    {
      shortOpts[shortEnd] := c;
      shortEnd := shortEnd + 1;
    }

    /** The characters of one option, then a NUL. */
    method PutOption(opt: Opt, target: Opt, ghost text: seq<int>)
      requires text == ShortChars(opt, target) && shortEnd + |text| < shortOpts.Length && shortOpts[shortEnd] == 0
      modifies this`shortEnd, shortOpts
      ensures shortEnd == old(shortEnd) + |text| && shortOpts[shortEnd] == 0
      ensures shortOpts[..shortEnd] == old(shortOpts[..shortEnd]) + text
    {
      if !target.doc && IsShort(opt) {
        PutShort(opt.key);
        if target.hasArg {
          PutShort(COLON);
          if target.argOptional {
            PutShort(COLON);
          }
        }
        shortOpts[shortEnd] := 0;
      }
    }

    /** An option's part of the short-option string. */
    method AddShort(item: Item)
      requires Roomy() && ShortOk() && pos < |all| && item == all[pos]
      modifies this`shortEnd, shortOpts
      ensures shortEnd == |prefix| + |ShortText(all[..pos + 1])| < shortOpts.Length
      ensures shortOpts[..shortEnd] == prefix + ShortText(all[..pos + 1]) && shortOpts[shortEnd] == 0
    {
      hide ShortText, ShortChars, ShortOf, LongTable;
      ShortNext(all, pos);
      PutOption(item.opt, item.target, ShortOf(item));
      assert prefix + ShortText(all[..pos]) + ShortOf(item) == prefix + (ShortText(all[..pos]) + ShortOf(item));
    }

    /** An option's entry in the long-option table, unless the name is taken. */
    method AddLong(item: Item)
      requires Roomy() && LongOk() && pos < |all| && item == all[pos]
      modifies this`longEnd, longOpts
      ensures longEnd == |LongTable(all[..pos + 1])| < longOpts.Length
      ensures longOpts[..longEnd] == LongTable(all[..pos + 1]) && longOpts[longEnd].name == None
    {
      assert all[..pos + 1][..pos] == all[..pos];
      LongTablePrefix(all, pos + 1);
      if !item.target.doc && item.opt.name.Some? {
        var found := FindLongOption(item.opt.name.value);
        if !found {
          ghost var before := longOpts[..longEnd];
          longOpts[longEnd] := LongOf(item);
          longEnd := longEnd + 1;
          longOpts[longEnd] := LongOpt(None, 0, 0);
          assert longOpts[..longEnd] == before + [LongOf(item)];
        }
      }
    }

    /** convert_options on one option of group g. */
    method ConvertOption(item: Item)
      requires Valid() && pos < |all| && item == all[pos] && item.group >= egroup
      modifies this`shortEnd, this`longEnd, this`pos, shortOpts, longOpts
      ensures Valid() && pos == old(pos) + 1
    {
      hide ShortText, LongTable, UpTo;
      AddShort(item);
      AddLong(item);
      pos := pos + 1;
      forall k | 0 <= k < egroup
        ensures GroupOk(k)
      {
        UpToNext(all, pos - 1, k);
        assert old(GroupOk(k));
      }
    }

    /** The last option converted belongs to a group below g. */
    ghost predicate Below(g: nat)
      reads this`pos
    {
      0 < pos <= |all| ==> all[pos - 1].group < g
    }

    /** The next options to convert. */
    ghost predicate Ahead(its: seq<Item>)
      reads this`pos
    {
      pos + |its| <= |all| && all[pos..pos + |its|] == its
    }

    /** Is a the child of group `parent` at this position, if there is a parent? */
    ghost predicate ChildOf(a: Argp, parent: Option<nat>, parentIndex: nat)
      reads this`egroup, groups
    {
      && egroup <= groups.Length
      && (parent.Some? ==>
            && parent.value < egroup
            && var p := groups[parent.value].argp;
            && parentIndex < |p.children| && p.children[parentIndex] == a)
    }

    lemma AheadIs(its: seq<Item>)
      requires Ahead(its)
      ensures pos + |its| <= |all| && all[pos..pos + |its|] == its
    {
    }

    /** The options of one argp; aliases take their values from the last option that
        is not one. */
    method ConvertOwn(opts: seq<Opt>)
      requires Valid() && Below(egroup + 1) && Ahead(OwnItems(opts, egroup))
      modifies this`shortEnd, this`longEnd, this`pos, shortOpts, longOpts
      ensures Valid() && Below(egroup + 1) && pos == old(pos) + |opts|
    {
      if opts == [] {
        return;
      }
      hide *;
      ghost var start, own := pos, OwnItems(opts, egroup);
      AheadIs(own);
      var target := opts[0];
      RealStep(opts, 0);
      for i := 0 to |opts|
        invariant Valid() && Below(egroup + 1) && pos == start + i
        invariant target == Real(opts, if i == 0 then 0 else i - 1)
      {
        AheadAt(all, start, own, i);
        target := ConvertNext(opts, i, target);
      }
    }

    method ConvertNext(opts: seq<Opt>, i: nat, last: Opt) returns (target: Opt)
      requires i < |opts| && last == Real(opts, if i == 0 then 0 else i - 1)
      requires Valid() && pos < |all| && all[pos] == OwnItems(opts, egroup)[i]
      modifies this`shortEnd, this`longEnd, this`pos, shortOpts, longOpts
      ensures target == Real(opts, i)
      ensures Valid() && pos == old(pos) + 1 && Below(egroup + 1)
    {
      hide Valid, OwnItems, Real;
      RealStep(opts, i);
      target := if opts[i].alias then last else opts[i];
      OwnItemAt(opts, egroup, i);
      ConvertOption(Item(egroup, opts[i], target));
    }

    /** The end of an argp's own part: its group. */
    method OpenGroup(a: Argp, parent: Option<nat>, parentIndex: nat)
      requires Valid() && Below(egroup + 1) && ChildOf(a, parent, parentIndex) && egroup < groups.Length
      requires childInputsEnd + |a.children| <= numChildInputs
      modifies this`egroup, this`childInputsEnd, groups
      ensures Valid() && Below(egroup) && egroup == old(egroup) + 1
      ensures childInputsEnd == old(childInputsEnd) + |a.children|
      ensures forall k :: 0 <= k < old(egroup) ==> groups[k] == old(groups[k])
      ensures groups[old(egroup)].argp == a
    {
      hide ShortText, LongTable;
      assert UpTo(Done(), egroup) == pos && Done()[..pos] == Done();
      groups[egroup] := Group(a, shortEnd, parent, parentIndex, childInputsEnd);
      childInputsEnd := childInputsEnd + |a.children|;
      egroup := egroup + 1;
      forall k | 0 <= k < egroup
        ensures GroupOk(k)
      {
        assert k < old(egroup) ==> old(GroupOk(k));
      }
    }

    /** convert_options: the options of a, its group, then its children; egroup is
        the next unused group. */
    method ConvertOptions(a: Argp, parent: Option<nat>, parentIndex: nat)
      requires Valid() && Below(egroup) && ChildOf(a, parent, parentIndex)
      requires Ahead(Items(a, egroup)) && egroup + Groups(a) <= groups.Length
      requires childInputsEnd + ChildSlots(a) <= numChildInputs
      modifies this`shortEnd, this`longEnd, this`pos, this`egroup, this`childInputsEnd, shortOpts, longOpts, groups
      ensures Valid() && Below(egroup) && pos == old(pos) + |Items(a, old(egroup))| && egroup == old(egroup) + Groups(a)
      ensures childInputsEnd <= old(childInputsEnd) + ChildSlots(a)
      ensures forall k :: 0 <= k < old(egroup) ==> groups[k] == old(groups[k])
      decreases a, 1
    {
      hide Valid, ItemsOf, GroupsOf, ChildSlotsOf;
      var above := None;
      SplitAhead(all, pos, OwnItems(OwnOptions(a), egroup), ItemsOf(a.children, egroup + OwnGroups(a)));
      if a.options.Some? || a.hasParser {
        if a.options.Some? {
          ConvertOwn(a.options.value);
        }
        above := Some(egroup);
        OpenGroup(a, parent, parentIndex);
      }
      ConvertChildren(a, above);
    }

    method ConvertChildren(a: Argp, parent: Option<nat>)
      requires Valid() && Below(egroup)
      requires parent.Some? ==> parent.value < egroup <= groups.Length && groups[parent.value].argp == a
      requires Ahead(ItemsOf(a.children, egroup)) && egroup + GroupsOf(a.children) <= groups.Length
      requires childInputsEnd + ChildSlotsOf(a.children) <= numChildInputs
      modifies this`shortEnd, this`longEnd, this`pos, this`egroup, this`childInputsEnd, shortOpts, longOpts, groups
      ensures Valid() && Below(egroup) && pos == old(pos) + |ItemsOf(a.children, old(egroup))|
      ensures egroup == old(egroup) + GroupsOf(a.children)
      ensures childInputsEnd <= old(childInputsEnd) + ChildSlotsOf(a.children)
      ensures forall k :: 0 <= k < old(egroup) ==> groups[k] == old(groups[k])
      decreases a, 0
    {
      hide Valid, ItemsOf, GroupsOf, ChildSlotsOf, ChildSlots, Items, Groups;
      var cs := a.children;
      ghost var first, start, slots := egroup, pos, childInputsEnd;
      ItemsOfAll(cs, first);
      SlotsOfAll(cs);
      for k := 0 to |cs|
        invariant Valid() && Below(egroup) && pos == start + |ItemsOf(cs[..k], first)|
        invariant first <= egroup == first + GroupsOf(cs[..k])
        invariant childInputsEnd <= slots + ChildSlotsOf(cs[..k])
        invariant forall j :: 0 <= j < first ==> groups[j] == old(groups[j])
      {
        ChildFits(cs, k, first, start, all);
        ConvertOptions(cs[k], parent, k);
      }
    }
  }

  // ----- dispatch -----------------------------------------------------------

  /** Where letter c stands in the option string: with the first option that uses it. */
  lemma {:induction false} LetterAt(its: seq<Item>, c: int)
    requires c != COLON
    ensures var j := FirstUse(its, ParserShort, c);
            var at := |ShortText(its[..j])|;
            && c !in ShortText(its[..j])
            && (j == |its| ==> ShortText(its[..j]) == ShortText(its))
            && (j < |its| ==> at < |ShortText(its)| && ShortText(its)[at] == c && ShortText(its[..j]) == ShortText(its)[..at])
  {
    var j := FirstUse(its, ParserShort, c);
    NoLetter(its[..j], c);
    if j == |its| {
      assert its[..j] == its;
    } else {
      ShortTextNext(its, j);
      ShortTextPrefix(its, j + 1);
      var all, next := ShortText(its), ShortText(its[..j + 1]);
      assert next[|ShortText(its[..j])|] == c;
      assert all[..|next|] == next;
    }
  }

  lemma {:induction false} NoLetter(its: seq<Item>, c: int)
    requires c != COLON && forall k :: 0 <= k < |its| ==> !(ParserShort(its[k]) && its[k].opt.key == c)
    ensures c !in ShortText(its)
  {
    if its != [] {
      NoLetter(its[..|its| - 1], c);
      assert !(ParserShort(its[|its| - 1]) && its[|its| - 1].opt.key == c);
    }
  }

  lemma {:induction false} UpToIs(its: seq<Item>, k: nat, lo: nat, hi: nat)
    requires Ordered(its, lo, hi)
    ensures forall i :: 0 <= i < UpTo(its, k) ==> its[i].group <= k
    ensures forall i :: UpTo(its, k) <= i < |its| ==> its[i].group > k
  {
    if its != [] && its[|its| - 1].group > k {
      UpToIs(its[..|its| - 1], k, lo, hi);
    }
  }

  /** A group's part of the option string ends behind the letter of item j exactly if
      the item is in that group or an earlier one. */
  lemma EndsBehind(its: seq<Item>, j: nat, k: nat, lo: nat, hi: nat)
    requires Ordered(its, lo, hi) && j < |its| && ParserShort(its[j])
    ensures |ShortText(its[..UpTo(its, k)])| > |ShortText(its[..j])| <==> its[j].group <= k
  {
    var n := UpTo(its, k);
    UpToIs(its, k, lo, hi);
    if its[j].group <= k {
      assert j < n;
      ShortTextNext(its, j);
      ShortTextPrefix(its[..n], j + 1);
      assert its[..n][..j + 1] == its[..j + 1];
    } else {
      ShortTextPrefix(its[..j], n);
      assert its[..j][..n] == its[..n];
    }
  }

  /** The group that the parser gives letter c to. */
  function Owner(its: seq<Item>, c: int): Option<nat> {
    var j := FirstUse(its, ParserShort, c);
    if j < |its| then Some(its[j].group) else None
  }

  /** parser_parse_opt on a short option: strchr, then the first group whose part of
      the option string ends behind it. */
  method OwnerOfShort(p: Parser, c: int) returns (group: Option<nat>)
    requires p.Valid() && p.pos == |p.all| && Ordered(p.all, 0, p.egroup)
    requires c != COLON && c != 0 && c !in p.prefix && 0 !in p.prefix
    ensures group == Owner(p.all, c)
  {
    ghost var its := p.all;
    assert p.Done() == its;
    ghost var j := FirstUse(its, ParserShort, c);
    hide ShortText, FirstUse, LongTable;
    var at := FindLetter(p, c);
    if at.None? {
      return None;
    }
    assert ParserShort(its[j]) && its[j].group < p.egroup by { FirstUseIn(its, c); }
    for k := 0 to p.egroup
      invariant k <= its[j].group
    {
      EndsBehind(its, j, k, 0, p.egroup);
      assert p.GroupOk(k);
      if p.groups[k].shortEnd > at.value {
        return Some(k);
      }
    }
  }

  /** parser_parse_opt: which group parses what getopt returned, and under which key. */
  method ParseOpt(p: Parser, opt: int) returns (r: Option<(nat, int)>)
    requires p.Valid() && p.pos == |p.all| && Ordered(p.all, 0, p.egroup)
    requires 0 < opt < INT_RANGE / 2 && opt != COLON && opt !in p.prefix && 0 !in p.prefix
    requires GroupKey(opt) <= p.egroup
    ensures opt < USER_RANGE ==>
              r == if Owner(p.all, opt).Some? then Some((Owner(p.all, opt).value, opt)) else None
    ensures forall key, group: nat :: opt == EncodeValue(key, group) && group < 127 && -0x80_0000 <= key < 0x80_0000
              ==> r == Some((group, key))
  {
    hide FirstUse;
    forall key, group: nat | opt == EncodeValue(key, group) && group < 127 && -0x80_0000 <= key < 0x80_0000
      ensures GroupKey(opt) == group + 1 && UserKey(opt) == key
    {
      ValueRoundTrip(key, group);
    }
    hide EncodeValue, UserKey;
    var groupKey := GroupKey(opt);
    if groupKey == 0 {
      var group := OwnerOfShort(p, opt);
      return if group.Some? then Some((group.value, opt)) else None;
    } else {
      return Some((groupKey - 1, UserKey(opt)));
    }
  }

  lemma FirstUseIn(its: seq<Item>, c: int)
    ensures var j := FirstUse(its, ParserShort, c);
            j <= |its| && (j < |its| ==> ParserShort(its[j]))
  {
  }

  /** strchr: where c first occurs in the text that a starts with, or its length. */
  method StrChr(a: array<int>, ghost text: seq<int>, c: int) returns (i: nat)
    requires c != 0 && 0 !in text && |text| < a.Length && a[..|text|] == text && a[|text|] == 0
    ensures FirstIn(text, c, i) && (i < |text| <==> a[i] == c)
  {
    assert forall k :: 0 <= k < |text| ==> a[k] == text[k];
    i := 0;
    while a[i] != c && a[i] != 0
      invariant i <= |text| && forall k :: 0 <= k < i ==> text[k] != c
      decreases |text| - i
    {
      i := i + 1;
    }
  }

  /** strchr in the option string. */
  method FindLetter(p: Parser, c: int) returns (at: Option<nat>)
    requires p.Valid() && p.pos == |p.all|
    requires c != COLON && c != 0 && c !in p.prefix && 0 !in p.prefix
    ensures var j := FirstUse(p.all, ParserShort, c);
            at == if j < |p.all| then Some(|p.prefix| + |ShortText(p.all[..j])|) else None
  {
    hide ShortText, FirstUse, LongTable;
    ghost var s := ShortText(p.all);
    assert p.Done() == p.all;
    ShortTextNonzero(p.all);
    var i := StrChr(p.shortOpts, p.prefix + s, c);
    LetterFirst(p.all, c);
    FirstBehind(p.prefix, s, c, |ShortText(p.all[..FirstUse(p.all, ParserShort, c)])|);
    FirstUnique(p.prefix + s, c, i, |p.prefix| + |ShortText(p.all[..FirstUse(p.all, ParserShort, c)])|);
    at := if p.shortOpts[i] == c then Some(i) else None;
  }

  /** Position i holds the first c of s, or is behind an s without c. */
  ghost predicate FirstIn(s: seq<int>, c: int, i: nat) {
    i <= |s| && (i < |s| ==> s[i] == c) && forall k :: 0 <= k < i ==> s[k] != c
  }

  lemma FirstUnique(s: seq<int>, c: int, i: nat, j: nat)
    requires FirstIn(s, c, i) && FirstIn(s, c, j)
    ensures i == j
  {
  }

  lemma FirstBehind(prefix: seq<int>, s: seq<int>, c: int, i: nat)
    requires FirstIn(s, c, i) && c !in prefix
    ensures FirstIn(prefix + s, c, |prefix| + i)
  {
  }

  lemma LetterFirst(its: seq<Item>, c: int)
    requires c != COLON
    ensures var j := FirstUse(its, ParserShort, c);
            var at := |ShortText(its[..j])|;
            j <= |its| && FirstIn(ShortText(its), c, at) && (j < |its| <==> at < |ShortText(its)|)
  {
    LetterAt(its, c);
    hide ShortText, FirstUse;
    var j := FirstUse(its, ParserShort, c);
    var front, s := ShortText(its[..j]), ShortText(its);
    forall k | 0 <= k < |front|
      ensures front[k] != c && k < |s| && s[k] == front[k]
    {
    }
  }

  lemma {:induction false} ShortTextNonzero(its: seq<Item>)
    ensures 0 !in ShortText(its)
  {
    if its != [] {
      ShortTextNonzero(its[..|its| - 1]);
    }
  }

  lemma RealStep(opts: seq<Opt>, i: nat)
    requires i < |opts|
    ensures Real(opts, i) == if opts[i].alias then Real(opts, if i == 0 then 0 else i - 1) else opts[i]
    ensures Real(opts, 0) == opts[0]
  {
  }

  lemma AheadAt<T>(all: seq<T>, pos: nat, its: seq<T>, i: nat)
    requires i < |its| && pos + |its| <= |all| && all[pos..pos + |its|] == its
    ensures all[pos + i] == its[i]
  {
  }

  lemma SplitAhead<T>(all: seq<T>, pos: nat, s: seq<T>, t: seq<T>)
    requires pos + |s| + |t| <= |all| && all[pos..pos + |s + t|] == s + t
    ensures all[pos..pos + |s|] == s && all[pos + |s|..pos + |s| + |t|] == t
  {
    assert all[pos..pos + |s|] == (s + t)[..|s|];
    assert all[pos + |s|..pos + |s| + |t|] == (s + t)[|s|..];
  }

  /** parser_init, up to the converted tables.  A NULL argp is one without options,
      parser and children. */
  method ParserInit(a: Argp, inOrder: bool, noArgs: bool) returns (p: Parser)
    requires Fits(a, inOrder, noArgs)
    ensures p.Valid() && p.pos == |p.all| && p.all == Items(a, 0)
    ensures p.prefix == Prefix(inOrder, noArgs) && p.egroup == Groups(a) && Ordered(p.all, 0, p.egroup)
  {
    hide ShortText, Items;
    ItemsOrdered(a, 0);
    var szs := new Sizes(if noArgs then 0 else 1);
    CalcSizes(a, szs);
    ghost var its := Items(a, 0);
    p := new Parser(szs.shortLen, szs.longLen, szs.numGroups, szs.numChildInputs, inOrder, noArgs, its);
    assert p.all[p.pos..p.pos + |its|] == its;
    p.ConvertOptions(a, None, 0);
  }

  lemma NothingConverted(all: seq<Item>)
    ensures ShortText([]) == [] && LongTable([]) == [] && |LongTable(all)| <= |all|
  {
  }

  lemma SlotsOfAll(cs: seq<Argp>)
    ensures ChildSlotsOf(cs[..0]) == 0 && ChildSlotsOf(cs[..|cs|]) == ChildSlotsOf(cs)
  {
    assert cs[..|cs|] == cs;
  }

  /** Child k is next behind its predecessors, where all children fit. */
  lemma SlotsNext(cs: seq<Argp>, k: nat)
    requires k < |cs|
    ensures ChildSlotsOf(cs[..k + 1]) == ChildSlotsOf(cs[..k]) + ChildSlots(cs[k])
  {
    hide ChildSlots;
    assert cs[..k + 1][..k] == cs[..k];
  }

  lemma PrefixAhead<T>(all: seq<T>, start: nat, whole: seq<T>, part: seq<T>)
    requires start + |whole| <= |all| && all[start..start + |whole|] == whole && part <= whole
    ensures start + |part| <= |all| && all[start..start + |part|] == part
  {
    assert all[start..start + |part|] == whole[..|part|];
  }

  lemma ChildFits(cs: seq<Argp>, k: nat, first: nat, start: nat, all: seq<Item>)
    requires k < |cs| && start + |ItemsOf(cs, first)| <= |all|
    requires all[start..start + |ItemsOf(cs, first)|] == ItemsOf(cs, first)
    ensures var items, pos := Items(cs[k], first + GroupsOf(cs[..k])), start + |ItemsOf(cs[..k], first)|;
            && |ItemsOf(cs[..k + 1], first)| == |ItemsOf(cs[..k], first)| + |items|
            && pos + |items| <= |all| && all[pos..pos + |items|] == items
    ensures GroupsOf(cs[..k + 1]) == GroupsOf(cs[..k]) + Groups(cs[k]) <= GroupsOf(cs)
    ensures ChildSlotsOf(cs[..k + 1]) == ChildSlotsOf(cs[..k]) + ChildSlots(cs[k]) <= ChildSlotsOf(cs)
  {
    hide *;
    ItemsOfNext(cs, k, first);
    SlotsNext(cs, k);
    ChildrenGrow(cs, k + 1, first);
    PrefixAhead(all, start, ItemsOf(cs, first), ItemsOf(cs[..k + 1], first));
    SplitAhead(all, start, ItemsOf(cs[..k], first), Items(cs[k], first + GroupsOf(cs[..k])));
  }

  lemma {:induction false} ChildrenGrow(cs: seq<Argp>, k: nat, first: nat)
    requires k <= |cs|
    ensures ItemsOf(cs[..k], first) <= ItemsOf(cs, first)
    ensures GroupsOf(cs[..k]) <= GroupsOf(cs) && ChildSlotsOf(cs[..k]) <= ChildSlotsOf(cs)
    decreases |cs|
  {
    if k < |cs| {
      ChildrenGrow(cs[..|cs| - 1], k, first);
      assert cs[..|cs| - 1][..k] == cs[..k];
    } else {
      assert cs[..k] == cs;
    }
  }

  lemma UpToNext(all: seq<Item>, n: nat, k: nat)
    requires n < |all| && all[n].group > k
    ensures UpTo(all[..n + 1], k) == UpTo(all[..n], k)
    ensures all[..n + 1][..UpTo(all[..n], k)] == all[..n][..UpTo(all[..n], k)]
  {
    assert all[..n + 1][..n] == all[..n];
  }
}
