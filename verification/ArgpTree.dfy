/** A tree of argp structures, read as a list.

    The parser and the help output both flatten such a tree in preorder, each with
    its own way of letting the first use of a short letter shadow later ones.
    Both are compared here with the plain list of options. */
module ArgpTree {
  import opened Options

  /** An argp_option other than the terminating one. */
  datatype Opt = Opt(name: Option<string>, key: int, hasArg: bool, argOptional: bool, alias: bool, doc: bool)

  /** The options pointer may be NULL, and so may the parser. */
  datatype Argp = Argp(options: Option<seq<Opt>>, hasParser: bool, children: seq<Argp>)

  /** isprint in the POSIX locale. */
  predicate IsPrint(c: int) {
    32 <= c <= 126
  }

  predicate IsShort(o: Opt) {
    !o.doc && 0 < o.key <= 255 && IsPrint(o.key)
  }

  // ----- the flattened tree -------------------------------------------------

  /** An option, the group it is in, and the option it is an alias of. */
  datatype Item = Item(group: nat, opt: Opt, target: Opt)

  /** The last option up to i that is not an alias. */
  function Real(opts: seq<Opt>, i: nat): Opt
    requires i < |opts|
  {
    if i == 0 || !opts[i].alias then opts[i] else Real(opts, i - 1)
  }

  function OwnItems(opts: seq<Opt>, g: nat): (its: seq<Item>)
    ensures |its| == |opts|
  {
    seq(|opts|, i requires 0 <= i < |opts| => Item(g, opts[i], Real(opts, i)))
  }

  lemma OwnItemAt(opts: seq<Opt>, g: nat, i: nat)
    requires i < |opts|
    ensures OwnItems(opts, g)[i] == Item(g, opts[i], Real(opts, i))
  {
  }

  /** An alias stands for the nearest option in front of it that is none, or for the first. */
  lemma {:induction false} RealIs(opts: seq<Opt>, i: nat) returns (k: nat)
    requires i < |opts|
    ensures k <= i && Real(opts, i) == opts[k] && (k == 0 || !opts[k].alias)
    ensures forall j :: k < j <= i ==> opts[j].alias
  {
    k := i;
    if i > 0 && opts[i].alias {
      k := RealIs(opts, i - 1);
    }
  }

  function OwnOptions(a: Argp): seq<Opt> {
    if a.options.Some? then a.options.value else []
  }

  /** Does the parser make a group for this argp? */
  predicate HasGroup(a: Argp) {
    a.options.Some? || a.hasParser
  }

  function OwnGroups(a: Argp): nat {
    if HasGroup(a) then 1 else 0
  }

  function Groups(a: Argp): nat {
    OwnGroups(a) + GroupsOf(a.children)
  }

  function GroupsOf(cs: seq<Argp>): nat {
    if cs == [] then 0 else GroupsOf(cs[..|cs| - 1]) + Groups(cs[|cs| - 1])
  }

  /** All options in preorder, for a tree whose first group has number g. */
  function Items(a: Argp, g: nat): seq<Item> {
    OwnItems(OwnOptions(a), g) + ItemsOf(a.children, g + OwnGroups(a))
  }

  function ItemsOf(cs: seq<Argp>, g: nat): seq<Item> {
    if cs == [] then [] else
      ItemsOf(cs[..|cs| - 1], g) + Items(cs[|cs| - 1], g + GroupsOf(cs[..|cs| - 1]))
  }

  lemma ItemsOfNext(cs: seq<Argp>, k: nat, g: nat)
    requires k < |cs|
    ensures ItemsOf(cs[..k + 1], g) == ItemsOf(cs[..k], g) + Items(cs[k], g + GroupsOf(cs[..k]))
    ensures GroupsOf(cs[..k + 1]) == GroupsOf(cs[..k]) + Groups(cs[k])
  {
    assert cs[..k + 1][..k] == cs[..k];
  }

  lemma ItemsOfAll(cs: seq<Argp>, g: nat)
    ensures cs[..|cs|] == cs && cs[..0] == [] && ItemsOf(cs[..0], g) == [] && GroupsOf(cs[..0]) == 0
  {
    assert cs[..|cs|] == cs && cs[..0] == [];
  }

  /** Groups are numbered in the order of their options. */
  ghost predicate Ordered(its: seq<Item>, lo: nat, hi: nat) {
    && (forall i :: 0 <= i < |its| ==> lo <= its[i].group < hi)
    && (forall i, j :: 0 <= i < j < |its| ==> its[i].group <= its[j].group)
  }

  lemma {:induction false} ItemsOrdered(a: Argp, g: nat)
    ensures Ordered(Items(a, g), g, g + Groups(a))
  {
    hide ItemsOf, GroupsOf, Real;
    ItemsOfOrdered(a.children, g + OwnGroups(a));
  }

  lemma {:induction false} ItemsOfOrdered(cs: seq<Argp>, g: nat)
    ensures Ordered(ItemsOf(cs, g), g, g + GroupsOf(cs))
  {
    if cs != [] {
      ItemsOfOrdered(cs[..|cs| - 1], g);
      ItemsOrdered(cs[|cs| - 1], g + GroupsOf(cs[..|cs| - 1]));
    }
  }

  /** The options of all argps of a tree. */
  function AllOptions(a: Argp): multiset<Opt> {
    multiset(OwnOptions(a)) + OptionsOf(a.children)
  }

  function OptionsOf(cs: seq<Argp>): multiset<Opt> {
    if cs == [] then multiset{} else OptionsOf(cs[..|cs| - 1]) + AllOptions(cs[|cs| - 1])
  }

  function Opts(its: seq<Item>): (os: seq<Opt>)
    ensures |os| == |its| && forall i :: 0 <= i < |its| ==> os[i] == its[i].opt
  {
    seq(|its|, i requires 0 <= i < |its| => its[i].opt)
  }

  /** The list has all options of the tree, each as often as it occurs there; those of an
      argp come first, before those of its children. */
  lemma {:induction false} ItemsAreAll(a: Argp, g: nat)
    ensures multiset(Opts(Items(a, g))) == AllOptions(a)
    ensures OwnOptions(a) <= Opts(Items(a, g))
  {
    ItemsSplit(a, g);
    hide *;
    ItemsOfAreAll(a.children, g + OwnGroups(a));
    OptsAppend(OwnItems(OwnOptions(a), g), ItemsOf(a.children, g + OwnGroups(a)));
  }

  lemma ItemsSplit(a: Argp, g: nat)
    ensures Items(a, g) == OwnItems(OwnOptions(a), g) + ItemsOf(a.children, g + OwnGroups(a))
    ensures Opts(OwnItems(OwnOptions(a), g)) == OwnOptions(a) && AllOptions(a) == multiset(OwnOptions(a)) + OptionsOf(a.children)
  {
    hide ItemsOf, OptionsOf;
  }

  lemma {:induction false} ItemsOfAreAll(cs: seq<Argp>, g: nat)
    ensures multiset(Opts(ItemsOf(cs, g))) == OptionsOf(cs)
  {
    if cs == [] {
      NoItems(g);
    } else {
      hide *;
      var rest, last := cs[..|cs| - 1], cs[|cs| - 1];
      var h := g + GroupsOf(rest);
      ItemsOfAreAll(rest, g);
      ItemsAreAll(last, h);
      ItemsOfSplit(cs, g);
      Together(ItemsOf(cs, g), ItemsOf(rest, g), Items(last, h), OptionsOf(rest), AllOptions(last));
    }
  }

  lemma Together(whole: seq<Item>, a: seq<Item>, b: seq<Item>, m: multiset<Opt>, n: multiset<Opt>)
    requires whole == a + b && multiset(Opts(a)) == m && multiset(Opts(b)) == n
    ensures multiset(Opts(whole)) == m + n
  {
    OptsAppend(a, b);
  }

  lemma NoItems(g: nat)
    ensures multiset(Opts(ItemsOf([], g))) == multiset{} == OptionsOf([])
  {
    assert Opts([]) == [];
  }

  lemma ItemsOfSplit(cs: seq<Argp>, g: nat)
    requires cs != []
    ensures var n := |cs| - 1;
            && ItemsOf(cs, g) == ItemsOf(cs[..n], g) + Items(cs[n], g + GroupsOf(cs[..n]))
            && OptionsOf(cs) == OptionsOf(cs[..n]) + AllOptions(cs[n])
  {
    hide Items, AllOptions, Groups;
  }

  lemma OptsAppend(a: seq<Item>, b: seq<Item>)
    ensures Opts(a + b) == Opts(a) + Opts(b) && multiset(Opts(a + b)) == multiset(Opts(a)) + multiset(Opts(b))
  {
    assert Opts(a + b) == Opts(a) + Opts(b);
  }

  // ----- who owns a short letter --------------------------------------------

  /** The help output looks at the option alone. */
  predicate HelpShort(i: Item) {
    IsShort(i.opt)
  }

  /** The parser also looks at the option it is an alias of. */
  predicate ParserShort(i: Item) {
    IsShort(i.opt) && !i.target.doc
  }

  /** Position of the first item that uses letter c, or |its|. */
  function FirstUse(its: seq<Item>, uses: Item -> bool, c: int): (n: nat)
    ensures n <= |its|
    ensures forall k :: 0 <= k < n ==> !(uses(its[k]) && its[k].opt.key == c)
    ensures n < |its| ==> uses(its[n]) && its[n].opt.key == c
  {
    if its == [] || (uses(its[0]) && its[0].opt.key == c) then 0
    else 1 + FirstUse(its[1..], uses, c)
  }

  lemma FirstUseIs(its: seq<Item>, uses: Item -> bool, c: int, n: nat)
    requires n <= |its| && (n < |its| ==> uses(its[n]) && its[n].opt.key == c)
    requires forall k :: 0 <= k < n ==> !(uses(its[k]) && its[k].opt.key == c)
    ensures FirstUse(its, uses, c) == n
  {
    var m := FirstUse(its, uses, c);
    assert !(m < n) && !(n < m);
  }

  // ----- the letters that help keeps ----------------------------------------

  /** Is item k the first one that help may show under its letter? */
  predicate Fresh(its: seq<Item>, k: nat)
    requires k < |its|
  {
    HelpShort(its[k]) && forall j :: 0 <= j < k ==> !(HelpShort(its[j]) && its[j].opt.key == its[k].opt.key)
  }

  /** The letters of its fresh items, in order. */
  function Letters(its: seq<Item>): seq<int> {
    if its == [] then [] else
      Letters(its[..|its| - 1]) + if Fresh(its, |its| - 1) then [its[|its| - 1].opt.key] else []
  }

  lemma {:induction false} LettersAre(its: seq<Item>, c: int)
    ensures c in Letters(its) <==> exists k :: 0 <= k < |its| && HelpShort(its[k]) && its[k].opt.key == c
  {
    if its != [] {
      var n := |its| - 1;
      LettersAre(its[..n], c);
      if k :| 0 <= k < n && HelpShort(its[k]) && its[k].opt.key == c {
        assert HelpShort(its[..n][k]);
      }
      if c in Letters(its[..n]) {
        var k :| 0 <= k < n && HelpShort(its[..n][k]) && its[..n][k].opt.key == c;
        assert HelpShort(its[k]);
      }
      if HelpShort(its[n]) && its[n].opt.key == c && !Fresh(its, n) {
        var j :| 0 <= j < n && HelpShort(its[j]) && its[j].opt.key == c;
        assert HelpShort(its[..n][j]);
      }
    }
  }

  /** A letter is fresh exactly if it is not among the letters before it. */
  lemma FreshLetter(its: seq<Item>, k: nat)
    requires k < |its|
    ensures Fresh(its, k) <==> HelpShort(its[k]) && its[k].opt.key !in Letters(its[..k])
  {
    LettersAre(its[..k], its[k].opt.key);
    if j :| 0 <= j < k && HelpShort(its[j]) && its[j].opt.key == its[k].opt.key {
      assert HelpShort(its[..k][j]);
    }
  }

  /** Letters grow with the list. */
  lemma {:induction false} LettersPrefix(its: seq<Item>, k: nat)
    requires k <= |its|
    ensures Letters(its[..k]) <= Letters(its)
    decreases |its|
  {
    if k < |its| {
      LettersPrefix(its[..|its| - 1], k);
      assert its[..|its| - 1][..k] == its[..k];
    } else {
      assert its[..k] == its;
    }
  }

  lemma LettersNext(its: seq<Item>, k: nat)
    requires k < |its|
    ensures Letters(its[..k + 1]) == Letters(its[..k]) + if Fresh(its, k) then [its[k].opt.key] else []
  {
    assert its[..k + 1][..k] == its[..k];
    assert Fresh(its[..k + 1], k) <==> Fresh(its, k) by {
      FreshLetter(its, k);
      FreshLetter(its[..k + 1], k);
    }
  }

  /** No letter is kept twice. */
  lemma {:induction false} LettersDistinct(its: seq<Item>)
    ensures forall i, j :: 0 <= i < j < |Letters(its)| ==> Letters(its)[i] != Letters(its)[j]
  {
    if its != [] {
      var n := |its| - 1;
      LettersDistinct(its[..n]);
      FreshLetter(its, n);
    }
  }

  /** How a reader of the letters, standing behind those of the first k items, can
      tell whether item k is fresh: the next letter is the item's own. */
  lemma NextLetterTells(its: seq<Item>, k: nat)
    requires k < |its| && HelpShort(its[k])
    ensures var n := |Letters(its[..k])|;
            Fresh(its, k) <==> n < |Letters(its)| && Letters(its)[n] == its[k].opt.key
  {
    var n := |Letters(its[..k])|;
    var all := Letters(its);
    LettersNext(its, k);
    LettersPrefix(its, k);
    LettersPrefix(its, k + 1);
    FreshLetter(its, k);
    LettersDistinct(its);
    if n < |all| {
      assert forall i :: 0 <= i < n ==> Letters(its[..k])[i] == all[i] && all[i] != all[n];
    }
  }

  /** A letter together with the group that owns it. */
  datatype Claim = Claim(letter: int, group: nat)

  /** The letters shown by help, each with its group, in order. */
  function Shown(its: seq<Item>): seq<Claim> {
    if its == [] then [] else
      var n := |its| - 1;
      Shown(its[..n]) + if Fresh(its, n) then [Claim(its[n].opt.key, its[n].group)] else []
  }

  lemma ShownNext(its: seq<Item>, k: nat)
    requires k < |its|
    ensures Shown(its[..k + 1]) == Shown(its[..k]) + if Fresh(its, k) then [Claim(its[k].opt.key, its[k].group)] else []
  {
    assert its[..k + 1][..k] == its[..k];
    FreshLetter(its, k);
    FreshLetter(its[..k + 1], k);
  }
}
