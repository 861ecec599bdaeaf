/** Help output and parser on the owner of a short letter.

    ArgpHelp.HelpClaims returns Shown of the tree's options, ArgpParse.OwnerOfShort
    the Owner of a letter among the same options; here the two are compared. */
module ArgpAgreement {
  import opened Options
  import opened ArgpTree
  import opened ArgpHelp
  import opened ArgpParse

  /** No item that first uses a letter in the help output is an alias of an option
      marked as documentation.  Holds where aliases of such options are so marked. */
  predicate NoStray(its: seq<Item>) {
    forall k :: 0 <= k < |its| && Fresh(its, k) ==> !its[k].target.doc
  }

  /** Help shows letter c exactly for the group of the first option that has it. */
  lemma {:induction false} ShownIs(its: seq<Item>, c: int, g: nat)
    ensures Claim(c, g) in Shown(its) <==>
            var j := FirstUse(its, HelpShort, c); j < |its| && its[j].group == g
  {
    if its != [] {
      var n := |its| - 1;
      ShownIs(its[..n], c, g);
      ShownNext(its, n);
      assert its[..n + 1] == its;
      var j := FirstUse(its[..n], HelpShort, c);
      forall k | 0 <= k < j
        ensures !(HelpShort(its[k]) && its[k].opt.key == c)
      {
        assert its[..n][k] == its[k];
      }
      if j < n {
        assert its[..n][j] == its[j];
        FirstUseIs(its, HelpShort, c, j);
      } else {
        FirstUseIs(its, HelpShort, c, if HelpShort(its[n]) && its[n].opt.key == c then n else n + 1);
      }
    }
  }

  /** The two first uses of every letter are the same option, and not just in the same
      group, exactly if the tree has no stray alias. */
  lemma FirstUsesAgree(its: seq<Item>)
    ensures NoStray(its) <==> forall c :: FirstUse(its, HelpShort, c) == FirstUse(its, ParserShort, c)
  {
    if NoStray(its) {
      forall c
        ensures FirstUse(its, HelpShort, c) == FirstUse(its, ParserShort, c)
      {
        var j := FirstUse(its, HelpShort, c);
        assert j < |its| ==> Fresh(its, j);
        FirstUseIs(its, ParserShort, c, j);
      }
    } else {
      var k :| 0 <= k < |its| && Fresh(its, k) && its[k].target.doc;
      var c := its[k].opt.key;
      FirstUseIs(its, HelpShort, c, k);
      assert !ParserShort(its[k]);
      assert FirstUse(its, ParserShort, c) != k;
    }
  }

  /** An option of the same group, further on, gives the letter of option k to the parser. */
  predicate Mended(its: seq<Item>, k: nat)
    requires k < |its|
  {
    exists m :: k < m < |its| && ParserShort(its[m]) && its[m].opt.key == its[k].opt.key && its[m].group == its[k].group
  }

  /** Every stray alias that first uses a letter is mended. */
  predicate AllMended(its: seq<Item>) {
    forall k :: 0 <= k < |its| && Fresh(its, k) && its[k].target.doc ==> Mended(its, k)
  }

  /** Help shows a letter for exactly the group to which the parser gives it. */
  ghost predicate SameGroups(its: seq<Item>) {
    forall c, g: nat :: Claim(c, g) in Shown(its) <==> Owner(its, c) == Some(g)
  }

  /** Help output and parser agree on the groups of all letters of a tree exactly if its
      stray aliases are mended. */
  lemma SameOwner(a: Argp)
    ensures AllMended(Items(a, 0)) <==> SameGroups(Items(a, 0))
  {
    ItemsOrdered(a, 0);
    var its, hi := Items(a, 0), Groups(a);
    hide Items, Groups, Fresh, Mended;
    if AllMended(its) {
      forall c, g: nat
        ensures Claim(c, g) in Shown(its) <==> Owner(its, c) == Some(g)
      {
        MendedOwner(its, hi, c, g);
      }
    }
    if SameGroups(its) {
      forall k | 0 <= k < |its| && Fresh(its, k) && its[k].target.doc
        ensures Mended(its, k)
      {
        assert Claim(its[k].opt.key, its[k].group) in Shown(its) <==> Owner(its, its[k].opt.key) == Some(its[k].group);
        OwnerMends(its, k);
      }
    }
  }

  lemma MendedOwner(its: seq<Item>, hi: nat, c: int, g: nat)
    requires Ordered(its, 0, hi) && AllMended(its)
    ensures Claim(c, g) in Shown(its) <==> Owner(its, c) == Some(g)
  {
    ShownIs(its, c, g);
    var h, p := FirstUse(its, HelpShort, c), FirstUse(its, ParserShort, c);
    FirstUsesMeet(its, c);
    hide FirstUse, Shown, HelpShort, ParserShort, Fresh;
    if h < |its| && its[h].target.doc {
      assert Mended(its, h);
      var m :| h < m < |its| && ParserShort(its[m]) && its[m].opt.key == c && its[m].group == its[h].group;
      assert h < p <= m;
    }
  }

  /** Help finds a first use no later than the parser, and the same one unless it is stray. */
  lemma FirstUsesMeet(its: seq<Item>, c: int)
    ensures var h, p := FirstUse(its, HelpShort, c), FirstUse(its, ParserShort, c);
            && h <= p && (h < |its| ==> Fresh(its, h) && its[h].opt.key == c)
            && (if h < |its| && its[h].target.doc then h < p else p == h)
  {
    var h := FirstUse(its, HelpShort, c);
    forall k | 0 <= k < h
      ensures !(ParserShort(its[k]) && its[k].opt.key == c)
    {
      assert !(HelpShort(its[k]) && its[k].opt.key == c);
    }
    if h == |its| || !its[h].target.doc {
      FirstUseIs(its, ParserShort, c, h);
    }
  }

  lemma OwnerMends(its: seq<Item>, k: nat)
    requires k < |its| && Fresh(its, k) && its[k].target.doc
    requires Claim(its[k].opt.key, its[k].group) in Shown(its) <==> Owner(its, its[k].opt.key) == Some(its[k].group)
    ensures Mended(its, k)
  {
    var c := its[k].opt.key;
    FirstUseIs(its, HelpShort, c, k);
    ShownIs(its, c, its[k].group);
    var p := FirstUse(its, ParserShort, c);
    assert p < |its| && its[p].group == its[k].group;
    assert p > k;
  }

  /** A documentation option with the alias 'a' hides option 'a' of a child from help,
      while the parser still gives the letter to the child. */
  function StrayTree(): Argp {
    var doc := Opt(Some("DOC"), 0, false, false, false, true);
    var stray := Opt(None, 'a' as int, false, false, true, false);
    var own := Opt(None, 'a' as int, false, false, false, false);
    Argp(Some([doc, stray]), true, [Argp(Some([own]), true, [])])
  }

  lemma StrayItems()
    ensures var its := Items(StrayTree(), 0);
            && |its| == 3 && its[0].opt.doc && its[0].group == 0 && its[1].group == 0 && its[2].group == 1
            && HelpShort(its[1]) && its[1].opt.key == 'a' as int && its[1].target.doc
            && ParserShort(its[2]) && its[2].opt.key == 'a' as int
  {
    var a := StrayTree();
    var child := a.children[0];
    assert child.children == [] && ItemsOf([], 2) == [];
    assert a.children[..0] == [] && ItemsOf([], 1) == [];
    assert Items(child, 1) == OwnItems(child.options.value, 1) + [];
    assert ItemsOf(a.children, 1) == [] + Items(child, 1);
    assert Items(a, 0) == OwnItems(a.options.value, 0) + Items(child, 1);
  }

  lemma StrayDisagrees()
    ensures WellFormed(StrayTree()) && !AllMended(Items(StrayTree(), 0))
    ensures Claim('a' as int, 0) in Shown(Items(StrayTree(), 0)) && Owner(Items(StrayTree(), 0), 'a' as int) == Some(1)
  {
    var its, c := Items(StrayTree(), 0), 'a' as int;
    StrayItems();
    FirstUseIs(its, HelpShort, c, 1);
    FirstUseIs(its, ParserShort, c, 2);
    ShownIs(its, c, 0);
    assert Fresh(its, 1);
  }
}
