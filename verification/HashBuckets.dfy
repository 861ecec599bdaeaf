/** The bucket array of gnulib's hash table, as a value.

    A bucket is the sequence of user entries of one slot: element 0 is the entry
    stored in the bucket head, the others sit in overflow nodes.  This module
    counts used heads and overflow nodes and says which placements a hasher
    allows; the imperative table is in HashTable.dfy. */
module HashBuckets {

  type Hasher<!T> = (T, nat) -> nat
  type Buckets<T> = seq<seq<T>>

  /** Number of buckets whose head holds an entry. */
  function Used<T>(b: Buckets<T>): nat {
    if b == [] then 0 else Used(b[..|b| - 1]) + if b[|b| - 1] == [] then 0 else 1
  }

  /** Number of overflow nodes linked behind one bucket head. */
  function OverflowOf<T>(chain: seq<T>): nat {
    if chain == [] then 0 else |chain| - 1
  }

  function Overflow<T>(b: Buckets<T>): nat {
    if b == [] then 0 else Overflow(b[..|b| - 1]) + OverflowOf(b[|b| - 1])
  }

  /** All entries, bucket by bucket: the order of a walk. */
  function Flatten<T>(b: Buckets<T>): seq<T> {
    if b == [] then [] else Flatten(b[..|b| - 1]) + b[|b| - 1]
  }

  ghost function Elems<T>(b: Buckets<T>): multiset<T> {
    multiset(Flatten(b))
  }

  /** Every entry of a chain hashes to bucket i of n. */
  ghost predicate ChainAt<T>(h: Hasher<T>, chain: seq<T>, n: nat, i: nat) {
    forall j :: 0 <= j < |chain| ==> h(chain[j], n) == i
  }

  /** Every entry is in the bucket the hasher selects for it. */
  ghost predicate Placed<T>(h: Hasher<T>, b: Buckets<T>) {
    forall i :: 0 <= i < |b| ==> ChainAt(h, b[i], |b|, i)
  }

  /** Link x right behind the head of bucket j, or into the head if it is free. */
  function Push<T>(b: Buckets<T>, j: nat, x: T): Buckets<T>
    requires j < |b|
  {
    b[j := if b[j] == [] then [x] else [b[j][0], x] + b[j][1..]]
  }

  function EmptyBuckets<T>(n: nat): (b: Buckets<T>)
    ensures |b| == n && forall i :: 0 <= i < n ==> b[i] == []
  {
    seq(n, _ => [])
  }

  lemma {:induction false} EmptyIsEmpty<T>(b: Buckets<T>)
    requires forall i :: 0 <= i < |b| ==> b[i] == []
    ensures Flatten(b) == [] && Elems(b) == multiset{} && Used(b) == 0 && Overflow(b) == 0
  {
    if b != [] {
      EmptyIsEmpty(b[..|b| - 1]);
    }
  }

  /** Changing one bucket changes the three counts by that bucket's share. */
  lemma Update<T>(b: Buckets<T>, i: nat, c: seq<T>)
    requires i < |b|
    ensures Used(b[i := c]) + (if b[i] == [] then 0 else 1) == Used(b) + (if c == [] then 0 else 1)
    ensures Overflow(b[i := c]) + OverflowOf(b[i]) == Overflow(b) + OverflowOf(c)
    ensures Elems(b[i := c]) + multiset(b[i]) == Elems(b) + multiset(c)
  {
    UpdateCounts(b, i, c);
    UpdateElems(b, i, c);
  }

  lemma {:induction false} UpdateCounts<T>(b: Buckets<T>, i: nat, c: seq<T>)
    requires i < |b|
    ensures Used(b[i := c]) + (if b[i] == [] then 0 else 1) == Used(b) + (if c == [] then 0 else 1)
    ensures Overflow(b[i := c]) + OverflowOf(b[i]) == Overflow(b) + OverflowOf(c)
  {
    var n := |b| - 1;
    if i == n {
      assert b[i := c][..n] == b[..n];
    } else {
      UpdateCounts(b[..n], i, c);
      assert b[i := c][..n] == b[..n][i := c];
    }
  }

  lemma {:induction false} UpdateElems<T>(b: Buckets<T>, i: nat, c: seq<T>)
    requires i < |b|
    ensures Elems(b[i := c]) + multiset(b[i]) == Elems(b) + multiset(c)
  {
    hide Elems;
    var n := |b| - 1;
    var b' := b[i := c];
    ElemsLast(b);
    ElemsLast(b');
    if i == n {
      assert b'[..n] == b[..n];
    } else {
      UpdateElems(b[..n], i, c);
      assert b'[..n] == b[..n][i := c];
      AddSame(Elems(b'[..n]), multiset(b[i]), Elems(b[..n]), multiset(c), multiset(b[n]));
    }
  }

  lemma AddSame<T>(x: multiset<T>, p: multiset<T>, y: multiset<T>, q: multiset<T>, l: multiset<T>)
    requires x + p == y + q
    ensures (x + l) + p == (y + l) + q
  {
    assert (x + l) + p == (x + p) + l;
    assert (y + l) + q == (y + q) + l;
  }

  lemma ElemsLast<T>(b: Buckets<T>)
    requires b != []
    ensures Elems(b) == Elems(b[..|b| - 1]) + multiset(b[|b| - 1])
  {
    assert Flatten(b) == Flatten(b[..|b| - 1]) + b[|b| - 1];
  }

  /** Push links x behind the head: the chain gains exactly x. */
  lemma PushChain<T>(b: Buckets<T>, j: nat, x: T)
    requires j < |b|
    ensures multiset(Push(b, j, x)[j]) == multiset(b[j]) + multiset{x}
    ensures |Push(b, j, x)[j]| == |b[j]| + 1
  {
    if b[j] != [] {
      assert b[j] == [b[j][0]] + b[j][1..];
    }
  }

  lemma EmptyPlaced<T>(h: Hasher<T>, b: Buckets<T>)
    requires forall i :: 0 <= i < |b| ==> b[i] == []
    ensures Placed(h, b)
  {
  }

  lemma PlacedUpdate<T>(h: Hasher<T>, b: Buckets<T>, i: nat, c: seq<T>)
    requires i < |b| && Placed(h, b) && ChainAt(h, c, |b|, i)
    ensures Placed(h, b[i := c])
  {
    var p := b[i := c];
    forall k | 0 <= k < |p|
      ensures ChainAt(h, p[k], |p|, k)
    {
      assert k != i ==> p[k] == b[k];
    }
  }

  lemma PushPlaced<T>(h: Hasher<T>, b: Buckets<T>, x: T)
    requires Placed(h, b) && h(x, |b|) < |b|
    ensures Placed(h, Push(b, h(x, |b|), x))
  {
    var j := h(x, |b|);
    var c := Push(b, j, x)[j];
    assert ChainAt(h, b[j], |b|, j);
    forall k | 0 <= k < |c|
      ensures h(c[k], |b|) == j
    {
      assert k >= 2 ==> c[k] == b[j][k - 1];
    }
    assert Push(b, j, x) == b[j := c];
    PlacedUpdate(h, b, j, c);
  }

  lemma PushCounts<T>(b: Buckets<T>, j: nat, x: T)
    requires j < |b|
    ensures Used(Push(b, j, x)) == Used(b) + (if b[j] == [] then 1 else 0)
    ensures Overflow(Push(b, j, x)) == Overflow(b) + (if b[j] == [] then 0 else 1)
    ensures Elems(Push(b, j, x)) == Elems(b) + multiset{x}
  {
    var p := Push(b, j, x);
    var c := p[j];
    PushChain(b, j, x);
    assert p == b[j := c];
    Update(b, j, c);
    CancelChain(Elems(p), Elems(b), multiset(b[j]), multiset{x});
  }

  lemma CancelChain<T>(a: multiset<T>, b: multiset<T>, c: multiset<T>, d: multiset<T>)
    requires a + c == b + (c + d)
    ensures a == b + d
  {
    assert a == (a + c) - c;
    assert b + d == (b + (c + d)) - c;
  }

  /** Used heads plus overflow nodes account for every entry. */
  lemma {:induction false} CountEntries<T>(b: Buckets<T>)
    ensures |Flatten(b)| == Used(b) + Overflow(b)
  {
    if b != [] {
      CountEntries(b[..|b| - 1]);
    }
  }

  lemma {:induction false} InFlatten<T>(b: Buckets<T>, x: T)
    ensures x in Flatten(b) <==> exists i :: 0 <= i < |b| && x in b[i]
  {
    if b != [] {
      var n := |b| - 1;
      InFlatten(b[..n], x);
      if x in Flatten(b[..n]) {
        var i :| 0 <= i < n && x in b[..n][i];
        assert x in b[i];
      }
      if exists i :: 0 <= i < |b| && x in b[i] {
        var i :| 0 <= i < |b| && x in b[i];
        if i < n {
          assert x in b[..n][i];
        }
      }
    }
  }

  /** A placed bucket array is determined, bucket by bucket, by its entries. */
  lemma BucketElems<T>(h: Hasher<T>, b: Buckets<T>, i: nat, x: T)
    requires Placed(h, b) && i < |b|
    ensures multiset(b[i])[x] == if h(x, |b|) == i then Elems(b)[x] else 0
  {
    Update(b, i, []);
    var b' := b[i := []];
    assert Elems(b') + multiset(b[i]) == Elems(b);
    if h(x, |b|) == i {
      InFlatten(b', x);
      assert x !in Flatten(b');
    } else {
      assert x !in b[i];
    }
  }

  lemma {:induction false} OverflowMonotone<T>(a: Buckets<T>, b: Buckets<T>)
    requires |a| == |b| && forall i :: 0 <= i < |a| ==> |a[i]| <= |b[i]|
    ensures Overflow(a) <= Overflow(b)
  {
    if a != [] {
      OverflowMonotone(a[..|a| - 1], b[..|b| - 1]);
    }
  }

  lemma {:induction false} SameLengths<T>(a: Buckets<T>, b: Buckets<T>)
    requires |a| == |b| && forall i :: 0 <= i < |a| ==> |a[i]| == |b[i]|
    ensures Overflow(a) == Overflow(b) && Used(a) == Used(b)
  {
    if a != [] {
      SameLengths(a[..|a| - 1], b[..|b| - 1]);
    }
  }

  lemma SubmultisetSize<T>(s: seq<T>, t: seq<T>)
    requires multiset(s) <= multiset(t)
    ensures |s| <= |t|
  {
    assert multiset(t) == multiset(s) + (multiset(t) - multiset(s));
    assert |multiset(s)| == |s| && |multiset(t)| == |t|;
  }

  /** Fewer entries, placed by the same hasher, need no more overflow nodes. */
  lemma PlacedSubset<T>(h: Hasher<T>, a: Buckets<T>, b: Buckets<T>)
    requires |a| == |b| && Placed(h, a) && Placed(h, b) && Elems(a) <= Elems(b)
    ensures Overflow(a) <= Overflow(b)
  {
    forall i | 0 <= i < |a|
      ensures |a[i]| <= |b[i]|
    {
      forall x | x in multiset(a[i])
        ensures multiset(a[i])[x] <= multiset(b[i])[x]
      {
        BucketElems(h, a, i, x);
        BucketElems(h, b, i, x);
      }
      SubmultisetSize(a[i], b[i]);
    }
    OverflowMonotone(a, b);
  }

  /** The same entries, placed by the same hasher, fill the same buckets. */
  lemma PlacedSame<T>(h: Hasher<T>, a: Buckets<T>, b: Buckets<T>)
    requires |a| == |b| && Placed(h, a) && Placed(h, b) && Elems(a) == Elems(b)
    ensures forall i :: 0 <= i < |a| ==> multiset(a[i]) == multiset(b[i])
    ensures Used(a) == Used(b) && Overflow(a) == Overflow(b)
  {
    forall i | 0 <= i < |a|
      ensures multiset(a[i]) == multiset(b[i]) && |a[i]| == |b[i]|
    {
      forall x
        ensures multiset(a[i])[x] == multiset(b[i])[x]
      {
        BucketElems(h, a, i, x);
        BucketElems(h, b, i, x);
      }
      assert multiset(a[i]) == multiset(b[i]);
      assert |multiset(a[i])| == |a[i]| && |multiset(b[i])| == |b[i]|;
    }
    SameLengths(a, b);
  }

  // ----- what a transfer keeps ----------------------------------------------

  /** The state of a transfer between two tables sharing one free list: the
      buckets of the source and of the destination and the number of free nodes. */
  datatype Moving<T> = Moving(src: Buckets<T>, dst: Buckets<T>, free: nat)
  {
    /** Overflow nodes in use plus free nodes. */
    function Nodes(): nat {
      Overflow(src) + Overflow(dst) + free
    }
    ghost function Entries(): multiset<T> {
      Elems(src) + Elems(dst)
    }
  }

  /** From s to t no entry is lost or doubled, the destination stays placed and
      the overflow nodes are conserved up to `grown` newly allocated ones. */
  ghost predicate Kept<T>(h: Hasher<T>, s: Moving<T>, t: Moving<T>, grown: nat) {
    && |t.src| == |s.src| && |t.dst| == |s.dst|
    && Placed(h, t.src) && Placed(h, t.dst)
    && t.Entries() == s.Entries()
    && t.Nodes() == s.Nodes() + grown
    && forall i :: 0 <= i < |s.src| ==> |t.src[i]| <= |s.src[i]|
  }

  lemma KeptTrans<T>(h: Hasher<T>, s: Moving<T>, t: Moving<T>, u: Moving<T>, g0: nat, g1: nat)
    requires Kept(h, s, t, g0) && Kept(h, t, u, g1)
    ensures Kept(h, s, u, g0 + g1)
  {
  }

  lemma UnlinkPlaced<T>(h: Hasher<T>, b: Buckets<T>, i: nat, head: T, cursor: seq<T>)
    requires i < |b| && cursor != [] && b[i] == [head] + cursor && Placed(h, b)
    ensures Placed(h, b[i := [head] + cursor[1..]])
  {
    var c := [head] + cursor[1..];
    assert ChainAt(h, b[i], |b|, i);
    forall k | 0 <= k < |c|
      ensures h(c[k], |b|) == i
    {
      assert c[k] == b[i][if k == 0 then 0 else k + 1];
    }
    PlacedUpdate(h, b, i, c);
  }

  lemma UnlinkCounts<T>(b: Buckets<T>, i: nat, head: T, cursor: seq<T>)
    requires i < |b| && cursor != [] && b[i] == [head] + cursor
    ensures var u := b[i := [head] + cursor[1..]];
            Used(u) == Used(b) && Overflow(u) + 1 == Overflow(b) && Elems(u) + multiset{cursor[0]} == Elems(b)
  {
    var x, rest := cursor[0], [head] + cursor[1..];
    assert b[i] == [head, x] + cursor[1..];
    assert multiset(b[i]) == multiset(rest) + multiset{x};
    Update(b, i, rest);
    CancelChain(Elems(b), Elems(b[i := rest]), multiset(rest), multiset{x});
  }

  /** Moving the first overflow entry x of source bucket i: its node is relinked
      behind a used destination head, or freed when the entry becomes a head. */
  lemma MoveOverflow<T>(h: Hasher<T>, s: Moving<T>, i: nat, head: T, cursor: seq<T>)
    requires i < |s.src| && cursor != [] && s.src[i] == [head] + cursor
    requires Placed(h, s.src) && Placed(h, s.dst) && h(cursor[0], |s.dst|) < |s.dst|
    ensures var j := h(cursor[0], |s.dst|);
            var t := Moving(s.src[i := [head] + cursor[1..]], Push(s.dst, j, cursor[0]),
                            s.free + if s.dst[j] == [] then 1 else 0);
            Kept(h, s, t, 0) && Used(t.src) == Used(s.src)
  {
    hide Used, Overflow, Elems, Placed;
    UnlinkPlaced(h, s.src, i, head, cursor);
    UnlinkCounts(s.src, i, head, cursor);
    PushPlaced(h, s.dst, cursor[0]);
    PushCounts(s.dst, h(cursor[0], |s.dst|), cursor[0]);
  }

  /** Moving the head of source bucket i, all of whose overflow is gone. */
  lemma MoveHead<T>(h: Hasher<T>, s: Moving<T>, i: nat, free': nat, grown: nat)
    requires i < |s.src| && |s.src[i]| == 1 && Placed(h, s.src) && Placed(h, s.dst)
    requires h(s.src[i][0], |s.dst|) < |s.dst|
    requires free' + (if s.dst[h(s.src[i][0], |s.dst|)] == [] then 0 else 1) == s.free + grown
    ensures var x := s.src[i][0];
            var t := Moving(s.src[i := []], Push(s.dst, h(x, |s.dst|), x), free');
            Kept(h, s, t, grown) && Used(t.src) + 1 == Used(s.src)
  {
    hide Used, Overflow, Elems, Placed, Push;
    var x := s.src[i][0];
    assert s.src[i] == [x] && multiset([x]) == multiset{x};
    Update(s.src, i, []);
    PlacedUpdate(h, s.src, i, []);
    PushPlaced(h, s.dst, x);
    PushCounts(s.dst, h(x, |s.dst|), x);
    PushLength(s.dst, h(x, |s.dst|), x);
    assert Elems(s.src[i := []]) + multiset{x} == Elems(s.src);
  }

  lemma PushIs<T>(b: Buckets<T>, j: nat, x: T)
    requires j < |b|
    ensures Push(b, j, x) == b[j := if b[j] == [] then [x] else [b[j][0], x] + b[j][1..]]
  {
  }

  lemma PushLength<T>(b: Buckets<T>, j: nat, x: T)
    requires j < |b|
    ensures |Push(b, j, x)| == |b|
  {
  }

  /** Why the second pass of a rollback never lacks a node.  The table under
      repair held `full`; `table` is its present state and x, the head of a chain
      of `rest`, still has to join a used bucket.  All nodes that `full` needed are
      still around, none of them in `rest`, so one of them must be free. */
  lemma NodeAvailable<T>(h: Hasher<T>, full: Buckets<T>, table: Buckets<T>, rest: Buckets<T>, stuck: nat, free: nat)
    requires |table| == |full| && Placed(h, full) && Placed(h, table)
    requires stuck < |rest| && |rest[stuck]| == 1
    requires forall k :: 0 <= k < |rest| ==> |rest[k]| <= 1
    requires Elems(rest) + Elems(table) == Elems(full)
    requires h(rest[stuck][0], |table|) < |table| && table[h(rest[stuck][0], |table|)] != []
    requires Overflow(rest) + Overflow(table) + free >= Overflow(full)
    ensures free > 0
  {
    hide Elems, Overflow, Used, Placed;
    var x := rest[stuck][0];
    var j := h(x, |table|);
    HeadsOnly(rest);
    HeadIn(rest, stuck);
    PushPlaced(h, table, x);
    PushCounts(table, j, x);
    PlacedSubset(h, Push(table, j, x), full);
  }

  lemma HeadIn<T>(b: Buckets<T>, i: nat)
    requires i < |b| && |b[i]| == 1
    ensures multiset{b[i][0]} <= Elems(b)
  {
    assert b[i] == [b[i][0]];
    Update(b, i, []);
    assert Elems(b) == Elems(b[i := []]) + multiset{b[i][0]};
  }

  lemma {:induction false} HeadsOnly<T>(b: Buckets<T>)
    requires forall k :: 0 <= k < |b| ==> |b[k]| <= 1
    ensures Overflow(b) == 0
  {
    if b != [] {
      HeadsOnly(b[..|b| - 1]);
    }
  }

  /** Where bucket i sits in the walking order. */
  lemma {:induction false} FlattenAt<T>(b: Buckets<T>, i: nat)
    requires i < |b|
    ensures var base := |Flatten(b[..i])|;
            && base + |b[i]| <= |Flatten(b)|
            && Flatten(b)[..base] == Flatten(b[..i])
            && Flatten(b)[base..base + |b[i]|] == b[i]
            && Flatten(b[..i + 1]) == Flatten(b[..i]) + b[i]
            && Flatten(b)[..base + |b[i]|] == Flatten(b[..i + 1])
  {
    assert b[..i + 1][..i] == b[..i];
    if i + 1 == |b| {
      assert b[..i + 1] == b;
    } else {
      var a := b[..|b| - 1];
      FlattenAt(a, i);
      assert a[..i] == b[..i] && a[..i + 1] == b[..i + 1];
      assert Flatten(b) == Flatten(a) + b[|b| - 1];
    }
  }

  lemma SomeBucketLeft<T>(b: Buckets<T>, i: nat)
    requires i <= |b| && Flatten(b) != [] && Flatten(b[..i]) == []
    ensures i < |b|
  {
    assert b[..|b|] == b;
  }

  // ----- one entry ----------------------------------------------------------

  /** The chain without the entry at position k. */
  function Unlink<T>(chain: seq<T>, k: nat): seq<T>
    requires k < |chain|
  {
    chain[..k] + chain[k + 1..]
  }

  /** Unlinking entry k of bucket i takes exactly that entry out, and frees one
      overflow node unless the entry was alone in its bucket. */
  lemma UnlinkFacts<T>(h: Hasher<T>, b: Buckets<T>, i: nat, k: nat)
    requires i < |b| && k < |b[i]| && Placed(h, b)
    ensures var u := b[i := Unlink(b[i], k)];
            && Placed(h, u)
            && Elems(u) + multiset{b[i][k]} == Elems(b)
            && Used(u) + (if |b[i]| == 1 then 1 else 0) == Used(b)
            && Overflow(u) + (if |b[i]| == 1 then 0 else 1) == Overflow(b)
  {
    var c := Unlink(b[i], k);
    assert b[i] == b[i][..k] + [b[i][k]] + b[i][k + 1..];
    assert multiset(b[i]) == multiset(c) + multiset{b[i][k]};
    Update(b, i, c);
    CancelChain(Elems(b), Elems(b[i := c]), multiset(c), multiset{b[i][k]});
    assert ChainAt(h, b[i], |b|, i);
    forall j | 0 <= j < |c|
      ensures h(c[j], |b|) == i
    {
      assert c[j] == b[i][if j < k then j else j + 1];
    }
    PlacedUpdate(h, b, i, c);
  }

  /** An entry of a placed array is found in the bucket it hashes to, only there. */
  lemma InBucket<T>(h: Hasher<T>, b: Buckets<T>, x: T)
    requires Placed(h, b) && x in Elems(b)
    ensures h(x, |b|) < |b| && x in b[h(x, |b|)]
  {
    InFlatten(b, x);
    var i :| 0 <= i < |b| && x in b[i];
    assert ChainAt(h, b[i], |b|, i);
  }

  lemma InElems<T>(b: Buckets<T>, i: nat, k: nat)
    requires i < |b| && k < |b[i]|
    ensures b[i][k] in Elems(b)
  {
    InFlatten(b, b[i][k]);
    assert b[i][k] in b[i];
  }
}
