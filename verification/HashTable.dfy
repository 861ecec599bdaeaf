/** gnulib's hash table: lookup, insertion, deletion, and a rehash that undoes
    itself when it runs out of memory half way.

    In a table marked scarce, `malloc` and `calloc` may fail at every call and a size
    may be out of range (nondeterministic choices); in any table the floating-point
    tuning tests are nondeterministic choices, and the size a rehash asks for is
    arbitrary.  An abort() of the program is an
    `assert false`: the proofs show that none can be reached. */
module HashTables {
  import opened HashBuckets
  import opened Options
  import opened Allocation

  /** What the table asks of the functions its user supplies: the hasher stays in
      range, and entries that compare equal hash alike.  The table itself treats
      identical pointers as equal without calling the comparator. */
  ghost predicate WellBehaved<T(!new)>(hasher: Hasher<T>, same: (T, T) -> bool) {
    && (forall x, n: nat :: n > 0 ==> hasher(x, n) < n)
    && (forall x, y, n: nat :: n > 0 && same(x, y) ==> hasher(x, n) == hasher(y, n))
    && (forall x, y :: same(x, y) ==> same(y, x))
    && (forall x, y, z :: same(x, y) && same(y, z) ==> same(x, z))
  }

  /** At most one entry per key. */
  ghost predicate OnePerKey<T(!new)>(same: (T, T) -> bool, m: multiset<T>) {
    && (forall x :: m[x] <= 1)
    && (forall x, y :: x in m && y in m && same(x, y) ==> x == y)
  }

  /** Requests to a table, and its answers. */
  datatype Op<T> = Insert(entry: T) | Remove(entry: T) | Find(entry: T) | Resize(newSize: nat)
  datatype Reply<T> = Found(match_: T) | NotFound | Done | NoMemory

  ghost predicate Matched<T>(same: (T, T) -> bool, m: multiset<T>, x: T, y: T) {
    y in m && same(x, y)
  }

  ghost predicate Unmatched<T>(same: (T, T) -> bool, m: multiset<T>, x: T) {
    forall y :: y in m ==> !same(x, y)
  }

  /** The finite map a table stands for: what one request may answer and leave. */
  ghost predicate Step<T>(same: (T, T) -> bool, scarce: bool, m: multiset<T>, op: Op<T>, reply: Reply<T>, m': multiset<T>) {
    match op
    case Insert(x) =>
      (match reply
       case Found(y) => Matched(same, m, x, y) && m' == m
       case Done => Unmatched(same, m, x) && m' == m + multiset{x}
       case NoMemory => scarce && Unmatched(same, m, x) && m' == m
       case NotFound => false)
    case Remove(x) =>
      (match reply
       case Found(y) => Matched(same, m, x, y) && m == m' + multiset{y}
       case NotFound => Unmatched(same, m, x) && m' == m
       case _ => false)
    case Find(x) =>
      && m' == m
      && (match reply
          case Found(y) => Matched(same, m, x, y)
          case NotFound => Unmatched(same, m, x)
          case _ => false)
    case Resize(n) => m' == m && (reply == Done || (reply == NoMemory && (scarce || n == 0)))
  }

  /** A table's entries, as a map from their keys. */
  ghost predicate Represents<T(!new), K(!new)>(key: T -> K, m: map<K, T>, entries: multiset<T>) {
    && (forall k :: k in m ==> key(m[k]) == k)
    && (forall x :: entries[x] == if key(x) in m && m[key(x)] == x then 1 else 0)
  }

  /** What one request may do to such a map: the first entry of a key stays, and any entry
      of that key finds it. */
  ghost predicate MapStep<T, K>(key: T -> K, scarce: bool, m: map<K, T>, op: Op<T>, reply: Reply<T>, m': map<K, T>) {
    match op
    case Insert(x) =>
      if key(x) in m then reply == Found(m[key(x)]) && m' == m
      else (reply == Done && m' == m[key(x) := x]) || (scarce && reply == NoMemory && m' == m)
    case Remove(x) =>
      if key(x) in m then reply == Found(m[key(x)]) && m' == m - {key(x)}
      else reply == NotFound && m' == m
    case Find(x) =>
      m' == m && reply == if key(x) in m then Found(m[key(x)]) else NotFound
    case Resize(n) =>
      m' == m && (reply == Done || (reply == NoMemory && (scarce || n == 0)))
  }

  /** The entries of a table, at most one per key, are a map. */
  lemma KeyedStart<T(!new), K(!new)>(key: T -> K, entries: multiset<T>) returns (m: map<K, T>)
    requires forall x :: entries[x] <= 1
    requires forall x, y :: x in entries && y in entries && key(x) == key(y) ==> x == y
    ensures Represents(key, m, entries)
  {
    m := map x | x in entries :: key(x) := x;
  }

  /** A step of the table is a step of the map. */
  lemma StepKeyed<T(!new), K(!new)>(key: T -> K, scarce: bool, same: (T, T) -> bool, m: map<K, T>, entries: multiset<T>,
                                   op: Op<T>, reply: Reply<T>, entries': multiset<T>) returns (m': map<K, T>)
    requires Represents(key, m, entries) && Step(same, scarce, entries, op, reply, entries')
    requires forall x, y :: same(x, y) <==> key(x) == key(y)
    ensures Represents(key, m', entries') && MapStep(key, scarce, m, op, reply, m')
  {
    m' := m;
    match op
    case Insert(x) =>
      KeyThere(key, same, m, entries, x);
      if reply == Done {
        m' := m[key(x) := x];
      }
    case Remove(x) =>
      KeyThere(key, same, m, entries, x);
      if reply.Found? {
        m' := m - {key(x)};
      }
    case Find(x) =>
      KeyThere(key, same, m, entries, x);
    case Resize(_) =>
  }

  /** An entry is matched by the one that the map has for its key, if it has one. */
  lemma KeyThere<T(!new), K(!new)>(key: T -> K, same: (T, T) -> bool, m: map<K, T>, entries: multiset<T>, x: T)
    requires Represents(key, m, entries) && forall x, y :: same(x, y) <==> key(x) == key(y)
    ensures forall y :: Matched(same, entries, x, y) <==> key(x) in m && y == m[key(x)]
    ensures Unmatched(same, entries, x) <==> key(x) !in m
  {
    if key(x) in m {
      var y := m[key(x)];
      assert entries[y] == 1 && same(x, y);
    }
    forall y | y in entries
      ensures key(y) in m && m[key(y)] == y
    {
      assert entries[y] > 0;
    }
  }

  class HashTable<T(==, !new)> {
    var bucket: array<seq<T>>
    var nBucketsUsed: nat
    var nEntries: nat
    var freeEntries: nat   // nodes on free_entry_list
    const hasher: Hasher<T>
    const comparator: (T, T) -> bool
    const scarce: bool     // may allocations fail?

    predicate Matches(x: T, y: T) {
      x == y || comparator(x, y)
    }

    /** The counters that a table keeps even half way through a transfer. */
    ghost predicate Counted()
      reads this, bucket
    {
      bucket.Length > 0 && nBucketsUsed == Used(bucket[..])
    }

    ghost function Contents(): multiset<T>
      reads this, bucket
    {
      Elems(bucket[..])
    }

    ghost predicate Valid()
      reads this, bucket
    {
      && Counted()
      && WellBehaved(hasher, Matches)
      && Placed(hasher, bucket[..])
      && nEntries == |Contents()|
      && OnePerKey(Matches, Contents())
    }

    /** The pair (src, this) as a transfer sees it. */
    ghost function Pair(src: HashTable<T>): Moving<T>
      reads this, bucket, src, src.bucket
    {
      Moving(src.bucket[..], bucket[..], freeEntries)
    }

    constructor (n: nat, hasher: Hasher<T>, comparator: (T, T) -> bool, scarce: bool)
      requires n > 0
      ensures fresh(bucket) && bucket.Length == n && Counted()
      ensures this.hasher == hasher && this.comparator == comparator && this.scarce == scarce
      ensures bucket[..] == EmptyBuckets(n) && nEntries == 0 && freeEntries == 0 && Contents() == multiset{}
      ensures (forall x, size: nat :: size > 0 ==> hasher(x, size) < size)
              && (forall x, y, size: nat :: size > 0 && comparator(x, y) ==> hasher(x, size) == hasher(y, size))
              && (forall x, y :: comparator(x, y) ==> comparator(y, x))
              && (forall x, y, z :: comparator(x, y) && comparator(y, z) ==> comparator(x, z))
              ==> Valid()
    {
      this.hasher := hasher;
      this.comparator := comparator;
      this.scarce := scarce;
      bucket := new seq<T>[n](_ => []);
      nBucketsUsed, nEntries, freeEntries := 0, 0, 0;
      new;
      EmptyIsEmpty(bucket[..]);
      assert bucket[..] == EmptyBuckets(n);
    }

    // ----- transfer ---------------------------------------------------------

    /** Give an overflow entry its place: its node is relinked behind a used head,
        or freed when the entry fills an empty head. */
    method RelinkEntry(data: T)
      requires forall x, n: nat :: n > 0 ==> hasher(x, n) < n
      requires Counted()
      modifies this`nBucketsUsed, this`freeEntries, bucket
      ensures Counted()
      ensures var j := hasher(data, bucket.Length);
              && bucket[..] == Push(old(bucket[..]), j, data)
              && freeEntries == old(freeEntries) + if old(bucket[j]) == [] then 1 else 0
    {
      var j := hasher(data, bucket.Length);
      PushCounts(bucket[..], j, data);
      if bucket[j] != [] {
        bucket[j] := [bucket[j][0], data] + bucket[j][1..];
      } else {
        bucket[j] := [data];
        nBucketsUsed := nBucketsUsed + 1;
        freeEntries := freeEntries + 1;
      }
      assert bucket[..] == Push(old(bucket[..]), j, data);
    }

    /** First half of the loop body of transfer_entries: every overflow entry of
        source bucket i goes to this table, without any allocation. */
    method TransferOverflow(src: HashTable<T>, i: nat)
      requires src != this && src.bucket != bucket
      requires forall x, n: nat :: n > 0 ==> hasher(x, n) < n
      requires Counted() && Placed(hasher, bucket[..]) && Placed(hasher, src.bucket[..])
      requires i < src.bucket.Length && src.bucket[i] != []
      modifies this`nBucketsUsed, this`freeEntries, bucket, src.bucket
      ensures Counted()
      ensures src.bucket[..] == old(src.bucket[..])[i := [old(src.bucket[i])[0]]]
      ensures Used(src.bucket[..]) == old(Used(src.bucket[..]))
      ensures Kept(hasher, old(Pair(src)), Pair(src), 0)
    {
      hide Used, Overflow, Elems, ChainAt;
      ghost var s := Pair(src);
      ghost var v := s.src;   // the source with the entries moved so far unlinked
      var head := src.bucket[i][0];
      var cursor := src.bucket[i][1..];
      while cursor != []
        invariant Counted()
        invariant src.bucket[..] == s.src
        invariant |v| == |s.src| && v[i] == [head] + cursor && Used(v) == Used(s.src)
        invariant forall k :: 0 <= k < |v| && k != i ==> v[k] == s.src[k]
        invariant Kept(hasher, s, Moving(v, bucket[..], freeEntries), 0)
      {
        ghost var t := Moving(v, bucket[..], freeEntries);
        MoveOverflow(hasher, t, i, head, cursor);
        var data := cursor[0];
        RelinkEntry(data);
        cursor := cursor[1..];
        v := v[i := [head] + cursor];
        KeptTrans(hasher, s, t, Moving(v, bucket[..], freeEntries), 0, 0);
      }
      src.bucket[i] := [head];
      assert v[i] == [head];
      assert src.bucket[..] == v;
    }

    /** A new node: recycled, or allocated when the free list is empty, which may
        fail.  `grown` counts the nodes obtained from malloc. */
    method AllocateEntry() returns (ok: bool, ghost grown: nat)
      modifies this`freeEntries
      ensures ok ==> freeEntries + 1 == old(freeEntries) + grown && (grown == 0 <==> old(freeEntries) > 0)
      ensures !ok ==> scarce && old(freeEntries) == 0 && freeEntries == 0 && grown == 0
    {
      if freeEntries > 0 {
        freeEntries := freeEntries - 1;
        return true, 0;
      }
      ok := Succeeds(scarce);
      grown := if ok then 1 else 0;
    }

    /** Second half: the head of source bucket i.  It needs a new node exactly when
        its destination bucket is in use. */
    method TransferHead(src: HashTable<T>, i: nat) returns (ok: bool, ghost grown: nat)
      requires src != this && src.bucket != bucket
      requires forall x, n: nat :: n > 0 ==> hasher(x, n) < n
      requires Counted() && src.Counted() && Placed(hasher, bucket[..]) && Placed(hasher, src.bucket[..])
      requires i < src.bucket.Length && |src.bucket[i]| == 1
      modifies this`nBucketsUsed, this`freeEntries, bucket, src`nBucketsUsed, src.bucket
      ensures Counted() && src.Counted()
      ensures Kept(hasher, old(Pair(src)), Pair(src), grown)
      ensures ok ==> src.bucket[..] == old(src.bucket[..])[i := []]
      ensures !ok ==> scarce && old(Pair(src)) == Pair(src) && freeEntries == 0 && grown == 0
      ensures !ok ==> bucket[hasher(src.bucket[i][0], bucket.Length)] != []
    {
      hide Used, Overflow, Elems, ChainAt;
      ghost var s := Pair(src);
      var data := src.bucket[i][0];
      var j := hasher(data, bucket.Length);
      if bucket[j] != [] {
        ok, grown := AllocateEntry();
        if !ok {
          return;
        }
        bucket[j] := [bucket[j][0], data] + bucket[j][1..];
      } else {
        ok, grown := true, 0;
        bucket[j] := [data];
        nBucketsUsed := nBucketsUsed + 1;
      }
      MoveHead(hasher, s, i, freeEntries, grown);
      PushCounts(s.dst, j, data);
      src.bucket[i] := [];
      src.nBucketsUsed := src.nBucketsUsed - 1;
      assert bucket[..] == Push(s.dst, j, data);
      assert src.bucket[..] == s.src[i := []];
    }

    /** The loop body of transfer_entries for a non-empty source bucket. */
    method TransferBucket(src: HashTable<T>, safe: bool, i: nat) returns (ok: bool, ghost grown: nat)
      requires src != this && src.bucket != bucket
      requires forall x, n: nat :: n > 0 ==> hasher(x, n) < n
      requires Counted() && src.Counted() && Placed(hasher, bucket[..]) && Placed(hasher, src.bucket[..])
      requires i < src.bucket.Length && src.bucket[i] != []
      modifies this`nBucketsUsed, this`freeEntries, bucket, src`nBucketsUsed, src.bucket
      ensures Counted() && src.Counted()
      ensures Kept(hasher, old(Pair(src)), Pair(src), grown)
      ensures safe || !ok ==> |src.bucket[i]| == 1
      ensures !safe && ok ==> src.bucket[i] == []
      ensures forall k :: 0 <= k < src.bucket.Length && k != i ==> src.bucket[k] == old(src.bucket[k])
      ensures safe ==> ok && grown == 0
      ensures !ok ==> scarce && freeEntries == 0 && bucket[hasher(src.bucket[i][0], bucket.Length)] != []
    {
      hide Used, Overflow, Elems, ChainAt;
      ghost var s := Pair(src);
      TransferOverflow(src, i);
      if safe {
        return true, 0;
      }
      ghost var u := Pair(src);
      ok, grown := TransferHead(src, i);
      KeptTrans(hasher, s, u, Pair(src), 0, grown);
    }

    /** Move every entry of src into this table.  If `safe`, heads stay behind and
        nothing is allocated.  Otherwise the transfer stops at the first failing
        allocation, with `stuck` the source bucket whose head needed it. */
    method TransferEntries(src: HashTable<T>, safe: bool) returns (ok: bool, ghost grown: nat, ghost stuck: nat)
      requires src != this && src.bucket != bucket
      requires forall x, n: nat :: n > 0 ==> hasher(x, n) < n
      requires Counted() && src.Counted() && Placed(hasher, bucket[..]) && Placed(hasher, src.bucket[..])
      modifies this`nBucketsUsed, this`freeEntries, bucket, src`nBucketsUsed, src.bucket
      ensures Counted() && src.Counted()
      ensures Kept(hasher, old(Pair(src)), Pair(src), grown)
      ensures safe ==> ok && grown == 0 &&
                       forall k :: 0 <= k < src.bucket.Length ==> |src.bucket[k]| <= 1
      ensures ok && !safe ==> src.bucket[..] == EmptyBuckets(src.bucket.Length)
      ensures !ok ==> scarce && freeEntries == 0
      ensures !ok ==> stuck < src.bucket.Length && |src.bucket[stuck]| == 1 &&
                      bucket[hasher(src.bucket[stuck][0], bucket.Length)] != []
    {
      hide Used, Overflow, Elems, ChainAt;
      ghost var s := Pair(src);
      grown, stuck := 0, 0;
      assert Kept(hasher, s, s, 0);
      for i := 0 to src.bucket.Length
        invariant Counted() && src.Counted()
        invariant Kept(hasher, s, Pair(src), grown)
        invariant safe ==> grown == 0 && forall k :: 0 <= k < i ==> |src.bucket[k]| <= 1
        invariant !safe ==> forall k :: 0 <= k < i ==> src.bucket[k] == []
      {
        if src.bucket[i] != [] {
          ghost var t := Pair(src);
          ghost var g;
          assert Placed(hasher, bucket[..]) && Placed(hasher, src.bucket[..]);
          hide Kept, Placed, Used;
          ok, g := TransferBucket(src, safe, i);
          KeptTrans(hasher, s, t, Pair(src), grown, g);
          grown := grown + g;
          if !ok {
            stuck := i;
            return;
          }
        }
      }
      ok := true;
    }

    // ----- rehash -----------------------------------------------------------

    /** Undo a transfer into newTable that ran out of memory: overflow entries
        first, then heads.  The table held `full` before the transfer. */
    method RollBack(newTable: HashTable<T>, ghost full: Buckets<T>)
      requires newTable != this && newTable.bucket != bucket
      requires forall x, n: nat :: n > 0 ==> hasher(x, n) < n
      requires Counted() && newTable.Counted()
      requires Placed(hasher, bucket[..]) && Placed(hasher, newTable.bucket[..]) && Placed(hasher, full)
      requires bucket.Length == |full|
      requires Elems(newTable.bucket[..]) + Elems(bucket[..]) == Elems(full)
      requires Overflow(newTable.bucket[..]) + Overflow(bucket[..]) + freeEntries >= Overflow(full)
      modifies this`nBucketsUsed, this`freeEntries, bucket, newTable`nBucketsUsed, newTable.bucket
      ensures Counted() && Placed(hasher, bucket[..])
      ensures Elems(bucket[..]) == Elems(full)
      ensures Overflow(bucket[..]) + freeEntries >= old(Pair(newTable).Nodes())
    {
      hide Used, Overflow, Elems, ChainAt, Placed;
      ghost var s := Pair(newTable);
      var ok;
      ghost var g1, g2, stuck;
      ok, g1, stuck := TransferEntries(newTable, true);
      ghost var t := Pair(newTable);
      assert t.Nodes() == s.Nodes();
      ok, g2, stuck := TransferEntries(newTable, false);
      ghost var u := Pair(newTable);
      assert u.Nodes() == t.Nodes() + g2 && u.Entries() == s.Entries();
      if !ok {
        NodeAvailable(hasher, full, u.dst, u.src, stuck, freeEntries);
        assert false;
      }
      EmptyIsEmpty(newTable.bucket[..]);
    }

    /** Change the number of buckets to newSize (0 stands for a size that
        compute_bucket_size refuses).  A failure leaves every entry in its old
        bucket, the counters as they were, and loses no overflow node. */
    method Rehash(newSize: nat) returns (ok: bool)
      requires Valid()
      modifies this`bucket, this`nBucketsUsed, this`freeEntries, bucket
      ensures Valid() && Contents() == old(Contents())
      ensures bucket == old(bucket) || fresh(bucket)
      ensures ok ==> bucket.Length == newSize
      ensures !ok ==> bucket == old(bucket) && nBucketsUsed == old(nBucketsUsed)
      ensures !ok ==> forall i :: 0 <= i < bucket.Length ==> multiset(bucket[i]) == multiset(old(bucket[..])[i])
      ensures !ok ==> freeEntries >= old(freeEntries) && (scarce || newSize == 0)
      ensures newSize == old(bucket.Length) ==> ok
    {
      hide Used, Overflow, Elems, ChainAt, OnePerKey;
      if newSize == 0 {
        return false;
      }
      if newSize == bucket.Length {
        return true;
      }
      var callocOk := Succeeds(scarce);
      if !callocOk {
        return false;
      }
      assert forall x, n: nat :: n > 0 ==> hasher(x, n) < n;
      hide WellBehaved;
      ghost var full := bucket[..];
      var newTable := new HashTable<T>(newSize, hasher, comparator, scarce);
      newTable.freeEntries := freeEntries;
      ok := Refill(newTable, full);
      if ok {
        bucket := newTable.bucket;
        nBucketsUsed := newTable.nBucketsUsed;
        freeEntries := newTable.freeEntries;
      } else {
        PlacedSame(hasher, bucket[..], full);
      }
    }

    /** Transfer everything into the empty newTable, or restore this table. */
    method Refill(newTable: HashTable<T>, ghost full: Buckets<T>) returns (ok: bool)
      requires newTable != this && newTable.bucket != bucket
      requires forall x, n: nat :: n > 0 ==> hasher(x, n) < n
      requires Counted() && newTable.Counted() && newTable.hasher == hasher
      requires Placed(hasher, full) && bucket[..] == full
      requires newTable.bucket[..] == EmptyBuckets(newTable.bucket.Length)
      requires newTable.freeEntries == freeEntries && newTable.scarce == scarce
      modifies this`nBucketsUsed, this`freeEntries, bucket, newTable`nBucketsUsed, newTable`freeEntries, newTable.bucket
      ensures Counted()
      ensures ok ==> newTable.Counted() && newTable.bucket.Length == old(newTable.bucket.Length)
      ensures ok ==> Placed(hasher, newTable.bucket[..]) && Elems(newTable.bucket[..]) == Elems(full)
      ensures !ok ==> Placed(hasher, bucket[..]) && Elems(bucket[..]) == Elems(full)
      ensures !ok ==> scarce && Overflow(bucket[..]) + freeEntries >= Overflow(full) + old(freeEntries)
    {
      hide Used, Overflow, Elems, ChainAt;
      EmptyIsEmpty(newTable.bucket[..]);
      EmptyPlaced(hasher, newTable.bucket[..]);
      hide Placed;
      ghost var s := newTable.Pair(this);
      assert s.src == full && s.Entries() == Elems(full);
      ghost var grown, stuck;
      ok, grown, stuck := newTable.TransferEntries(this, false);
      ghost var t := newTable.Pair(this);
      assert t.Entries() == s.Entries() && t.Nodes() == s.Nodes() + grown;
      if ok {
        EmptyIsEmpty(bucket[..]);
        return;
      }
      freeEntries := newTable.freeEntries;
      RollBack(newTable, full);
    }

    // ----- lookup, insertion, deletion --------------------------------------

    ghost predicate Absent(entry: T)
      reads this, bucket
    {
      forall y :: y in Contents() ==> entry != y && !comparator(entry, y)
    }

    /** An entry that matches nothing in its own bucket matches nothing at all. */
    lemma AbsentFromBucket(entry: T)
      requires Valid()
      requires hasher(entry, bucket.Length) < bucket.Length
      requires forall k :: 0 <= k < |bucket[hasher(entry, bucket.Length)]| ==>
                 var y := bucket[hasher(entry, bucket.Length)][k]; entry != y && !comparator(entry, y)
      ensures Absent(entry)
    {
      forall y | y in Contents()
        ensures entry != y && !comparator(entry, y)
      {
        InBucket(hasher, bucket[..], y);
      }
    }

    /** Position of the entry matching `entry` in bucket b, if there is one: the
        head first, then the overflow. */
    method ScanBucket(entry: T, b: nat) returns (pos: Option<nat>)
      requires b < bucket.Length
      ensures pos.Some? ==> pos.value < |bucket[b]| && (entry == bucket[b][pos.value] || comparator(entry, bucket[b][pos.value]))
      ensures pos.None? ==> forall k :: 0 <= k < |bucket[b]| ==> entry != bucket[b][k] && !comparator(entry, bucket[b][k])
    {
      var chain := bucket[b];
      if chain == [] {
        return None;
      }
      if Matches(entry, chain[0]) {
        return Some(0);
      }
      var cursor := 0;
      while cursor + 1 < |chain|
        invariant cursor < |chain|
        invariant forall k :: 0 <= k <= cursor ==> !Matches(entry, chain[k])
      {
        if Matches(entry, chain[cursor + 1]) {
          return Some(cursor + 1);
        }
        cursor := cursor + 1;
      }
      pos := None;
    }

    /** hash_find_entry: the stored entry matching `entry` and the bucket it
        selects.  With `delete`, the match is unlinked; an overflow node becomes
        free unless the match was alone in its bucket. */
    method FindEntry(entry: T, delete: bool) returns (data: Option<T>, b: nat)
      requires Valid()
      modifies this`freeEntries, bucket
      ensures b == hasher(entry, bucket.Length) < bucket.Length
      ensures data.None? ==> old(Absent(entry))
      ensures data.Some? ==> data.value in old(Contents()) && (entry == data.value || comparator(entry, data.value))
      ensures !delete || data.None? ==> bucket[..] == old(bucket[..]) && freeEntries == old(freeEntries)
      ensures delete && data.Some? ==>
        && Placed(hasher, bucket[..])
        && Contents() + multiset{data.value} == old(Contents())
        && Used(bucket[..]) + (if bucket[b] == [] then 1 else 0) == nBucketsUsed
        && Overflow(bucket[..]) + freeEntries == old(Overflow(bucket[..]) + freeEntries)
    {
      hide Used, Overflow, Elems, ChainAt, OnePerKey;
      b := hasher(entry, bucket.Length);
      var pos := ScanBucket(entry, b);
      if pos.None? {
        AbsentFromBucket(entry);
        return None, b;
      }
      var k := pos.value;
      data := Some(bucket[b][k]);
      InElems(bucket[..], b, k);
      if delete {
        ghost var before := bucket[..];
        UnlinkFacts(hasher, before, b, k);
        if |bucket[b]| > 1 {
          // a head is overwritten by the first overflow entry, an overflow entry
          // is linked out: in both cases one node goes to the free list
          freeEntries := freeEntries + 1;
          bucket[b] := Unlink(bucket[b], k);
        } else {
          bucket[b] := [];
        }
        assert bucket[..] == before[b := Unlink(before[b], k)];
      }
    }

    method Lookup(entry: T) returns (data: Option<T>)
      requires Valid()
      ensures data.None? ==> Absent(entry)
      ensures data.Some? ==> data.value in Contents() && (entry == data.value || comparator(entry, data.value))
    {
      var b := hasher(entry, bucket.Length);
      var pos := ScanBucket(entry, b);
      if pos.None? {
        AbsentFromBucket(entry);
        return None;
      }
      InElems(bucket[..], b, pos.value);
      data := Some(bucket[b][pos.value]);
    }

    /** hash_insert_if_absent: 0 with the stored match and an untouched table, 1
        after adding `entry`, -1 (contents unchanged) if memory ran out. */
    method InsertIfAbsent(entry: T) returns (r: int, matched: Option<T>)
      requires Valid()
      modifies this, bucket
      ensures Valid() && (bucket == old(bucket) || fresh(bucket))
      ensures r == 0 || r == 1 || r == -1
      ensures r == 0 <==> !old(Absent(entry))
      ensures r == 0 <==> matched.Some?
      ensures r == 0 ==> matched.value in old(Contents()) && (entry == matched.value || comparator(entry, matched.value))
      ensures r == 0 ==> bucket == old(bucket) && bucket[..] == old(bucket[..])
      ensures r == 1 ==> Contents() == old(Contents()) + multiset{entry}
      ensures r == -1 ==> scarce && Contents() == old(Contents())
    {
      hide Used, Overflow, Elems, ChainAt, Placed, OnePerKey, WellBehaved;
      var b;
      matched, b := FindEntry(entry, false);
      if matched.Some? {
        return 0, matched;
      }
      var thresholdReached: bool := *;
      if thresholdReached {
        var candidateInRange := Succeeds(scarce);
        if !candidateInRange {
          return -1, None;
        }
        var newSize: nat :| scarce || newSize > 0;
        var ok := Rehash(newSize);
        if !ok {
          return -1, None;
        }
        var again;
        again, b := FindEntry(entry, false);
        if again.Some? {
          assert false;
        }
      }
      r := AddEntry(entry, b);
    }

    /** The end of hash_insert_if_absent: link a new entry into its bucket. */
    method AddEntry(entry: T, b: nat) returns (r: int)
      requires Valid() && Absent(entry) && b == hasher(entry, bucket.Length) < bucket.Length
      modifies this`nBucketsUsed, this`nEntries, this`freeEntries, bucket
      ensures Valid()
      ensures r == 1 || r == -1
      ensures r == 1 ==> Contents() == old(Contents()) + multiset{entry}
      ensures r == -1 ==> scarce && old(bucket[b] != [] && freeEntries == 0) && bucket[..] == old(bucket[..])
    {
      hide Used, Overflow, Elems, ChainAt, Placed, OnePerKey, WellBehaved, Push;
      ghost var before := bucket[..];
      PushPlaced(hasher, before, entry);
      PushCounts(before, b, entry);
      PushIs(before, b, entry);
      OneMore(Elems(before), entry);
      if bucket[b] != [] {
        ghost var grown;
        var ok;
        ok, grown := AllocateEntry();
        if !ok {
          return -1;
        }
        bucket[b] := [bucket[b][0], entry] + bucket[b][1..];
        nEntries := nEntries + 1;
        assert bucket[..] == Push(before, b, entry);
        return 1;
      }
      bucket[b] := [entry];
      nEntries := nEntries + 1;
      nBucketsUsed := nBucketsUsed + 1;
      assert bucket[..] == Push(before, b, entry);
      r := 1;
    }

    lemma OneMore(m: multiset<T>, entry: T)
      requires WellBehaved(hasher, Matches) && OnePerKey(Matches, m) && forall y :: y in m ==> !Matches(entry, y)
      ensures OnePerKey(Matches, m + multiset{entry})
    {
      var more := m + multiset{entry};
      assert entry !in m;
      forall x, y | x in more && y in more && Matches(x, y)
        ensures x == y
      {
        assert Matches(y, x);
      }
    }

    /** hash_delete: take out the entry matching `entry`, if there is one.  A failed
        shrink only costs the spare nodes. */
    method Delete(entry: T) returns (data: Option<T>)
      requires Valid()
      modifies this, bucket
      ensures Valid() && (bucket == old(bucket) || fresh(bucket))
      ensures data.None? ==> old(Absent(entry)) && bucket == old(bucket) && bucket[..] == old(bucket[..])
      ensures data.Some? ==> data.value in old(Contents()) && (entry == data.value || comparator(entry, data.value))
      ensures data.Some? ==> Contents() + multiset{data.value} == old(Contents())
    {
      hide Used, Overflow, Elems, ChainAt;
      ghost var contents := Contents();
      var b;
      data, b := FindEntry(entry, true);
      if data.None? {
        return;
      }
      nEntries := nEntries - 1;
      assert Contents() == contents - multiset{data.value};
      if bucket[b] == [] {
        nBucketsUsed := nBucketsUsed - 1;
        assert Valid();
        var shrink: bool := *;
        if shrink {
          var newSize: nat := *;
          var ok := Rehash(newSize);
          if !ok {
            freeEntries := 0;
          }
        }
      }
    }

    // ----- walking ----------------------------------------------------------

    ghost function Order(): seq<T>
      reads this, bucket
    {
      Flatten(bucket[..])
    }

    /** hash_get_first; the scan past the last bucket is never reached. */
    method GetFirst() returns (data: Option<T>)
      requires Valid()
      ensures data == if Order() == [] then None else Some(Order()[0])
    {
      if nEntries == 0 {
        return None;
      }
      var i := 0;
      while true
        invariant i <= bucket.Length
        invariant Flatten(bucket[..i]) == []
        decreases bucket.Length - i
      {
        SomeBucketLeft(bucket[..], i);
        if i >= bucket.Length {
          assert false;
        } else if bucket[i] != [] {
          FlattenAt(bucket[..], i);
          return Some(bucket[i][0]);
        }
        FlattenAt(bucket[..], i);
        i := i + 1;
      }
    }

    /** The first entry in bucket i or later. */
    method FirstFrom(i: nat) returns (data: Option<T>)
      requires i <= bucket.Length
      ensures var base := |Flatten(bucket[..i])|;
              && base <= |Order()|
              && data == if base < |Order()| then Some(Order()[base]) else None
    {
      hide Flatten;
      var k := i;
      while k < bucket.Length
        invariant i <= k <= bucket.Length
        invariant Flatten(bucket[..k]) == Flatten(bucket[..i])
      {
        FlattenAt(bucket[..], k);
        assert bucket[..][..k] == bucket[..k];
        if bucket[k] != [] {
          assert Order()[|Flatten(bucket[..k])|..][0] == bucket[k][0];
          return Some(bucket[k][0]);
        }
        assert bucket[..][..k + 1] == bucket[..k + 1];
        k := k + 1;
      }
      assert bucket[..k] == bucket[..];
      data := None;
    }

    /** hash_get_next: the entry after `entry`, which is entry `at` of the walk. */
    method GetNext(entry: T, ghost at: nat) returns (data: Option<T>)
      requires Valid() && at < |Order()| && Order()[at] == entry
      ensures data == if at + 1 < |Order()| then Some(Order()[at + 1]) else None
    {
      hide *;
      var b := hasher(entry, bucket.Length);
      UniquePosition(entry, at);
      EntryAt(entry, at);
      ChainOrder(b);
      ghost var base := |Flatten(bucket[..b])|;
      var chain := bucket[b];
      var cursor := 0;
      while cursor < |chain|
        invariant cursor <= |chain|
        invariant forall j :: 0 <= j < cursor && j + 1 < |chain| ==> chain[j] != entry
      {
        if chain[cursor] == entry && cursor + 1 < |chain| {
          assert Order()[base + cursor] == entry;
          return Some(chain[cursor + 1]);
        }
        cursor := cursor + 1;
      }
      ghost var k :| 0 <= k < |chain| && chain[k] == entry;
      assert Order()[base + k] == entry;
      data := FirstFrom(b + 1);
    }

    /** An entry of the walking order is in its bucket. */
    lemma EntryAt(entry: T, at: nat)
      requires Valid() && at < |Order()| && Order()[at] == entry
      ensures hasher(entry, bucket.Length) < bucket.Length && entry in bucket[hasher(entry, bucket.Length)]
    {
      hide Flatten, Used, Overflow, ChainAt, OnePerKey, Placed;
      InBucket(hasher, bucket[..], entry);
    }

    /** The chain of bucket b in the walking order. */
    lemma ChainOrder(b: nat)
      requires b < bucket.Length
      ensures var base := |Flatten(bucket[..b])|;
              && base + |bucket[b]| == |Flatten(bucket[..b + 1])| <= |Order()|
              && forall k :: 0 <= k < |bucket[b]| ==> Order()[base + k] == bucket[b][k]
    {
      hide Flatten;
      FlattenAt(bucket[..], b);
      assert bucket[..][..b] == bucket[..b] && bucket[..][..b + 1] == bucket[..b + 1];
    }

    /** No entry occurs twice in the walking order. */
    lemma UniquePosition(entry: T, p: nat)
      requires Valid() && p < |Order()| && Order()[p] == entry
      ensures forall k :: 0 <= k < |Order()| && Order()[k] == entry ==> k == p
    {
      forall k | 0 <= k < |Order()| && Order()[k] == entry
        ensures k == p
      {
        Duplicates(Order(), k, p);
        assert Contents()[entry] <= 1;
      }
    }

    /** A walk from hash_get_first through hash_get_next meets every entry exactly
        once. */
    method Walk() returns (visited: seq<T>)
      requires Valid()
      ensures visited == Order() && multiset(visited) == Contents()
      ensures forall i, j :: 0 <= i < j < |visited| ==> visited[i] != visited[j]
    {
      hide Flatten, Used, Overflow, ChainAt, Placed, OnePerKey, WellBehaved;
      ghost var order := Order();
      visited := [];
      var iter := GetFirst();
      while iter.Some?
        invariant order == Order()
        invariant |visited| <= |order| && visited == order[..|visited|]
        invariant iter == if |visited| == |order| then None else Some(order[|visited|])
        decreases |order| - |visited|
      {
        var entry := iter.value;
        iter := GetNext(entry, |visited|);
        visited := visited + [entry];
      }
      forall i, j | 0 <= i < j < |visited|
        ensures visited[i] != visited[j]
      {
        UniquePosition(visited[i], i);
      }
    }

    /** hash_insert_if_absent of entries that all have a match. */
    method InsertAgain(entries: seq<T>)
      requires Valid() && forall k :: 0 <= k < |entries| ==> !Absent(entries[k])
      modifies this, bucket
      ensures Valid() && bucket == old(bucket) && bucket[..] == old(bucket[..])
    {
      hide Valid, Elems;
      for i := 0 to |entries|
        invariant Valid() && bucket == old(bucket) && bucket[..] == old(bucket[..])
      {
        assert Contents() == old(Contents());
        assert Absent(entries[i]) == old(Absent(entries[i]));
        var r, _ := InsertIfAbsent(entries[i]);
      }
    }

    /** A walk in the course of which entries are inserted that have a match, as when the
        records of a directory are loaded again: it visits what it would visit without. */
    method WalkInserting(again: seq<T>) returns (visited: seq<T>)
      requires Valid() && forall k :: 0 <= k < |again| ==> !Absent(again[k])
      modifies this, bucket
      ensures Valid() && visited == old(Order()) && bucket == old(bucket) && bucket[..] == old(bucket[..])
    {
      hide Flatten, Valid, Elems;
      ghost var order := Order();
      visited := [];
      var iter := GetFirst();
      while iter.Some?
        invariant Valid() && bucket == old(bucket) && bucket[..] == old(bucket[..]) && order == Order()
        invariant |visited| <= |order| && visited == order[..|visited|]
        invariant iter == if |visited| == |order| then None else Some(order[|visited|])
        decreases |order| - |visited|
      {
        var entry := iter.value;
        assert Contents() == old(Contents());
        assert forall k :: 0 <= k < |again| ==> Absent(again[k]) == old(Absent(again[k]));
        InsertAgain(again);
        iter := GetNext(entry, |visited|);
        visited := visited + [entry];
      }
    }

    // ----- whole runs -------------------------------------------------------

    /** Any sequence of operations behaves like the finite map that Step describes. */
    method Run(ops: seq<Op<T>>) returns (replies: seq<Reply<T>>, ghost states: seq<multiset<T>>)
      requires Valid()
      modifies this, bucket
      ensures Valid()
      ensures |replies| == |ops| && |states| == |ops| + 1
      ensures states[0] == old(Contents()) && states[|ops|] == Contents()
      ensures forall k :: 0 <= k < |ops| ==> Step(Matches, scarce, states[k], ops[k], replies[k], states[k + 1])
      ensures forall k :: 0 <= k <= |ops| ==> OnePerKey(Matches, states[k])
    {
      hide Elems, Counted, WellBehaved, Placed, OnePerKey, Step;
      replies, states := [], [Contents()];
      for i := 0 to |ops|
        invariant Valid() && (bucket == old(bucket) || fresh(bucket))
        invariant |replies| == i && |states| == i + 1
        invariant states[0] == old(Contents()) && states[i] == Contents()
        invariant forall k :: 0 <= k < i ==> Step(Matches, scarce, states[k], ops[k], replies[k], states[k + 1])
        invariant forall k :: 0 <= k <= i ==> OnePerKey(Matches, states[k])
      {
        var reply := Perform(ops[i]);
        replies := replies + [reply];
        states := states + [Contents()];
      }
    }

    /** Where the comparator tells whether two entries have the same key, every sequence of
        operations behaves like a map from keys to entries. */
    method RunKeyed<K(!new)>(ops: seq<Op<T>>, ghost key: T -> K, ghost start: map<K, T>)
      returns (replies: seq<Reply<T>>, ghost maps: seq<map<K, T>>)
      requires Valid() && Represents(key, start, Contents())
      requires forall x, y :: comparator(x, y) <==> key(x) == key(y)
      modifies this, bucket
      ensures Valid()
      ensures |replies| == |ops| && |maps| == |ops| + 1
      ensures maps[0] == start && Represents(key, maps[|ops|], Contents())
      ensures forall k :: 0 <= k < |ops| ==> MapStep(key, scarce, maps[k], ops[k], replies[k], maps[k + 1])
    {
      hide Elems, Counted, WellBehaved, Placed, OnePerKey, MapStep, Represents;
      replies, maps := [], [start];
      for i := 0 to |ops|
        invariant Valid() && (bucket == old(bucket) || fresh(bucket))
        invariant |replies| == i && |maps| == i + 1
        invariant maps[0] == start && Represents(key, maps[i], Contents())
        invariant forall k :: 0 <= k < i ==> MapStep(key, scarce, maps[k], ops[k], replies[k], maps[k + 1])
      {
        ghost var before := Contents();
        var reply := Perform(ops[i]);
        ghost var next := StepKeyed(key, scarce, Matches, maps[i], before, ops[i], reply, Contents());
        replies := replies + [reply];
        maps := maps + [next];
      }
    }

    method Perform(op: Op<T>) returns (reply: Reply<T>)
      requires Valid()
      modifies this, bucket
      ensures Valid() && (bucket == old(bucket) || fresh(bucket))
      ensures Step(Matches, scarce, old(Contents()), op, reply, Contents())
    {
      hide Elems, Counted, WellBehaved, Placed, OnePerKey;
      match op
      case Insert(x) =>
        var r, matched := InsertIfAbsent(x);
        reply := if r == 0 then Found(matched.value) else if r == 1 then Done else NoMemory;
      case Remove(x) =>
        var data := Delete(x);
        reply := if data.Some? then Found(data.value) else NotFound;
      case Find(x) =>
        var data := Lookup(x);
        reply := if data.Some? then Found(data.value) else NotFound;
      case Resize(n) =>
        var ok := Rehash(n);
        reply := if ok then Done else NoMemory;
    }
  }

  lemma Duplicates<T>(s: seq<T>, i: nat, j: nat)
    requires i < |s| && j < |s| && s[i] == s[j]
    ensures i != j ==> multiset(s)[s[i]] >= 2
  {
    if i != j {
      var lo, hi := if i < j then i else j, if i < j then j else i;
      assert s == s[..lo] + [s[lo]] + s[lo + 1..hi] + [s[hi]] + s[hi + 1..];
    }
  }
}
