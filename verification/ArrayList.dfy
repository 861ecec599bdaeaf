/** gl_array_list: a list in a growing array, its iterator, and its use as a sorted
    list. */
module ArrayList {
  import opened Options
  import opened Allocation
  import opened XSize

  const ADDRESS_BYTES := 8   // sizeof (const void *)

  /** Adding an element gives its position, or fails for want of memory; a position that
      is out of range ends the program. */
  datatype Result = At(position: nat) | NoMemory | Aborted

  function Inserted<T>(s: seq<T>, position: nat, x: T): seq<T>
    requires position <= |s|
  {
    s[..position] + [x] + s[position..]
  }

  function Removed<T>(s: seq<T>, position: nat): seq<T>
    requires position < |s|
  {
    s[..position] + s[position + 1..]
  }

  /** Inserting moves what is behind the position by one, and removing moves it back. */
  lemma InsertedBack<T>(s: seq<T>, position: nat, x: T)
    requires position <= |s|
    ensures var t := Inserted(s, position, x);
            && |t| == |s| + 1 && t[position] == x && multiset(t) == multiset(s) + multiset{x}
            && (forall i :: 0 <= i < position ==> t[i] == s[i])
            && (forall i :: position < i < |t| ==> t[i] == s[i - 1])
            && Removed(t, position) == s
  {
    var t := Inserted(s, position, x);
    assert t[..position] == s[..position] && t[position + 1..] == s[position..];
    assert s == s[..position] + s[position..];
  }

  class List<T(0)> {
    var elements: array<T>
    var count: nat
    var capacity: nat
    const scarce: bool   // may allocations fail?

    predicate Valid()
      reads this`elements, this`count, this`capacity
    {
      count <= capacity == elements.Length <= SIZE_MAX
    }

    function Contents(): (s: seq<T>)
      requires Valid()
      reads this`elements, this`count, this`capacity, elements
      ensures |s| == count
    {
      elements[..count]
    }

    /** gl_array_nx_create_empty */
    constructor (scarce: bool)
      ensures Valid() && fresh(elements) && Contents() == [] && this.scarce == scarce
    {
      this.scarce := scarce;
      elements := new T[0];
      count, capacity := 0, 0;
    }

    /** Is there no size for an array of more than twice the length? */
    predicate Immense()
      reads this`count
    {
      (2 * count + 1) * ADDRESS_BYTES >= SIZE_MAX
    }

    /** grow: makes room for one more element. */
    method Grow() returns (ok: bool)
      requires Valid() && count == capacity
      modifies this`elements, this`capacity
      ensures Valid() && Contents() == old(Contents())
      ensures ok ==> count < capacity && fresh(elements)
      ensures !ok ==> elements == old(elements) && (scarce || Immense())
    {
      var newCapacity := Xtimes(capacity, 2);
      XtimesIs(capacity, 2);
      newCapacity := Xsum(newCapacity, 1);
      XsumIs(Saturated(capacity * 2), 1);
      var memorySize := Xtimes(newCapacity, ADDRESS_BYTES);
      XtimesIs(newCapacity, ADDRESS_BYTES);
      if memorySize == SIZE_MAX {
        return false;
      }
      var reallocOk := Succeeds(scarce);
      if !reallocOk {
        return false;
      }
      assert memorySize / ADDRESS_BYTES == newCapacity;
      var memory := new T[memorySize / ADDRESS_BYTES];
      for i := 0 to count
        invariant elements == old(elements) && capacity == old(capacity) && memory[..i] == elements[..i]
      {
        memory[i] := elements[i];
      }
      elements := memory;
      capacity := newCapacity;
      ok := true;
    }

    /** Moves the elements from position on up by one, and stores x there. */
    method ShiftUp(position: nat, x: T)
      requires Valid() && position <= count < capacity
      modifies this`count, elements
      ensures Valid() && Contents() == Inserted(old(Contents()), position, x)
    {
      ghost var s := Contents();
      var i := count;
      while i > position
        invariant position <= i <= count == |s|
        invariant forall k :: 0 <= k < i ==> elements[k] == s[k]
        invariant forall k :: i < k <= count ==> elements[k] == s[k - 1]
      {
        elements[i] := elements[i - 1];
        i := i - 1;
      }
      elements[position] := x;
      count := count + 1;
      InsertedIs(s, Contents(), position, x);
    }

    /** gl_array_nx_add_at */
    method AddAt(position: nat, x: T) returns (r: Result)
      requires Valid()
      modifies this, elements
      ensures Valid() && (elements == old(elements) || fresh(elements))
      ensures r.At? ==> r.position == position <= |old(Contents())|
                        && Contents() == Inserted(old(Contents()), position, x)
      ensures r.NoMemory? || r.Aborted? ==> Contents() == old(Contents())
      ensures r.Aborted? <==> position > |old(Contents())|
      ensures r.NoMemory? ==> old(count == capacity) && (scarce || old(Immense()))
    {
      if !(position <= count) {
        return Aborted;
      }
      if count == capacity {
        var ok := Grow();
        if !ok {
          return NoMemory;
        }
      }
      ShiftUp(position, x);
      r := At(position);
    }

    /** gl_array_nx_add_last */
    method AddLast(x: T) returns (r: Result)
      requires Valid()
      modifies this, elements
      ensures Valid() && !r.Aborted? && (elements == old(elements) || fresh(elements))
      ensures r.At? ==> r.position == |old(Contents())| && Contents() == old(Contents()) + [x]
      ensures r.NoMemory? ==> Contents() == old(Contents()) && old(count == capacity) && (scarce || old(Immense()))
    {
      if count == capacity {
        var ok := Grow();
        if !ok {
          return NoMemory;
        }
      }
      elements[count] := x;
      count := count + 1;
      r := At(count - 1);
    }

    /** gl_array_remove_at, which ends the program if there is no such position. */
    method RemoveAt(position: nat) returns (ok: bool)
      requires Valid()
      modifies this`count, elements
      ensures Valid() && (ok <==> position < |old(Contents())|)
      ensures Contents() == if ok then Removed(old(Contents()), position) else old(Contents())
    {
      if !(position < count) {
        return false;
      }
      ghost var s := Contents();
      var i := position + 1;
      while i < count
        invariant position < i <= count == |s|
        invariant forall k :: 0 <= k < position ==> elements[k] == s[k]
        invariant forall k :: position <= k < i - 1 ==> elements[k] == s[k + 1]
        invariant forall k :: i <= k < count ==> elements[k] == s[k]
      {
        elements[i - 1] := elements[i];
        i := i + 1;
      }
      count := count - 1;
      RemovedIs(s, Contents(), position);
      ok := true;
    }
  }

  lemma InsertedIs<T>(s: seq<T>, t: seq<T>, position: nat, x: T)
    requires position <= |s| && |t| == |s| + 1 && t[position] == x
    requires (forall k :: 0 <= k < position ==> t[k] == s[k]) && forall k :: position < k < |t| ==> t[k] == s[k - 1]
    ensures t == Inserted(s, position, x)
  {
  }

  lemma RemovedIs<T>(s: seq<T>, t: seq<T>, position: nat)
    requires position < |s| == |t| + 1
    requires (forall k :: 0 <= k < position ==> t[k] == s[k]) && forall k :: position <= k < |t| ==> t[k] == s[k + 1]
    ensures t == Removed(s, position)
  {
  }

  // ----- iteration ----------------------------------------------------------

  /** gl_list_iterator_t; p and q are positions in the list's array. */
  class Cursor<T(0)> {
    const list: List<T>
    var count: nat
    var p: nat
    var q: nat

    /** Since the last step the list is the same, or the element returned then has been
        removed. */
    predicate Fits()
      reads this, list`count
    {
      p <= q <= count && (count == list.count || (count == list.count + 1 && p > 0))
    }

    /** Where the elements begin that are still to come. */
    function Start(): nat
      requires Fits()
      reads this, list`count
    {
      if count == list.count then p else p - 1
    }

    /** Where they end. */
    function End(): nat
      requires Fits()
      reads this, list`count
    {
      if count == list.count || q == 0 then q else q - 1
    }

    /** The elements that are still to come. */
    function Rest(): seq<T>
      requires list.Valid() && Fits()
      reads this, list, list.elements
    {
      list.Contents()[Start()..End()]
    }

    /** gl_array_iterator_from_to */
    constructor (list: List<T>, start: nat, end: nat)
      requires list.Valid() && start <= end <= list.count
      ensures this.list == list && Fits() && count == list.count && p == start && q == end
      ensures Rest() == list.Contents()[start..end]
    {
      this.list, count, p, q := list, list.count, start, end;
    }

    /** gl_array_iterator_next */
    method Next() returns (x: Option<T>)
      requires list.Valid() && Fits()
      modifies this
      ensures Fits() && count == list.count && q == old(End())
      ensures old(Rest()) == [] ==> x.None? && p == old(Start())
      ensures old(Rest()) != [] ==> x == Some(old(Rest())[0]) && p == old(Start()) + 1 && Rest() == old(Rest())[1..]
    {
      if count != list.count {
        count := count - 1;
        p, q := p - 1, q - 1;
      }
      if p < q {
        x := Some(list.elements[p]);
        p := p + 1;
      } else {
        x := None;
      }
    }
  }

  function Kept<T>(s: seq<T>, keep: T -> bool): seq<T> {
    if s == [] then [] else Kept(s[..|s| - 1], keep) + if keep(s[|s| - 1]) then [s[|s| - 1]] else []
  }

  /** The places of some elements in a list, in order, and of all those to be kept. */
  predicate PlacesOf<T(==)>(kept: seq<T>, s: seq<T>, keep: T -> bool, places: seq<nat>) {
    && |places| == |kept|
    && (forall i :: 0 <= i < |kept| ==> places[i] < |s| && kept[i] == s[places[i]] && keep(s[places[i]]))
    && (forall i, j :: 0 <= i < j < |places| ==> places[i] < places[j])
    && (forall k :: 0 <= k < |s| && keep(s[k]) ==> k in places)
  }

  /** What is kept are the elements that should be, in order: each has its place. */
  lemma {:induction false} KeptIs<T>(s: seq<T>, keep: T -> bool) returns (places: seq<nat>)
    ensures PlacesOf(Kept(s, keep), s, keep, places)
  {
    if s == [] {
      places := [];
    } else {
      var n := |s| - 1;
      places := KeptIs(s[..n], keep);
      KeptNext(s[..n], s[n], keep);
      hide *;
      assert s[..n] + [s[n]] == s;
      PlacesNext(Kept(s[..n], keep), s[..n], s[n], keep, places);
      places := if keep(s[n]) then places + [n] else places;
      assert Kept(s[..n], keep) + [] == Kept(s[..n], keep);
    }
  }

  lemma PlacesNext<T>(kept: seq<T>, s: seq<T>, x: T, keep: T -> bool, places: seq<nat>)
    requires PlacesOf(kept, s, keep, places)
    ensures if keep(x) then PlacesOf(kept + [x], s + [x], keep, places + [|s|]) else PlacesOf(kept, s + [x], keep, places)
  {
    var next := places + [|s|];
    assert next[|places|] == |s|;
  }

  lemma KeptNext<T>(s: seq<T>, x: T, keep: T -> bool)
    ensures Kept(s + [x], keep) == Kept(s, keep) + if keep(x) then [x] else []
  {
    assert (s + [x])[..|s|] == s;
  }

  lemma RemovedAt<T>(s: seq<T>, k: nat)
    requires k < |s|
    ensures Removed(s, k)[..k] == s[..k] && Removed(s, k)[k..] == s[k + 1..]
  {
  }

  /** The elements seen have been returned, and those to be kept are in the list before
      those that are still to come. */
  ghost predicate Swept<T(0)>(it: Cursor<T>, keep: T -> bool, seen: seq<T>, all: seq<T>)
    reads it, it.list, it.list.elements
  {
    && it.list.Valid() && it.Fits() && it.End() == it.list.count
    && it.list.Contents()[..it.Start()] == Kept(seen, keep) && seen + it.list.Contents()[it.Start()..] == all
  }

  /** Removing elements during an iteration, each right after it has been returned: every
      element is returned once, in order, and those removed are gone at the end. */
  method Sweep<T(0)>(list: List<T>, keep: T -> bool) returns (seen: seq<T>)
    requires list.Valid()
    modifies list`count, list.elements
    ensures list.Valid() && seen == old(list.Contents()) && list.Contents() == Kept(seen, keep)
  {
    ghost var all := list.Contents();
    var it := new Cursor(list, 0, list.count);
    seen := [];
    assert Swept(it, keep, seen, all);
    hide Swept, Kept;
    var more := true;
    while more
      invariant fresh(it) && it.list == list
      invariant more ==> Swept(it, keep, seen, all)
      invariant !more ==> list.Valid() && seen == all && list.Contents() == Kept(seen, keep)
      decreases |all| - |seen|, if more then 1 else 0
    {
      more, seen := SweepNext(it, keep, seen, all);
    }
  }

  /** One turn: takes the next element, and removes it unless it is to be kept. */
  method SweepNext<T(0)>(it: Cursor<T>, keep: T -> bool, seen0: seq<T>, ghost all: seq<T>) returns (more: bool, seen: seq<T>)
    requires Swept(it, keep, seen0, all)
    modifies it, it.list`count, it.list.elements
    ensures more ==> Swept(it, keep, seen, all) && |seen| == |seen0| + 1 <= |all|
    ensures !more ==> it.list.Valid() && seen == seen0 == all && it.list.Contents() == Kept(seen, keep)
  {
    SplitAt(it.list.Contents(), it.Start());
    ghost var rest := it.list.Contents()[it.Start()..];
    var x := it.Next();
    if x.None? {
      return false, seen0;
    }
    assert seen0 + rest == seen0 + [x.value] + it.list.Contents()[it.p..];
    seen := SweepStep(it.list, it, keep, x.value, seen0, all);
    more := true;
  }

  lemma SplitAt<T>(s: seq<T>, k: nat)
    requires k <= |s|
    ensures k < |s| ==> s[k..] == [s[k]] + s[k + 1..]
    ensures k == |s| ==> s[k..] == [] && s[..k] == s
  {
  }

  /** Removes the element just returned, unless it is to be kept. */
  method SweepStep<T(0)>(list: List<T>, it: Cursor<T>, keep: T -> bool, x: T, seen0: seq<T>, ghost all: seq<T>)
    returns (seen: seq<T>)
    requires list.Valid() && it.Fits() && it.list == list && it.count == list.count == it.q && 0 < it.p
    requires list.Contents()[it.p - 1] == x && list.Contents()[..it.p - 1] == Kept(seen0, keep)
    requires seen0 + [x] + list.Contents()[it.p..] == all
    modifies list`count, list.elements
    ensures list.Valid() && it.Fits() && it.End() == list.count && |seen| == |seen0| + 1
    ensures list.Contents()[..it.Start()] == Kept(seen, keep) && seen + list.Contents()[it.Start()..] == all
  {
    seen := seen0 + [x];
    KeptNext(seen0, x, keep);
    ghost var s := list.Contents();
    RemovedAt(s, it.p - 1);
    if !keep(x) {
      var ok := list.RemoveAt(it.p - 1);
      assert it.Start() == it.p - 1;
    } else {
      assert s[..it.p] == s[..it.p - 1] + [x];
    }
  }
}
