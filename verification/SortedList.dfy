/** gl_array_list used as a sorted list: binary search, insertion and removal. */
module SortedList {
  import opened Options
  import opened ArrayList

  // ----- orders -------------------------------------------------------------

  /** A comparison function as qsort expects it. */
  ghost predicate Ordering<T(!new)>(compar: (T, T) -> int) {
    && (forall x, y :: compar(x, y) < 0 <==> compar(y, x) > 0)
    && (forall x, y, z :: compar(x, y) <= 0 && compar(y, z) <= 0 ==> compar(x, z) <= 0)
  }

  ghost predicate Sorted<T>(s: seq<T>, compar: (T, T) -> int) {
    forall i, j :: 0 <= i < j < |s| ==> compar(s[i], s[j]) <= 0
  }

  /** Sorted without equal elements. */
  ghost predicate StrictlySorted<T>(s: seq<T>, compar: (T, T) -> int) {
    forall i, j :: 0 <= i < j < |s| ==> compar(s[i], s[j]) < 0
  }

  /** The first element of s from low to below high that is equal to x. */
  ghost predicate IsFirst<T>(s: seq<T>, compar: (T, T) -> int, x: T, low: nat, high: nat, f: nat)
    requires high <= |s|
  {
    low <= f < high && compar(s[f], x) == 0 && forall k :: low <= k < f ==> compar(s[k], x) < 0
  }

  ghost predicate Occurs<T>(s: seq<T>, compar: (T, T) -> int, x: T, low: nat, high: nat)
    requires high <= |s|
  {
    exists k :: low <= k < high && compar(s[k], x) == 0
  }

  /** In a sorted list, what is below an element compares no higher with x, and so on. */
  lemma Compared<T(!new)>(s: seq<T>, compar: (T, T) -> int, x: T, i: nat, j: nat)
    requires Ordering(compar) && Sorted(s, compar) && i < j < |s|
    ensures compar(s[j], x) <= 0 ==> compar(s[i], x) <= 0
    ensures compar(s[j], x) < 0 ==> compar(s[i], x) < 0
    ensures compar(s[i], x) >= 0 ==> compar(s[j], x) >= 0
    ensures compar(s[i], x) > 0 ==> compar(s[j], x) > 0
  {
    var a, b := s[i], s[j];
    assert compar(a, b) <= 0;
    assert compar(b, x) <= 0 ==> compar(a, x) <= 0;
    assert compar(x, a) <= 0 ==> compar(x, b) <= 0;
    assert compar(b, x) < 0 <==> compar(x, b) > 0;
    assert compar(a, x) < 0 <==> compar(x, a) > 0;
    assert compar(x, a) < 0 <==> compar(a, x) > 0;
    assert compar(x, b) < 0 <==> compar(b, x) > 0;
    assert compar(x, a) <= 0 && compar(a, b) <= 0 ==> compar(x, b) <= 0;
    assert compar(b, x) <= 0 && compar(x, a) <= 0 ==> compar(b, a) <= 0;
    assert compar(a, b) < 0 <==> compar(b, a) > 0;
  }

  // ----- where the search ends ----------------------------------------------

  /** The search for any equal element: the range it is found in, and where. */
  function Hit<T>(s: seq<T>, compar: (T, T) -> int, x: T, low: nat, high: nat): Option<(nat, nat)>
    requires low <= high <= |s|
    decreases high - low
  {
    if low == high then None else
      var mid := low + (high - low) / 2;
      var cmp := compar(s[mid], x);
      if cmp < 0 then Hit(s, compar, x, mid + 1, high)
      else if cmp > 0 then Hit(s, compar, x, low, mid)
      else Some((low, mid))
  }

  /** Does the search for the leftmost of the equal elements, which are those from f to
      high, probe f itself while low is still below it?  It then leaves f out. */
  predicate Misses(low: nat, high: nat, f: nat)
    requires low <= f <= high
    decreases high - low
  {
    if low == high then false else
      var mid2 := low + (high - low) / 2;
      if mid2 < f then Misses(mid2 + 1, high, f)
      else if mid2 == low then false
      else if mid2 == f then true
      else Misses(low, mid2 - 1, f)
  }

  /** Where the search for the leftmost element ends. */
  function Ends(low: nat, high: nat, f: nat): nat
    requires low <= f <= high
  {
    if f > 0 && Misses(low, high, f) then f - 1 else f
  }

  /** A single equal element is not missed. */
  lemma {:induction false} NeverMissed(low: nat, f: nat)
    requires low <= f
    ensures !Misses(low, f, f)
    decreases f - low
  {
    if low < f {
      NeverMissed(low + (f - low) / 2 + 1, f);
    }
  }

  /** The hit is where it is said to be, and there is one exactly if x occurs. */
  lemma {:induction false} HitIs<T(!new)>(s: seq<T>, compar: (T, T) -> int, x: T, low: nat, high: nat)
    requires low <= high <= |s| && Ordering(compar) && Sorted(s, compar)
    ensures Hit(s, compar, x, low, high).None? <==> !Occurs(s, compar, x, low, high)
    ensures Hit(s, compar, x, low, high).Some? ==>
              var (l, m) := Hit(s, compar, x, low, high).value;
              low <= l <= m < high && compar(s[m], x) == 0 && forall k :: low <= k < l ==> compar(s[k], x) < 0
    decreases high - low
  {
    if low < high {
      var mid := low + (high - low) / 2;
      hide Ordering, Sorted;
      forall k | low <= k < high && k != mid
        ensures k < mid && compar(s[mid], x) < 0 ==> compar(s[k], x) < 0
        ensures k > mid && compar(s[mid], x) > 0 ==> compar(s[k], x) > 0
      {
        if k < mid {
          Compared(s, compar, x, k, mid);
        } else {
          Compared(s, compar, x, mid, k);
        }
      }
      if compar(s[mid], x) < 0 {
        HitIs(s, compar, x, mid + 1, high);
      } else if compar(s[mid], x) > 0 {
        HitIs(s, compar, x, low, mid);
      }
    }
  }

  /** The leftmost equal element at or before one that is equal. */
  lemma {:induction false} Leftmost<T(!new)>(s: seq<T>, compar: (T, T) -> int, x: T, low: nat, m: nat) returns (f: nat)
    requires low <= m < |s| && Ordering(compar) && Sorted(s, compar) && compar(s[m], x) == 0
    ensures IsFirst(s, compar, x, low, m + 1, f)
    ensures forall k :: f <= k <= m ==> compar(s[k], x) == 0
    decreases m - low
  {
    if compar(s[low], x) == 0 {
      f := low;
      forall k | f <= k <= m
        ensures compar(s[k], x) == 0
      {
        if f < k < m {
          Compared(s, compar, x, f, k);
          Compared(s, compar, x, k, m);
        }
      }
    } else {
      Compared(s, compar, x, low, m);
      f := Leftmost(s, compar, x, low + 1, m);
    }
  }

  // ----- search -------------------------------------------------------------

  /** The result of a search: (size_t)(-1) is Missing, a call of abort Aborted. */
  datatype Search = Found(index: nat) | Missing | Aborted

  /** The search for the leftmost of the elements equal to x, which are those from f to
      high: it ends at f, or just before f where f has been missed. */
  method FindLeft<T(0,!new)>(list: List<T>, compar: (T, T) -> int, x: T, low0: nat, high0: nat, ghost f: nat) returns (r: Search)
    requires list.Valid() && low0 <= f <= high0 < list.count
    requires forall k :: low0 <= k < f ==> compar(list.Contents()[k], x) < 0
    requires forall k :: f <= k <= high0 ==> compar(list.Contents()[k], x) == 0
    ensures r == Found(Ends(low0, high0, f))
  {
    var low, high := low0, high0;
    ghost var s := list.Contents();
    if Misses(low0, high0, f) {
      MissedAfter(low0, high0, f);
    }
    while low < high
      invariant low0 <= low <= high <= high0
      invariant if low <= f <= high then Misses(low, high, f) == Misses(low0, high0, f)
                else high == f - 1 && Misses(low0, high0, f)
      decreases high - low
    {
      var mid2 := low + (high - low) / 2;
      var cmp2 := compar(list.elements[mid2], x);
      assert list.elements[mid2] == s[mid2];
      if cmp2 < 0 {
        low := mid2 + 1;
      } else if cmp2 > 0 {
        return Search.Aborted;
      } else {
        if mid2 == low {
          break;
        }
        high := mid2 - 1;
      }
    }
    r := Found(low);
  }

  /** The search for any element equal to x. */
  method FindHit<T(0)>(list: List<T>, compar: (T, T) -> int, low0: nat, high0: nat, x: T) returns (hit: Option<(nat, nat)>)
    requires list.Valid() && low0 <= high0 <= list.count
    ensures hit == Hit(list.Contents(), compar, x, low0, high0)
  {
    ghost var s := list.Contents();
    var low, high := low0, high0;
    while low < high
      invariant low0 <= low <= high <= high0
      invariant Hit(s, compar, x, low, high) == Hit(s, compar, x, low0, high0)
      decreases high - low
    {
      var mid := low + (high - low) / 2;
      var cmp := compar(list.elements[mid], x);
      assert list.elements[mid] == s[mid];
      if cmp < 0 {
        low := mid + 1;
      } else if cmp > 0 {
        high := mid;
      } else {
        return Some((low, mid));
      }
    }
    hit := None;
  }

  /** gl_array_sortedlist_indexof_from_to on a sorted list.  It ends the program only for
      an invalid range; if x occurs, the result is the first position where it does, or
      the position before that one. */
  method SortedIndexOf<T(0,!new)>(list: List<T>, compar: (T, T) -> int, low: nat, high: nat, x: T) returns (r: Search)
    requires list.Valid() && Ordering(compar) && Sorted(list.Contents(), compar)
    ensures r.Aborted? <==> !(low <= high <= list.count)
    ensures low <= high <= list.count ==> IsAnswer(list.Contents(), compar, x, low, high, r)
  {
    if !(low <= high <= list.count) {
      return Search.Aborted;
    }
    ghost var s := list.Contents();
    HitIs(s, compar, x, low, high);
    var hit := FindHit(list, compar, low, high, x);
    if hit.None? {
      return Missing;
    }
    var (l, m) := hit.value;
    ghost var f := Leftmost(s, compar, x, l, m);
    hide Ordering, Sorted, Ends, Occurs, Hit;
    r := FindLeft(list, compar, x, l, m, f);
    AnswerIs(s, compar, x, low, high, l, m, f);
  }

  /** What the search answers on a sorted list. */
  ghost predicate IsAnswer<T>(s: seq<T>, compar: (T, T) -> int, x: T, low: nat, high: nat, r: Search)
    requires low <= high <= |s|
  {
    match r
    case Missing => !Occurs(s, compar, x, low, high)
    case Aborted => false
    case Found(i) =>
      exists l, m, f :: Hit(s, compar, x, low, high) == Some((l, m)) && low <= l <= f <= m
                        && IsFirst(s, compar, x, low, high, f) && i == Ends(l, m, f)
  }

  lemma AnswerIs<T>(s: seq<T>, compar: (T, T) -> int, x: T, low: nat, high: nat, l: nat, m: nat, f: nat)
    requires low <= l <= m < high <= |s| && Hit(s, compar, x, low, high) == Some((l, m)) && IsFirst(s, compar, x, l, m + 1, f)
    requires forall k :: low <= k < l ==> compar(s[k], x) < 0
    ensures IsAnswer(s, compar, x, low, high, Found(Ends(l, m, f)))
  {
    hide Hit, Ends;
    assert IsFirst(s, compar, x, low, high, f);
  }

  /** The search ends at the first equal element, f, exactly if the inner bisection of the
      positions from l to m never probes f above its low end; otherwise it ends right
      before f, at a smaller element. */
  lemma FoundFirst<T>(s: seq<T>, compar: (T, T) -> int, x: T, low: nat, high: nat, r: Search, l: nat, m: nat, f: nat)
    requires low <= high <= |s| && IsAnswer(s, compar, x, low, high, r)
    requires Hit(s, compar, x, low, high) == Some((l, m)) && l <= f <= m && IsFirst(s, compar, x, low, high, f)
    ensures Misses(l, m, f) ==> low < f && r == Found(f - 1) && compar(s[f - 1], x) < 0
    ensures !Misses(l, m, f) ==> r == Found(f)
  {
    if Misses(l, m, f) {
      MissedAfter(l, m, f);
    }
    hide Misses, Hit;
    assert Occurs(s, compar, x, low, high);
    var l', m', f' :| Hit(s, compar, x, low, high) == Some((l', m')) && low <= l' <= f' <= m'
                      && IsFirst(s, compar, x, low, high, f') && r.Found? && r.index == Ends(l', m', f');
    assert l' == l && m' == m && f' == f;
  }

  lemma {:induction false} MissedAfter(low: nat, high: nat, f: nat)
    requires low <= f <= high && Misses(low, high, f)
    ensures low < f
    decreases high - low
  {
    var mid2 := low + (high - low) / 2;
    if mid2 < f {
    } else if mid2 != f {
      MissedAfter(low, mid2 - 1, f);
    }
  }

  /** Without equal elements in the list, the search is right. */
  lemma StrictSearch<T(!new)>(s: seq<T>, compar: (T, T) -> int, x: T, low: nat, high: nat, r: Search)
    requires low <= high <= |s| && Ordering(compar) && StrictlySorted(s, compar) && IsAnswer(s, compar, x, low, high, r)
    ensures r.Found? ==> low <= r.index < high && compar(s[r.index], x) == 0
                         && forall k :: low <= k < high && compar(s[k], x) == 0 ==> k == r.index
    ensures r.Missing? ==> !Occurs(s, compar, x, low, high)
  {
    if r.Found? {
      var l, m, f :| Hit(s, compar, x, low, high) == Some((l, m)) && low <= l <= f <= m
                     && IsFirst(s, compar, x, low, high, f) && r.index == Ends(l, m, f);
      HitIs(s, compar, x, low, high);
      hide Hit, Misses, Ends, Occurs;
      forall k: nat | f < k < high
        ensures compar(s[k], x) > 0
      {
        StrictlyAbove(s, compar, x, f, k);
      }
      assert m == f;
      NeverMissed(l, f);
    }
  }

  lemma StrictlyAbove<T(!new)>(s: seq<T>, compar: (T, T) -> int, x: T, i: nat, j: nat)
    requires Ordering(compar) && StrictlySorted(s, compar) && i < j < |s| && compar(s[i], x) == 0
    ensures compar(s[j], x) > 0
  {
    var a, b := s[i], s[j];
    assert compar(b, x) <= 0 && compar(x, a) <= 0 ==> compar(b, a) <= 0;
  }

  function Minus(a: int, b: int): int {
    a - b
  }

  lemma MinusOrders()
    ensures Ordering(Minus)
  {
  }

  /** The positions that the search probes in a list of four. */
  lemma ProbesOfFour(s: seq<int>)
    requires s == [1, 2, 2, 2]
    ensures Hit(s, Minus, 2, 0, 4) == Some((0, 2)) && Ends(0, 2, 1) == 0
  {
    assert Misses(0, 2, 1);
  }

  /** With equal elements it may not be: looking for 2 in [1, 2, 2, 2] finds the 1. */
  lemma SearchAmongEqual(s: seq<int>)
    requires s == [1, 2, 2, 2]
    ensures Ordering(Minus) && Sorted(s, Minus) && IsAnswer(s, Minus, 2, 0, 4, Found(0)) && s[0] != 2
  {
    MinusOrders();
    ProbesOfFour(s);
    assert IsFirst(s, Minus, 2, 0, 4, 1);
    hide Hit, Ends, Ordering;
  }

  // ----- insertion and removal ----------------------------------------------

  /** Where x can be inserted. */
  method InsertionPoint<T(0,!new)>(list: List<T>, compar: (T, T) -> int, x: T) returns (low: nat)
    requires list.Valid() && Ordering(compar) && Sorted(list.Contents(), compar)
    ensures low <= list.count
    ensures forall k :: 0 <= k < low ==> compar(list.Contents()[k], x) <= 0
    ensures forall k :: low <= k < list.count ==> compar(list.Contents()[k], x) >= 0
  {
    ghost var s := list.Contents();
    var high := list.count;
    low := 0;
    while low < high
      invariant low <= high <= list.count
      invariant forall k :: 0 <= k < low ==> compar(s[k], x) <= 0
      invariant forall k :: high <= k < |s| ==> compar(s[k], x) >= 0
      decreases high - low
    {
      var mid := low + (high - low) / 2;
      var cmp := compar(list.elements[mid], x);
      assert list.elements[mid] == s[mid];
      Sides(s, compar, x, mid);
      if cmp < 0 {
        low := mid + 1;
      } else if cmp > 0 {
        high := mid;
      } else {
        low := mid;
        return;
      }
    }
  }

  /** gl_array_sortedlist_nx_add: adds x, and the list stays sorted. */
  method SortedAdd<T(0,!new)>(list: List<T>, compar: (T, T) -> int, x: T) returns (r: ArrayList.Result)
    requires list.Valid() && Ordering(compar) && Sorted(list.Contents(), compar)
    modifies list, list.elements
    ensures list.Valid() && !r.Aborted? && Sorted(list.Contents(), compar)
    ensures r.At? ==> r.position <= |old(list.Contents())|
                      && list.Contents() == Inserted(old(list.Contents()), r.position, x)
    ensures r.NoMemory? ==> list.Contents() == old(list.Contents()) && (list.scarce || old(list.Immense()))
  {
    var low := InsertionPoint(list, compar, x);
    InsertSorted(list.Contents(), compar, x, low);
    hide Ordering, Sorted;
    r := list.AddAt(low, x);
  }

  lemma Sides<T(!new)>(s: seq<T>, compar: (T, T) -> int, x: T, mid: nat)
    requires Ordering(compar) && Sorted(s, compar) && mid < |s|
    ensures compar(s[mid], x) <= 0 ==> forall k :: 0 <= k <= mid ==> compar(s[k], x) <= 0
    ensures compar(s[mid], x) >= 0 ==> forall k :: mid <= k < |s| ==> compar(s[k], x) >= 0
  {
    hide Ordering, Sorted;
    forall k | 0 <= k < |s| && k != mid
      ensures k < mid && compar(s[mid], x) <= 0 ==> compar(s[k], x) <= 0
      ensures k > mid && compar(s[mid], x) >= 0 ==> compar(s[k], x) >= 0
    {
      if k < mid {
        Compared(s, compar, x, k, mid);
      } else {
        Compared(s, compar, x, mid, k);
      }
    }
  }

  lemma InsertSorted<T(!new)>(s: seq<T>, compar: (T, T) -> int, x: T, p: nat)
    requires Ordering(compar) && Sorted(s, compar) && p <= |s|
    requires (forall k :: 0 <= k < p ==> compar(s[k], x) <= 0) && forall k :: p <= k < |s| ==> compar(s[k], x) >= 0
    ensures Sorted(Inserted(s, p, x), compar)
  {
    var t := Inserted(s, p, x);
    forall i, j | 0 <= i < j < |t|
      ensures compar(t[i], t[j]) <= 0
    {
      if i == p {
        assert compar(t[j], x) >= 0;
      }
    }
  }

  /** gl_array_sortedlist_remove: removes the element that the search answers; without
      equal elements in the list that is the one equal to x. */
  method SortedRemove<T(0,!new)>(list: List<T>, compar: (T, T) -> int, x: T) returns (removed: bool)
    requires list.Valid() && Ordering(compar) && Sorted(list.Contents(), compar)
    modifies list`count, list.elements
    ensures list.Valid() && Sorted(list.Contents(), compar)
    ensures removed <==> Occurs(old(list.Contents()), compar, x, 0, |old(list.Contents())|)
    ensures removed ==> exists k: nat :: k < |old(list.Contents())|
                                    && IsAnswer(old(list.Contents()), compar, x, 0, |old(list.Contents())|, Found(k))
                                    && list.Contents() == Removed(old(list.Contents()), k)
    ensures !removed ==> list.Contents() == old(list.Contents())
    ensures old(StrictlySorted(list.Contents(), compar)) ==>
              && StrictlySorted(list.Contents(), compar) && !Occurs(list.Contents(), compar, x, 0, list.count)
              && (removed ==> exists k :: 0 <= k < |old(list.Contents())| && compar(old(list.Contents())[k], x) == 0
                                          && list.Contents() == Removed(old(list.Contents()), k))
  {
    ghost var s := list.Contents();
    var index := SortedIndexOf(list, compar, 0, list.count, x);
    if index.Missing? {
      return false;
    }
    AnswerWithin(s, compar, x, 0, |s|, index.index);
    RemoveSorted(s, compar, index.index);
    if StrictlySorted(s, compar) {
      StrictSearch(s, compar, x, 0, |s|, index);
      RemoveStrict(s, compar, x, index.index);
    }
    hide Ordering, IsAnswer, Sorted, StrictlySorted, Occurs;
    removed := list.RemoveAt(index.index);
  }

  lemma AnswerWithin<T>(s: seq<T>, compar: (T, T) -> int, x: T, low: nat, high: nat, i: nat)
    requires low <= high <= |s| && IsAnswer(s, compar, x, low, high, Found(i))
    ensures i < high && Occurs(s, compar, x, low, high)
  {
  }

  lemma RemoveSorted<T>(s: seq<T>, compar: (T, T) -> int, k: nat)
    requires Sorted(s, compar) && k < |s|
    ensures Sorted(Removed(s, k), compar)
  {
    var t := Removed(s, k);
    assert forall j :: 0 <= j < |t| ==> t[j] == s[if j < k then j else j + 1];
  }

  lemma RemoveStrict<T(!new)>(s: seq<T>, compar: (T, T) -> int, x: T, k: nat)
    requires StrictlySorted(s, compar) && k < |s| && compar(s[k], x) == 0
    requires forall j :: 0 <= j < |s| && compar(s[j], x) == 0 ==> j == k
    ensures Occurs(s, compar, x, 0, |s|) && StrictlySorted(Removed(s, k), compar)
    ensures !Occurs(Removed(s, k), compar, x, 0, |s| - 1)
  {
    var t := Removed(s, k);
    assert forall j :: 0 <= j < |t| ==> t[j] == s[if j < k then j else j + 1];
  }
}
