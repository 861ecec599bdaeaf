/** memchr, rawmemchr and strchrnul: scans that test a whole word at a time, for any
    word of at least four bytes, either byte order, and any alignment.

    Memory is a sequence of bytes of which the first one has the address base; pointers
    are indices into it. */
module StringScans {
  import opened Options
  import opened Arithmetic
  import opened Words

  /** The word at i. */
  function Load(mem: seq<Byte>, i: nat, k: nat, little: bool): (w: Word)
    requires i + k <= |mem|
    ensures |w| == k
  {
    if little then mem[i..i + k] else seq(k, j requires 0 <= j < k => mem[i + k - 1 - j])
  }

  lemma LoadHas(mem: seq<Byte>, i: nat, k: nat, little: bool, c: Byte)
    requires i + k <= |mem|
    ensures c in Load(mem, i, k, little) <==> exists q :: i <= q < i + k && mem[q] == c
  {
    var w := Load(mem, i, k, little);
    if c in w {
      var j :| 0 <= j < k && w[j] == c;
      assert mem[if little then i + j else i + k - 1 - j] == c;
    }
    if q :| i <= q < i + k && mem[q] == c {
      assert w[if little then q - i else i + k - 1 - q] == c;
    }
  }

  /** Memory that begins and ends at word boundaries, as pages do. */
  predicate Mapped(mem: seq<Byte>, base: nat, k: nat) {
    k > 0 && base % k == 0 && |mem| % k == 0
  }

  predicate Aligned(base: nat, i: nat, k: nat)
    requires k > 0
  {
    (base + i) % k == 0
  }

  lemma AlignedNext(base: nat, i: nat, k: nat)
    requires k > 0 && Aligned(base, i, k)
    ensures Aligned(base, i + k, k)
  {
    MulMonotone((base + i) / k, (base + i) / k, k);
    DivisionIs(base + i + k, k, (base + i) / k + 1, 0);
  }

  lemma NextMultiple(x: int, m: int, k: nat)
    requires x * k < m * k
    ensures x * k + k <= m * k
  {
    if m <= x {
      MulMonotone(m, x, k);
    } else {
      MulMonotone(x + 1, m, k);
      MulMonotone(x, x, k);
    }
  }

  /** The aligned word that holds a byte of mapped memory is mapped as a whole. */
  lemma WordMapped(mem: seq<Byte>, base: nat, i: nat, k: nat)
    requires Mapped(mem, base, k) && Aligned(base, i, k) && i < |mem|
    ensures i + k <= |mem|
  {
    var a, b, m := base / k, (base + i) / k, |mem| / k;
    assert base == a * k && base + i == b * k && |mem| == m * k;
    assert i == (b - a) * k;
    hide Mapped, Aligned;
    NextMultiple(b - a, m, k);
  }

  // ----- the repeated byte --------------------------------------------------

  /** repeated_one and repeated_c, built by shifting. */
  method Repeat(k: nat, c: Byte) returns (ones: Word, repeated: Word)
    requires k >= 4
    ensures ones == Filled(k, 1) && repeated == Filled(k, c)
  {
    hide Or, Shl;
    ones := Partly(k, 4, 1);        // 0x01010101
    repeated := Partly(k, 1, c);    // c
    Double(k, 1, c);
    repeated := Or(repeated, Shl(repeated, 8));
    Double(k, 2, c);
    repeated := Or(repeated, Shl(repeated, 16));
    ghost var m := 4;
    if k > 4 {
      ShiftTwice(ones);
      ShiftTwice(repeated);
      Double(k, 4, 1);
      Double(k, 4, c);
      ones := Or(ones, Shl(Shl(ones, 31), 1));
      repeated := Or(repeated, Shl(Shl(repeated, 31), 1));
      m := 8;
      if 8 < k {
        var i := 64;
        while i < k * 8
          invariant i == 8 * m && m > 0 && ones == Partly(k, m, 1) && repeated == Partly(k, m, c)
          decreases k * 8 - i
        {
          Double(k, m, 1);
          Double(k, m, c);
          ones := Or(ones, Shl(ones, i));
          repeated := Or(repeated, Shl(repeated, i));
          i := i * 2;
          m := m * 2;
        }
      }
    }
    assert ones == Filled(k, 1) && repeated == Filled(k, c);
  }

  // ----- memchr -------------------------------------------------------------

  /** p is where c first occurs from s on. */
  predicate First(mem: seq<Byte>, s: nat, c: Byte, p: nat) {
    s <= p < |mem| && mem[p] == c && forall q :: s <= q < p ==> mem[q] != c
  }

  /** The n bytes at s may be read, or c occurs in them and memory is mapped by words. */
  predicate Readable(mem: seq<Byte>, base: nat, s: nat, n: nat, c: Byte, k: nat) {
    s + n <= |mem| || (Mapped(mem, base, k) && exists m :: s <= m < |mem| && mem[m] == c)
  }

  /** What is left to be read is readable as long as c has not been found. */
  lemma ReadableRest(mem: seq<Byte>, base: nat, s: nat, n: nat, c: Byte, k: nat, p: nat)
    requires Readable(mem, base, s, n, c, k) && s <= p <= s + n && s <= |mem|
    requires forall q :: s <= q < p && q < |mem| ==> mem[q] != c
    ensures s + n <= |mem| || p < |mem|
    ensures k > 0 && Aligned(base, p, k) && p + k <= s + n ==> p + k <= |mem|
  {
    if s + n > |mem| {
      var m :| s <= m < |mem| && mem[m] == c;
      assert p <= m;
      if k > 0 && Aligned(base, p, k) {
        WordMapped(mem, base, p, k);
      }
    }
  }

  /** __memchr: the first c among the n bytes at s. */
  method Memchr(mem: seq<Byte>, base: nat, s: nat, cIn: int, n: nat, k: nat, little: bool) returns (r: Option<nat>)
    requires k >= 4 && s <= |mem| && Readable(mem, base, s, n, cIn % 256, k)
    ensures r.Some? ==> First(mem, s, cIn % 256, r.value) && r.value < s + n
    ensures r.None? ==> s + n <= |mem| && forall q :: s <= q < s + n ==> mem[q] != cIn % 256
  {
    hide Aligned, Readable;
    var c: Byte := cIn % 256;
    var charPtr: nat, left: nat := s, n;
    while left > 0 && (base + charPtr) % k != 0
      invariant charPtr + left == s + n && s <= charPtr <= |mem|
      invariant forall q :: s <= q < charPtr ==> mem[q] != c
      decreases left
    {
      ReadableRest(mem, base, s, n, c, k, charPtr);
      if mem[charPtr] == c {
        return Some(charPtr);
      }
      left, charPtr := left - 1, charPtr + 1;
    }
    var ones, repeated := Repeat(k, c);
    if left > 0 {
      AlignedIs(base, charPtr, k);
    }
    charPtr, left := ScanWords(mem, base, s, n, c, k, little, charPtr, left, ones, repeated);
    while left > 0
      invariant charPtr + left == s + n && s <= charPtr <= |mem|
      invariant forall q :: s <= q < charPtr ==> mem[q] != c
      decreases left
    {
      ReadableRest(mem, base, s, n, c, k, charPtr);
      if mem[charPtr] == c {
        return Some(charPtr);
      }
      left, charPtr := left - 1, charPtr + 1;
    }
    r := None;
  }

  /** The loop over whole words, none of which has a c. */
  method ScanWords(mem: seq<Byte>, base: nat, s: nat, n: nat, c: Byte, k: nat, little: bool,
                   charPtr0: nat, left0: nat, ones: Word, repeated: Word) returns (charPtr: nat, left: nat)
    requires k >= 4 && Readable(mem, base, s, n, c, k) && ones == Filled(k, 1) && repeated == Filled(k, c)
    requires charPtr0 + left0 == s + n && s <= charPtr0 <= |mem| && (left0 > 0 ==> Aligned(base, charPtr0, k))
    requires forall q :: s <= q < charPtr0 ==> mem[q] != c
    ensures charPtr + left == s + n && s <= charPtr <= |mem|
    ensures forall q :: s <= q < charPtr ==> mem[q] != c
  {
    hide Aligned, Readable, Load, ZeroTest, Xor;
    charPtr, left := charPtr0, left0;
    while left >= k
      invariant charPtr + left == s + n && s <= charPtr <= |mem| && (left > 0 ==> Aligned(base, charPtr, k))
      invariant forall q :: s <= q < charPtr ==> mem[q] != c
      decreases left
    {
      ReadableRest(mem, base, s, n, c, k, charPtr);
      var word := Load(mem, charPtr, k, little);
      WordTest(word, c);
      LoadHas(mem, charPtr, k, little, c);
      var longword1 := Xor(word, repeated);
      if !IsZero(ZeroTest(longword1)) {
        break;
      }
      AlignedNext(base, charPtr, k);
      left, charPtr := left - k, charPtr + k;
    }
  }

  /** What the test of a word tells. */
  lemma WordTest(w: Word, c: Byte)
    ensures |Xor(w, Filled(|w|, c))| == |w| && (!IsZero(ZeroTest(Xor(w, Filled(|w|, c)))) <==> c in w)
  {
    hide ZeroTest, IsZero;
    ZeroTestIs(Xor(w, Filled(|w|, c)));
    XorFilled(w, c);
  }

  // ----- rawmemchr ----------------------------------------------------------

  /** rawmemchr: the first c from s on, which there must be. */
  method Rawmemchr(mem: seq<Byte>, base: nat, s: nat, cIn: int, k: nat, little: bool) returns (r: nat)
    requires k >= 4 && Mapped(mem, base, k) && exists m :: s <= m < |mem| && mem[m] == cIn % 256
    ensures First(mem, s, cIn % 256, r)
  {
    hide Aligned, Mapped, Load, ZeroTest, Xor;
    var c: Byte := cIn % 256;
    ghost var m :| s <= m < |mem| && mem[m] == c;
    var charPtr := s;
    while (base + charPtr) % k != 0
      invariant s <= charPtr <= m && forall q :: s <= q < charPtr ==> mem[q] != c
      decreases m - charPtr
    {
      if mem[charPtr] == c {
        return charPtr;
      }
      charPtr := charPtr + 1;
    }
    var ones, repeated := Repeat(k, c);
    assert Aligned(base, charPtr, k) by { AlignedIs(base, charPtr, k); }
    while true
      invariant s <= charPtr <= m && Aligned(base, charPtr, k) && forall q :: s <= q < charPtr ==> mem[q] != c
      decreases m - charPtr
    {
      WordMapped(mem, base, charPtr, k);
      var word := Load(mem, charPtr, k, little);
      WordTest(word, c);
      LoadHas(mem, charPtr, k, little, c);
      var longword1 := Xor(word, repeated);
      if !IsZero(ZeroTest(longword1)) {
        break;
      }
      AlignedNext(base, charPtr, k);
      charPtr := charPtr + k;
    }
    while mem[charPtr] != c
      invariant s <= charPtr <= m && forall q :: s <= q < charPtr ==> mem[q] != c
      decreases m - charPtr
    {
      charPtr := charPtr + 1;
    }
    r := charPtr;
  }

  lemma AlignedIs(base: nat, i: nat, k: nat)
    requires k > 0 && (base + i) % k == 0
    ensures Aligned(base, i, k)
  {
  }

  // ----- strchrnul ----------------------------------------------------------

  /** p is where c or the terminating NUL first occurs. */
  predicate FirstOrEnd(mem: seq<Byte>, s: nat, c: Byte, p: nat) {
    s <= p < |mem| && (mem[p] == c || mem[p] == 0) && forall q :: s <= q < p ==> mem[q] != c && mem[q] != 0
  }

  /** strchrnul: the first c of the string at s, or its end. */
  method Strchrnul(mem: seq<Byte>, base: nat, s: nat, cIn: int, k: nat, little: bool) returns (r: nat)
    requires k >= 4 && Mapped(mem, base, k) && exists m :: s <= m < |mem| && mem[m] == 0
    ensures FirstOrEnd(mem, s, cIn % 256, r)
  {
    hide Aligned, Mapped, Load, ZeroTest, PairTest, Xor;
    var c: Byte := cIn % 256;
    if c == 0 {
      r := Rawmemchr(mem, base, s, 0, k, little);
      return;
    }
    ghost var m :| s <= m < |mem| && mem[m] == 0;
    var charPtr := s;
    while (base + charPtr) % k != 0
      invariant s <= charPtr <= m && forall q :: s <= q < charPtr ==> mem[q] != c && mem[q] != 0
      decreases m - charPtr
    {
      if mem[charPtr] == 0 || mem[charPtr] == c {
        return charPtr;
      }
      charPtr := charPtr + 1;
    }
    var ones, repeated := Repeat(k, c);
    assert Aligned(base, charPtr, k) by { AlignedIs(base, charPtr, k); }
    while true
      invariant s <= charPtr <= m && Aligned(base, charPtr, k)
      invariant forall q :: s <= q < charPtr ==> mem[q] != c && mem[q] != 0
      decreases m - charPtr
    {
      WordMapped(mem, base, charPtr, k);
      var longword2 := Load(mem, charPtr, k, little);
      LoadHas(mem, charPtr, k, little, c);
      LoadHas(mem, charPtr, k, little, 0);
      WordTest(longword2, c);
      XorFilled(longword2, c);
      var longword1 := Xor(longword2, repeated);
      PairTestIs(longword1, longword2);
      if !IsZero(PairTest(longword1, longword2)) {
        break;
      }
      AlignedNext(base, charPtr, k);
      charPtr := charPtr + k;
    }
    while mem[charPtr] != 0 && mem[charPtr] != c
      invariant s <= charPtr <= m && forall q :: s <= q < charPtr ==> mem[q] != c && mem[q] != 0
      decreases m - charPtr
    {
      charPtr := charPtr + 1;
    }
    r := charPtr;
  }
}
