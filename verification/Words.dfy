/** Unsigned machine words of any number of bytes, the operations that the string scans
    use on them, and the test whether a word has a zero byte. */
module Words {
  import opened Arithmetic

  type Byte = x: int | 0 <= x < 256

  /** A word's bytes, the least significant one first. */
  type Word = seq<Byte>

  // ----- bytes --------------------------------------------------------------

  function Bits(x: Byte): bv8 {
    x as bv8
  }

  function Num(b: bv8): Byte {
    b as int
  }

  lemma BitsNum(b: bv8)
    ensures Bits(Num(b)) == b
  {
  }

  lemma NumNext(b: bv8)
    requires b != 255
    ensures Num(b + 1) == Num(b) + 1
  {
  }

  lemma Ends()
    ensures Num(0) == 0 && Num(255) == 255
  {
  }

  lemma {:induction false} BitsOf(x: Byte) returns (b: bv8)
    ensures Num(b) == x
  {
    Ends();
    hide Num;
    if x == 0 {
      b := 0;
    } else {
      var before := BitsOf(x - 1);
      NumNext(before);
      b := before + 1;
    }
  }

  lemma NumBits(x: Byte)
    ensures Num(Bits(x)) == x
  {
    var b := BitsOf(x);
    BitsNum(b);
  }

  lemma NumZero(b: bv8)
    ensures Num(b) == 0 <==> b == 0
  {
  }

  lemma HighBit(x: Byte)
    ensures Bits(x) & 128 != 0 <==> x >= 128
    ensures Bits(128) == 128 && Bits(0) == 0
  {
  }

  // ----- operations ---------------------------------------------------------

  function XorByte(x: Byte, y: Byte): Byte {
    Num(Bits(x) ^ Bits(y))
  }

  function AndByte(x: Byte, y: Byte): Byte {
    Num(Bits(x) & Bits(y))
  }

  function OrByte(x: Byte, y: Byte): Byte {
    Num(Bits(x) | Bits(y))
  }

  function NotByte(x: Byte): Byte {
    Num(!Bits(x))
  }

  function Xor(a: Word, b: Word): Word
    requires |a| == |b|
  {
    seq(|a|, i requires 0 <= i < |a| => XorByte(a[i], b[i]))
  }

  function And(a: Word, b: Word): Word
    requires |a| == |b|
  {
    seq(|a|, i requires 0 <= i < |a| => AndByte(a[i], b[i]))
  }

  function Or(a: Word, b: Word): Word
    requires |a| == |b|
  {
    seq(|a|, i requires 0 <= i < |a| => OrByte(a[i], b[i]))
  }

  function Not(a: Word): Word {
    seq(|a|, i requires 0 <= i < |a| => NotByte(a[i]))
  }

  function Pow2(r: nat): (p: nat)
    ensures p > 0
  {
    if r == 0 then 1 else 2 * Pow2(r - 1)
  }

  /** Byte i of a shifted left by 8 * q + r bits: the low bits of one byte and the high
      bits of the next lower one. */
  function ShiftedByte(a: Word, q: nat, r: nat, i: nat): Byte
    requires r < 8 && i < |a|
  {
    var high := if i >= q then a[i - q] else 0;
    var low := if i >= q + 1 then a[i - q - 1] else 0;
    (high * Pow2(r) + low / Pow2(8 - r)) % 256
  }

  /** a << n */
  function Shl(a: Word, n: nat): (r: Word)
    ensures |r| == |a|
  {
    seq(|a|, i requires 0 <= i < |a| => ShiftedByte(a, n / 8, n % 8, i))
  }

  function BorrowOut(x: Byte, y: Byte, borrow: nat): (b: nat)
    requires borrow <= 1
    ensures b <= 1
  {
    if x < y + borrow then 1 else 0
  }

  /** a - b - borrow, byte by byte; a last borrow is dropped. */
  function Sub(a: Word, b: Word, borrow: nat): (r: Word)
    requires |a| == |b| && borrow <= 1
    ensures |r| == |a|
  {
    if a == [] then [] else
      [(a[0] - b[0] - borrow) % 256] + Sub(a[1..], b[1..], BorrowOut(a[0], b[0], borrow))
  }

  predicate IsZero(a: Word) {
    forall i :: 0 <= i < |a| ==> a[i] == 0
  }

  // ----- the value of a word ------------------------------------------------

  function Pow256(n: nat): (p: nat)
    ensures p > 0
  {
    if n == 0 then 1 else 256 * Pow256(n - 1)
  }

  function ToInt(w: Word): nat {
    if w == [] then 0 else w[0] + 256 * ToInt(w[1..])
  }

  lemma {:induction false} ToIntBound(w: Word)
    ensures ToInt(w) < Pow256(|w|)
  {
    if w != [] {
      ToIntBound(w[1..]);
    }
  }

  lemma ByteBorrows(x: Byte, y: Byte, borrow: nat)
    requires borrow <= 1
    ensures (x - y - borrow) % 256 == x - y - borrow + 256 * BorrowOut(x, y, borrow)
  {
  }

  lemma {:induction false} SubBorrows(a: Word, b: Word, borrow: nat) returns (out: bool)
    requires |a| == |b| && borrow <= 1
    ensures ToInt(Sub(a, b, borrow)) == ToInt(a) - ToInt(b) - borrow + if out then Pow256(|a|) else 0
  {
    if a == [] {
      out := borrow == 1;
    } else {
      var next := BorrowOut(a[0], b[0], borrow);
      out := SubBorrows(a[1..], b[1..], next);
      ByteBorrows(a[0], b[0], borrow);
      hide BorrowOut;
      assert Sub(a, b, borrow)[1..] == Sub(a[1..], b[1..], next);
    }
  }

  /** Subtraction byte by byte is subtraction modulo 256 to the number of bytes. */
  lemma SubIs(a: Word, b: Word)
    requires |a| == |b|
    ensures ToInt(Sub(a, b, 0)) == (ToInt(a) - ToInt(b)) % Pow256(|a|)
  {
    hide ToInt, Sub, Pow256;
    var out := SubBorrows(a, b, 0);
    ToIntBound(Sub(a, b, 0));
    ModIs(ToInt(a) - ToInt(b), Pow256(|a|), ToInt(Sub(a, b, 0)), out);
  }

  lemma ModIs(x: int, m: int, r: nat, wrapped: bool)
    requires r < m && r == x + if wrapped then m else 0
    ensures x % m == r
  {
    SmallMultiple(x / m + if wrapped then 1 else 0, m, r - x % m);
  }

  /** Two words of a length are the same if their values are. */
  lemma {:induction false} ToIntInjective(a: Word, b: Word)
    requires |a| == |b| && ToInt(a) == ToInt(b)
    ensures a == b
  {
    if a != [] {
      assert a[0] == ToInt(a) % 256 && b[0] == ToInt(b) % 256;
      ToIntInjective(a[1..], b[1..]);
      assert a == [a[0]] + a[1..] && b == [b[0]] + b[1..];
    }
  }

  // ----- the test for a zero byte -------------------------------------------

  function Filled(k: nat, c: Byte): Word {
    seq(k, _ => c)
  }

  /** (w - ones) & ~w */
  function Candidates(w: Word): (r: Word)
    ensures |r| == |w|
  {
    And(Sub(w, Filled(|w|, 1), 0), Not(w))
  }

  /** ((w - ones) & ~w) & (ones << 7) */
  function ZeroTest(w: Word): (r: Word)
    ensures |r| == |w|
  {
    And(Candidates(w), Shl(Filled(|w|, 1), 7))
  }

  lemma XorByteZero(x: Byte, y: Byte)
    ensures XorByte(x, y) == 0 <==> x == y
  {
    hide Bits, Num;
    NumZero(Bits(x) ^ Bits(y));
    NumBits(x);
    NumBits(y);
  }

  /** Bit 7 of y & ~x. */
  lemma HighByte(y: Byte, x: Byte)
    ensures AndByte(AndByte(y, NotByte(x)), 128) != 0 <==> y >= 128 && x < 128
  {
    hide Bits, Num;
    BitsNum(!Bits(x));
    BitsNum(Bits(y) & !Bits(x));
    assert AndByte(AndByte(y, NotByte(x)), 128) == Num(Bits(y) & !Bits(x) & Bits(128));
    hide AndByte, NotByte;
    NumZero(Bits(y) & !Bits(x) & 128);
    HighBit(x);
    HighBit(y);
    AndBits(Bits(y), Bits(x));
  }

  lemma AndBits(p: bv8, q: bv8)
    ensures p & !q & 128 != 0 <==> p & 128 != 0 && q & 128 == 0
  {
  }

  lemma HighMask(k: nat, i: nat)
    requires i < k
    ensures Shl(Filled(k, 1), 7)[i] == 128
  {
    Powers();
  }

  /** Byte i of the test is set exactly if the difference has its high bit and w has not. */
  lemma ZeroTestAt(w: Word, i: nat)
    requires i < |w|
    ensures ZeroTest(w)[i] != 0 <==> Sub(w, Filled(|w|, 1), 0)[i] >= 128 && w[i] < 128
  {
    hide AndByte, NotByte, Shl, Sub;
    HighMask(|w|, i);
    HighByte(Sub(w, Filled(|w|, 1), 0)[i], w[i]);
  }

  /** Without a zero byte nothing is borrowed, and the first one becomes 255. */
  lemma {:induction false} SubOnes(w: Word, ones: Word, i: nat)
    requires i < |w| == |ones| && (forall k :: 0 <= k < |w| ==> ones[k] == 1) && forall k :: 0 <= k < i ==> w[k] != 0
    ensures Sub(w, ones, 0)[i] == if w[i] == 0 then 255 else w[i] - 1
  {
    if i > 0 {
      SubOnes(w[1..], ones[1..], i - 1);
    }
  }

  /** The test is nonzero exactly if the word has a zero byte. */
  lemma ZeroTestIs(w: Word)
    ensures !IsZero(ZeroTest(w)) <==> 0 in w
  {
    hide ZeroTest;
    var ones := Filled(|w|, 1);
    if 0 in w {
      var j := FirstZero(w);
      SubOnes(w, ones, j);
      ZeroTestAt(w, j);
      assert ZeroTest(w)[j] != 0;
    } else {
      forall i | 0 <= i < |w|
        ensures ZeroTest(w)[i] == 0
      {
        SubOnes(w, ones, i);
        ZeroTestAt(w, i);
      }
    }
  }

  lemma {:induction false} FirstZero(w: Word) returns (j: nat)
    requires 0 in w
    ensures j < |w| && w[j] == 0 && forall k :: 0 <= k < j ==> w[k] != 0
  {
    j := 0;
    if w[0] != 0 {
      assert w == [w[0]] + w[1..];
      j := FirstZero(w[1..]);
      j := j + 1;
    }
  }

  /** (((v - ones) & ~v) | ((w - ones) & ~w)) & (ones << 7) */
  function PairTest(v: Word, w: Word): Word
    requires |v| == |w|
  {
    And(Or(Candidates(v), Candidates(w)), Shl(Filled(|w|, 1), 7))
  }

  lemma HighOr(x: Byte, y: Byte)
    ensures AndByte(OrByte(x, y), 128) != 0 <==> AndByte(x, 128) != 0 || AndByte(y, 128) != 0
  {
    hide Bits, Num;
    BitsNum(Bits(x) | Bits(y));
    NumZero((Bits(x) | Bits(y)) & 128);
    NumZero(Bits(x) & 128);
    NumZero(Bits(y) & 128);
    HighBit(x);
    OrBits(Bits(x), Bits(y));
  }

  lemma OrBits(p: bv8, q: bv8)
    ensures (p | q) & 128 != 0 <==> p & 128 != 0 || q & 128 != 0
  {
  }

  /** Testing two words at once. */
  lemma PairTestIs(v: Word, w: Word)
    requires |v| == |w|
    ensures !IsZero(PairTest(v, w)) <==> 0 in v || 0 in w
  {
    hide AndByte, OrByte, Candidates, Shl;
    forall i | 0 <= i < |v|
      ensures PairTest(v, w)[i] != 0 <==> ZeroTest(v)[i] != 0 || ZeroTest(w)[i] != 0
    {
      HighMask(|v|, i);
      HighOr(Candidates(v)[i], Candidates(w)[i]);
    }
    ZeroTestIs(v);
    ZeroTestIs(w);
  }

  /** The xor with a word full of c has a zero byte exactly where the word has a c. */
  lemma XorFilled(w: Word, c: Byte)
    ensures 0 in Xor(w, Filled(|w|, c)) <==> c in w
  {
    forall i | 0 <= i < |w|
      ensures Xor(w, Filled(|w|, c))[i] == 0 <==> w[i] == c
    {
      XorByteZero(w[i], c);
    }
    if 0 in Xor(w, Filled(|w|, c)) {
      var i :| 0 <= i < |w| && Xor(w, Filled(|w|, c))[i] == 0;
      assert w[i] == c;
    }
    if c in w {
      var i :| 0 <= i < |w| && w[i] == c;
      assert Xor(w, Filled(|w|, c))[i] == 0;
    }
  }

  // ----- words with a byte repeated -----------------------------------------

  /** c in the first m bytes, zero in the others. */
  function Partly(k: nat, m: nat, c: Byte): (w: Word)
    ensures |w| == k
  {
    seq(k, i => if i < m then c else 0)
  }

  lemma OrByteZero(x: Byte)
    ensures OrByte(x, 0) == x && OrByte(0, x) == x
  {
    hide Bits, Num;
    NumBits(x);
    HighBit(x);
    OrBitsZero(Bits(x));
  }

  lemma OrBitsZero(p: bv8)
    ensures p | 0 == p && 0 | p == p
  {
  }

  /** A shift by m whole bytes. */
  lemma ShiftBytes(a: Word, m: nat, i: nat)
    requires i < |a|
    ensures Shl(a, 8 * m)[i] == if i >= m then a[i - m] else 0
  {
    assert 8 * m / 8 == m && 8 * m % 8 == 0;
    hide Pow2;
    Powers();
  }

  /** w | w << 8 * m, where w has c in its first m bytes. */
  lemma Double(k: nat, m: nat, c: Byte)
    ensures Or(Partly(k, m, c), Shl(Partly(k, m, c), 8 * m)) == Partly(k, 2 * m, c)
  {
    hide OrByte, Shl;
    var w := Partly(k, m, c);
    forall i | 0 <= i < k
      ensures Or(w, Shl(w, 8 * m))[i] == Partly(k, 2 * m, c)[i]
    {
      ShiftBytes(w, m, i);
      OrByteZero(c);
      OrByteZero(0);
    }
  }

  /** w << 31 << 1 is w << 32. */
  lemma ShiftTwice(w: Word)
    ensures Shl(Shl(w, 31), 1) == Shl(w, 32)
  {
    forall i | 0 <= i < |w|
      ensures Shl(Shl(w, 31), 1)[i] == Shl(w, 32)[i]
    {
      ShiftTwiceAt(w, i);
    }
  }

  lemma ShiftTwiceAt(w: Word, i: nat)
    requires i < |w|
    ensures Shl(Shl(w, 31), 1)[i] == Shl(w, 32)[i]
  {
    hide Pow2;
    ShiftBytes(w, 4, i);
    Shift31(w, i);
    if i > 0 {
      Shift31(w, i - 1);
    }
    Powers();
    Twice(ByteAt(w, i - 3), ByteAt(w, i - 4), ByteAt(w, i - 5));
    assert Shl(Shl(w, 31), 1)[i] == (ByteAt(Shl(w, 31), i) * 2 + ByteAt(Shl(w, 31), i - 1) / 128) % 256;
  }

  function ByteAt(w: Word, i: int): Byte {
    if 0 <= i < |w| then w[i] else 0
  }

  lemma Powers()
    ensures Pow2(0) == 1 && Pow2(1) == 2 && Pow2(7) == 128 && Pow2(8) == 256
  {
    assert Pow2(3) == 8;
    assert Pow2(5) == 32;
  }

  lemma Shift31(w: Word, i: nat)
    requires i < |w|
    ensures Shl(w, 31)[i] == ByteAt(w, i - 3) % 2 * 128 + ByteAt(w, i - 4) / 2
  {
    hide Pow2;
    Powers();
    Seven(ByteAt(w, i - 3), ByteAt(w, i - 4));
  }

  lemma Seven(x: Byte, y: Byte)
    ensures (x * 128 + y / 2) % 256 == x % 2 * 128 + y / 2
  {
  }

  lemma Twice(x: Byte, y: Byte, z: Byte)
    ensures ((x % 2 * 128 + y / 2) * 2 + (y % 2 * 128 + z / 2) / 128) % 256 == y
  {
    assert (y % 2 * 128 + z / 2) / 128 == y % 2;
  }
}
