/** The value of a shifted word. */
module WordShifts {
  import opened Arithmetic
  import opened Words

  /** a shifted by less than a byte, with bits carried in from below. */
  function Shifted(a: Word, r: nat, carry: nat): (s: Word)
    requires r < 8 && carry < Pow2(r)
    ensures |s| == |a|
  {
    if a == [] then [] else
      var t := a[0] * Pow2(r) + carry;
      CarryFits(a[0], Pow2(r), carry);
      [t % 256] + Shifted(a[1..], r, t / 256)
  }

  lemma CarryFits(x: Byte, p: nat, carry: nat)
    requires carry < p
    ensures 0 <= (x * p + carry) / 256 < p
  {
    MulMonotone(x, 255, p);
    assert x * p + carry < 256 * p;
  }

  /** The bits that are shifted out count for the rest. */
  lemma {:induction false} ShiftedIs(a: Word, r: nat, carry: nat) returns (k: nat)
    requires r < 8 && carry < Pow2(r)
    ensures ToInt(a) * Pow2(r) + carry == ToInt(Shifted(a, r, carry)) + k * Pow256(|a|)
  {
    if a == [] {
      k := carry;
    } else {
      var p, x, rest := Pow2(r), a[0], ToInt(a[1..]);
      var t := x * p + carry;
      CarryFits(x, p, carry);
      k := ShiftedIs(a[1..], r, t / 256);
      var s := ToInt(Shifted(a[1..], r, t / 256));
      assert Shifted(a, r, carry)[1..] == Shifted(a[1..], r, t / 256);
      Join(x, rest, p, carry, t, s, k, Pow256(|a| - 1));
    }
  }

  lemma Join(x: nat, rest: nat, p: nat, carry: nat, t: nat, s: nat, k: nat, high: nat)
    requires t == x * p + carry && rest * p + t / 256 == s + k * high
    ensures (x + 256 * rest) * p + carry == t % 256 + 256 * s + k * (256 * high)
  {
    assert (x + 256 * rest) * p == x * p + 256 * (rest * p);
    assert k * (256 * high) == 256 * (k * high);
    assert t == 256 * (t / 256) + t % 256;
  }

  lemma Powers8(r: nat)
    requires r < 8
    ensures Pow2(r) * Pow2(8 - r) == 256
  {
    Powers();
    assert Pow2(3) == 8 && Pow2(4) == 16 && Pow2(5) == 32 && Pow2(6) == 64 by {
      assert Pow2(2) == 4;
    }
  }

  /** What is carried out of a byte are its high bits. */
  lemma CarryIs(x: Byte, p: nat, q: nat, carry: nat)
    requires p * q == 256 && q > 0 && carry < p
    ensures (x * p + carry) / 256 == x / q
  {
    var y, z := x / q, x % q;
    assert x == y * q + z;
    assert x * p == y * 256 + z * p by {
      assert (y * q + z) * p == y * (q * p) + z * p;
    }
    MulMonotone(z, q - 1, p);
    assert (q - 1) * p == 256 - p;
    DivisionIs(x * p + carry, 256, y, z * p + carry);
  }

  lemma {:induction false} ShiftedAt(a: Word, r: nat, carry: nat, i: nat)
    requires r < 8 && carry < Pow2(r) && i < |a|
    ensures Shifted(a, r, carry)[i] == (a[i] * Pow2(r) + if i == 0 then carry else a[i - 1] / Pow2(8 - r)) % 256
  {
    if i > 0 {
      CarryFits(a[0], Pow2(r), carry);
      Powers8(r);
      CarryIs(a[0], Pow2(r), Pow2(8 - r), carry);
      ShiftedAt(a[1..], r, (a[0] * Pow2(r) + carry) / 256, i - 1);
    }
  }

  function Zeros(n: nat): (w: Word)
    ensures |w| == n && forall i :: 0 <= i < n ==> w[i] == 0
  {
    if n == 0 then [] else [0] + Zeros(n - 1)
  }

  lemma {:induction false} ZerosBelow(n: nat, w: Word)
    ensures ToInt(Zeros(n) + w) == Pow256(n) * ToInt(w)
  {
    if n == 0 {
      assert Zeros(0) + w == w;
    } else {
      ZerosBelow(n - 1, w);
      assert (Zeros(n) + w)[1..] == Zeros(n - 1) + w && (Zeros(n) + w)[0] == 0;
      assert Pow256(n) == 256 * Pow256(n - 1) && ToInt(Zeros(n) + w) == 256 * ToInt(Zeros(n - 1) + w);
      hide *;
      Associate(256, Pow256(n - 1), ToInt(w));
    }
  }

  lemma {:induction false} ToIntAppend(u: Word, v: Word)
    ensures ToInt(u + v) == ToInt(u) + Pow256(|u|) * ToInt(v)
  {
    if u == [] {
      assert u + v == v;
    } else {
      ToIntAppend(u[1..], v);
      assert (u + v)[1..] == u[1..] + v && (u + v)[0] == u[0];
      assert Pow256(|u|) == 256 * Pow256(|u| - 1) && ToInt(u) == u[0] + 256 * ToInt(u[1..]);
      assert ToInt(u + v) == u[0] + 256 * ToInt(u[1..] + v);
      hide *;
      Associate(256, Pow256(|u| - 1), ToInt(v));
    }
  }

  lemma {:induction false} Pow256Add(m: nat, n: nat)
    ensures Pow256(m + n) == Pow256(m) * Pow256(n)
  {
    if m > 0 {
      assert Pow256(m + n) == 256 * Pow256(m - 1 + n) && Pow256(m) == 256 * Pow256(m - 1);
      hide *;
      Pow256Add(m - 1, n);
      Associate(256, Pow256(m - 1), Pow256(n));
    }
  }

  lemma {:induction false} Pow2Bytes(q: nat, r: nat)
    ensures Pow2(8 * q + r) == Pow256(q) * Pow2(r)
  {
    if q > 0 {
      assert Pow256(q) == 256 * Pow256(q - 1);
      assert 8 * q + r == 8 * (q - 1) + r + 8;
      hide *;
      Pow2Bytes(q - 1, r);
      Pow2Eight(8 * (q - 1) + r);
      Associate(256, Pow256(q - 1), Pow2(r));
    } else {
      assert Pow256(0) == 1;
    }
  }

  lemma Pow2Eight(n: nat)
    ensures Pow2(n + 8) == 256 * Pow2(n)
  {
    assert n + 6 + 2 == n + 8 && n + 4 + 2 == n + 6 && n + 2 + 2 == n + 4;
    hide *;
    Pow2Two(n);
    Pow2Two(n + 2);
    Pow2Two(n + 4);
    Pow2Two(n + 6);
  }

  lemma Pow2Two(n: nat)
    ensures Pow2(n + 2) == 4 * Pow2(n)
  {
    assert Pow2(n + 2) == 2 * Pow2(n + 1) && Pow2(n + 1) == 2 * Pow2(n);
  }

  /** A word shifted by q bytes and r bits: zeros below, what is left of it above. */
  function Parts(a: Word, q: nat, r: nat): (w: Word)
    requires r < 8
    ensures |w| == |a|
  {
    if q <= |a| then Zeros(q) + Shifted(a[..|a| - q], r, 0) else Zeros(|a|)
  }

  lemma PartsAt(a: Word, q: nat, r: nat, i: nat)
    requires r < 8 && i < |a|
    ensures ShiftedByte(a, q, r, i) == Parts(a, q, r)[i]
  {
    hide Shifted, Pow2, Zeros;
    if q <= i {
      ShiftedAt(a[..|a| - q], r, 0, i - q);
      assert (a[i - q] * Pow2(r) + 0 / Pow2(8 - r)) == a[i - q] * Pow2(r);
    } else {
      assert 0 * Pow2(r) + 0 / Pow2(8 - r) == 0;
    }
  }

  lemma ShlParts(a: Word, q: nat, r: nat)
    requires r < 8
    ensures Shl(a, 8 * q + r) == Parts(a, q, r)
  {
    DivisionIs(8 * q + r, 8, q, r);
    hide Parts, ShiftedByte;
    forall i | 0 <= i < |a|
      ensures ShiftedByte(a, q, r, i) == Parts(a, q, r)[i]
    {
      PartsAt(a, q, r, i);
    }
  }

  /** Shifting is multiplication by a power of two, modulo the word size. */
  lemma ShlIs(a: Word, n: nat)
    ensures ToInt(Shl(a, n)) == ToInt(a) * Pow2(n) % Pow256(|a|)
  {
    hide *;
    ShlBy(a, n, n / 8, n % 8);
  }

  lemma ShlBy(a: Word, n: nat, q: nat, r: nat)
    requires n == 8 * q + r && r < 8
    ensures ToInt(Shl(a, n)) == ToInt(a) * Pow2(n) % Pow256(|a|)
  {
    hide *;
    ToIntBound(Shl(a, n));
    var k := ShlSum(a, q, r);
    Reduced(ToInt(a), Pow2(n), k, Pow256(|a|), ToInt(Shl(a, n)));
  }

  lemma ShlSum(a: Word, q: nat, r: nat) returns (k: nat)
    requires r < 8
    ensures ToInt(a) * Pow2(8 * q + r) == k * Pow256(|a|) + ToInt(Shl(a, 8 * q + r))
  {
    hide *;
    ShlParts(a, q, r);
    Pow2Bytes(q, r);
    if q <= |a| {
      k := PartsIs(a, q, r, Pow2(8 * q + r));
    } else {
      k := NoPartIs(a, q, r, Pow2(8 * q + r));
    }
  }

  lemma Reduced(x: nat, y: nat, k: nat, w: nat, t: nat)
    requires t < w && x * y == k * w + t
    ensures t == x * y % w
  {
    DivisionIs(x * y, w, k, t);
  }

  lemma PartsIs(a: Word, q: nat, r: nat, p: nat) returns (k: nat)
    requires q <= |a| && r < 8 && p == Pow256(q) * Pow2(r)
    ensures ToInt(a) * p == k * Pow256(|a|) + ToInt(Parts(a, q, r))
  {
    var low, high := a[..|a| - q], a[|a| - q..];
    assert a == low + high && Parts(a, q, r) == Zeros(q) + Shifted(low, r, 0);
    assert |low| == |a| - q && q + |low| == |a|;
    hide *;
    var c := ShiftedIs(low, r, 0);
    ZerosBelow(q, Shifted(low, r, 0));
    ToIntAppend(low, high);
    Pow256Add(q, |low|);
    k := Assemble(ToInt(low), ToInt(high), Pow256(q), Pow256(|low|), Pow2(r), ToInt(Shifted(low, r, 0)), c,
                  ToInt(a), p, Pow256(|a|), ToInt(Parts(a, q, r)));
  }

  lemma NoPartIs(a: Word, q: nat, r: nat, p: nat) returns (k: nat)
    requires q > |a| && r < 8 && p == Pow256(q) * Pow2(r)
    ensures ToInt(a) * p == k * Pow256(|a|) + ToInt(Parts(a, q, r))
  {
    assert Parts(a, q, r) == Zeros(|a|) + [] && ToInt([]) == 0;
    assert q - |a| + |a| == q;
    hide *;
    ZerosBelow(|a|, []);
    Pow256Add(q - |a|, |a|);
    k := Move(ToInt(a), Pow256(q - |a|), Pow256(|a|), Pow2(r), Pow256(q), p);
  }

  lemma Move(a: nat, b: nat, c: nat, d: nat, q: nat, p: nat) returns (k: nat)
    requires q == b * c && p == q * d
    ensures a * p == k * c
  {
    k := a * b * d;
    assert a * (b * c * d) == a * b * d * c;
  }

  /** With low * p carried out of its bytes, so is the whole. */
  lemma Assemble(low: nat, high: nat, q: nat, rest: nat, p: nat, s: nat, c: nat, a: nat, qp: nat, whole: nat, t: nat)
    returns (k: nat)
    requires low * p == s + c * rest && a == low + rest * high && qp == q * p && whole == q * rest && t == q * s
    ensures a * qp == k * whole + t
  {
    k := c + high * p;
    assert (low + rest * high) * (q * p) == q * (low * p) + high * p * (q * rest);
    assert q * (s + c * rest) == q * s + c * (q * rest);
    assert (c + high * p) * (q * rest) == c * (q * rest) + high * p * (q * rest);
  }
}
