/** Sizes computed without overflow (xsize.h): SIZE_MAX stands for a size that is too
    large. */
module XSize {
  import opened Arithmetic

  const SIZE_MAX := 0xFFFF_FFFF_FFFF_FFFF

  function Xtimes(n: nat, size: nat): nat
    requires size > 0
  {
    if n <= SIZE_MAX / size then n * size else SIZE_MAX
  }

  function Xsum(a: nat, b: nat): nat {
    var sum := (a + b) % (SIZE_MAX + 1);
    if sum >= a then sum else SIZE_MAX
  }

  function Saturated(n: nat): nat {
    if n < SIZE_MAX then n else SIZE_MAX
  }

  lemma XsumIs(a: nat, b: nat)
    requires a <= SIZE_MAX && b <= SIZE_MAX
    ensures Xsum(a, b) == Saturated(a + b)
  {
  }

  lemma XtimesIs(n: nat, size: nat)
    requires 0 < size <= SIZE_MAX
    ensures Xtimes(n, size) == Saturated(n * size)
  {
    var q := SIZE_MAX / size;
    var r := SIZE_MAX % size;
    assert SIZE_MAX == q * size + r;
    if n <= q {
      MulMonotone(n, q, size);
    } else {
      MulMonotone(q + 1, n, size);
    }
  }
}
