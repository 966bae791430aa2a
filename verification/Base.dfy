/** Addresses, and the arithmetic of include/kernel/base.h. */
module Base {
  /** The address of a node or of memory, with 0 for null and for a tree's sentinel. */
  type Id = nat
  const NIL: Id := 0

  const U64: nat := 0x1_0000_0000_0000_0000
  const U64_MAX: nat := 0xFFFF_FFFF_FFFF_FFFF

  function Max(a: nat, b: nat): nat { if a > b then a else b }
  function Min(a: nat, b: nat): nat { if a < b then a else b }

  // ----- products and remainders -----

  lemma MulLess(a: nat, x: int, y: int)
    requires a > 0 && x < y
    ensures a * x + a <= a * y
  {
    var d: nat := y - x - 1;
    assert a * y == a * x + a + a * d;
  }

  lemma MulOrder(a: nat, x: int, y: int)
    requires a > 0
    ensures x < y <==> a * x < a * y
    ensures x < y ==> a * x + a <= a * y
  {
    if x < y {
      MulLess(a, x, y);
    } else if y < x {
      MulLess(a, y, x);
    }
  }

  lemma ModUnique(x: int, a: nat, k: int, m: int)
    requires a > 0 && 0 <= m < a && x == a * k + m
    ensures x % a == m && x / a == k
  {
    MulOrder(a, k, x / a);
    MulOrder(a, x / a, k);
  }

  lemma WrapOnce(x: nat)
    requires x < 2 * U64
    ensures x % U64 == if x < U64 then x else x - U64
  {
    if x < U64 {
      ModUnique(x, U64, 0, x);
    } else {
      ModUnique(x, U64, 1, x - U64);
    }
  }

  // ----- numbers of 32 bits -----

  const INT_MAX: int := 0x7FFF_FFFF

  /** What 32 bits keep of a number, as an `int`. */
  function ToInt(x: int): int {
    var w := x % 0x1_0000_0000;
    if w < 0x8000_0000 then w else w - 0x1_0000_0000
  }

  lemma SmallInt(x: int)
    requires -0x8000_0000 <= x <= INT_MAX
    ensures ToInt(x) == x
  {
  }

  lemma IntOf(x: int, w: int)
    requires (x - w) % 0x1_0000_0000 == 0 && -0x8000_0000 <= w <= INT_MAX
    ensures ToInt(x) == w
  {
  }

  /** Sums can be cut to 32 bits as they are made. */
  lemma IntSum(x: int, c: int)
    ensures ToInt(ToInt(x) + c) == ToInt(x + c)
  {
    var w := ToInt(x);
    assert (x - w) % 0x1_0000_0000 == 0;
    assert (x + c - (w + c)) % 0x1_0000_0000 == 0;
  }

  /** An `int` holds just the numbers up to its greatest. */
  lemma IntHolds(x: nat)
    ensures ToInt(x) == x <==> x <= INT_MAX
  {
  }

  // ----- powers of two and masks -----

  predicate PowerOfTwo(a: nat) { a == 1 || (a > 0 && a % 2 == 0 && PowerOfTwo(a / 2)) }

  lemma PowerPositive(a: nat)
    ensures PowerOfTwo(a) ==> a > 0
  {
  }

  lemma PowerHalf(a: nat)
    requires PowerOfTwo(a)
    ensures a > 0 && (a > 1 ==> PowerOfTwo(a / 2) && a == 2 * (a / 2))
  {
  }

  /** The bits that two numbers have in common. */
  function And(x: nat, y: nat): nat
    decreases x
  {
    if x == 0 || y == 0 then 0
    else (if x % 2 == 1 && y % 2 == 1 then 1 else 0) + 2 * And(x / 2, y / 2)
  }

  lemma HalfMask(x: nat, h: nat)
    requires h > 0
    ensures And(x, 2 * h - 1) == x % 2 + 2 * And(x / 2, h - 1)
  {
    var m := 2 * h - 1;
    assert m % 2 == 1 && m / 2 == h - 1;
  }

  lemma HalfRemainder(x: nat, h: nat)
    requires h > 0
    ensures x % (2 * h) == x % 2 + 2 * (x / 2 % h)
  {
    var y := x / 2;
    var q, r := y / h, y % h;
    assert y == h * q + r && x == 2 * y + x % 2;
    assert x == (2 * h) * q + (2 * r + x % 2) by {
      assert 2 * (h * q) == (2 * h) * q;
    }
    ModUnique(x, 2 * h, q, 2 * r + x % 2);
  }

  /** Masking with a power of two less one takes the remainder. */
  lemma {:induction false} MaskIs(x: nat, a: nat)
    requires PowerOfTwo(a)
    ensures a > 0 && And(x, a - 1) == x % a
    decreases a
  {
    hide PowerOfTwo, And;
    PowerHalf(a);
    if a > 1 {
      var h := a / 2;
      MaskIs(x / 2, h);
      HalfMask(x, h);
      HalfRemainder(x, h);
    } else {
      NoMask(x);
    }
  }

  lemma NoMask(x: nat)
    ensures And(x, 0) == 0
  {
  }

  function Pow2(k: nat): (n: nat)
    ensures n > 0
  { if k == 0 then 1 else 2 * Pow2(k - 1) }

  /** The powers of two up to one are its divisors. */
  lemma {:induction false} PowerDivides(a: nat, k: nat)
    requires PowerOfTwo(a) && a <= Pow2(k)
    ensures a > 0 && Pow2(k) % a == 0
    decreases k
  {
    hide PowerOfTwo;
    PowerHalf(a);
    if a > 1 {
      PowerDivides(a / 2, k - 1);
      var q := Pow2(k - 1) / (a / 2);
      assert Pow2(k - 1) == (a / 2) * q;
      assert Pow2(k) == a * q + 0 by {
        assert 2 * ((a / 2) * q) == (2 * (a / 2)) * q;
      }
      ModUnique(Pow2(k), a, q, 0);
    }
  }

  lemma {:induction false} Pow2Sum(a: nat, b: nat)
    ensures Pow2(a + b) == Pow2(a) * Pow2(b)
    decreases a
  {
    if a > 0 {
      Pow2Sum(a - 1, b);
    }
  }

  lemma {:induction false} Pow2Mono(a: nat, b: nat)
    requires a <= b
    ensures Pow2(a) <= Pow2(b)
  {
    if a < b {
      Pow2Mono(a, b - 1);
    }
  }

  lemma Doubled(k: nat, n: nat)
    requires Pow2(k) == n
    ensures Pow2(k + k) == n * n
  {
    Pow2Sum(k, k);
  }

  lemma Word()
    ensures Pow2(32) == 0x1_0000_0000 && Pow2(64) == U64
  {
    assert Pow2(4) == 16;
    hide Pow2;
    Doubled(4, 16);
    Doubled(8, 0x100);
    Doubled(16, 0x1_0000);
    Doubled(32, 0x1_0000_0000);
  }

  lemma {:induction false} PowerIs(k: nat)
    ensures PowerOfTwo(Pow2(k))
  {
    if k > 0 {
      PowerIs(k - 1);
    }
  }

  // ----- the align macro -----

  /** The macro in 64 bits: adds the part of a power of two that `v` lacks. */
  function Align64(v: nat, a: nat): nat
    requires a > 0
  { (v + And((a - v) % U64, a - 1)) % U64 }

  /** `v` raised to a multiple of `a`. */
  function AlignUp(v: nat, a: nat): nat
    requires a > 0
  { v + (a - v) % a }

  lemma ModOfMod(x: int, n: nat, a: nat)
    requires a > 0 && n > 0 && n % a == 0
    ensures x % n % a == x % a
  {
    var k, j := n / a, x / n;
    var q, r := x % n / a, x % n % a;
    assert x == n * j + x % n && n == a * k && x % n == a * q + r;
    assert x == a * (k * j + q) + r by {
      assert (a * k) * j == a * (k * j);
      assert a * (k * j) + a * q == a * (k * j + q);
    }
    ModUnique(x, a, k * j + q, r);
  }

  /** For a power of two the macro raises to a multiple, as far as 64 bits go. */
  lemma AlignMacro(v: nat, a: nat)
    requires PowerOfTwo(a) && a <= U64
    ensures a > 0 && Align64(v, a) == AlignUp(v, a) % U64
  {
    hide PowerOfTwo, And, Pow2;
    Word();
    PowerDivides(a, 64);
    MaskIs((a - v) % U64, a);
    ModOfMod(a - v, U64, a);
  }

  /** It is the least multiple that is not below. */
  lemma AlignUpLeast(v: nat, a: nat, c: nat)
    requires a > 0
    ensures AlignUp(v, a) % a == 0 && v <= AlignUp(v, a) < v + a
    ensures c >= v && c % a == 0 ==> AlignUp(v, a) <= c
  {
    var q, r := v / a, v % a;
    if r == 0 {
      assert a - v == a * (1 - q) + 0;
      ModUnique(a - v, a, 1 - q, 0);
    } else {
      assert a - v == a * (-q) + (a - r);
      ModUnique(a - v, a, -q, a - r);
      assert AlignUp(v, a) == a * (q + 1) + 0;
      ModUnique(AlignUp(v, a), a, q + 1, 0);
      MulOrder(a, q, c / a);
    }
  }
}
