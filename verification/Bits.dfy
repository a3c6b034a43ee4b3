/** Machine words as natural numbers: bits, bitwise or, and powers of two. */
module Bits {

  const U32: nat := 0x1_0000_0000

  function Pow2(n: nat): (p: nat)
    ensures p > 0
  {
    if n == 0 then 1 else 2 * Pow2(n - 1)
  }

  lemma Pow2Values()
    ensures Pow2(1) == 2 && Pow2(2) == 4 && Pow2(3) == 8 && Pow2(4) == 16 && Pow2(6) == 64
    ensures Pow2(8) == 256 && Pow2(9) == 512 && Pow2(10) == 1024
  {
    assert Pow2(5) == 32 && Pow2(7) == 128;
  }

  /** Bit `i` of `x` is set. */
  predicate Bit(x: nat, i: nat) {
    if i == 0 then x % 2 == 1 else Bit(x / 2, i - 1)
  }

  function Or(a: nat, b: nat): nat
    decreases a + b
  {
    if a == 0 then b
    else if b == 0 then a
    else 2 * Or(a / 2, b / 2) + (if a % 2 == 1 || b % 2 == 1 then 1 else 0)
  }

  lemma {:induction false} OrStep(a: nat, b: nat)
    ensures Or(a, b) == 2 * Or(a / 2, b / 2) + (if a % 2 == 1 || b % 2 == 1 then 1 else 0)
  {
  }

  /** `Or` is bitwise or. */
  lemma {:induction false} OrBits(a: nat, b: nat, i: nat)
    ensures Bit(Or(a, b), i) <==> Bit(a, i) || Bit(b, i)
    decreases i
  {
    hide Or;
    OrStep(a, b);
    var rest := Or(a / 2, b / 2);
    if i > 0 {
      OrBits(a / 2, b / 2, i - 1);
      assert Or(a, b) / 2 == rest;
    } else {
      assert Or(a, b) % 2 == if a % 2 == 1 || b % 2 == 1 then 1 else 0;
    }
  }

  lemma {:induction false} ZeroBits(i: nat)
    ensures !Bit(0, i)
  {
    if i > 0 { ZeroBits(i - 1); }
  }

  lemma {:induction false} OrSelf(a: nat)
    ensures Or(a, a) == a
  {
    if a > 0 { OrSelf(a / 2); }
  }

  /** `x` shifted up by `k` bits. */
  function Shl(x: nat, k: nat): nat {
    if k == 0 then x else 2 * Shl(x, k - 1)
  }

  lemma {:induction false} ShlOne(k: nat)
    ensures Shl(1, k) == Pow2(k)
  {
    if k > 0 { ShlOne(k - 1); }
  }

  lemma ShlTen(x: nat)
    ensures Shl(x, 10) == 1024 * x
  {
    assert Shl(x, 1) == 2 * x;
    assert Shl(x, 2) == 4 * x;
    assert Shl(x, 3) == 8 * x;
    assert Shl(x, 4) == 16 * x;
    assert Shl(x, 5) == 32 * x;
    assert Shl(x, 6) == 64 * x;
    assert Shl(x, 7) == 128 * x;
    assert Shl(x, 8) == 256 * x;
    assert Shl(x, 9) == 512 * x;
  }

  lemma {:induction false} ShlZero(k: nat)
    ensures Shl(0, k) == 0
  {
    if k > 0 { ShlZero(k - 1); }
  }

  /** Oring into the part above the low `k` bits leaves those bits alone. */
  lemma {:induction false} OrAbove(k: nat, low: nat, a: nat, b: nat)
    requires low < Pow2(k)
    ensures Or(low + Shl(a, k), Shl(b, k)) == low + Shl(Or(a, b), k)
  {
    if k > 0 {
      OrAbove(k - 1, low / 2, a, b);
      OrStep(low + Shl(a, k), Shl(b, k));
      Halves(low, Shl(a, k - 1), Shl(b, k - 1));
    }
  }

  lemma Halves(low: nat, a: nat, b: nat)
    ensures (low + 2 * a) / 2 == low / 2 + a && (low + 2 * a) % 2 == low % 2 && (2 * b) / 2 == b && (2 * b) % 2 == 0
  {
  }

  /** The low `k` bits of an or are the or of the low `k` bits. */
  lemma {:induction false} OrLow(k: nat, a: nat, b: nat)
    ensures Or(a, b) % Pow2(k) == Or(a % Pow2(k), b % Pow2(k))
  {
    if k > 0 {
      hide Or, Pow2;
      var p := Pow2(k);
      OrLow(k - 1, a / 2, b / 2);
      OrStep(a, b);
      OrStep(a % p, b % p);
      LowStep(k, a);
      LowStep(k, b);
      LowStep(k, Or(a, b));
      assert Or(a, b) / 2 == Or(a / 2, b / 2);
    }
  }

  lemma LowStep(k: nat, a: nat)
    requires k > 0
    ensures a % Pow2(k) == 2 * ((a / 2) % Pow2(k - 1)) + a % 2
    ensures (a % Pow2(k)) / 2 == (a / 2) % Pow2(k - 1) && (a % Pow2(k)) % 2 == a % 2
  {
    var h := Pow2(k - 1);
    var q, r := (a / 2) / h, (a / 2) % h;
    assert a == 2 * (q * h + r) + a % 2;
    assert a == q * (2 * h) + (2 * r + a % 2);
    DivModUnique(a, 2 * h, q, 2 * r + a % 2);
  }

  lemma DivModUnique(a: nat, m: nat, q: nat, r: nat)
    requires m > 0 && a == q * m + r && r < m
    ensures a / m == q && a % m == r
  {
    var d := a / m - q;
    assert a == (a / m) * m + a % m;
    assert d * m == (a / m) * m - q * m;
    assert d > 0 ==> d * m >= m;
    assert d < 0 ==> d * m <= 0 - m;
  }

  /** `x` lies `k` times `m` above `y`. */
  ghost predicate Apart(x: int, y: int, m: nat, k: int) {
    x == y + k * m
  }

  /** Two numbers that differ by a multiple of `m`. */
  ghost predicate Congruent(x: int, y: int, m: nat) {
    exists k :: Apart(x, y, m, k)
  }

  /** What a division of `x` by `m` leaves: below `m`, and a multiple of `m` away from `x`. */
  ghost predicate Leaves(x: nat, m: nat, r: nat) {
    r < m && Congruent(x, r, m)
  }

  /** Every number leaves exactly one such remainder. */
  lemma LeavesOne(x: nat, m: nat, r: nat)
    requires m > 0
    ensures Leaves(x, m, x % m)
    ensures Leaves(x, m, r) ==> r == x % m
  {
    assert Apart(x, x % m, m, x / m);
    if Leaves(x, m, r) {
      var k :| Apart(x, r, m, k);
      if k < 0 { MulOrder(k, -1, m); }
      DivModUnique(x, m, k, r);
    }
  }

  lemma MulOrder(a: int, b: int, m: nat)
    requires a <= b
    ensures a * m <= b * m
  {
    assert (b - a) * m >= 0;
  }

  lemma CongruentSum(x: int, y: int, z: int, m: nat)
    requires Congruent(x, y, m) && Congruent(y, z, m)
    ensures Congruent(x, z, m)
  {
    var j :| Apart(x, y, m, j);
    var k :| Apart(y, z, m, k);
    assert (j + k) * m == j * m + k * m;
    assert Apart(x, z, m, j + k);
  }

  lemma CongruentShift(x: int, y: int, d: int, m: nat)
    requires Congruent(x, y, m)
    ensures Congruent(x + d, y + d, m)
  {
    var k :| Apart(x, y, m, k);
    assert Apart(x + d, y + d, m, k);
  }

  /** Wrapping a number to `m` keeps it up to multiples of `m`, also after scaling. */
  lemma CongruentWrap(x: int, m: nat, c: int)
    requires m > 0
    ensures Congruent(c * (x % m), c * x, m)
  {
    var q := x / m;
    assert c * x == c * (q * m) + c * (x % m);
    assert c * (q * m) == (c * q) * m;
    assert Apart(c * (x % m), c * x, m, -(c * q));
  }
}
