/** Powers, ceilings and bit lengths: the number theory under the byte-matrix runtime. */
module Arithmetic {

  function Pow(b: int, e: nat): int
  {
    if e == 0 then 1 else b * Pow(b, e - 1)
  }

  lemma {:induction false} PowPositive(b: int, e: nat)
    requires 0 < b
    ensures 0 < Pow(b, e)
  {
    if e != 0 {
      PowPositive(b, e - 1);
    }
  }

  lemma {:induction false} PowAdd(b: int, m: nat, n: nat)
    ensures Pow(b, m + n) == Pow(b, m) * Pow(b, n)
  {
    if m != 0 {
      PowAdd(b, m - 1, n);
      MulAssociates(b, Pow(b, m - 1), Pow(b, n));
    }
  }

  lemma {:induction false} PowPow(b: int, m: nat, n: nat)
    ensures Pow(Pow(b, m), n) == Pow(b, m * n)
  {
    if n != 0 {
      PowPow(b, m, n - 1);
      assert m * n == m + m * (n - 1);
      PowAdd(b, m, m * (n - 1));
    }
  }

  lemma {:induction false} PowMonotone(b: int, m: nat, n: nat)
    requires 1 <= b && m <= n
    ensures Pow(b, m) <= Pow(b, n)
  {
    if m < n {
      PowMonotone(b, m, n - 1);
      PowPositive(b, n - 1);
      MulGrows(b, Pow(b, n - 1));
    }
  }

  lemma {:induction false} PowBaseMonotone(a: int, b: int, e: nat)
    requires 0 <= a <= b
    ensures 0 <= Pow(a, e) <= Pow(b, e)
  {
    if e != 0 {
      PowBaseMonotone(a, b, e - 1);
      MulMonotone(a, b, Pow(a, e - 1), Pow(b, e - 1));
    }
  }

  lemma PowSmall(x: int)
    ensures Pow(x, 0) == 1 && Pow(x, 1) == x && Pow(x, 2) == x * x && Pow(x, 3) == x * x * x
  {
    assert Pow(x, 1) == x * Pow(x, 0);
    assert Pow(x, 2) == x * Pow(x, 1);
    assert Pow(x, 3) == x * Pow(x, 2);
    MulAssociates(x, x, x);
  }

  lemma MulAssociates(x: int, y: int, z: int)
    ensures x * (y * z) == (x * y) * z
  {
  }

  lemma MulGrows(b: int, x: int)
    requires 1 <= b && 0 <= x
    ensures x <= b * x
  {
  }

  lemma MulMonotone(a: int, b: int, x: int, y: int)
    requires 0 <= a <= b && 0 <= x <= y
    ensures 0 <= a * x <= b * y
  {
    assert a * x <= a * y;
    assert a * y <= b * y;
  }

  lemma SmallMultiple(e: int, m: int)
    requires 0 < m && -m < e * m < m
    ensures e == 0
  {
    assert (-e) * m == -(e * m);
    if e >= 1 {
      MulGrows(e, m);
    } else if e <= -1 {
      MulGrows(-e, m);
    }
  }

  /** Euclidean division is determined by its defining equation. */
  lemma DivModUnique(q: int, m: int, r: int)
    requires 0 < m && 0 <= r < m
    ensures (q * m + r) / m == q && (q * m + r) % m == r
  {
    var x := q * m + r;
    var (d, s) := (x / m, x % m);
    assert x == d * m + s && 0 <= s < m;
    assert (d - q) * m == d * m - q * m;
    SmallMultiple(d - q, m);
  }

  /** Dividing twice is dividing by the product. */
  lemma DivDiv(v: nat, a: nat, b: nat)
    requires 0 < a && 0 < b
    ensures 0 < a * b && v / a / b == v / (a * b)
  {
    var (q, r) := (v / a, v % a);
    var (q', r') := (q / b, q % b);
    assert v == q * a + r && q == q' * b + r';
    MulMonotone(0, r', 0, a);
    MulMonotone(r', b - 1, a, a);
    assert v == (q' * b + r') * a + r;
    assert (q' * b + r') * a == q' * b * a + r' * a;
    MulAssociates(q', b, a);
    assert a * b == b * a;
    assert (b - 1) * a == b * a - a;
    DivModUnique(q', a * b, r' * a + r);
  }

  /** Python's divmod on nonnegative operands: quotient and remainder. */
  function DivMod(x: nat, m: nat): (r: (nat, nat))
    requires 0 < m
    ensures r.0 * m + r.1 == x && r.1 < m
  {
    (x / m, x % m)
  }

  lemma DivModIs(q: nat, m: nat, r: nat)
    requires r < m
    ensures DivMod(q * m + r, m) == (q, r)
  {
    DivModUnique(q, m, r);
  }

  // ---- Ceilings ----

  /** The least number of groups of `b` that hold `a` items. */
  function CeilDiv(a: nat, b: nat): nat
    requires 0 < b
  {
    (a + b - 1) / b
  }

  /** `q` groups are enough and `q - 1` are not: this pins the ceiling. */
  lemma CeilDivUnique(a: nat, b: nat, q: nat)
    requires 0 < b
    requires (q - 1) * b < a <= q * b
    ensures CeilDiv(a, b) == q
  {
    var r := a + b - 1 - q * b;
    assert (q - 1) * b == q * b - b;
    DivModUnique(q, b, r);
  }

  lemma CeilDivBounds(a: nat, b: nat)
    requires 0 < b
    ensures (CeilDiv(a, b) - 1) * b < a <= CeilDiv(a, b) * b
    ensures a == 0 <==> CeilDiv(a, b) == 0
  {
    var x := a + b - 1;
    var q := CeilDiv(a, b);
    assert x == q * b + x % b;
    assert (q - 1) * b == q * b - b;
    if a == 0 {
      DivModUnique(0, b, b - 1);
    } else {
      assert b <= x;
    }
  }

  /** Grouping the groups is the same as grouping once with the product. */
  lemma CeilDivNested(a: nat, b: nat, c: nat)
    requires 0 < b && 0 < c
    ensures 0 < b * c
    ensures CeilDiv(CeilDiv(a, b), c) == CeilDiv(a, b * c)
  {
    hide CeilDiv;
    var q := CeilDiv(a, b);
    var p := CeilDiv(q, c);
    CeilDivBounds(a, b);
    CeilDivBounds(q, c);
    ScaleBounds(a, b, c, q, p);
    CeilDivUnique(a, b * c, p);
  }

  lemma ScaleBounds(a: nat, b: nat, c: nat, q: nat, p: nat)
    requires 0 < b && 0 < c
    requires (q - 1) * b < a <= q * b && (p - 1) * c < q <= p * c
    ensures 0 < b * c
    ensures (p - 1) * (b * c) < a <= p * (b * c)
  {
    assert q * b <= (p * c) * b;
    MulAssociates(p, c, b);
    assert ((p - 1) * c) * b <= (q - 1) * b;
    MulAssociates(p - 1, c, b);
    assert c * b == b * c;
  }

  /** A prefix of `k` full groups contributes exactly `k`. */
  lemma CeilDivSplit(k: nat, b: nat, r: nat)
    requires 0 < b
    ensures CeilDiv(k * b + r, b) == k + CeilDiv(r, b)
  {
    var q := CeilDiv(r, b);
    CeilDivBounds(r, b);
    assert (k + q) * b == k * b + q * b;
    assert (k + q - 1) * b == k * b + (q - 1) * b;
    CeilDivUnique(k * b + r, b, k + q);
  }

  // ---- Bit length ----

  /** int.bit_length of a nonnegative integer. */
  function BitLength(x: nat): nat
  {
    if x == 0 then 0 else 1 + BitLength(x / 2)
  }

  lemma {:induction false} BitLengthBounds(x: nat)
    ensures x < Pow(2, BitLength(x))
    ensures 0 < x ==> 0 < BitLength(x) && Pow(2, BitLength(x) - 1) <= x
  {
    if x != 0 {
      BitLengthBounds(x / 2);
      if 1 < x {
        assert 0 < x / 2;
        assert Pow(2, BitLength(x) - 1) == 2 * Pow(2, BitLength(x / 2) - 1);
      }
    }
  }

  /** The number of bytes the source reserves for a value up to `x`. */
  function ByteWidth(x: nat): nat
  {
    (BitLength(x) + 7) / 8
  }

  /** That number is the least one that holds `x`. */
  lemma ByteWidthIsLeast(x: nat, w: nat)
    ensures ByteWidth(x) <= w <==> x < Pow(256, w)
  {
    BitLengthBounds(x);
    assert Pow(2, 8) == 256;
    PowPow(2, 8, w);
    assert Pow(256, w) == Pow(2, 8 * w);
    if BitLength(x) <= 8 * w {
      PowMonotone(2, BitLength(x), 8 * w);
    } else {
      assert 0 < x;
      PowMonotone(2, 8 * w, BitLength(x) - 1);
    }
  }
}
