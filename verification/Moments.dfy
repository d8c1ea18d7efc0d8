/** Positional moments of a byte string and their aggregation without reading the bytes again. */
module Moments {
  import opened Arithmetic

  type Byte = b: int | 0 <= b < 256

  /** The list [N, P0, P1, P2, P3]; arbitrary integers unless stated otherwise. */
  datatype Sig = Sig(n: int, p0: int, p1: int, p2: int, p3: int) {
    function P(degree: nat): int
      requires degree < 4
    {
      if degree == 0 then p0 else if degree == 1 then p1 else if degree == 2 then p2 else p3
    }
  }

  const ZERO_SIG := Sig(0, 0, 0, 0, 0)

  /** The sum of data[i] * (i + 1)^degree over all positions. */
  function Moment(degree: nat, data: seq<Byte>): int
  {
    if data == [] then 0
    else Moment(degree, data[..|data| - 1]) + data[|data| - 1] * Pow(|data|, degree)
  }

  /** What the signature of a byte string is by definition. */
  function SigOf(data: seq<Byte>): Sig
  {
    Sig(|data|, Moment(0, data), Moment(1, data), Moment(2, data), Moment(3, data))
  }

  lemma MomentSnoc(degree: nat, data: seq<Byte>, value: Byte)
    ensures Moment(degree, data + [value]) == Moment(degree, data) + value * Pow(|data| + 1, degree)
  {
    assert (data + [value])[..|data|] == data;
  }

  /** core.signature: one pass, each term multiplied by the position once per degree. */
  method Signature(data: seq<Byte>) returns (s: Sig)
    ensures s == SigOf(data)
  {
    var moments: seq<int> := [0, 0, 0, 0];
    var position := 0;
    while position < |data|
      invariant 0 <= position <= |data|
      invariant |moments| == 4
      invariant forall k :: 0 <= k < 4 ==> moments[k] == Moment(k, data[..position])
    {
      var value := data[position];
      ghost var before := data[..position];
      position := position + 1;
      assert data[..position] == before + [value];
      var term: int := value;
      var degree := 0;
      assert term == value * Pow(position, 0);
      while degree < 4
        invariant 0 <= degree <= 4 && |moments| == 4
        invariant term == value * Pow(position, degree)
        invariant forall k :: 0 <= k < degree ==> moments[k] == Moment(k, data[..position])
        invariant forall k :: degree <= k < 4 ==> moments[k] == Moment(k, before)
      {
        MomentSnoc(degree, before, value);
        moments := moments[degree := moments[degree] + term];
        assert value * (position * Pow(position, degree)) == (value * Pow(position, degree)) * position;
        term := term * position;
        degree := degree + 1;
      }
    }
    assert data[..position] == data;
    s := Sig(|data|, moments[0], moments[1], moments[2], moments[3]);
  }

  // ---- Aggregation ----

  /** math.comb by Pascal's rule. */
  function Comb(n: nat, k: nat): nat
  {
    if k == 0 then 1
    else if n == 0 then 0
    else Comb(n - 1, k - 1) + Comb(n - 1, k)
  }

  /** One term of the binomial sum of concatenate. */
  function RebaseTerm(length: int, child: Sig, degree: nat, lower: nat): int
    requires lower <= degree < 4
  {
    Comb(degree, lower) * Pow(length, degree - lower) * child.P(lower)
  }

  /** The sum of the terms lower = 0 .. count - 1. */
  function RebaseSum(length: int, child: Sig, degree: nat, count: nat): int
    requires count <= degree + 1 && degree < 4
  {
    if count == 0 then 0
    else RebaseSum(length, child, degree, count - 1) + RebaseTerm(length, child, degree, count - 1)
  }

  /** Moments of a child whose first byte is preceded by `length` bytes, as explicit polynomials. */
  function Rebase(length: int, c: Sig): Sig
  {
    Sig(length + c.n,
        c.p0,
        length * c.p0 + c.p1,
        length * length * c.p0 + 2 * length * c.p1 + c.p2,
        length * length * length * c.p0 + 3 * length * length * c.p1 + 3 * length * c.p2 + c.p3)
  }

  /** The binary form of concatenate. */
  function Combine(a: Sig, b: Sig): Sig
  {
    var r := Rebase(a.n, b);
    Sig(r.n, a.p0 + r.p0, a.p1 + r.p1, a.p2 + r.p2, a.p3 + r.p3)
  }

  /** The n-ary form, from the left. */
  function CombineAll(children: seq<Sig>): Sig
  {
    if children == [] then ZERO_SIG
    else Combine(CombineAll(children[..|children| - 1]), children[|children| - 1])
  }

  lemma CombTable()
    ensures Comb(0, 0) == 1
    ensures Comb(1, 0) == 1 && Comb(1, 1) == 1
    ensures Comb(2, 0) == 1 && Comb(2, 1) == 2 && Comb(2, 2) == 1
    ensures Comb(3, 0) == 1 && Comb(3, 1) == 3 && Comb(3, 2) == 3 && Comb(3, 3) == 1
  {
  }

  lemma RebaseTermIs(length: int, child: Sig, degree: nat, lower: nat, comb: int, power: int)
    requires lower <= degree < 4 && comb == Comb(degree, lower) && power == Pow(length, degree - lower)
    ensures RebaseTerm(length, child, degree, lower) == comb * power * child.P(lower)
  {
  }

  lemma RebaseSumIsPolynomial(length: int, child: Sig, degree: nat)
    requires degree < 4
    ensures RebaseSum(length, child, degree, degree + 1) == Rebase(length, child).P(degree)
  {
    CombTable();
    PowSmall(length);
    RebaseTermIs(length, child, degree, degree, 1, 1);
    assert RebaseSum(length, child, degree, 0) == 0;
    if degree == 1 {
      RebaseTermIs(length, child, 1, 0, 1, length);
      assert RebaseSum(length, child, 1, 1) == length * child.p0;
    } else if degree == 2 {
      RebaseTermIs(length, child, 2, 0, 1, length * length);
      RebaseTermIs(length, child, 2, 1, 2, length);
      assert RebaseSum(length, child, 2, 1) == length * length * child.p0;
      assert RebaseSum(length, child, 2, 2) == length * length * child.p0 + 2 * length * child.p1;
    } else if degree == 3 {
      RebaseTermIs(length, child, 3, 0, 1, length * length * length);
      RebaseTermIs(length, child, 3, 1, 3, length * length);
      RebaseTermIs(length, child, 3, 2, 3, length);
      Commute3(length, child.p1);
      assert RebaseSum(length, child, 3, 1) == length * length * length * child.p0;
      assert RebaseSum(length, child, 3, 2) == length * length * length * child.p0 + 3 * length * length * child.p1;
    }
  }

  lemma Commute3(l: int, x: int)
    ensures 3 * (l * l) * x == 3 * l * l * x
  {
  }

  /** core.concatenate: the binomial loop over degrees and lower degrees. */
  method Concatenate(signatures: seq<Sig>) returns (s: Sig)
    ensures s == CombineAll(signatures)
  {
    var length := 0;
    var moments: seq<int> := [0, 0, 0, 0];
    var i := 0;
    while i < |signatures|
      invariant 0 <= i <= |signatures| && |moments| == 4
      invariant CombineAll(signatures[..i]) == Sig(length, moments[0], moments[1], moments[2], moments[3])
    {
      var child := signatures[i];
      ghost var before := CombineAll(signatures[..i]);
      var degree := 0;
      while degree < 4
        invariant 0 <= degree <= 4 && |moments| == 4
        invariant forall k :: 0 <= k < degree ==> moments[k] == before.P(k) + Rebase(length, child).P(k)
        invariant forall k :: degree <= k < 4 ==> moments[k] == before.P(k)
      {
        var sum := 0;
        var lower := 0;
        while lower < degree + 1
          invariant 0 <= lower <= degree + 1
          invariant sum == RebaseSum(length, child, degree, lower)
        {
          sum := sum + Comb(degree, lower) * Pow(length, degree - lower) * child.P(lower);
          lower := lower + 1;
        }
        RebaseSumIsPolynomial(length, child, degree);
        moments := moments[degree := moments[degree] + sum];
        degree := degree + 1;
      }
      length := length + child.n;
      assert signatures[..i + 1][..i] == signatures[..i];
      assert moments[0] == Combine(before, child).p0;
      assert moments[1] == Combine(before, child).p1;
      assert moments[2] == Combine(before, child).p2;
      assert moments[3] == Combine(before, child).p3;
      i := i + 1;
    }
    assert signatures[..i] == signatures;
    s := Sig(length, moments[0], moments[1], moments[2], moments[3]);
  }

  // ---- Concatenation is a monoid, on arbitrary tuples ----

  lemma CombineUnit(a: Sig)
    ensures Combine(ZERO_SIG, a) == a
    ensures Combine(a, ZERO_SIG) == a
  {
  }

  // The polynomial identities, degree by degree.

  lemma Shift2(k: int, l: int, a: int, b: int, c: int)
    ensures k * k * a + 2 * k * (l * a + b) + (l * l * a + 2 * l * b + c)
         == (k + l) * (k + l) * a + 2 * (k + l) * b + c
  {
  }

  lemma Shift3(k: int, l: int, a: int, b: int, c: int, d: int)
    ensures k * k * k * a + 3 * k * k * (l * a + b) + 3 * k * (l * l * a + 2 * l * b + c)
              + (l * l * l * a + 3 * l * l * b + 3 * l * c + d)
         == (k + l) * (k + l) * (k + l) * a + 3 * (k + l) * (k + l) * b + 3 * (k + l) * c + d
  {
    assert (k + l) * (k + l) == k * k + 2 * k * l + l * l;
    assert (k + l) * (k + l) * (k + l) == k * k * k + 3 * k * k * l + 3 * k * l * l + l * l * l;
  }

  lemma Linear2(l: int, a: int, b: int, c: int, a': int, b': int, c': int)
    ensures l * l * (a + a') + 2 * l * (b + b') + (c + c')
         == (l * l * a + 2 * l * b + c) + (l * l * a' + 2 * l * b' + c')
  {
  }

  lemma Linear3(l: int, a: int, b: int, c: int, d: int, a': int, b': int, c': int, d': int)
    ensures l * l * l * (a + a') + 3 * l * l * (b + b') + 3 * l * (c + c') + (d + d')
         == (l * l * l * a + 3 * l * l * b + 3 * l * c + d) + (l * l * l * a' + 3 * l * l * b' + 3 * l * c' + d')
  {
  }

  /** Rebasing twice is rebasing by the sum. */
  lemma RebaseTwice(k: int, l: int, c: Sig)
    ensures Rebase(k, Rebase(l, c)) == Rebase(k + l, c)
  {
    assert k * c.p0 + (l * c.p0 + c.p1) == (k + l) * c.p0 + c.p1;
    Shift2(k, l, c.p0, c.p1, c.p2);
    Shift3(k, l, c.p0, c.p1, c.p2, c.p3);
  }

  /** Rebasing is linear in the moments. */
  lemma RebaseAdds(l: int, a: Sig, b: Sig, c: Sig)
    requires c.p0 == a.p0 + b.p0 && c.p1 == a.p1 + b.p1 && c.p2 == a.p2 + b.p2 && c.p3 == a.p3 + b.p3
    ensures var (x, y, z) := (Rebase(l, a), Rebase(l, b), Rebase(l, c));
            z.p0 == x.p0 + y.p0 && z.p1 == x.p1 + y.p1 && z.p2 == x.p2 + y.p2 && z.p3 == x.p3 + y.p3
  {
    assert l * (a.p0 + b.p0) == l * a.p0 + l * b.p0;
    Linear2(l, a.p0, a.p1, a.p2, b.p0, b.p1, b.p2);
    Linear3(l, a.p0, a.p1, a.p2, a.p3, b.p0, b.p1, b.p2, b.p3);
  }

  lemma CombineAssociates(a: Sig, b: Sig, c: Sig)
    ensures Combine(Combine(a, b), c) == Combine(a, Combine(b, c))
  {
    RebaseTwice(a.n, b.n, c);
    RebaseAdds(a.n, b, Rebase(b.n, c), Combine(b, c));
  }

  /** Any grouping of the children gives the same parent. */
  lemma {:induction false} CombineAllSplits(xs: seq<Sig>, ys: seq<Sig>)
    ensures CombineAll(xs + ys) == Combine(CombineAll(xs), CombineAll(ys))
  {
    if ys == [] {
      assert xs + ys == xs;
      CombineUnit(CombineAll(xs));
    } else {
      var last := |ys| - 1;
      assert (xs + ys)[..|xs + ys| - 1] == xs + ys[..last];
      CombineAllSplits(xs, ys[..last]);
      CombineAssociates(CombineAll(xs), CombineAll(ys[..last]), ys[last]);
    }
  }

  function Flatten<T>(groups: seq<seq<T>>): seq<T>
  {
    if groups == [] then [] else Flatten(groups[..|groups| - 1]) + groups[|groups| - 1]
  }

  function CombineEach(groups: seq<seq<Sig>>): (r: seq<Sig>)
    ensures |r| == |groups|
  {
    seq(|groups|, i requires 0 <= i < |groups| => CombineAll(groups[i]))
  }

  /** Combining group by group and then combining the groups is the flat n-ary call. */
  lemma {:induction false} CombineAllOfGroups(groups: seq<seq<Sig>>)
    ensures CombineAll(CombineEach(groups)) == CombineAll(Flatten(groups))
  {
    if groups != [] {
      var last := |groups| - 1;
      assert CombineEach(groups)[..last] == CombineEach(groups[..last]);
      CombineAllOfGroups(groups[..last]);
      CombineAllSplits(Flatten(groups[..last]), groups[last]);
    }
  }

  // ---- Signature is a homomorphism ----

  /** The contribution of one byte at (one-based) position `m`. */
  function UnitSig(m: int, v: int): Sig
  {
    Sig(1, v, m * v, m * m * v, m * m * m * v)
  }

  lemma SigSnoc(data: seq<Byte>, v: Byte)
    ensures var (s, u, t) := (SigOf(data), UnitSig(|data| + 1, v), SigOf(data + [v]));
            && t.n == s.n + 1
            && t.p0 == s.p0 + u.p0 && t.p1 == s.p1 + u.p1 && t.p2 == s.p2 + u.p2 && t.p3 == s.p3 + u.p3
  {
    var m := |data| + 1;
    PowSmall(m);
    MomentSnoc(0, data, v);
    MomentSnoc(1, data, v);
    MomentSnoc(2, data, v);
    MomentSnoc(3, data, v);
    Commutes(v, m);
    Commutes(v, m * m);
    Commutes(v, m * m * m);
  }

  lemma Commutes(x: int, y: int)
    ensures x * y == y * x
  {
  }

  lemma UnitRebases(l: int, m: int, v: int)
    ensures var (r, u) := (Rebase(l, UnitSig(m, v)), UnitSig(l + m, v));
            r.p0 == u.p0 && r.p1 == u.p1 && r.p2 == u.p2 && r.p3 == u.p3
  {
    // A unit at position m is a single weight rebased by m.
    assert Rebase(m, Sig(1, v, 0, 0, 0)) == Sig(m + 1, v, m * v, m * m * v, m * m * m * v);
    assert Rebase(l + m, Sig(1, v, 0, 0, 0)).p3 == (l + m) * (l + m) * (l + m) * v;
    RebaseTwice(l, m, Sig(1, v, 0, 0, 0));
  }

  /** The parent of two adjacent ranges carries the signature of the joined range. */
  lemma {:induction false} SigOfConcat(x: seq<Byte>, y: seq<Byte>)
    ensures SigOf(x + y) == Combine(SigOf(x), SigOf(y))
  {
    if y == [] {
      assert x + y == x;
      CombineUnit(SigOf(x));
    } else {
      var last := |y| - 1;
      var v := y[last];
      var y' := y[..last];
      assert y == y' + [v];
      assert x + y == (x + y') + [v];
      SigOfConcat(x, y');
      SigSnoc(x + y', v);
      SigSnoc(y', v);
      RebaseAdds(|x|, SigOf(y'), UnitSig(|y|, v), SigOf(y));
      UnitRebases(|x|, |y|, v);
    }
  }

  function SigsOf(parts: seq<seq<Byte>>): (r: seq<Sig>)
    ensures |r| == |parts|
  {
    seq(|parts|, i requires 0 <= i < |parts| => SigOf(parts[i]))
  }

  /** Whatever the split, combining the parts' signatures is the signature of the joined bytes. */
  lemma {:induction false} SigOfParts(parts: seq<seq<Byte>>)
    ensures CombineAll(SigsOf(parts)) == SigOf(Flatten(parts))
  {
    if parts != [] {
      var last := |parts| - 1;
      assert SigsOf(parts)[..last] == SigsOf(parts[..last]);
      SigOfParts(parts[..last]);
      SigOfConcat(Flatten(parts[..last]), parts[last]);
    }
  }
}
