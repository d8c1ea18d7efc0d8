/** The closed-form moment bounds of format.validate_signature, and what stays inside them. */
module MomentBounds {
  import opened Arithmetic
  import opened Moments

  /** The power sums 1^k + ... + n^k in the closed form the validator uses. */
  function PowerSum(k: nat, n: nat): int
    requires k < 4
  {
    if k == 0 then n
    else if k == 1 then n * (n + 1) / 2
    else if k == 2 then n * (n + 1) * (2 * n + 1) / 6
    else (n * (n + 1) / 2) * (n * (n + 1) / 2)
  }

  /** The numeric conditions of validate_signature. */
  ghost predicate WithinBounds(s: Sig)
  {
    && 0 <= s.n && 0 <= s.p0 <= s.p1 <= s.p2 <= s.p3
    && forall k :: 0 <= k < 4 ==> s.P(k) <= 255 * PowerSum(k, s.n)
  }

  // ---- The bound is attained by the all-255 string ----

  function Saturated(n: nat): seq<Byte>
  {
    if n == 0 then [] else Saturated(n - 1) + [255]
  }

  lemma {:induction false} SaturatedConcat(m: nat, n: nat)
    ensures |Saturated(n)| == n
    ensures Saturated(m) + Saturated(n) == Saturated(m + n)
  {
    if n == 0 {
      assert Saturated(m) + [] == Saturated(m);
    } else {
      SaturatedConcat(m, n - 1);
      assert Saturated(m) + Saturated(n) == (Saturated(m) + Saturated(n - 1)) + [255];
    }
  }

  lemma Triangle(n: nat)
    requires 0 < n
    ensures n * (n + 1) / 2 == (n - 1) * n / 2 + n
  {
    assert n * (n + 1) == (n - 1) * n + 2 * n;
  }

  lemma Pyramid(n: nat)
    requires 0 < n
    ensures n * (n + 1) * (2 * n + 1) / 6 == (n - 1) * n * (2 * n - 1) / 6 + n * n
  {
    assert n * (n + 1) * (2 * n + 1) == (n - 1) * n * (2 * n - 1) + 6 * (n * n);
  }

  lemma {:induction false} TriangleExact(n: nat)
    ensures 2 * (n * (n + 1) / 2) == n * (n + 1)
  {
    if n != 0 {
      TriangleExact(n - 1);
      Triangle(n);
      assert n * (n + 1) == (n - 1) * n + 2 * n;
    }
  }

  lemma SquaredTriangle(n: nat)
    requires 0 < n
    ensures PowerSum(3, n) == PowerSum(3, n - 1) + n * n * n
  {
    var t := (n - 1) * n / 2;
    Triangle(n);
    TriangleExact(n - 1);
    assert (t + n) * (t + n) == t * t + (2 * t) * n + n * n;
    assert (2 * t) * n == (n - 1) * n * n;
    assert (n - 1) * n * n == n * n * n - n * n;
  }

  lemma {:induction false} SaturatedSig(n: nat)
    ensures SigOf(Saturated(n)) ==
            Sig(n, 255 * PowerSum(0, n), 255 * PowerSum(1, n), 255 * PowerSum(2, n), 255 * PowerSum(3, n))
  {
    SaturatedConcat(0, n);
    if n != 0 {
      SaturatedSig(n - 1);
      SaturatedConcat(0, n - 1);
      SigSnoc(Saturated(n - 1), 255);
      Triangle(n);
      Pyramid(n);
      SquaredTriangle(n);
    }
  }

  ghost predicate Below(a: Sig, b: Sig)
  {
    a.n == b.n && a.p0 <= b.p0 && a.p1 <= b.p1 && a.p2 <= b.p2 && a.p3 <= b.p3
  }

  lemma BoundsBySaturated(s: Sig)
    requires 0 <= s.n
    ensures WithinBounds(s) <==> 0 <= s.p0 <= s.p1 <= s.p2 <= s.p3 && Below(s, SigOf(Saturated(s.n)))
  {
    SaturatedSig(s.n);
    assert s.P(0) == s.p0 && s.P(1) == s.p1 && s.P(2) == s.p2 && s.P(3) == s.p3;
  }

  lemma UnitMonotone(m: nat, v: Byte)
    requires 0 < m
    ensures Below(UnitSig(m, v), UnitSig(m, 255))
    ensures var u := UnitSig(m, v); 0 <= u.p0 <= u.p1 <= u.p2 <= u.p3
  {
    MulMonotone(m, m, v, 255);
    MulMonotone(m * m, m * m, v, 255);
    MulMonotone(m * m * m, m * m * m, v, 255);
    MulGrows(m, v);
    MulGrows(m, m);
    MulGrows(m, m * m);
    MulMonotone(m, m * m, v, v);
    MulMonotone(m * m, m * m * m, v, v);
  }

  /** Every byte string has a signature the validator's bounds admit. */
  lemma {:induction false} SigOfWithinBounds(data: seq<Byte>)
    ensures WithinBounds(SigOf(data))
  {
    SaturatedSig(|data|);
    if data == [] {
      BoundsBySaturated(SigOf(data));
    } else {
      var last := |data| - 1;
      assert data == data[..last] + [data[last]];
      SigOfWithinBounds(data[..last]);
      BoundsBySaturated(SigOf(data[..last]));
      SaturatedConcat(0, last);
      SigSnoc(data[..last], data[last]);
      SigSnoc(Saturated(last), 255);
      UnitMonotone(|data|, data[last]);
      BoundsBySaturated(SigOf(data));
    }
  }

  lemma RebaseMonotone(l: nat, a: Sig, b: Sig)
    requires 0 <= a.p0 && 0 <= a.p1 && 0 <= a.p2 && Below(a, b)
    ensures Below(Rebase(l, a), Rebase(l, b))
  {
    MulMonotone(l, l, a.p0, b.p0);
    MulMonotone(l * l, l * l, a.p0, b.p0);
    MulMonotone(l * l * l, l * l * l, a.p0, b.p0);
    MulMonotone(2 * l, 2 * l, a.p1, b.p1);
    MulMonotone(3 * l * l, 3 * l * l, a.p1, b.p1);
    MulMonotone(3 * l, 3 * l, a.p2, b.p2);
  }

  lemma RebaseOrdered(l: nat, c: Sig)
    requires 0 <= c.p0 <= c.p1 <= c.p2 <= c.p3
    ensures var r := Rebase(l, c); 0 <= r.p0 <= r.p1 <= r.p2 <= r.p3
  {
    if l == 0 {
    } else {
      MulGrows(l, l);
      MulGrows(l, l * l);
      MulMonotone(l, l * l, c.p0, c.p0);
      MulMonotone(l * l, l * l * l, c.p0, c.p0);
      MulMonotone(0, l, 0, c.p0);
      MulMonotone(0, 2 * l, 0, c.p1);
      assert 3 * l * l == 3 * (l * l);
      MulMonotone(2 * l, 3 * l * l, c.p1, c.p1);
      MulMonotone(0, 3 * l, 0, c.p2);
    }
  }

  /** Parents of bounded children are bounded: aggregation never leaves the admitted region. */
  lemma CombineWithinBounds(a: Sig, b: Sig)
    requires WithinBounds(a) && WithinBounds(b)
    ensures WithinBounds(Combine(a, b))
  {
    BoundsBySaturated(a);
    BoundsBySaturated(b);
    RebaseMonotone(a.n, b, SigOf(Saturated(b.n)));
    RebaseOrdered(a.n, b);
    SaturatedConcat(a.n, b.n);
    SaturatedConcat(0, a.n);
    SigOfConcat(Saturated(a.n), Saturated(b.n));
    BoundsBySaturated(Combine(a, b));
  }

  lemma {:induction false} CombineAllWithinBounds(children: seq<Sig>)
    requires forall i :: 0 <= i < |children| ==> WithinBounds(children[i])
    ensures WithinBounds(CombineAll(children))
  {
    if children == [] {
      SigOfWithinBounds([]);
    } else {
      var last := |children| - 1;
      CombineAllWithinBounds(children[..last]);
      CombineWithinBounds(CombineAll(children[..last]), children[last]);
    }
  }

  // ---- Sizes below 2^63 never overflow the varint or decimal limits ----

  lemma TriangleBound(n: nat)
    ensures 0 <= n * (n + 1) / 2 <= n * n
  {
    if n != 0 {
      MulGrows(n, n);
    }
  }

  /** All five entries are below 2^260 when the length is below 2^63. */
  lemma BoundedMagnitude(s: Sig)
    requires WithinBounds(s) && s.n < Pow(2, 63)
    ensures s.n < Pow(2, 260) && s.p3 < Pow(2, 260)
  {
    var n := s.n;
    var h := Pow(2, 63);
    TriangleBound(n);
    MulMonotone(n, h, n, h);
    PowAdd(2, 63, 63);
    var t := n * (n + 1) / 2;
    MulMonotone(t, h * h, t, h * h);
    PowAdd(2, 126, 126);
    PowAdd(2, 8, 252);
    PowPositive(2, 252);
    assert s.P(3) <= 255 * PowerSum(3, n);
    PowMonotone(2, 63, 260);
  }
}
