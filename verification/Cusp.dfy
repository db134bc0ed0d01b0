/**
 The group law assumed of the multiples of G (Scalars.Setting) is met with order p
 modulo every prime p above 2, and so with an order above any bound: on the curve
 y^2 = x^3 the reference addition adds the points (1/k^2, 1/k^3) by their k.
 */
module Cusp {
  import opened Modular
  import opened Options
  import opened Field
  import opened Curve
  import opened JacobianRefines
  import opened Scalars

  // (1, 1, k): the point of parameter k
  function Triple(p: nat, k: int): Jacobian
    requires p > 0
  {
    Jacobian(1, 1, k % p)
  }

  function Parametrized(p: nat): int -> Affine
    requires p >= 2
  {
    (k: int) => JacobianToAffine(p, Triple(p, k))
  }

  lemma PowersC(p: nat, z: int, w: int)
    requires p > 0 && Cong(z, w, p)
    ensures Cong(z * z, w * w, p) && Cong(z * z * z, w * w * w, p)
  {
    CongMul(z, w, z, w, p);
    CongMul(z * z, w * w, z, w, p);
  }

  // big = s and 1 = x * u give big = x * (s * u)
  lemma ScaledBy(p: nat, big: int, s: int, x: int, u: int, w: int)
    requires p > 0 && Cong(big, s, p) && Cong(1, x * u, p)
    requires Cong(w, s * u, p)
    ensures Cong(big, x * w, p)
  {
    CongMul(s, s, 1, x * u, p);
    CongMul(x, x, w, s * u, p);
    assert s * (x * u) == x * (s * u);
  }

  // ---- Doubling ----

  lemma Units(p: nat, k: int)
    requires p > 2
    ensures Sqr(p, 1) == 1 && Mul(p, 1, 1) == 1 && Mul(p, 1, k) == k % p
  {
    DivModUnique(1, 0, 1, p);
  }

  // (1, 1, z) doubles to (1, 1, 2z).
  lemma TripleDoubles(p: nat, k: int)
    requires p > 2 && k % p != 0
    ensures PointDouble(p, Triple(p, k)) == Triple(p, 2 * k)
  {
    var z := k % p;
    Units(p, z);
    CongMod(k, p);
    DblC(p, 1, 1);
    DblC(p, Dbl(p, 1), 2);
    TriC(p, 1, 1);
    var s, m := Dbl(p, Dbl(p, 1)), Tri(p, 1);
    DblC(p, s, 4);
    MulC(p, m, 3, m, 3);
    SubC(p, Sqr(p, m), 9, Dbl(p, s), 8);
    var x3 := Sub(p, Sqr(p, m), Dbl(p, s));
    CongSmall(x3, 1, p);
    DblC(p, s, 4);
    SubC(p, s, 4, x3, 1);
    MulC(p, m, 3, Sub(p, s, x3), 3);
    SubC(p, Mul(p, m, Sub(p, s, x3)), 9, Dbl(p, s), 8);
    var y3 := Sub(p, Mul(p, m, Sub(p, s, x3)), Dbl(p, s));
    CongSmall(y3, 1, p);
    DivModUnique(z, 0, z, p);
    DblC(p, z, k);
    CongMod(2 * k, p);
    CongSmall(Dbl(p, z), (2 * k) % p, p);
  }

  // The point of parameter k, when k is a unit.
  lemma PointOf(p: nat, k: int)
    requires IsPrime(p) && k % p != 0
    ensures
      var a := Parametrized(p)(k);
      && a.Point? && a.x < p && a.y < p && a.y != 0
      && Cong(a.x * (k * k), 1, p) && Cong(a.y * (k * k * k), 1, p)
  {
    var j := Triple(p, k);
    var a := JacobianToAffine(p, j);
    ReadBack(p, j, a.x, a.y);
    CongMod(k, p);
    PowersC(p, j.z, k);
    CongMul(a.x, a.x, j.z * j.z, k * k, p);
    CongMul(a.y, a.y, j.z * j.z * j.z, k * k * k, p);
    if a.y == 0 {
      DivModUnique(0, 0, 0, p);
      DivModUnique(1, 0, 1, p);
    }
  }

  lemma PowersOfProduct(l: int, t: int)
    ensures (l * t) * (l * t) == (l * l) * (t * t)
    ensures (l * t) * (l * t) * (l * t) == (l * l * l) * (t * t * t)
  {
    assert (l * t) * (l * t) == (l * l) * (t * t);
    assert ((l * l) * (t * t)) * (l * t) == (l * l * l) * (t * t * t);
  }

  lemma ScaledRepresents(p: nat, r: Jacobian, l: int, t: int, x: int, y: int)
    requires p > 0 && (l * t) % p != 0 && Cong(x * (t * t), 1, p) && Cong(y * (t * t * t), 1, p)
    requires Cong(r.x, l * l, p) && Cong(r.y, l * l * l, p) && Cong(r.z, l * t, p)
    ensures Represents(p, r, x, y)
  {
    PowersC(p, r.z, l * t);
    PowersOfProduct(l, t);
    ScaledBy(p, r.x, l * l, x, t * t, r.z * r.z);
    ScaledBy(p, r.y, l * l * l, y, t * t * t, r.z * r.z * r.z);
  }

  // The triple (l^2, l^3, l * t) stands for the point of parameter t.
  lemma Scaled(p: nat, r: Jacobian, l: int, t: int)
    requires IsPrime(p) && Reduced(p, r) && l % p != 0 && t % p != 0
    requires Cong(r.x, l * l, p) && Cong(r.y, l * l * l, p) && Cong(r.z, l * t, p)
    ensures JacobianToAffine(p, r) == Parametrized(p)(t)
  {
    PointOf(p, t);
    PrimeProduct(l, t, p);
    var a := Parametrized(p)(t);
    ScaledRepresents(p, r, l, t, a.x, a.y);
    ReadNonzero(p, r, a.x, a.y);
  }

  lemma SameParameter(p: nat, j: int, k: int)
    requires p >= 2 && Cong(j, k, p)
    ensures Parametrized(p)(j) == Parametrized(p)(k)
  {}

  lemma SumOfEqual(p: nat, k: int)
    requires IsPrime(p) && p > 2 && k % p != 0
    ensures PointAdd(p, Parametrized(p)(k), Parametrized(p)(k)) == Some(Parametrized(p)(2 * k))
  {
    TripleDoubles(p, k);
    DivModUnique(1, 0, 1, p);
    PointOf(p, k);
    DoubleRefines(p, Triple(p, k));
  }

  // ---- Opposite points ----

  lemma OppositeX(p: nat, j: int, k: int, x: nat, x': nat)
    requires IsPrime(p) && k % p != 0 && Cong(j * j, k * k, p) && x < p && x' < p
    requires Cong(x * (j * j), 1, p) && Cong(x' * (k * k), 1, p)
    ensures x == x'
  {
    CongMul(x, x, j * j, k * k, p);
    PrimeProduct(k, k, p);
    assert x * (k * k) == (k * k) * x && x' * (k * k) == (k * k) * x';
    PrimeCancel(k * k, x, x', p);
    CongSmall(x, x', p);
  }

  lemma OppositeY(p: nat, j3: int, k3: int, y: int)
    requires p > 2 && Cong(j3, -k3, p) && Cong(y * j3, 1, p)
    ensures !Cong(y * k3, 1, p)
  {
    if Cong(y * k3, 1, p) {
      CongMul(y, y, j3, -k3, p);
      assert y * -k3 == -(y * k3);
      CongAdd(y * k3, 1, y * j3, 1, p);
      CongAdd(y * j3, -(y * k3), y * k3, y * k3, p);
      DivModUnique(2, 0, 2, p);
      DivModUnique(0, 0, 0, p);
    }
  }

  lemma NegatedPowers(p: nat, j: int, k: int)
    requires p > 0 && (j + k) % p == 0
    ensures Cong(j * j, k * k, p) && Cong(j * j * j, -(k * k * k), p)
  {
    DivModUnique(0, 0, 0, p);
    CongAdd(j + k, 0, k, k, p);
    PowersC(p, j, -k);
    assert (-k) * (-k) == k * k && (-k) * (-k) * (-k) == -(k * k * k);
  }

  lemma SumOfOpposite(p: nat, j: int, k: int)
    requires IsPrime(p) && p > 2 && j % p != 0 && k % p != 0 && (j + k) % p == 0
    ensures PointAdd(p, Parametrized(p)(j), Parametrized(p)(k)) == Some(Infinity)
  {
    PointOf(p, j);
    PointOf(p, k);
    var a, b := Parametrized(p)(j), Parametrized(p)(k);
    NegatedPowers(p, j, k);
    OppositeX(p, j, k, a.x, b.x);
    OppositeY(p, j * j * j, k * k * k, a.y);
  }

  // ---- The other sums: c is the ratio of the parameters ----

  lemma RatioPowers(p: nat, c: int, j: int, k: int, x: int, y: int)
    requires p > 0 && Cong(c * k, j, p) && Cong(x * (k * k), 1, p) && Cong(y * (k * k * k), 1, p)
    ensures Cong(x * (j * j), c * c, p) && Cong(y * (j * j * j), c * c * c, p)
  {
    PowersC(p, c * k, j);
    CongMul(x, x, (c * k) * (c * k), j * j, p);
    CongMul(c * c, c * c, x * (k * k), 1, p);
    assert x * ((c * k) * (c * k)) == (c * c) * (x * (k * k));
    CongMul(y, y, (c * k) * (c * k) * (c * k), j * j * j, p);
    CongMul(c * c * c, c * c * c, y * (k * k * k), 1, p);
    CubeOut(c, k, y);
  }

  lemma CubeOut(c: int, k: int, y: int)
    ensures y * ((c * k) * (c * k) * (c * k)) == (c * c * c) * (y * (k * k * k))
  {
    PowersOfProduct(c, k);
  }

  // The powers of c + 1 and of c^2 + c + 1, spelled out.
  lemma Expansions(c: int, s: int, k: int)
    requires s == c * c && k == s * c
    ensures
      var e, q := c + 1, s + c + 1;
      && e * e == s + 2 * c + 1 && e * e * e == k + 3 * s + 3 * c + 1
      && q * q == c * k + 2 * k + 3 * s + 2 * c + 1 && q * (2 * c + 1) == 2 * k + 3 * s + 3 * c + 1
  {
    var e, q := c + 1, s + c + 1;
    assert e * e == s + 2 * c + 1;
    assert (s + 2 * c + 1) * c == k + 2 * s + c;
    assert q * c == k + s + c;
    assert q * s == c * k + k + s;
  }

  lemma RatioIdentities(c: int)
    ensures
      var d, e, q := c - 1, c + 1, c * c + c + 1;
      && d * e == c * c - 1 && d * q == c * c * c - 1
      && q * q - d * (e * e * e) - 2 * (e * e) == c * c && q * (e * e - c * c) - e * e * e == c * c * c
  {
    var s, k := c * c, c * c * c;
    Expansions(c, s, k);
    assert (s + c + 1) * c == k + s + c;
    assert (k + 3 * s + 3 * c + 1) * c == c * k + 3 * k + 3 * s + c;
  }

  lemma CommonSquare(s: int, d: int, q2: int, e2: int, e3: int, c2: int)
    requires q2 - d * e3 - 2 * e2 == c2
    ensures s * q2 - (s * d) * e3 - 2 * (s * e2) == s * c2
  {
    assert (s * d) * e3 == s * (d * e3);
  }

  lemma CommonCube(s: int, d: int, q: int, e2: int, c2: int, e3: int, c3: int)
    requires q * (e2 - c2) - e3 == c3
    ensures (d * q) * (s * e2 - s * c2) - (s * d) * e3 == (s * d) * c3
  {
    assert s * e2 - s * c2 == s * (e2 - c2);
    assert (d * q) * (s * (e2 - c2)) == (s * d) * (q * (e2 - c2));
  }

  // With h = d * e, r = d * q and l = d * c, the factors d come out.
  lemma FactorsOut(c: int, d: int, e: int, q: int)
    requires q * q - d * (e * e * e) - 2 * (e * e) == c * c && q * (e * e - c * c) - e * e * e == c * c * c
    ensures
      var h, r, l := d * e, d * q, d * c;
      && r * r - h * h * h - 2 * (h * h) == l * l
      && r * (h * h - l * l) - h * h * h == l * l * l
  {
    PowersOfProduct(d, e);
    PowersOfProduct(d, c);
    PowersOfProduct(d, q);
    CommonSquare(d * d, d, q * q, e * e, e * e * e, c * c);
    CommonCube(d * d, d, q, e * e, c * c, e * e * e, c * c * c);
  }

  // With h = c^2 - 1 and r = c^3 - 1 the sum is (l^2, l^3) for l = (c - 1) * c.
  lemma SumIdentities(c: int)
    ensures
      var h, r, l := c * c - 1, c * c * c - 1, (c - 1) * c;
      && r * r - h * h * h - 2 * (h * h) == l * l
      && r * (h * h - l * l) - h * h * h == l * l * l
  {
    RatioIdentities(c);
    FactorsOut(c, c - 1, c + 1, c * c + c + 1);
  }

  // What the mixed addition computes from u2 = c^2 and s2 = c^3.
  lemma TripleAdds(p: nat, j: Jacobian, qx: nat, qy: nat, c: int)
    requires p > 2 && j.x == j.y == 1 && 0 < j.z < p && (c * c - 1) % p != 0
    requires Cong(Mul(p, qx, Sqr(p, j.z)), c * c, p) && Cong(Mul(p, qy, Mul(p, Sqr(p, j.z), j.z)), c * c * c, p)
    ensures
      var r, l := PointAddMixed(p, j, qx, qy), (c - 1) * c;
      Cong(r.x, l * l, p) && Cong(r.y, l * l * l, p) && Cong(r.z, (c * c - 1) * j.z, p)
  {
    var hh, rr, l := c * c - 1, c * c * c - 1, (c - 1) * c;
    SumIdentities(c);
    var u2, s2 := Mul(p, qx, Sqr(p, j.z)), Mul(p, qy, Mul(p, Sqr(p, j.z), j.z));
    CongAdd(u2, c * c, 1, 1, p);
    DivModUnique(0, 0, 0, p);
    assert u2 != 1;
    var h, r := Sub(p, u2, 1), Sub(p, s2, 1);
    SubC(p, u2, c * c, 1, 1);
    SubC(p, s2, c * c * c, 1, 1);
    MulC(p, h, hh, h, hh);
    var hSq, hCu := Sqr(p, h), Mul(p, Sqr(p, h), h);
    MulC(p, hSq, hh * hh, h, hh);
    var u1hSq := Mul(p, 1, hSq);
    MulC(p, 1, 1, hSq, hh * hh);
    SumTail(p, r, rr, hCu, hh * hh * hh, u1hSq, hh * hh, l);
    MulC(p, h, hh, j.z, j.z);
  }

  lemma SumTail(p: nat, r: nat, r': int, hCu: nat, hCu': int, hSq: nat, hSq': int, l: int)
    requires p > 0 && Cong(r, r', p) && Cong(hCu, hCu', p) && Cong(hSq, hSq', p)
    requires r' * r' - hCu' - 2 * hSq' == l * l && r' * (hSq' - l * l) - hCu' == l * l * l
    ensures
      var x3 := Sub(p, Sub(p, Sqr(p, r), hCu), Dbl(p, hSq));
      var y3 := Sub(p, Mul(p, r, Sub(p, hSq, x3)), Mul(p, 1, hCu));
      Cong(x3, l * l, p) && Cong(y3, l * l * l, p)
  {
    MulC(p, r, r', r, r');
    SubC(p, Sqr(p, r), r' * r', hCu, hCu');
    DblC(p, hSq, hSq');
    var first := Sub(p, Sqr(p, r), hCu);
    SubC(p, first, r' * r' - hCu', Dbl(p, hSq), 2 * hSq');
    var x3 := Sub(p, first, Dbl(p, hSq));
    SubC(p, hSq, hSq', x3, l * l);
    MulC(p, r, r', Sub(p, hSq, x3), hSq' - l * l);
    MulC(p, 1, 1, hCu, hCu');
    SubC(p, Mul(p, r, Sub(p, hSq, x3)), r' * (hSq' - l * l), Mul(p, 1, hCu), hCu');
  }

  // The ratio c of distinct parameters that are not opposite either.
  lemma RatioOf(p: nat, j: int, k: int) returns (c: int)
    requires IsPrime(p) && j % p != 0 && k % p != 0 && (j - k) % p != 0 && (j + k) % p != 0
    ensures Cong(c * k, j, p) && ((c - 1) * c) % p != 0 && (c * c - 1) % p != 0
    ensures Cong((c * c - 1) * j, ((c - 1) * c) * (j + k), p)
  {
    c := j * Inv(p, k);
    InvC(p, k);
    CongMul(j, j, k * Inv(p, k), 1, p);
    assert c * k == j * (k * Inv(p, k));
    CongAdd(c * k, j, k, k, p);
    assert c * k - k == (c - 1) * k && c * k + k == (c + 1) * k;
    PrimeProduct(c, k, p);
    PrimeProduct(c - 1, k, p);
    PrimeProduct(c + 1, k, p);
    PrimeProduct(c - 1, c, p);
    PrimeProduct(c + 1, c - 1, p);
    assert (c + 1) * (c - 1) == c * c - 1;
    CongAdd(c * j, c * j, j, c * k, p);
    CongMul(c - 1, c - 1, c * j + j, c * j + c * k, p);
    ShareFactor(c, j, k);
  }

  lemma ShareFactor(c: int, j: int, k: int)
    ensures (c - 1) * (c * j + j) == (c * c - 1) * j
    ensures (c - 1) * (c * j + c * k) == ((c - 1) * c) * (j + k)
  {
    assert c * j + j == (c + 1) * j && c * j + c * k == c * (j + k);
    assert (c - 1) * ((c + 1) * j) == ((c - 1) * (c + 1)) * j;
  }

  lemma SumOfDistinct(p: nat, j: int, k: int)
    requires IsPrime(p) && p > 2 && j % p != 0 && k % p != 0 && (j - k) % p != 0 && (j + k) % p != 0
    ensures PointAdd(p, Parametrized(p)(j), Parametrized(p)(k)) == Some(Parametrized(p)(j + k))
  {
    var c := RatioOf(p, j, k);
    var t, b, z := Triple(p, j), Parametrized(p)(k), j % p;
    PointOf(p, k);
    CongMod(j, p);
    RatioPowers(p, c, j, k, b.x, b.y);
    PowersC(p, z, j);
    ZPowers(p, z);
    MulC(p, b.x, b.x, Sqr(p, z), j * j);
    MulC(p, b.y, b.y, Mul(p, Sqr(p, z), z), j * j * j);
    TripleAdds(p, t, b.x, b.y, c);
    CongMul(c * c - 1, c * c - 1, z, j, p);
    AddRefines(p, t, b.x, b.y);
    Scaled(p, PointAddMixed(p, t, b.x, b.y), (c - 1) * c, j + k);
  }

  // ---- Every sum ----

  lemma ParametersAdd(p: nat, j: int, k: int)
    requires IsPrime(p) && p > 2
    ensures PointAdd(p, Parametrized(p)(j), Parametrized(p)(k)) == Some(Parametrized(p)(j + k))
  {
    if j % p == 0 {
      CongAdd(j, 0, k, k, p);
      SameParameter(p, j + k, k);
    } else if k % p == 0 {
      CongAdd(j, j, k, 0, p);
      SameParameter(p, j + k, j);
      PointOf(p, j);
    } else if (j + k) % p == 0 {
      SumOfOpposite(p, j, k);
    } else if (j - k) % p == 0 {
      CongAdd(j - k, 0, k, k, p);
      CongAdd(j, k, k, k, p);
      SameParameter(p, j, k);
      SameParameter(p, j + k, 2 * k);
      SumOfEqual(p, k);
    } else {
      SumOfDistinct(p, j, k);
    }
  }

  // Order p is reached modulo every prime p above 2.
  lemma SettingOfOrderP(p: nat)
    requires IsPrime(p) && p > 2
    ensures Setting(p, p, Point(1, 1), Parametrized(p))
  {
    DivModUnique(1, 0, 1, p);
    AddToInfinity(p, 1, 1);
    DivModUnique(0, 0, 0, p);
    forall j, k ensures Sums(Adder(p), Parametrized(p), j, k) {
      ParametersAdd(p, j, k);
    }
    forall k ensures Multiple(p, p, Parametrized(p), k) {
      if k % p != 0 {
        PointOf(p, k);
      }
    }
  }
}
