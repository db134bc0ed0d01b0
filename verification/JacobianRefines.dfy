/**
 The Jacobian formulas compute the affine group law: doubling and mixed addition,
 read back by one inversion, give what the reference gives, in every case.
 */
module JacobianRefines {
  import opened Modular
  import opened Options
  import opened Field
  import opened Curve

  // t' with t = 0 mod p excluded stays so under congruence.
  lemma NonzeroC(p: nat, a: int, b: int)
    requires p > 0 && Cong(a, b, p)
    ensures a % p != 0 <==> b % p != 0
  {}

  // ---- Polynomial identities over the integers ----
  // x, y affine; z with w = z^2; t the new Z.

  lemma AddIdentities(m: int, x: int, y: int, h: int, w: int, z: int)
    requires w == z * z
    ensures
      var t, k := h * w * z, h * w;
      && (m * t) * (m * t) - k * k * k - 2 * ((x * w) * (k * k)) == (m * m - h - 2 * x) * (t * t)
      && (x * w) * (k * k) == x * (t * t)
      && (y * (w * z)) * (k * k * k) == y * (t * t * t)
  {
    var t, k := h * w * z, h * w;
    assert t == k * z;
    assert t * t == (k * k) * w by { assert (k * z) * (k * z) == (k * k) * (z * z); }
    assert (x * w) * (k * k) == x * ((k * k) * w);
    assert k * k * k == h * (t * t) by { assert k * k * k == h * ((k * k) * w); }
    assert (m * t) * (m * t) == (m * m) * (t * t);
    var s := t * t;
    assert (m * m) * s - h * s - 2 * (x * s) == (m * m - h - 2 * x) * s;
    assert t * t * t == (k * k * k) * (w * z) by { assert ((k * k) * w) * (k * z) == (k * k * k) * (w * z); }
    assert (y * (w * z)) * (k * k * k) == y * ((k * k * k) * (w * z));
  }

  lemma DoubleIdentities(x: int, y: int, w: int, z: int)
    requires w == z * z
    ensures
      var t, yy := 2 * y * (w * w), (y * y) * (w * w * w);
      && 2 * ((y * (w * z)) * z) == t && (y * (w * z)) * (y * (w * z)) == yy
      && 4 * ((x * w) * yy) == x * (t * t)
      && 8 * (yy * yy) == y * (t * t * t)
  {
    ClearZ(y, w, z);
    DoubleSquare(x, y, w);
    DoubleCube(y, w);
  }

  lemma ClearZ(y: int, w: int, z: int)
    requires w == z * z
    ensures 2 * ((y * (w * z)) * z) == 2 * y * (w * w)
    ensures (y * (w * z)) * (y * (w * z)) == (y * y) * (w * w * w)
  {
    assert (y * (w * z)) * z == y * (w * (z * z));
    assert (w * z) * (w * z) == (w * w) * (z * z);
    assert (y * (w * z)) * (y * (w * z)) == (y * y) * ((w * z) * (w * z));
  }

  lemma DoubleSquare(x: int, y: int, w: int)
    ensures 4 * ((x * w) * ((y * y) * (w * w * w))) == x * ((2 * y * (w * w)) * (2 * y * (w * w)))
  {
    var u := w * w;
    assert (2 * y * u) * (2 * y * u) == 4 * ((y * y) * (u * u));
    assert (x * w) * ((y * y) * (w * u)) == (x * (y * y)) * (u * u);
  }

  lemma DoubleCube(y: int, w: int)
    ensures
      var t, yy := 2 * y * (w * w), (y * y) * (w * w * w);
      8 * (yy * yy) == y * (t * t * t)
  {
    var u, y3 := w * w, y * y * y;
    var yy := (y * y) * (w * u);
    assert yy * yy == (y * y3) * ((w * u) * (w * u));
    assert (w * u) * (w * u) == u * u * u;
    assert (2 * y * u) * (2 * y * u) * (2 * y * u) == 8 * (y3 * (u * u * u));
    assert y * (8 * (y3 * (u * u * u))) == 8 * ((y * y3) * (u * u * u));
  }

  // ---- From the new coordinates to the chord ----

  // X = (m^2 - x - b) t^2, Y = m t (x t^2 - X) - y t^3 and Z = t stand for the third
  // point of the line of slope m, reflected.
  lemma ChordRepresented(p: nat, m: nat, x: nat, y: nat, b: nat, t: int, j: Jacobian)
    requires p > 0 && t % p != 0 && Cong(j.z, t, p)
    requires Cong(j.x, (m * m - x - b) * (t * t), p)
    requires Cong(j.y, (m * t) * (x * (t * t) - j.x) - y * (t * t * t), p)
    ensures Represents(p, j, Chord(p, m, x, y, b).x, Chord(p, m, x, y, b).y)
  {
    var c := Chord(p, m, x, y, b);
    var xr, s := m * m - x - b, t * t;
    NonzeroC(p, j.z, t);
    CongMul(j.z, t, j.z, t, p);
    CongMul(j.z * j.z, s, j.z, t, p);
    CongMod(m * m - x - b, p);
    CongMul(c.x, xr, j.z * j.z, s, p);
    // the y coordinate
    CongAdd(x, x, c.x, xr, p);
    CongMul(m, m, x - c.x, x - xr, p);
    CongAdd(m * (x - c.x), m * (x - xr), y, y, p);
    CongMod(m * (x - c.x) - y, p);
    CongMul(c.y, m * (x - xr) - y, j.z * j.z * j.z, s * t, p);
    CongAdd(x * s, x * s, j.x, xr * s, p);
    CongMul(m * t, m * t, x * s - j.x, x * s - xr * s, p);
    CongAdd((m * t) * (x * s - j.x), (m * t) * (x * s - xr * s), y * (s * t), y * (s * t), p);
    ChordIdentity(m, x, xr, y, s, t);
  }

  lemma ChordIdentity(m: int, x: int, xr: int, y: int, s: int, t: int)
    ensures (m * t) * (x * s - xr * s) - y * (s * t) == (m * (x - xr) - y) * (s * t)
  {
    assert x * s - xr * s == (x - xr) * s;
    assert (m * t) * ((x - xr) * s) == (m * (x - xr)) * (s * t);
    assert (m * (x - xr)) * (s * t) - y * (s * t) == (m * (x - xr) - y) * (s * t);
  }

  // ---- The two formulas ----

  // Mixed addition of points with different x.
  lemma AddGeneric(p: nat, j: Jacobian, x: nat, y: nat, qx: nat, qy: nat, m: nat)
    requires IsPrime(p) && j.z != 0 && Represents(p, j, x, y)
    requires (qx - x) % p != 0 && Cong(m * (qx - x), qy - y, p)
    ensures
      var c := Chord(p, m, x, y, qx);
      j.x != Mul(p, qx, Sqr(p, j.z)) && Represents(p, PointAddMixed(p, j, qx, qy), c.x, c.y)
  {
    var w, z, d := j.z * j.z, j.z, qx - x;
    var t, k := d * w * z, d * w;
    AddIdentities(m, x, y, d, w, z);
    assert z * z * z == w * z;
    AddDifferences(p, j, x, y, qx, qy, m);
    var u2, s2 := Mul(p, qx, Sqr(p, z)), Mul(p, qy, Mul(p, Sqr(p, z), z));
    var h, r := Sub(p, u2, j.x), Sub(p, s2, j.y);
    MulC(p, h, k, h, k);
    MulC(p, Sqr(p, h), k * k, h, k);
    MulC(p, j.x, x * w, Sqr(p, h), k * k);
    AddTail(p, j, x, y, m, d, w, t, k, h, r, Mul(p, Sqr(p, h), h), Mul(p, j.x, Sqr(p, h)));
    PrimeProduct(k, z, p);
    assert m * m - d - 2 * x == m * m - x - qx;
    ChordRepresented(p, m, x, y, qx, t, PointAddMixed(p, j, qx, qy));
  }

  // h = u2 - u1 and r = s2 - s1, and neither h nor the new Z vanishes.
  lemma AddDifferences(p: nat, j: Jacobian, x: nat, y: nat, qx: nat, qy: nat, m: nat)
    requires IsPrime(p) && j.z != 0 && Represents(p, j, x, y)
    requires (qx - x) % p != 0 && Cong(m * (qx - x), qy - y, p)
    ensures
      var w, d := j.z * j.z, qx - x;
      var u2, s2 := Mul(p, qx, Sqr(p, j.z)), Mul(p, qy, Mul(p, Sqr(p, j.z), j.z));
      && j.x != u2 && (d * w) % p != 0
      && Cong(Sub(p, u2, j.x), d * w, p) && Cong(Sub(p, s2, j.y), m * (d * w * j.z), p)
  {
    var w, z, d := j.z * j.z, j.z, qx - x;
    assert z * z * z == w * z;
    ZPowers(p, z);
    HDifference(p, j.x, x, qx, w, Sqr(p, z), z);
    SlopeStep(p, m, x, y, qx, qy, w * z, Mul(p, Sqr(p, z), z), j.y);
    Assoc(d, w, z);
  }

  lemma Assoc(a: int, b: int, c: int)
    ensures a * b * c == a * (b * c)
  {}

  lemma ZPowers(p: nat, z: int)
    requires p > 0
    ensures Cong(Sqr(p, z), z * z, p) && Cong(Mul(p, Sqr(p, z), z), (z * z) * z, p)
  {
    CongMod(z * z, p);
    MulC(p, Sqr(p, z), z * z, z, z);
  }

  lemma HDifference(p: nat, big: nat, x: int, qx: int, w: int, z1sq: int, z: int)
    requires IsPrime(p) && z % p != 0 && w == z * z && (qx - x) % p != 0
    requires Cong(z1sq, w, p) && Cong(big, x * w, p)
    ensures big != Mul(p, qx, z1sq) && Cong(Sub(p, Mul(p, qx, z1sq), big), (qx - x) * w, p)
    ensures ((qx - x) * w) % p != 0
  {
    var u2 := Mul(p, qx, z1sq);
    MulC(p, qx, qx, z1sq, w);
    SubC(p, u2, qx * w, big, x * w);
    assert qx * w - x * w == (qx - x) * w;
    PrimeProduct(z, z, p);
    PrimeProduct(qx - x, w, p);
    if big == u2 {
      DivModUnique(0, 0, 0, p);
      DivModUnique(Sub(p, u2, big), 0, Sub(p, u2, big), p);
    }
  }

  // r = s2 - s1 is the slope times the new Z.
  lemma SlopeStep(p: nat, m: nat, x: int, y: int, qx: int, qy: int, c: int, z1cu: int, s1: int)
    requires p > 0 && Cong(m * (qx - x), qy - y, p) && Cong(z1cu, c, p) && Cong(s1, y * c, p)
    ensures Cong(Sub(p, Mul(p, qy, z1cu), s1), m * ((qx - x) * c), p)
  {
    var s2 := Mul(p, qy, z1cu);
    MulC(p, qy, qy, z1cu, c);
    SubC(p, s2, qy * c, s1, y * c);
    CongMul(m * (qx - x), qy - y, c, c, p);
    assert qy * c - y * c == (qy - y) * c;
    Assoc(m, qx - x, c);
  }

  // The last lines of the addition formula.
  lemma AddTail(p: nat, j: Jacobian, x: int, y: int, m: int, d: int, w: int, t: int, k: int, h: nat, r: nat,
      hCu: nat, u1hSq: nat)
    requires p > 0 && t == d * w * j.z && k == d * w
    requires (m * t) * (m * t) - k * k * k - 2 * ((x * w) * (k * k)) == (m * m - d - 2 * x) * (t * t)
    requires (x * w) * (k * k) == x * (t * t) && (y * (w * j.z)) * (k * k * k) == y * (t * t * t)
    requires Cong(h, k, p) && Cong(r, m * t, p) && Cong(hCu, k * k * k, p) && Cong(u1hSq, (x * w) * (k * k), p)
    requires Cong(j.y, y * (w * j.z), p)
    ensures
      var x3 := Sub(p, Sub(p, Sqr(p, r), hCu), Dbl(p, u1hSq));
      var y3 := Sub(p, Mul(p, r, Sub(p, u1hSq, x3)), Mul(p, j.y, hCu));
      && Cong(x3, (m * m - d - 2 * x) * (t * t), p)
      && Cong(y3, (m * t) * (x * (t * t) - x3) - y * (t * t * t), p)
      && Cong(Mul(p, h, j.z), t, p)
  {
    MulC(p, r, m * t, r, m * t);
    SubC(p, Sqr(p, r), (m * t) * (m * t), hCu, k * k * k);
    DblC(p, u1hSq, (x * w) * (k * k));
    var first := Sub(p, Sqr(p, r), hCu);
    SubC(p, first, (m * t) * (m * t) - k * k * k, Dbl(p, u1hSq), 2 * ((x * w) * (k * k)));
    var x3 := Sub(p, first, Dbl(p, u1hSq));
    SubC(p, u1hSq, x * (t * t), x3, x3);
    MulC(p, r, m * t, Sub(p, u1hSq, x3), x * (t * t) - x3);
    MulC(p, j.y, y * (w * j.z), hCu, k * k * k);
    SubC(p, Mul(p, r, Sub(p, u1hSq, x3)), (m * t) * (x * (t * t) - x3), Mul(p, j.y, hCu), y * (t * t * t));
    MulC(p, h, k, j.z, j.z);
  }

  // Doubling of a point with y != 0.
  lemma DoubleGeneric(p: nat, j: Jacobian, x: nat, y: nat, m: nat)
    requires IsPrime(p) && p > 2 && j.z != 0 && Represents(p, j, x, y)
    requires y % p != 0 && Cong(m * (2 * y), 3 * x * x, p)
    ensures
      var c := Chord(p, m, x, y, x);
      Represents(p, PointDouble(p, j), c.x, c.y)
  {
    var w, z := j.z * j.z, j.z;
    var t, yy := 2 * y * (w * w), (y * y) * (w * w * w);
    DoubleIdentities(x, y, w, z);
    assert j.z * j.z * j.z == w * z;
    var y2 := Sqr(p, j.y);
    MulC(p, j.y, y * (w * z), j.y, y * (w * z));
    var xy2 := Mul(p, j.x, y2);
    MulC(p, j.x, x * w, y2, yy);
    DblC(p, xy2, (x * w) * yy);
    DblC(p, Dbl(p, xy2), 2 * ((x * w) * yy));
    MulC(p, j.x, x * w, j.x, x * w);
    TriC(p, Sqr(p, j.x), (x * w) * (x * w));
    TangentSlope(p, m, x, y, w, Tri(p, Sqr(p, j.x)));
    var y4 := Sqr(p, y2);
    MulC(p, y2, yy, y2, yy);
    DblC(p, y4, yy * yy);
    DblC(p, Dbl(p, y4), 2 * (yy * yy));
    DblC(p, Dbl(p, Dbl(p, y4)), 4 * (yy * yy));
    MulC(p, j.y, y * (w * z), z, z);
    DblC(p, Mul(p, j.y, z), (y * (w * z)) * z);
    DoubleTail(p, x, y, m, t, Dbl(p, Dbl(p, xy2)), Tri(p, Sqr(p, j.x)), Dbl(p, Dbl(p, Dbl(p, y4))));
    TangentNonzero(p, y, z, t);
    ChordRepresented(p, m, x, y, x, t, PointDouble(p, j));
  }

  lemma TangentSlope(p: nat, m: int, x: int, y: int, w: int, tri: int)
    requires p > 0 && Cong(m * (2 * y), 3 * x * x, p) && Cong(tri, 3 * ((x * w) * (x * w)), p)
    ensures Cong(tri, m * (2 * y * (w * w)), p)
  {
    CongMul(m * (2 * y), 3 * x * x, w * w, w * w, p);
    assert (3 * x * x) * (w * w) == 3 * ((x * w) * (x * w));
    assert (m * (2 * y)) * (w * w) == m * (2 * y * (w * w));
  }

  lemma TangentNonzero(p: nat, y: int, z: int, t: int)
    requires IsPrime(p) && p > 2 && y % p != 0 && z % p != 0 && t == 2 * y * ((z * z) * (z * z))
    ensures t % p != 0
  {
    DivModUnique(2, 0, 2, p);
    PrimeProduct(2, y, p);
    PrimeProduct(z, z, p);
    PrimeProduct(z * z, z * z, p);
    PrimeProduct(2 * y, (z * z) * (z * z), p);
  }

  // The last lines of the doubling formula.
  lemma DoubleTail(p: nat, x: int, y: int, m: int, t: int, s: nat, tri: nat, y8: nat)
    requires p > 0 && Cong(s, x * (t * t), p) && Cong(tri, m * t, p) && Cong(y8, y * (t * t * t), p)
    ensures
      var x3 := Sub(p, Sqr(p, tri), Dbl(p, s));
      var y3 := Sub(p, Mul(p, tri, Sub(p, s, x3)), y8);
      && Cong(x3, (m * m - x - x) * (t * t), p)
      && Cong(y3, (m * t) * (x * (t * t) - x3) - y * (t * t * t), p)
  {
    MulC(p, tri, m * t, tri, m * t);
    DblC(p, s, x * (t * t));
    SubC(p, Sqr(p, tri), (m * t) * (m * t), Dbl(p, s), 2 * (x * (t * t)));
    var x3, sq := Sub(p, Sqr(p, tri), Dbl(p, s)), t * t;
    assert (m * t) * (m * t) == (m * m) * sq;
    assert (m * m) * sq - 2 * (x * sq) == (m * m - x - x) * sq;
    SubC(p, s, x * sq, x3, x3);
    MulC(p, tri, m * t, Sub(p, s, x3), x * sq - x3);
    SubC(p, Mul(p, tri, Sub(p, s, x3)), (m * t) * (x * sq - x3), y8, y * (t * t * t));
  }

  // ---- Every case ----

  // A slope n / d from the reference's inverse of d mod p.
  lemma SlopeFromInverse(p: nat, n: int, d: int, d': int)
    requires IsPrime(p) && Cong(d', d, p) && d % p != 0
    ensures ModInv(d', p).Some?
    ensures Cong(Mul(p, n, ModInv(d', p).value) * d, n, p)
  {
    PrimeCoprime(d', p);
    ModInvCorrect(d', p);
    var i := ModInv(d', p).value;
    CongMul(d', d, i, i, p);
    MulC(p, n, n, i, i);
    CongMul(Mul(p, n, i), n * i, d, d, p);
    CongMul(n, n, d * i, 1, p);
    assert i * d == d * i;
    Assoc(n, i, d);
  }

  lemma ResidueNonzero(p: nat, a: nat, b: nat)
    requires p > 0 && a < p && b < p
    ensures (a - b) % p != 0 <==> a != b
  {
    if (a - b) % p == 0 {
      CongAdd(a - b, 0, b, b, p);
      CongSmall(a, b, p);
    }
  }

  // The reference fails to double exactly the points with y = 0.
  lemma DoubleDefined(p: nat, x: nat, y: nat)
    requires IsPrime(p) && p > 2 && x < p && y < p
    ensures PointAdd(p, Point(x, y), Point(x, y)) == None <==> y == 0
    ensures y != 0 ==>
      var m := Mul(p, 3 * x * x, ModInv(2 * y, p).value);
      Cong(m * (2 * y), 3 * x * x, p) && PointAdd(p, Point(x, y), Point(x, y)) == Some(Chord(p, m, x, y, x))
  {
    DivModUnique(2, 0, 2, p);
    DivModUnique(y, 0, y, p);
    PrimeProduct(2, y, p);
    if y == 0 {
      PrimeCoprime(2 * y, p);
      ModInvCorrect(2 * y, p);
    } else {
      SlopeFromInverse(p, 3 * x * x, 2 * y, 2 * y);
    }
  }

  // point_double is the reference's P + P; where that has no inverse (y = 0) the
  // shader gives infinity.
  lemma DoubleRefines(p: nat, j: Jacobian)
    requires IsPrime(p) && p > 2 && Reduced(p, j)
    ensures Reduced(p, PointDouble(p, j))
    ensures
      var a := JacobianToAffine(p, j);
      var b := JacobianToAffine(p, PointDouble(p, j));
      if a.Point? && a.y == 0 then PointAdd(p, a, a) == None && b == Infinity else PointAdd(p, a, a) == Some(b)
  {
    if j.z != 0 {
      var a, j' := JacobianToAffine(p, j), PointDouble(p, j);
      ReadBack(p, j, a.x, a.y);
      DoubleDefined(p, a.x, a.y);
      if a.y == 0 {
        DoubleOfZeroY(p, j, a.x);
      } else {
        DivModUnique(a.y, 0, a.y, p);
        var m := Mul(p, 3 * a.x * a.x, ModInv(2 * a.y, p).value);
        DoubleGeneric(p, j, a.x, a.y, m);
        var c := Chord(p, m, a.x, a.y, a.x);
        ReadNonzero(p, j', c.x, c.y);
      }
    }
  }

  lemma ReadNonzero(p: nat, j: Jacobian, x: nat, y: nat)
    requires IsPrime(p) && Reduced(p, j) && x < p && y < p && Represents(p, j, x, y)
    ensures JacobianToAffine(p, j) == Point(x, y)
  {
    if j.z == 0 {
      DivModUnique(0, 0, 0, p);
    }
    ReadBack(p, j, x, y);
  }

  lemma DoubleOfZeroY(p: nat, j: Jacobian, x: nat)
    requires IsPrime(p) && Reduced(p, j) && j.z != 0 && Represents(p, j, x, 0)
    ensures PointDouble(p, j).z == 0
  {
    DivModUnique(0, 0, 0, p);
    DivModUnique(j.y, 0, j.y, p);
    assert 0 * (j.z * j.z * j.z) == 0;
    assert j.y == 0;
    assert Mul(p, j.y, j.z) == 0;
  }

  lemma CoordinateTest(p: nat, big: nat, x: nat, qx: nat, w: int, w': int)
    requires IsPrime(p) && big < p && x < p && qx < p && w % p != 0
    requires Cong(w', w, p) && Cong(big, x * w, p)
    ensures big == Mul(p, qx, w') <==> x == qx
  {
    var u := Mul(p, qx, w');
    MulC(p, qx, qx, w', w);
    if x == qx {
      CongSmall(big, u, p);
    } else if big == u {
      assert x * w == w * x && qx * w == w * qx;
      PrimeCancel(w, x, qx, p);
      CongSmall(x, qx, p);
    }
  }

  // Where the two differ: a point with y = 0, in coordinates with Z = 1.
  lemma ZeroYDiffers(p: nat, x: nat)
    requires IsPrime(p) && p > 2 && x < p
    ensures PointAdd(p, Point(x, 0), Point(x, 0)) == None
    ensures JacobianToAffine(p, Jacobian(x, 0, 1)) == Point(x, 0)
    ensures JacobianToAffine(p, PointDouble(p, Jacobian(x, 0, 1))) == Infinity
  {
    AddToInfinity(p, x, 0);
    DoubleRefines(p, Jacobian(x, 0, 1));
  }

  // point_add_mixed is the reference's addition in every case: infinity, equal
  // points, opposite points and the rest; the one exception is doubling a point
  // with y = 0, where the reference throws and the shader gives infinity.
  lemma AddRefines(p: nat, j: Jacobian, qx: nat, qy: nat)
    requires IsPrime(p) && p > 2 && Reduced(p, j) && qx < p && qy < p
    ensures Reduced(p, PointAddMixed(p, j, qx, qy))
    ensures
      var a, q := JacobianToAffine(p, j), Point(qx, qy);
      var b := JacobianToAffine(p, PointAddMixed(p, j, qx, qy));
      if a == q && qy == 0 then PointAdd(p, a, q) == None && b == Infinity else PointAdd(p, a, q) == Some(b)
  {
    if j.z == 0 {
      AddToInfinity(p, qx, qy);
    } else {
      var a := JacobianToAffine(p, j);
      ReadBack(p, j, a.x, a.y);
      var z := j.z;
      ZPowers(p, z);
      PrimeProduct(z, z, p);
      PrimeProduct(z * z, z, p);
      CoordinateTest(p, j.x, a.x, qx, z * z, Sqr(p, z));
      CoordinateTest(p, j.y, a.y, qy, z * z * z, Mul(p, Sqr(p, z), z));
      if a.x != qx {
        AddDistinct(p, j, a.x, a.y, qx, qy);
      } else if a.y == qy {
        DoubleRefines(p, j);
      }
    }
  }

  lemma AddToInfinity(p: nat, qx: nat, qy: nat)
    requires IsPrime(p) && qx < p && qy < p
    ensures JacobianToAffine(p, Jacobian(qx, qy, 1)) == Point(qx, qy)
  {
    DivModUnique(1, 0, 1, p);
    ReadNonzero(p, Jacobian(qx, qy, 1), qx, qy);
  }

  lemma AddDistinct(p: nat, j: Jacobian, x: nat, y: nat, qx: nat, qy: nat)
    requires IsPrime(p) && p > 2 && Reduced(p, j) && j.z != 0 && Represents(p, j, x, y)
    requires x < p && y < p && qx < p && qy < p && x != qx
    ensures PointAdd(p, Point(x, y), Point(qx, qy)) == Some(JacobianToAffine(p, PointAddMixed(p, j, qx, qy)))
    ensures PointAddMixed(p, j, qx, qy).z != 0
  {
    ResidueNonzero(p, qx, x);
    CongMod(qx - x, p);
    SlopeFromInverse(p, qy - y, qx - x, Sub(p, qx, x));
    var m := Mul(p, qy - y, ModInv(Sub(p, qx, x), p).value);
    AddGeneric(p, j, x, y, qx, qy, m);
    var c := Chord(p, m, x, y, qx);
    ReadNonzero(p, PointAddMixed(p, j, qx, qy), c.x, c.y);
    DivModUnique(0, 0, 0, p);
  }
}
