/**
 Points of the curve: the affine reference (demo/krackpot/src/reference/secp.js)
 and the Jacobian formulas of the shaders (shaders/secp256k1.js), modulo any
 prime above 2.  Neither uses the constant term of the curve equation.
 */
module Curve {
  import opened Modular
  import opened Options
  import opened Fermat
  import opened Field

  datatype Affine = Infinity | Point(x: nat, y: nat)

  // (X, Y, Z) stands for (X/Z^2, Y/Z^3), and for infinity when Z = 0.
  datatype Jacobian = Jacobian(x: nat, y: nat, z: nat)

  predicate Reduced(p: nat, j: Jacobian) {
    j.x < p && j.y < p && j.z < p
  }

  predicate OnGrid(p: nat, a: Affine) {
    a.Point? ==> a.x < p && a.y < p
  }

  // ---- The reference ----

  function Chord(p: nat, m: nat, x1: nat, y1: nat, x2: nat): Affine
    requires p > 0
  {
    var x3 := Sub(p, m * m - x1, x2);
    Point(x3, Sub(p, m * (x1 - x3), y1))
  }

  // None is the exception of a failed inverse.
  function PointAdd(p: nat, a: Affine, b: Affine): Option<Affine>
    requires p > 0
  {
    if a.Infinity? then Some(b)
    else if b.Infinity? then Some(a)
    else if a.x == b.x && a.y != b.y then Some(Infinity)
    else if a.x == b.x && a.y == b.y then
      match ModInv(2 * a.y, p)
      case None => None
      case Some(inv) => Some(Chord(p, Mul(p, 3 * a.x * a.x, inv), a.x, a.y, b.x))
    else
      match ModInv(Sub(p, b.x, a.x), p)
      case None => None
      case Some(inv) => Some(Chord(p, Mul(p, b.y - a.y, inv), a.x, a.y, b.x))
  }

  // ---- The shaders ----

  const INFINITY := Jacobian(0, 0, 0)

  function PointDouble(p: nat, j: Jacobian): Jacobian
    requires p > 0
  {
    if j.z == 0 then j
    else
      var y2 := Sqr(p, j.y);
      var xy2 := Mul(p, j.x, y2);
      var s := Dbl(p, Dbl(p, xy2));
      var m := Tri(p, Sqr(p, j.x));
      var x3 := Sub(p, Sqr(p, m), Dbl(p, s));
      var y4 := Sqr(p, y2);
      var y8 := Dbl(p, Dbl(p, Dbl(p, y4)));
      var y3 := Sub(p, Mul(p, m, Sub(p, s, x3)), y8);
      var z3 := Dbl(p, Mul(p, j.y, j.z));
      Jacobian(x3, y3, z3)
  }

  function PointAddMixed(p: nat, j: Jacobian, qx: nat, qy: nat): Jacobian
    requires p > 0
  {
    if j.z == 0 then Jacobian(qx, qy, 1)
    else
      var z1sq := Sqr(p, j.z);
      var z1cu := Mul(p, z1sq, j.z);
      var u2 := Mul(p, qx, z1sq);
      var s2 := Mul(p, qy, z1cu);
      if j.x == u2 then
        if j.y == s2 then PointDouble(p, j) else INFINITY
      else
        var h := Sub(p, u2, j.x);
        var r := Sub(p, s2, j.y);
        var hSq := Sqr(p, h);
        var hCu := Mul(p, hSq, h);
        var u1hSq := Mul(p, j.x, hSq);
        var x3 := Sub(p, Sub(p, Sqr(p, r), hCu), Dbl(p, u1hSq));
        var y3 := Sub(p, Mul(p, r, Sub(p, u1hSq, x3)), Mul(p, j.y, hCu));
        var z3 := Mul(p, h, j.z);
        Jacobian(x3, y3, z3)
  }

  function JacobianToAffine(p: nat, j: Jacobian): Affine
    requires p >= 2
  {
    if j.z == 0 then Infinity
    else
      var zInv := Inv(p, j.z);
      var zInvSq := Sqr(p, zInv);
      var zInvCu := Mul(p, zInvSq, zInv);
      Point(Mul(p, j.x, zInvSq), Mul(p, j.y, zInvCu))
  }

  // ---- Field steps as congruences ----

  lemma MulC(p: nat, a: int, a': int, b: int, b': int)
    requires p > 0 && Cong(a, a', p) && Cong(b, b', p)
    ensures Cong(Mul(p, a, b), a' * b', p)
  {
    CongMul(a, a', b, b', p);
    CongMod(a * b, p);
  }

  lemma SubC(p: nat, a: int, a': int, b: int, b': int)
    requires p > 0 && Cong(a, a', p) && Cong(b, b', p)
    ensures Cong(Sub(p, a, b), a' - b', p)
  {
    CongAdd(a, a', b, b', p);
    CongMod(a - b, p);
  }

  lemma DblC(p: nat, a: int, a': int)
    requires p > 0 && Cong(a, a', p)
    ensures Cong(Dbl(p, a), 2 * a', p)
  {
    CongAdd(a, a', a, a', p);
    CongMod(a + a, p);
  }

  lemma TriC(p: nat, a: int, a': int)
    requires p > 0 && Cong(a, a', p)
    ensures Cong(Tri(p, a), 3 * a', p)
  {
    DblC(p, a, a');
    CongAdd(Dbl(p, a), 2 * a', a, a', p);
    CongMod(Dbl(p, a) + a, p);
  }

  // ---- What a Jacobian triple stands for ----

  ghost predicate Represents(p: nat, j: Jacobian, x: int, y: int)
    requires p > 0
  {
    j.z % p != 0 && Cong(j.x, x * (j.z * j.z), p) && Cong(j.y, y * (j.z * j.z * j.z), p)
  }

  lemma InvC(p: nat, z: int)
    requires IsPrime(p) && z % p != 0
    ensures Cong(z * Inv(p, z), 1, p)
  {
    InversesAgree(z, p);
    ModInvCorrect(z, p);
  }

  // X = x * w and w * v = 1 give X * v = x
  lemma Cleared(p: nat, big: int, x: int, w: int, v: int)
    requires p > 0 && Cong(w * v, 1, p)
    ensures Cong(big, x * w, p) <==> Cong(big * v, x, p)
  {
    CongMul(x, x, w * v, 1, p);
    CongMul(big, big, w * v, 1, p);
    assert (x * w) * v == x * (w * v) && (big * v) * w == big * (w * v);
    if Cong(big, x * w, p) {
      CongMul(big, x * w, v, v, p);
    }
    if Cong(big * v, x, p) {
      CongMul(big * v, x, w, w, p);
    }
  }

  lemma InversePowers(p: nat, z: int, i: int)
    requires p > 0 && Cong(z * i, 1, p)
    ensures Cong((z * z) * (i * i), 1, p) && Cong((z * z * z) * (i * i * i), 1, p)
  {
    CongMul(z * i, 1, z * i, 1, p);
    assert (z * i) * (z * i) == (z * z) * (i * i);
    CongMul((z * z) * (i * i), 1, z * i, 1, p);
    assert ((z * z) * (i * i)) * (z * i) == (z * z * z) * (i * i * i);
  }

  // Reading back: a triple with Z != 0 is read as the one point it represents.
  lemma ReadBack(p: nat, j: Jacobian, x: nat, y: nat)
    requires IsPrime(p) && j.z < p && j.z != 0 && x < p && y < p
    ensures JacobianToAffine(p, j) == Point(x, y) <==> Represents(p, j, x, y)
  {
    DivModUnique(j.z, 0, j.z, p);
    var i := Inv(p, j.z);
    InvC(p, j.z);
    InversePowers(p, j.z, i);
    var sq, cu := Sqr(p, i), Mul(p, Sqr(p, i), i);
    CongMod(i * i, p);
    MulC(p, sq, i * i, i, i);
    MulC(p, j.x, j.x, sq, i * i);
    MulC(p, j.y, j.y, cu, i * i * i);
    Cleared(p, j.x, x, j.z * j.z, i * i);
    Cleared(p, j.y, y, j.z * j.z * j.z, i * i * i);
    var a := JacobianToAffine(p, j);
    if Cong(a.x, x, p) { CongSmall(a.x, x, p); }
    if Cong(a.y, y, p) { CongSmall(a.y, y, p); }
  }
}
