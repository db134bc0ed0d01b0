/** The point routines of the shaders on limbs (demo/krackpot/src/shaders/secp256k1.js). */
module CurveLimbs {
  import opened Limbs
  import opened BigInt
  import opened Field
  import opened Curve

  datatype LimbPoint = LimbPoint(x: U256, y: U256, z: U256)

  ghost function Abs(j: LimbPoint): Jacobian {
    Jacobian(Value(j.x), Value(j.y), Value(j.z))
  }

  ghost predicate Small(a: U256) {
    Value(a) < P
  }

  ghost predicate SmallPoint(j: LimbPoint) {
    Small(j.x) && Small(j.y) && Small(j.z)
  }

  method FpDbl(a: U256) returns (r: U256)
    requires Small(a)
    ensures Value(r) == Dbl(P, Value(a)) && Small(r)
  {
    r := FpAdd(a, a);
  }

  method FpTri(a: U256) returns (r: U256)
    requires Small(a)
    ensures Value(r) == Tri(P, Value(a)) && Small(r)
  {
    r := FpDbl(a);
    r := FpAdd(r, a);
  }

  method PointDoubleLimbs(j: LimbPoint) returns (r: LimbPoint)
    requires SmallPoint(j)
    ensures SmallPoint(r) && Abs(r) == PointDouble(P, Abs(j))
  {
    ConstantLimbs();
    var isInfinity := U256Eq(j.z, ZERO);
    if isInfinity {
      return j;
    }
    var y2 := FpSqr(j.y);
    var xy2 := FpMul(j.x, y2);
    var s := FpDbl(xy2);
    s := FpDbl(s);
    var m := FpSqr(j.x);
    m := FpTri(m);
    var mm := FpSqr(m);
    var ss := FpDbl(s);
    var x3 := FpSub(mm, ss);
    var y4 := FpSqr(y2);
    var y8 := FpDbl(y4);
    y8 := FpDbl(y8);
    y8 := FpDbl(y8);
    var d := FpSub(s, x3);
    var md := FpMul(m, d);
    var y3 := FpSub(md, y8);
    var yz := FpMul(j.y, j.z);
    var z3 := FpDbl(yz);
    r := LimbPoint(x3, y3, z3);
  }

  method PointAddMixedLimbs(j: LimbPoint, qx: U256, qy: U256) returns (r: LimbPoint)
    requires SmallPoint(j) && Small(qx) && Small(qy)
    ensures SmallPoint(r) && Abs(r) == PointAddMixed(P, Abs(j), Value(qx), Value(qy))
  {
    ConstantLimbs();
    var isInfinity := U256Eq(j.z, ZERO);
    if isInfinity {
      return LimbPoint(qx, qy, ONE);
    }
    var z1sq := FpSqr(j.z);
    var z1cu := FpMul(z1sq, j.z);
    var u2 := FpMul(qx, z1sq);
    var s2 := FpMul(qy, z1cu);
    var sameX := U256Eq(j.x, u2);
    if sameX {
      var sameY := U256Eq(j.y, s2);
      if sameY {
        r := PointDoubleLimbs(j);
      } else {
        r := LimbPoint(ZERO, ZERO, ZERO);
      }
      return;
    }
    var h := FpSub(u2, j.x);
    var d := FpSub(s2, j.y);
    var hSq := FpSqr(h);
    var hCu := FpMul(hSq, h);
    var u1hSq := FpMul(j.x, hSq);
    var dd := FpSqr(d);
    var x3 := FpSub(dd, hCu);
    var twice := FpDbl(u1hSq);
    x3 := FpSub(x3, twice);
    var y3 := FpSub(u1hSq, x3);
    y3 := FpMul(d, y3);
    var yh := FpMul(j.y, hCu);
    y3 := FpSub(y3, yh);
    var z3 := FpMul(h, j.z);
    r := LimbPoint(x3, y3, z3);
  }
}
