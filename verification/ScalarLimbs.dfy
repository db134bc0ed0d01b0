/**
 The scalar multiplications of the shaders on limbs, for the modulus and generator
 of the repository (demo/krackpot/src/shaders/secp256k1.js:14-25 and 96-142).
 */
module ScalarLimbs {
  import opened Options
  import opened Limbs
  import opened BigInt
  import opened Modular
  import opened Field
  import opened Curve
  import opened CurveLimbs
  import opened Scalars

  const GX: int := 0x79BE667E_F9DCBBAC_55A06295_CE870B07_029BFCDB_2DCE28D9_59F2815B_16F81798
  const GY: int := 0x483ADA77_26A3C465_5DA4FBFC_0E1108A8_FD17B448_A6855419_9C47D08F_FB10D4B8

  const GX_LIMBS: U256 := [
    0x16F81798, 0x59F2815B, 0x2DCE28D9, 0x029BFCDB,
    0xCE870B07, 0x55A06295, 0xF9DCBBAC, 0x79BE667E]

  const GY_LIMBS: U256 := [
    0xFB10D4B8, 0x9C47D08F, 0xA6855419, 0xFD17B448,
    0x0E1108A8, 0x5DA4FBFC, 0x26A3C465, 0x483ADA77]

  // The limbs of the shaders spell the generator of the reference, and it is on the
  // curve y^2 = x^3 + 7.
  lemma GeneratorLimbs()
    ensures Value(GX_LIMBS) == GX < P && Value(GY_LIMBS) == GY < P
    ensures (GY * GY) % P == (GX * GX * GX + 7) % P
  {
    ValueOf8(GX_LIMBS);
    ValueOf8(GY_LIMBS);
  }

  function Generator(): Affine {
    Point(GX, GY)
  }

  const INFINITY_LIMBS: LimbPoint := LimbPoint(ZERO, ZERO, ZERO)

  // at is kept by the steps with the point of these limbs.
  ghost predicate StepsBy(gx: U256, gy: U256, at: (Jacobian, int) -> bool) {
    Small(gx) && Small(gy) && Steps(P, Point(Value(gx), Value(gy)), at)
  }

  method BitStepLimbs(gx: U256, gy: U256, j: LimbPoint, bit: nat, ghost at: (Jacobian, int) -> bool, ghost k: int)
    returns (r: LimbPoint)
    requires StepsBy(gx, gy, at) && SmallPoint(j) && at(Abs(j), k) && bit <= 1
    ensures SmallPoint(r) && at(Abs(r), 2 * k + bit)
  {
    r := DoubleStep(gx, gy, j, at, k);
    if bit == 1 {
      r := AddStepG(gx, gy, r, at, 2 * k);
    }
  }

  method DoubleStep(gx: U256, gy: U256, j: LimbPoint, ghost at: (Jacobian, int) -> bool, ghost k: int)
    returns (r: LimbPoint)
    requires StepsBy(gx, gy, at) && SmallPoint(j) && at(Abs(j), k)
    ensures SmallPoint(r) && at(Abs(r), 2 * k)
  {
    assert StepAt(P, Point(Value(gx), Value(gy)), at, Abs(j), k);
    r := PointDoubleLimbs(j);
  }

  method AddStepG(gx: U256, gy: U256, j: LimbPoint, ghost at: (Jacobian, int) -> bool, ghost k: int)
    returns (r: LimbPoint)
    requires StepsBy(gx, gy, at) && SmallPoint(j) && at(Abs(j), k)
    ensures SmallPoint(r) && at(Abs(r), k + 1)
  {
    assert StepAt(P, Point(Value(gx), Value(gy)), at, Abs(j), k);
    r := PointAddMixedLimbs(j, gx, gy);
  }

  // One limb, from bit 31 down.
  method MulWordLimbs(gx: U256, gy: U256, start: LimbPoint, limb: u32, ghost at: (Jacobian, int) -> bool,
      ghost high: nat)
    returns (r: LimbPoint)
    requires StepsBy(gx, gy, at) && SmallPoint(start) && at(Abs(start), high)
    ensures SmallPoint(r) && at(Abs(r), B * high + limb)
  {
    r := start;
    var w: nat := 0x8000_0000;
    ghost var done: nat, q: nat, low: nat := high, 0, limb;
    FirstInWord(limb, high);
    for b := 0 to 32
      invariant SmallPoint(r) && at(Abs(r), done) && (b < 32 ==> w > 0)
      invariant InWord(limb, high, b, w, q, low, done)
    {
      NextInWord(limb, high, b, w, q, low, done);
      var bit := limb / w % 2;
      r := BitStepLimbs(gx, gy, r, bit, at, done);
      done, q, low := 2 * done + bit, 2 * q + bit, low - bit * w;
      w := w / 2;
    }
    LastInWord(limb, high, w, q, low, done);
  }

  lemma InfinityOnLimbs()
    ensures SmallPoint(INFINITY_LIMBS) && Abs(INFINITY_LIMBS) == INFINITY
  {
    ConstantLimbs();
  }

  lemma LimbsAbove(k: U256, i: nat)
    requires i < 8
    ensures Value(k[7 - i..]) == B * Value(k[8 - i..]) + k[7 - i]
  {
    assert k[7 - i..][1..] == k[8 - i..];
  }

  method MulAllLimbs(gx: U256, gy: U256, k: U256, ghost at: (Jacobian, int) -> bool) returns (r: LimbPoint)
    requires StepsBy(gx, gy, at) && at(INFINITY, 0)
    ensures SmallPoint(r) && at(Abs(r), Value(k))
  {
    InfinityOnLimbs();
    r := INFINITY_LIMBS;
    ghost var high := 0;
    assert k[8..] == [];
    for i := 0 to 8
      invariant SmallPoint(r) && at(Abs(r), high) && high == Value(k[8 - i..])
    {
      LimbsAbove(k, i);
      r := MulWordLimbs(gx, gy, r, k[7 - i], at, high);
      high := B * high + k[7 - i];
    }
    assert k[0..] == k;
  }

  // The first limb alone, from infinity.
  method MulOneLimb(gx: U256, gy: U256, k: u32, ghost at: (Jacobian, int) -> bool) returns (r: LimbPoint)
    requires StepsBy(gx, gy, at) && at(INFINITY, 0)
    ensures SmallPoint(r) && at(Abs(r), k)
  {
    InfinityOnLimbs();
    r := MulWordLimbs(gx, gy, INFINITY_LIMBS, k, at, 0);
  }

  lemma GeneratorSteps(n: nat, mul: int -> Affine)
    requires Setting(P, n, Generator(), mul)
    ensures StepsBy(GX_LIMBS, GY_LIMBS, Track(P, mul)) && Track(P, mul)(INFINITY, 0)
  {
    GeneratorLimbs();
    SettingSteps(P, n, Generator(), mul);
  }

  // scalar_mul_g
  method ScalarMulGLimbs(ghost n: nat, ghost mul: int -> Affine, k: U256) returns (r: LimbPoint)
    requires Setting(P, n, Generator(), mul)
    ensures SmallPoint(r) && At(P, mul, Abs(r), Value(k))
  {
    GeneratorSteps(n, mul);
    r := MulAllLimbs(GX_LIMBS, GY_LIMBS, k, Track(P, mul));
  }

  // scalar_mul_g_u32
  method ScalarMulGU32Limbs(ghost n: nat, ghost mul: int -> Affine, k: u32) returns (r: LimbPoint)
    requires Setting(P, n, Generator(), mul)
    ensures SmallPoint(r) && At(P, mul, Abs(r), k)
  {
    GeneratorSteps(n, mul);
    r := MulOneLimb(GX_LIMBS, GY_LIMBS, k, Track(P, mul));
  }

  datatype LimbAffine = LimbAffine(x: U256, y: U256, infinity: u32)

  ghost function AbsAffine(a: LimbAffine): Affine {
    if a.infinity == 1 then Infinity else Point(Value(a.x), Value(a.y))
  }

  // jacobian_to_affine
  method JacobianToAffineLimbs(j: LimbPoint) returns (a: LimbAffine)
    ensures AbsAffine(a) == JacobianToAffine(P, Abs(j))
  {
    ConstantLimbs();
    var isInfinity := U256Eq(j.z, ZERO);
    if isInfinity {
      return LimbAffine(ZERO, ZERO, 1);
    }
    var zInv := FpInv(j.z);
    var zInvSq := FpSqr(zInv);
    var zInvCu := FpMul(zInvSq, zInv);
    var x := FpMul(j.x, zInvSq);
    var y := FpMul(j.y, zInvCu);
    a := LimbAffine(x, y, 0);
  }

  // From the limbs of a scalar to the limbs of its public point, the shaders compute
  // the scalarMul of the reference.
  method PublicPointLimbs(ghost n: nat, ghost mul: int -> Affine, k: U256) returns (a: LimbAffine)
    requires Setting(P, n, Generator(), mul)
    ensures ScalarLoop(Adder(P), Infinity, Generator(), Value(k) % n) == Some(AbsAffine(a))
  {
    var r := ScalarMulGLimbs(n, mul, k);
    a := JacobianToAffineLimbs(r);
    ScalarMulCorrect(P, n, Generator(), mul, Value(k));
  }
}
