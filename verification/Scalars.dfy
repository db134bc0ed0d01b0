/**
 Multiples of the generator: the reference's double-and-add from the low bit
 (demo/krackpot/src/reference/secp.js:46-56) and the shaders' from the high bit
 (shaders/secp256k1.js:96-128).

 The group law is a hypothesis: the multiples of G exist, and the reference
 addition adds them.
 */
module Scalars {
  import opened Limbs
  import opened BigInt
  import opened Modular
  import opened Options
  import opened Field
  import opened Curve
  import opened JacobianRefines

  // The reference addition adds the factors of multiples, and never fails on them.
  ghost predicate Sums(add: (Affine, Affine) -> Option<Affine>, mul: int -> Affine, j: int, k: int) {
    add(mul(j), mul(k)) == Some(mul(j + k))
  }

  ghost predicate AddsMultiples(add: (Affine, Affine) -> Option<Affine>, mul: int -> Affine) {
    mul(0) == Infinity && forall j, k {:trigger Sums(add, mul, j, k)} :: Sums(add, mul, j, k)
  }

  ghost predicate Multiple(p: nat, n: nat, mul: int -> Affine, k: int)
    requires n > 0
  {
    OnGrid(p, mul(k)) && (mul(k) == Infinity <==> k % n == 0)
  }

  function Adder(p: nat): (Affine, Affine) -> Option<Affine>
    requires p > 0
  {
    (a, b) => PointAdd(p, a, b)
  }

  // mul(k) is k * G for a point G of order n, modulo a prime p above 2.
  ghost predicate Setting(p: nat, n: nat, g: Affine, mul: int -> Affine) {
    && IsPrime(p) && p > 2 && n > 0 && g.Point? && mul(1) == g
    && AddsMultiples(Adder(p), mul)
    && forall k {:trigger Multiple(p, n, mul, k)} :: Multiple(p, n, mul, k)
  }

  // The hypothesis can be met, modulo any prime: by a point of order 3.
  ghost function Third(p: nat): int -> Affine
    requires p > 2
  {
    (k: int) => if k % 3 == 0 then Infinity else if k % 3 == 1 then Point(0, 1) else Point(0, p - 1)
  }

  lemma DoubleOnAxis(p: nat, y: nat, y': nat)
    requires IsPrime(p) && 2 * y % p != 0 && 0 - y == (0 - 1) * p + y' && y' < p
    ensures PointAdd(p, Point(0, y), Point(0, y)) == Some(Point(0, y'))
  {
    ModInvCorrect(2 * y, p);
    PrimeCoprime(2 * y, p);
    DivModUnique(0, 0, 0, p);
    DivModUnique(0 - y, -1, y', p);
  }

  lemma ThirdAdds(p: nat, j: nat, k: nat)
    requires IsPrime(p) && p > 2 && j < 3 && k < 3
    ensures PointAdd(p, Third(p)(j), Third(p)(k)) == Some(Third(p)(j + k))
  {
    if j == k == 1 {
      DivModUnique(2, 0, 2, p);
      DoubleOnAxis(p, 1, p - 1);
    } else if j == k == 2 {
      DivModUnique(2 * (p - 1), 1, p - 2, p);
      DoubleOnAxis(p, p - 1, 1);
    }
  }

  lemma ThirdSums(add: (Affine, Affine) -> Option<Affine>, p: nat, j: int, k: int)
    requires p > 2 && add(Third(p)(j % 3), Third(p)(k % 3)) == Some(Third(p)(j % 3 + k % 3))
    ensures Sums(add, Third(p), j, k)
  {
    CongMod(j, 3);
    CongMod(k, 3);
    CongAdd(j % 3, j, k % 3, k, 3);
  }

  lemma SettingIsMet(p: nat)
    requires IsPrime(p) && p > 2
    ensures Setting(p, 3, Point(0, 1), Third(p))
  {
    forall j, k ensures Sums(Adder(p), Third(p), j, k) {
      ThirdAdds(p, j % 3, k % 3);
      ThirdSums(Adder(p), p, j, k);
    }
    forall k ensures Multiple(p, 3, Third(p), k) {}
  }

  // The factor matters only mod n.
  lemma MulMod(p: nat, n: nat, g: Affine, mul: int -> Affine, k: int)
    requires Setting(p, n, g, mul)
    ensures mul(k % n) == mul(k)
  {
    var q, r := k / n, k % n;
    assert k == r + q * n;
    DivModUnique(q * n, q, 0, n);
    DivModUnique(r, 0, r, n);
    assert Multiple(p, n, mul, q * n) && Multiple(p, n, mul, r) && Multiple(p, n, mul, k);
    assert Sums(Adder(p), mul, r, q * n);
  }

  // Under the group law no multiple of G has y = 0, where the reference cannot double.
  lemma NoZeroY(p: nat, n: nat, g: Affine, mul: int -> Affine, k: int)
    requires Setting(p, n, g, mul) && mul(k).Point?
    ensures mul(k).y != 0
  {
    assert Sums(Adder(p), mul, k, k) && Multiple(p, n, mul, k);
    DoubleDefined(p, mul(k).x, mul(k).y);
  }

  // j stands for the multiple k
  ghost predicate At(p: nat, mul: int -> Affine, j: Jacobian, k: int)
    requires p >= 2
  {
    Reduced(p, j) && JacobianToAffine(p, j) == mul(k)
  }

  lemma DoubleAt(p: nat, n: nat, g: Affine, mul: int -> Affine, j: Jacobian, k: int)
    requires Setting(p, n, g, mul) && At(p, mul, j, k)
    ensures At(p, mul, PointDouble(p, j), 2 * k)
  {
    assert Sums(Adder(p), mul, k, k);
    DoubleRefines(p, j);
  }

  lemma AddAt(p: nat, n: nat, g: Affine, mul: int -> Affine, j: Jacobian, k: int, i: int)
    requires Setting(p, n, g, mul) && At(p, mul, j, k) && mul(i).Point?
    ensures At(p, mul, PointAddMixed(p, j, mul(i).x, mul(i).y), k + i)
  {
    assert Sums(Adder(p), mul, k, i);
    assert Multiple(p, n, mul, i);
    AddRefines(p, j, mul(i).x, mul(i).y);
  }

  // ---- The reference ----

  function ScalarLoop(add: (Affine, Affine) -> Option<Affine>, r: Affine, q: Affine, kk: nat): Option<Affine>
    decreases kk
  {
    if kk == 0 then Some(r)
    else
      match if kk % 2 == 1 then add(r, q) else Some(r)
      case None => None
      case Some(r') =>
        match add(q, q)
        case None => None
        case Some(q') => ScalarLoop(add, r', q', kk / 2)
  }

  method ScalarMul(add: (Affine, Affine) -> Option<Affine>, n: nat, k: int, point: Affine) returns (r: Option<Affine>)
    requires n > 0
    ensures r == ScalarLoop(add, Infinity, point, k % n)
  {
    var acc, q, kk := Infinity, point, k % n;
    while kk > 0
      invariant kk >= 0
      invariant ScalarLoop(add, Infinity, point, k % n) == ScalarLoop(add, acc, q, kk)
    {
      if kk % 2 == 1 {
        var sum := add(acc, q);
        if sum.None? {
          return None;
        }
        acc := sum.value;
      }
      var twice := add(q, q);
      if twice.None? {
        return None;
      }
      q := twice.value;
      kk := kk / 2;
    }
    r := Some(acc);
  }

  lemma Halved(a: int, b: int, kk: nat)
    ensures a + b * kk == (if kk % 2 == 1 then a + b else a) + (b + b) * (kk / 2)
  {
    var half := kk / 2;
    assert b * (2 * half) == (b + b) * half;
    assert b * (2 * half + 1) == b * (2 * half) + b;
  }

  lemma {:induction false} ScalarLoopAdds(add: (Affine, Affine) -> Option<Affine>, mul: int -> Affine, a: int,
      b: int, kk: nat)
    requires AddsMultiples(add, mul)
    ensures ScalarLoop(add, mul(a), mul(b), kk) == Some(mul(a + b * kk))
    decreases kk
  {
    if kk > 0 {
      assert Sums(add, mul, a, b) && Sums(add, mul, b, b);
      var half := kk / 2;
      Halved(a, b, kk);
      if kk % 2 == 1 {
        ScalarLoopAdds(add, mul, a + b, b + b, half);
      } else {
        ScalarLoopAdds(add, mul, a, b + b, half);
      }
    }
  }

  // scalarMul(k) is k * G for every integer k, negative ones included.
  lemma ScalarMulCorrect(p: nat, n: nat, g: Affine, mul: int -> Affine, k: int)
    requires Setting(p, n, g, mul)
    ensures ScalarLoop(Adder(p), Infinity, g, k % n) == Some(mul(k))
  {
    ScalarLoopAdds(Adder(p), mul, 0, 1, k % n);
    MulMod(p, n, g, mul, k);
  }

  // ---- The shaders ----

  // at(j, k) is kept by doubling, with k doubled, and by adding G, with k + 1.
  ghost predicate StepAt(p: nat, g: Affine, at: (Jacobian, int) -> bool, j: Jacobian, k: int)
    requires p > 0 && g.Point?
  {
    at(j, k) ==> at(PointDouble(p, j), 2 * k) && at(PointAddMixed(p, j, g.x, g.y), k + 1)
  }

  ghost predicate Steps(p: nat, g: Affine, at: (Jacobian, int) -> bool) {
    p > 0 && g.Point? && forall j, k {:trigger StepAt(p, g, at, j, k)} :: StepAt(p, g, at, j, k)
  }

  ghost function Track(p: nat, mul: int -> Affine): (Jacobian, int) -> bool
    requires p >= 2
  {
    (j, k) => At(p, mul, j, k)
  }

  lemma SettingSteps(p: nat, n: nat, g: Affine, mul: int -> Affine)
    requires Setting(p, n, g, mul)
    ensures Steps(p, g, Track(p, mul)) && At(p, mul, INFINITY, 0)
  {
    var at := Track(p, mul);
    forall j, k ensures StepAt(p, g, at, j, k) {
      if at(j, k) {
        DoubleAt(p, n, g, mul, j, k);
        AddAt(p, n, g, mul, j, k, 1);
      }
    }
  }

  // R = point_double(R); if the bit is set, R = point_add_mixed(R, gx, gy)
  method BitStepG(p: nat, g: Affine, j: Jacobian, bit: nat, ghost at: (Jacobian, int) -> bool, ghost k: int)
    returns (r: Jacobian)
    requires Steps(p, g, at) && at(j, k) && bit <= 1
    ensures at(r, 2 * k + bit)
  {
    assert StepAt(p, g, at, j, k);
    r := PointDouble(p, j);
    if bit == 1 {
      assert StepAt(p, g, at, r, 2 * k);
      r := PointAddMixed(p, r, g.x, g.y);
    }
  }

  // The bit of weight w, when limb = q * 2w + low.
  lemma NextBit(limb: nat, w: nat, q: nat, low: nat, done: nat)
    requires w > 0 && limb == q * (2 * w) + low && low < 2 * w
    ensures
      var bit := limb / w % 2;
      && 0 <= low - bit * w < w
      && q * (2 * w) + low == (2 * q + bit) * w + (low - bit * w)
      && done * (2 * w) + low == (2 * done + bit) * w + (low - bit * w)
  {
    var bit := if low < w then 0 else 1;
    DivModUnique(limb, 2 * q + bit, low - bit * w, w);
    DivModUnique(2 * q + bit, q, bit, 2);
  }

  // Before bit 31 - b of a limb: w is the weight of the bit about to be read, q and
  // low the parts of the limb above and below, done the factor reached so far.
  ghost predicate InWord(limb: nat, high: nat, b: nat, w: nat, q: nat, low: nat, done: nat) {
    && b <= 32 && (b < 32 ==> w == Pow2(31 - b)) && low < Pow2(32 - b)
    && limb == q * Pow2(32 - b) + low && B * high + limb == done * Pow2(32 - b) + low
  }

  lemma NextInWord(limb: nat, high: nat, b: nat, w: nat, q: nat, low: nat, done: nat)
    requires InWord(limb, high, b, w, q, low, done) && b < 32 && w > 0
    ensures
      var bit := limb / w % 2;
      && low - bit * w >= 0 && (b < 31 ==> w / 2 > 0)
      && InWord(limb, high, b + 1, w / 2, 2 * q + bit, low - bit * w, 2 * done + bit)
  {
    assert Pow2(32 - b) == 2 * w;
    NextBit(limb, w, q, low, done);
    if b < 31 {
      Pow2Pos(30 - b);
    }
  }

  lemma FirstInWord(limb: u32, high: nat)
    ensures InWord(limb, high, 0, 0x8000_0000, 0, limb, high)
  {
    Pow2Word();
  }

  lemma LastInWord(limb: nat, high: nat, w: nat, q: nat, low: nat, done: nat)
    requires InWord(limb, high, 32, w, q, low, done)
    ensures done == B * high + limb
  {}

  // One limb, from bit 31 down.
  method MulWord(p: nat, g: Affine, start: Jacobian, limb: u32, ghost at: (Jacobian, int) -> bool, ghost high: nat)
    returns (r: Jacobian)
    requires Steps(p, g, at) && at(start, high)
    ensures at(r, B * high + limb)
  {
    r := start;
    var w: nat := 0x8000_0000;
    ghost var done: nat, q: nat, low: nat := high, 0, limb;
    FirstInWord(limb, high);
    for b := 0 to 32
      invariant at(r, done) && (b < 32 ==> w > 0)
      invariant InWord(limb, high, b, w, q, low, done)
    {
      NextInWord(limb, high, b, w, q, low, done);
      var bit := limb / w % 2;
      r := BitStepG(p, g, r, bit, at, done);
      done, q, low := 2 * done + bit, 2 * q + bit, low - bit * w;
      w := w / 2;
    }
    LastInWord(limb, high, w, q, low, done);
  }

  method MulLimbs(p: nat, g: Affine, k: U256, ghost at: (Jacobian, int) -> bool) returns (r: Jacobian)
    requires Steps(p, g, at) && at(INFINITY, 0)
    ensures at(r, Value(k))
  {
    r := INFINITY;
    for i := 0 to 8
      invariant at(r, Value(k[8 - i..]))
    {
      assert k[7 - i..][1..] == k[8 - i..];
      r := MulWord(p, g, r, k[7 - i], at, Value(k[8 - i..]));
    }
    assert k[0..] == k;
  }

  // scalar_mul_g
  method ScalarMulG(p: nat, ghost n: nat, g: Affine, ghost mul: int -> Affine, k: U256) returns (r: Jacobian)
    requires Setting(p, n, g, mul)
    ensures At(p, mul, r, Value(k))
    ensures ScalarLoop(Adder(p), Infinity, g, Value(k) % n) == Some(JacobianToAffine(p, r))
  {
    SettingSteps(p, n, g, mul);
    r := MulLimbs(p, g, k, Track(p, mul));
    ScalarMulCorrect(p, n, g, mul, Value(k));
  }

  // scalar_mul_g_u32
  method ScalarMulGU32(p: nat, ghost n: nat, g: Affine, ghost mul: int -> Affine, k: u32) returns (r: Jacobian)
    requires Setting(p, n, g, mul)
    ensures At(p, mul, r, k)
  {
    SettingSteps(p, n, g, mul);
    r := MulWord(p, g, INFINITY, k, Track(p, mul), 0);
  }
}
