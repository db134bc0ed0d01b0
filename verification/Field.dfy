/**
 The field operations of the shaders: as functions on residues mod p, and as the
 limb routines that compute them (demo/krackpot/src/shaders/bigint.js:255-310).
 */
module Field {
  import opened Limbs
  import opened Modular
  import opened BigInt

  // ---- On residues ----

  function Add(p: nat, a: int, b: int): nat
    requires p > 0
  {
    (a + b) % p
  }

  function Sub(p: nat, a: int, b: int): nat
    requires p > 0
  {
    (a - b) % p
  }

  function Mul(p: nat, a: int, b: int): nat
    requires p > 0
  {
    (a * b) % p
  }

  function Sqr(p: nat, a: int): nat
    requires p > 0
  {
    Mul(p, a, a)
  }

  function Dbl(p: nat, a: int): nat
    requires p > 0
  {
    Add(p, a, a)
  }

  function Tri(p: nat, a: int): nat
    requires p > 0
  {
    Add(p, Dbl(p, a), a)
  }

  // Fermat's inverse.
  function Inv(p: nat, a: int): nat
    requires p >= 2
  {
    Pow(a, p - 2) % p
  }

  // ---- On limbs ----

  // The OR of all limb XORs is zero when no limb differs.
  method U256Eq(a: U256, b: U256) returns (eq: bool)
    ensures eq <==> Value(a) == Value(b)
  {
    var diff := false;
    for i := 0 to 8
      invariant diff <==> exists k :: 0 <= k < i && a[k] != b[k]
    {
      diff := diff || a[i] != b[i];
    }
    eq := !diff;
    if eq {
      assert a == b;
    } else if Value(a) == Value(b) {
      ValueInjective(a, b);
    }
  }

  // The three below reduce once, so they are right exactly within one modulus.
  method FpAdd(a: U256, b: U256) returns (r: U256)
    ensures Value(r) == Add(P, Value(a), Value(b)) <==> Value(a) + Value(b) < 2 * P
  {
    ConstantLimbs();
    Constants();
    var sum, carry := U256AddRaw(a, b);
    U256Bound(sum);
    var geq := U256Geq(sum, P_LIMBS);
    r := sum;
    if carry == 1 || geq == 1 {
      var borrow;
      r, borrow := U256SubRaw(sum, P_LIMBS);
    }
    U256Bound(r);
    ghost var s := Value(a) + Value(b);
    if s < 2 * P {
      DivModUnique(s, if carry == 1 || geq == 1 then 1 else 0, Value(r), P);
    } else {
      U256Bound(a);
      U256Bound(b);
      DivModUnique(s, 2, s - 2 * P, P);
    }
  }

  // Adding p modulo 2^256.
  method AddModulus(a: U256) returns (r: U256)
    ensures Value(r) == if Value(a) + P < TWO256 then Value(a) + P else Value(a) + P - TWO256
  {
    ConstantLimbs();
    var carry;
    r, carry := U256AddRaw(a, P_LIMBS);
    U256Bound(r);
  }

  method FpSub(a: U256, b: U256) returns (r: U256)
    ensures Value(r) == Sub(P, Value(a), Value(b)) <==> Value(a) < Value(b) + P && Value(b) <= Value(a) + P
  {
    var diff, borrow := U256SubRaw(a, b);
    r := diff;
    if borrow == 1 {
      r := AddModulus(diff);
    }
    U256Bound(a);
    U256Bound(b);
    U256Bound(diff);
    SubResidue(Value(a) - Value(b), Value(diff), Value(r));
  }

  // One correction by p brings a difference into [0, p) exactly from [-p, p).
  lemma SubResidue(s: int, diff: nat, r: nat)
    requires 0 - TWO256 < s < TWO256 && diff == if s < 0 then s + TWO256 else s
    requires r == if s >= 0 then diff else if diff + P < TWO256 then diff + P else diff + P - TWO256
    ensures r == s % P <==> 0 - P <= s < P
  {
    if s >= P {
      DivModUnique(s, 1, s - P, P);
    } else if s < 0 - P {
      DivModUnique(s, -2, s + 2 * P, P);
    } else {
      DivModUnique(s, if s < 0 then -1 else 0, r, P);
    }
  }

  method FpMul(a: U256, b: U256) returns (r: U256)
    ensures Value(r) == Mul(P, Value(a), Value(b))
  {
    var prod := U256Mul(a, b);
    ghost var passes;
    r, passes := ModP(prod);
  }

  method FpSqr(a: U256) returns (r: U256)
    ensures Value(r) == Sqr(P, Value(a))
  {
    r := FpMul(a, a);
  }

  method FpNeg(a: U256) returns (r: U256)
    ensures Value(r) == Sub(P, 0, Value(a)) <==> Value(a) <= P
  {
    ConstantLimbs();
    Constants();
    var isZero := U256Eq(a, ZERO);
    if isZero {
      DivModUnique(0, 0, 0, P);
      return a;
    }
    var borrow;
    r, borrow := U256SubRaw(P_LIMBS, a);
    U256Bound(r);
    U256Bound(a);
    if Value(a) <= P {
      DivModUnique(0 - Value(a), -1, Value(r), P);
    } else {
      DivModUnique(0 - Value(a), -2, 2 * P - Value(a), P);
    }
  }

  // ---- Fermat's inverse by square and multiply ----

  const EXP_LIMBS: U256 := [
    0xFFFFFC2D, 0xFFFFFFFE, 0xFFFFFFFF, 0xFFFFFFFF,
    0xFFFFFFFF, 0xFFFFFFFF, 0xFFFFFFFF, 0xFFFFFFFF]

  // One bit of the exponent n: multiply if it is set, square, halve.
  lemma BitStep(m: int, result: int, base: int, result': int, base': int, n: nat)
    requires m > 0 && Cong(result', if n % 2 == 1 then result * base else result, m)
    requires Cong(base', base * base, m)
    ensures Cong(result' * Pow(base', n / 2), result * Pow(base, n), m)
  {
    var k, sq := n / 2, base * base;
    CongPow(base', sq, k, m);
    PowDouble(base, k);
    var w := Pow(sq, k);
    if n % 2 == 1 {
      assert n == 2 * k + 1 && Pow(base, n) == base * w;
      CongMul(result', result * base, Pow(base', k), w, m);
      assert (result * base) * w == result * (base * w);
    } else {
      assert n == 2 * k;
      CongMul(result', result, Pow(base', k), w, m);
    }
  }

  lemma Pow2Word()
    ensures Pow2(32) == B
  {
    assert Pow2(1) == 2 && Pow2(2) == 4;
    Pow2Add(2, 2);
    Pow2Add(4, 4);
    Pow2Add(8, 8);
    Pow2Add(16, 16);
  }

  // What is left of the exponent: the rest of the word, then the higher limbs.
  lemma HalveRest(word: u32, bits: nat, high: nat)
    requires bits > 0 && word < Pow2(bits)
    ensures
      var n := word + Pow2(bits) * high;
      && n % 2 == word % 2 && n / 2 == word / 2 + Pow2(bits - 1) * high && word / 2 < Pow2(bits - 1)
  {
    var half := Pow2(bits - 1) * high;
    assert Pow2(bits) * high == 2 * half;
  }

  // One bit of fp_inv: n is what is left of the exponent.
  method InvBit(result: U256, base: U256, odd: bool, ghost n: nat, ghost goal: int) returns (result': U256, base': U256)
    requires Value(result) < P && odd == (n % 2 == 1) && Cong(Value(result) * Pow(Value(base), n), goal, P)
    ensures Value(result') < P && Cong(Value(result') * Pow(Value(base'), n / 2), goal, P)
  {
    result' := result;
    ghost var v, b := Value(result), Value(base);
    if odd {
      CongMod(v * b, P);
      result' := FpMul(result, base);
    }
    CongMod(b * b, P);
    base' := FpSqr(base);
    BitStep(P, v, b, Value(result'), Value(base'), n);
  }

  // The exponent that is left: word, of so many bits, and the limbs above it.
  ghost predicate Rest(n: nat, word: nat, bits: nat, high: nat) {
    word < Pow2(bits) && n == word + Pow2(bits) * high
  }

  // The state of the loop: result * base^n is the goal.
  ghost predicate ToGo(result: U256, base: U256, n: nat, goal: int) {
    Value(result) < P && Cong(Value(result) * Pow(Value(base), n), goal, P)
  }

  method InvStep(result: U256, base: U256, word: u32, ghost bits: nat, ghost high: nat, ghost n: nat, ghost goal: int)
    returns (result': U256, base': U256)
    requires bits > 0 && Rest(n, word, bits, high) && ToGo(result, base, n, goal)
    ensures Rest(n / 2, word / 2, bits - 1, high) && ToGo(result', base', n / 2, goal)
  {
    HalveRest(word, bits, high);
    result', base' := InvBit(result, base, word % 2 == 1, n, goal);
  }

  // The inner loop of fp_inv: the 32 bits of one limb of the exponent.
  method InvWord(result: U256, base: U256, limb: u32, ghost high: nat, ghost goal: int)
    returns (result': U256, base': U256)
    requires Value(result) < P && Cong(Value(result) * Pow(Value(base), limb + B * high), goal, P)
    ensures Value(result') < P && Cong(Value(result') * Pow(Value(base'), high), goal, P)
  {
    result', base' := result, base;
    var word: u32 := limb;
    ghost var n: nat := limb + B * high;
    Pow2Word();
    for bit := 0 to 32
      invariant |result'| == 8 && |base'| == 8 && Rest(n, word, 32 - bit, high) && ToGo(result', base', n, goal)
    {
      result', base' := InvStep(result', base', word, 32 - bit, high, n, goal);
      word, n := word / 2, n / 2;
    }
  }

  // The outer loop, for any exponent.
  method PowLimbs(a: U256, exp: U256) returns (result: U256)
    ensures Value(result) == Pow(Value(a), Value(exp)) % P
  {
    ghost var goal := Pow(Value(a), Value(exp));
    ConstantLimbs();
    result := ONE;
    var base := a;
    assert exp[0..] == exp;
    for limb := 0 to 8
      invariant |result| == 8 && |base| == 8 && Value(result) < P
      invariant Cong(Value(result) * Pow(Value(base), Value(exp[limb..])), goal, P)
    {
      assert exp[limb..][1..] == exp[limb + 1..];
      result, base := InvWord(result, base, exp[limb], Value(exp[limb + 1..]), goal);
    }
    assert exp[8..] == [];
    CongMod(goal, P);
    CongSmall(Value(result), goal % P, P);
  }

  method FpInv(a: U256) returns (result: U256)
    ensures Value(result) == Inv(P, Value(a))
  {
    ValueOf8(EXP_LIMBS);
    result := PowLimbs(a, EXP_LIMBS);
  }
}
