/**
 256-bit and 512-bit arithmetic of the shaders (demo/krackpot/src/shaders/bigint.js).
 WGSL arrays are values: a function gets its own copies and returns one, so a
 local array is a sequence variable updated in place.
 */
module BigInt {
  import opened Limbs
  import opened Modular

  type U256 = s: seq<u32> | |s| == 8 witness [0, 0, 0, 0, 0, 0, 0, 0]
  type U512 = s: seq<u32> | |s| == 16 witness [0, 0, 0, 0, 0, 0, 0, 0, 0, 0, 0, 0, 0, 0, 0, 0]
  type Buffer = s: seq<u32> | |s| == 10 witness [0, 0, 0, 0, 0, 0, 0, 0, 0, 0]

  const TWO256: int := 0x1_00000000_00000000_00000000_00000000_00000000_00000000_00000000_00000000

  // p = 2^256 - C
  const C: int := 0x1_0000_03D1
  const P: int := 0xFFFFFFFF_FFFFFFFF_FFFFFFFF_FFFFFFFF_FFFFFFFF_FFFFFFFF_FFFFFFFE_FFFFFC2F

  const P_LIMBS: U256 := [
    0xFFFFFC2F, 0xFFFFFFFE, 0xFFFFFFFF, 0xFFFFFFFF,
    0xFFFFFFFF, 0xFFFFFFFF, 0xFFFFFFFF, 0xFFFFFFFF]

  const ZERO: U256 := [0, 0, 0, 0, 0, 0, 0, 0]
  const ONE: U256 := [1, 0, 0, 0, 0, 0, 0, 0]

  lemma Constants()
    ensures TWO256 == P + C
  {}

  lemma Shift8(x: int)
    ensures Shift(x, 8) == x * TWO256
  {
    Shift2(x);
    Shift2(Shift(x, 2));
    Shift2(Shift(x, 4));
    Shift2(Shift(x, 6));
    ShiftTwice(x, 2, 2);
    ShiftTwice(x, 4, 2);
    ShiftTwice(x, 6, 2);
  }

  lemma Shift2(x: int)
    ensures Shift(x, 1) == B * x && Shift(x, 2) == B * (B * x)
  {
    assert Shift(x, 1) == B * Shift(x, 0);
  }

  lemma ValueOf8(s: U256)
    ensures Value(s) == s[0] + B * (s[1] + B * (s[2] + B * (s[3] + B * (s[4] + B * (s[5] + B * (s[6] + B * s[7]))))))
  {
    assert s[8..] == [] && s[0..] == s;
    forall k | 0 <= k < 8 ensures Value(s[k..]) == s[k] + B * Value(s[k + 1..]) {
      assert s[k..][1..] == s[k + 1..];
    }
    assert Value(s[7..]) == s[7] && Value(s[6..]) == s[6] + B * Value(s[7..]);
    assert Value(s[5..]) == s[5] + B * Value(s[6..]) && Value(s[4..]) == s[4] + B * Value(s[5..]);
    assert Value(s[3..]) == s[3] + B * Value(s[4..]) && Value(s[2..]) == s[2] + B * Value(s[3..]);
    assert Value(s[1..]) == s[1] + B * Value(s[2..]) && Value(s[0..]) == s[0] + B * Value(s[1..]);
  }

  lemma ConstantLimbs()
    ensures Value(P_LIMBS) == P && Value(ZERO) == 0 && Value(ONE) == 1
  {
    ValueOf8(P_LIMBS);
    ValueOf8(ZERO);
    ValueOf8(ONE);
  }

  lemma U256Bound(a: U256)
    ensures Value(a) < TWO256
  {
    ValueBound(a);
    Shift8(1);
  }

  // ---- Addition, subtraction, comparison ----

  method U256AddRaw(a: U256, b: U256) returns (sum: U256, carry: u32)
    ensures Value(sum) + carry * TWO256 == Value(a) + Value(b) && carry <= 1
  {
    sum, carry := ZERO, 0;
    for i := 0 to 8
      invariant carry <= 1 && |sum| == 8
      invariant Value(sum[..i]) + Shift(carry, i) == Value(a[..i]) + Value(b[..i])
    {
      var s, c := AddCarry(a[i], b[i], carry);
      AddStep(sum, a, b, i, carry, s, c);
      sum, carry := sum[i := s], c;
    }
    assert sum[..8] == sum && a[..8] == a && b[..8] == b;
    Shift8(carry);
  }

  lemma AddStep(r: U256, a: U256, b: U256, i: nat, carry: u32, s: u32, c: u32)
    requires i < 8 && s + B * c == a[i] + b[i] + carry
    requires Value(r[..i]) + Shift(carry, i) == Value(a[..i]) + Value(b[..i])
    ensures Value(r[i := s][..i + 1]) + Shift(c, i + 1) == Value(a[..i + 1]) + Value(b[..i + 1])
  {
    ValueNext(r[i := s], i);
    assert r[i := s][..i] == r[..i];
    ValueNext(a, i);
    ValueNext(b, i);
    ShiftNext(c, i);
    ShiftAdd(s, B * c, i);
    ShiftAdd3(a[i], b[i], carry, i);
  }

  // Subtraction as the addition it undoes: diff + b = a + borrow * 2^(32 i).
  lemma SubStep(r: U256, a: U256, b: U256, i: nat, borrow: u32, s: u32, c: u32)
    requires i < 8 && s - B * c == a[i] - b[i] - borrow
    requires Value(r[..i]) + Value(b[..i]) == Value(a[..i]) + Shift(borrow, i)
    ensures Value(r[i := s][..i + 1]) + Value(b[..i + 1]) == Value(a[..i + 1]) + Shift(c, i + 1)
  {
    ValueNext(r[i := s], i);
    assert r[i := s][..i] == r[..i];
    ValueNext(a, i);
    ValueNext(b, i);
    ShiftNext(c, i);
    ShiftAdd(a[i], B * c, i);
    ShiftAdd3(s, b[i], borrow, i);
  }

  method U256SubRaw(a: U256, b: U256) returns (diff: U256, borrow: u32)
    ensures Value(diff) - borrow * TWO256 == Value(a) - Value(b) && borrow <= 1
    ensures borrow == 1 <==> Value(a) < Value(b)
  {
    diff, borrow := ZERO, 0;
    for i := 0 to 8
      invariant borrow <= 1 && |diff| == 8
      invariant Value(diff[..i]) + Value(b[..i]) == Value(a[..i]) + Shift(borrow, i)
    {
      var s, c := SubBorrow(a[i], b[i], borrow);
      SubStep(diff, a, b, i, borrow, s, c);
      diff, borrow := diff[i := s], c;
    }
    assert diff[..8] == diff && a[..8] == a && b[..8] == b;
    Shift8(borrow);
    U256Bound(diff);
  }

  method U256Geq(a: U256, b: U256) returns (geq: u32)
    ensures geq <= 1 && (geq == 1 <==> Value(a) >= Value(b))
  {
    var borrow: u32 := 0;
    ghost var diff: U256 := ZERO;
    for i := 0 to 8
      invariant borrow <= 1
      invariant Value(diff[..i]) + Value(b[..i]) == Value(a[..i]) + Shift(borrow, i)
    {
      var s, c := SubBorrow(a[i], b[i], borrow);
      SubStep(diff, a, b, i, borrow, s, c);
      diff := diff[i := s];
      borrow := c;
    }
    assert diff[..8] == diff && a[..8] == a && b[..8] == b;
    Shift8(borrow);
    U256Bound(diff);
    geq := 1 - borrow;
  }

  // ---- Multiplication ----

  method U256Mul(a: U256, b: U256) returns (r: U512)
    ensures Value(r) == Value(a) * Value(b)
  {
    r := ZERO + ZERO;
    ValueZeros(r);
    for i := 0 to 8
      invariant |r| == 16 && Value(r) == Value(a[..i]) * Value(b)
      invariant forall k :: i + 8 <= k < 16 ==> r[k] == 0
    {
      r := MulRow(r, i, a[i], b);
      RowDone(a, i, Value(b));
    }
    assert a[..8] == a;
  }

  // The inner loop: r += x * b from limb i on.
  method MulRow(r: U512, i: nat, x: u32, b: U256) returns (r': U512)
    requires i < 8 && forall k :: i + 8 <= k < 16 ==> r[k] == 0
    ensures Value(r') == Value(r) + Shift(x * Value(b), i)
    ensures forall k :: i + 9 <= k < 16 ==> r'[k] == 0
  {
    r' := r;
    var carry: u32 := 0;
    ShiftZero(i);
    for j := 0 to 8
      invariant |r'| == 16 && Value(r') + Shift(carry, i + j) == Value(r) + Shift(x * Value(b[..j]), i)
      invariant forall k :: i + 8 <= k < 16 ==> r'[k] == 0
    {
      r', carry := MulStep(r', i, j, x, b, carry, Value(r));
    }
    LastCarry(r', i + 8, carry);
    r' := r'[i + 8 := Add32(r'[i + 8], carry)];
    assert b[..8] == b;
  }

  method MulStep(r: U512, i: nat, j: nat, x: u32, b: U256, carry: u32, ghost base: nat) returns (r': U512, c: u32)
    requires i < 8 && j < 8 && Value(r) + Shift(carry, i + j) == base + Shift(x * Value(b[..j]), i)
    ensures Value(r') + Shift(c, i + j + 1) == base + Shift(x * Value(b[..j + 1]), i)
    ensures forall k :: 0 <= k < 16 && k != i + j ==> r'[k] == r[k]
  {
    var s;
    s, c := Accumulate(r[i + j], x, b[j], carry);
    RowStep(r, i, j, x, b, carry, s, c, base);
    r' := r[i + j := s];
  }

  // The limb that takes the last carry of a row is still empty.
  lemma LastCarry(r: U512, k: nat, carry: u32)
    requires k < 16 && r[k] == 0
    ensures Value(r[k := Add32(r[k], carry)]) == Value(r) + Shift(carry, k)
  {
    ValueUpdate(r, k, carry);
  }

  lemma RowDone(a: seq<u32>, i: nat, v: nat)
    requires i < |a|
    ensures Value(a[..i + 1]) * v == Value(a[..i]) * v + Shift(a[i] * v, i)
  {
    ValueNext(a, i);
    ShiftMul(v, a[i], i);
    var w, t := Value(a[..i]), Shift(a[i], i);
    assert (w + t) * v == w * v + v * t && v * a[i] == a[i] * v;
  }

  // ---- Reduction mod p ----

  // for i in k..10: if c == 0 break; r[i] += c; c = its carry
  method Ripple(r: Buffer, k: nat, c: u32) returns (r': Buffer)
    requires k <= 10 && c <= 1 && Value(r) + Shift(c, k) < Shift(1, 10)
    ensures Value(r') == Value(r) + Shift(c, k)
  {
    r' := r;
    var carry: u32 := c;
    var i := k;
    while i < 10 && carry != 0
      invariant k <= i <= 10 && carry <= 1 && |r'| == 10
      invariant Value(r') + Shift(carry, i) == Value(r) + Shift(c, k)
    {
      var s := Add32(r'[i], carry);
      LimbReplaced(r', i, s, Bit(s < r'[i]), carry, 0);
      ShiftZero(i);
      carry, r' := Bit(s < r'[i]), r'[i := s];
      i := i + 1;
    }
    ShiftZero(i);
  }

  // r += x at limb k
  method AddLimbAt(r: Buffer, k: nat, x: u32) returns (r': Buffer)
    requires k < 10 && Value(r) + Shift(x, k) < Shift(1, 10)
    ensures Value(r') == Value(r) + Shift(x, k)
  {
    var s := Add32(r[k], x);
    var c := Bit(s < r[k]);
    LimbReplaced(r, k, s, c, x, 0);
    ShiftZero(k);
    r' := Ripple(r[k := s], k + 1, c);
  }

  // r += x * 977 at limb k
  method AddProductAt(r: Buffer, k: nat, x: u32) returns (r': Buffer)
    requires k < 9 && Value(r) + Shift(x * 977, k) < Shift(1, 10)
    ensures Value(r') == Value(r) + Shift(x * 977, k)
  {
    var p0, p1 := Times977(x);
    var s := Add32(r[k], p0);
    var c := Bit(s < r[k]);
    r' := r[k := s];
    var sc, cc := AddCarry(r'[k + 1], p1, c);
    LimbReplaced(r, k, s, c, p0, 0);
    LimbReplaced(r', k + 1, sc, cc, p1, c);
    ShiftZero(k);
    ShiftAdd(p0, B * p1, k);
    ShiftNext(p1, k);
    r' := Ripple(r'[k + 1 := sc], k + 2, cc);
  }

  method Times977(x: u32) returns (lo: u32, hi: u32)
    ensures lo + B * hi == x * 977
  {
    var prod := MulWide(x, 977);
    lo, hi := prod.0, prod.1;
  }

  // r += hi * 977, with r clear above limb 7.
  method AddHigh977(r: Buffer, hi: U256) returns (r': Buffer)
    requires r[8] == 0 && r[9] == 0
    ensures Value(r') == Value(r) + 977 * Value(hi) && r'[9] == 0
  {
    r' := r;
    var carry: u32 := 0;
    for i := 0 to 8
      invariant |r'| == 10 && r'[8] == 0 && r'[9] == 0
      invariant Value(r') + Shift(carry, 0 + i) == Value(r) + Shift(977 * Value(hi[..i]), 0)
    {
      var s, c := Accumulate(r'[i], 977, hi[i], carry);
      RowStep(r', 0, i, 977, hi, carry, s, c, Value(r));
      r', carry := r'[i := s], c;
    }
    assert hi[..8] == hi;
    ValueUpdate(r', 8, carry);
    r' := r'[8 := carry];
  }

  // r += hi one limb up, with limb 9 of r clear.
  method AddHighShifted(r: Buffer, hi: U256) returns (r': Buffer)
    requires r[9] == 0
    ensures Value(r') == Value(r) + B * Value(hi)
  {
    r' := r;
    var carry: u32 := 0;
    for i := 0 to 8
      invariant |r'| == 10 && r'[9] == 0 && carry <= 1
      invariant Value(r') + Shift(carry, 1 + i) == Value(r) + Shift(1 * Value(hi[..i]), 1)
    {
      var s, c := AddCarry(r'[i + 1], hi[i], carry);
      RowStep(r', 1, i, 1, hi, carry, s, c, Value(r));
      r', carry := r'[i + 1 := s], c;
    }
    assert hi[..8] == hi;
    Shift2(Value(hi));
    ValueUpdate(r', 9, carry);
    r' := r'[9 := Add32(r'[9], carry)];
  }

  // The first fold: the high half times 977, then the high half one limb up.
  method FirstFold(a: U512) returns (r: Buffer)
    ensures Value(r) == Value(a[..8]) + Value(a[8..]) * C
  {
    r := a[..8] + [0, 0];
    PadBuffer(a[..8]);
    r := AddHigh977(r, a[8..]);
    r := AddHighShifted(r, a[8..]);
  }

  lemma PadBuffer(s: U256)
    ensures Value(s + [0, 0]) == Value(s)
  {
    ValueSnoc(s, 0);
    ValueSnoc(s + [0], 0);
    ShiftZero(8);
    ShiftZero(9);
    assert s + [0] + [0] == s + [0, 0];
  }

  // The buffer as its low 256 bits and the overflow in limbs 8 and 9.
  lemma Overflow(r: Buffer)
    ensures Value(r) == Value(r[..8]) + (r[8] + B * r[9]) * TWO256 && Value(r[..8]) < TWO256
    ensures Value(r[8 := 0][9 := 0]) == Value(r[..8])
  {
    ValueSplit(r, 8);
    assert r[8..] == [r[8], r[9]] && r[8..][1..] == [r[9]] && [r[9]][1..] == [];
    assert Value([r[9]]) == r[9];
    U256Bound(r[..8]);
    Shift8(Value(r[8..]));
    PadBuffer(r[..8]);
    assert r[8 := 0][9 := 0] == r[..8] + [0, 0];
  }

  lemma SmallShifts(x: u32)
    ensures Shift(x * 977, 0) == x * 977 && Shift(x * 977, 1) == B * (x * 977)
    ensures Shift(x, 1) == B * x && Shift(x, 2) == B * (B * x)
    ensures Shift(1, 10) == B * B * TWO256
  {
    Shift8(1);
    Shift2(Shift(1, 8));
    ShiftTwice(1, 8, 2);
    Shift2(x);
    Shift2(x * 977);
  }

  // One more fold: the overflow E in limbs 8 and 9 returns as E * C.
  method FoldOnce(r: Buffer) returns (r': Buffer)
    ensures Value(r') == Value(r[..8]) + (r[8] + B * r[9]) * C
  {
    Overflow(r);
    var extraLo, extraHi := r[8], r[9];
    SmallShifts(extraLo);
    SmallShifts(extraHi);
    r' := r[8 := 0][9 := 0];
    r' := AddProductAt(r', 0, extraLo);
    r' := AddLimbAt(r', 1, extraLo);
    r' := AddProductAt(r', 1, extraHi);
    r' := AddLimbAt(r', 2, extraHi);
  }

  // What a fold does to the value: congruent mod p, and small after two.
  lemma FoldShrinks(v: nat, low: nat, e: nat)
    requires v == low + e * TWO256 && low < TWO256
    ensures Cong(low + e * C, v, P)
    ensures v < TWO256 * (C + 1) ==> low + e * C < TWO256 + C * C
    ensures v < TWO256 + C * C ==> low + e * C < TWO256
    ensures v < TWO256 ==> e == 0
  {
    Constants();
    assert (low + e * C) - v == (0 - e) * P;
    CongFromMultiple(low + e * C, v, 0 - e, P);
  }

  // mod_p: at most two of the four passes that the loop allows are taken.
  method ModP(a: U512) returns (out: U256, ghost passes: nat)
    ensures Value(out) == Value(a) % P
    ensures passes <= 2
  {
    passes := 0;
    var r := FirstFold(a);
    FirstFoldValue(a, Value(r));
    var iter := 0;
    while iter < 4
      invariant 0 <= iter == passes <= 2 && |r| == 10 && Cong(Value(r), Value(a), P)
      invariant Value(r) < if iter == 0 then TWO256 * (C + 1) else if iter == 1 then TWO256 + C * C else TWO256
    {
      Overflow(r);
      FoldShrinks(Value(r), Value(r[..8]), r[8] + B * r[9]);
      if r[8] == 0 && r[9] == 0 {
        break;
      }
      r := FoldOnce(r);
      iter, passes := iter + 1, passes + 1;
    }
    Overflow(r);
    FoldShrinks(Value(r), Value(r[..8]), r[8] + B * r[9]);
    CongMod(Value(a), P);
    out := ReduceOnce(r[..8]);
    CongMod(Value(r), P);
    CongSmall(Value(out), Value(a) % P, P);
  }

  // The conditional subtraction: enough for any 256-bit value.
  method ReduceOnce(a: U256) returns (out: U256)
    ensures Value(out) == Value(a) % P
  {
    out := a;
    ConstantLimbs();
    Constants();
    U256Bound(a);
    var geq := U256Geq(out, P_LIMBS);
    if geq == 1 {
      var borrow;
      out, borrow := U256SubRaw(out, P_LIMBS);
      DivModUnique(Value(a), 1, Value(out), P);
    } else {
      DivModUnique(Value(a), 0, Value(out), P);
    }
  }

  lemma FirstFoldValue(a: U512, v: nat)
    requires v == Value(a[..8]) + Value(a[8..]) * C
    ensures Cong(v, Value(a), P) && v < TWO256 * (C + 1)
  {
    ValueSplit(a, 8);
    Shift8(Value(a[8..]));
    U256Bound(a[..8]);
    U256Bound(a[8..]);
    FoldShrinks(Value(a), Value(a[..8]), Value(a[8..]));
  }
}
