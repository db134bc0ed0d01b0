/**
 Little-endian numbers in 32-bit limbs, and 32-bit arithmetic with its
 wrap-around written out.
 */
module Limbs {
  const B: int := 0x1_0000_0000

  type u32 = x: nat | x < 0x1_0000_0000

  // ---- 32-bit operations ----

  function Add32(a: u32, b: u32): u32 { (a + b) % B }

  function Sub32(a: u32, b: u32): u32 { (a - b) % B }

  function Mul32(a: u32, b: u32): u32 { (a * b) % B }

  function Bit(b: bool): u32 { if b then 1 else 0 }

  const HALF: int := 0x1_0000

  function High16(a: u32): u32 { a / HALF }

  function Low16(a: u32): u32 { a % HALF }

  function Shl16(a: u32): u32 { (a * HALF) % B }

  // The sums written with | in the shaders join a low half and a shifted high half.
  lemma OrIsAdd(x: bv32, y: bv32)
    ensures (x & 0xFFFF) | (y << 16) == (x & 0xFFFF) + (y << 16)
  {}

  // Adding with carry: the comparison after each addition finds its carry.
  method AddCarry(a: u32, b: u32, carry: u32) returns (s2: u32, out: u32)
    requires carry <= 1
    ensures s2 + B * out == a + b + carry && out <= 1
  {
    var s := Add32(a, b);
    var c1 := Bit(s < a);
    s2 := Add32(s, carry);
    var c2 := Bit(s2 < s);
    out := c1 + c2;
  }

  method SubBorrow(a: u32, b: u32, borrow: u32) returns (s2: u32, out: u32)
    requires borrow <= 1
    ensures s2 - B * out == a - b - borrow && out <= 1
  {
    var s1 := Sub32(a, b);
    var b1 := Bit(a < b);
    s2 := Sub32(s1, borrow);
    var b2 := Bit(s1 < borrow);
    out := b1 + b2;
  }

  // The full 64-bit product from 16-bit halves.
  function MulWide(a: u32, b: u32): (r: (u32, u32))
    ensures r.0 + B * r.1 == a * b
  {
    var ah, al, bh, bl := High16(a), Low16(a), High16(b), Low16(b);
    HalvesProduct(a, b);
    var ll, lh, hl, hh := Mul32(al, bl), Mul32(al, bh), Mul32(ah, bl), Mul32(ah, bh);
    var mid := High16(ll) + Low16(lh) + Low16(hl);
    var lo := Low16(ll) + Shl16(mid);
    var hi := hh + High16(lh) + High16(hl) + High16(mid);
    Assemble(ll, lh, hl, hh);
    (lo, hi)
  }

  // cur + x * y + carry in two words; the high word never overflows.
  method Accumulate(cur: u32, x: u32, y: u32, carry: u32) returns (s2: u32, out: u32)
    ensures s2 + B * out == cur + x * y + carry
  {
    var prod := MulWide(x, y);
    MulBound(x, y, B - 1, B - 1);
    Carries(cur, prod.0, prod.1, carry);
    var s1 := Add32(cur, prod.0);
    var c1 := Bit(s1 < cur);
    s2 := Add32(s1, carry);
    var c2 := Bit(s2 < s1);
    out := prod.1 + c1 + c2;
  }

  lemma Carries(cur: u32, lo: u32, hi: u32, carry: u32)
    requires lo + B * hi <= (B - 1) * (B - 1)
    ensures
      var s1 := Add32(cur, lo);
      var s2 := Add32(s1, carry);
      var c := hi + Bit(s1 < cur) + Bit(s2 < s1);
      c < B && s2 + B * c == cur + (lo + B * hi) + carry
  {}

  lemma MulBound(x: nat, y: nat, n: nat, m: nat)
    requires x <= n && y <= m
    ensures x * y <= n * m
  {
    assert n * m - x * y == (n - x) * m + x * (m - y);
  }

  // No product of halves wraps, and together they make the whole product.
  lemma HalvesProduct(a: u32, b: u32)
    ensures
      var ah, al, bh, bl := High16(a), Low16(a), High16(b), Low16(b);
      && Mul32(al, bl) == al * bl && Mul32(al, bh) == al * bh && Mul32(ah, bl) == ah * bl && Mul32(ah, bh) == ah * bh
      && a * b == B * (ah * bh) + HALF * (ah * bl) + HALF * (al * bh) + al * bl
      && a * b <= (B - 1) * (B - 1)
  {
    var ah, al, bh, bl := High16(a), Low16(a), High16(b), Low16(b);
    NoWrap(al, bl); NoWrap(al, bh); NoWrap(ah, bl); NoWrap(ah, bh);
    MulBound(a, b, B - 1, B - 1);
    Distribute(ah, al, bh, bl);
  }

  lemma NoWrap(x: u32, y: u32)
    requires x < HALF && y < HALF
    ensures Mul32(x, y) == x * y
  {
    MulBound(x, y, HALF - 1, HALF - 1);
  }

  lemma Distribute(ah: int, al: int, bh: int, bl: int)
    ensures (ah * HALF + al) * (bh * HALF + bl) == B * (ah * bh) + HALF * (ah * bl) + HALF * (al * bh) + al * bl
  {}

  lemma Assemble(ll: u32, lh: u32, hl: u32, hh: u32)
    requires B * hh + HALF * lh + HALF * hl + ll <= (B - 1) * (B - 1)
    ensures
      var mid := High16(ll) + Low16(lh) + Low16(hl);
      && mid < B
      && var lo, hi := Low16(ll) + Shl16(mid), hh + High16(lh) + High16(hl) + High16(mid);
      lo < B && hi < B && lo + B * hi == B * hh + HALF * lh + HALF * hl + ll
  {}

  // ---- Values ----

  // x moved up by n limbs: x * 2^(32 n)
  ghost function Shift(x: int, n: nat): int {
    if n == 0 then x else B * Shift(x, n - 1)
  }

  lemma {:induction false} ShiftAdd(x: int, y: int, n: nat)
    ensures Shift(x + y, n) == Shift(x, n) + Shift(y, n)
  {
    if n > 0 {
      ShiftAdd(x, y, n - 1);
    }
  }

  lemma ShiftAdd3(x: int, y: int, z: int, n: nat)
    ensures Shift(x + y + z, n) == Shift(x, n) + Shift(y, n) + Shift(z, n)
  {
    ShiftAdd(x, y, n);
    ShiftAdd(x + y, z, n);
  }

  lemma {:induction false} ShiftNext(x: int, n: nat)
    ensures Shift(B * x, n) == Shift(x, n + 1)
  {
    if n > 0 {
      ShiftNext(x, n - 1);
    }
  }

  lemma {:induction false} ShiftTwice(x: int, m: nat, n: nat)
    ensures Shift(Shift(x, m), n) == Shift(x, m + n)
  {
    if n > 0 {
      ShiftTwice(x, m, n - 1);
    }
  }

  lemma {:induction false} ShiftMul(x: int, y: int, n: nat)
    ensures x * Shift(y, n) == Shift(x * y, n)
  {
    if n > 0 {
      ShiftMul(x, y, n - 1);
      var t := Shift(y, n - 1);
      assert x * (B * t) == B * (x * t);
    }
  }

  lemma {:induction false} ShiftMono(x: int, y: int, n: nat)
    requires x <= y
    ensures Shift(x, n) <= Shift(y, n)
  {
    if n > 0 {
      ShiftMono(x, y, n - 1);
    }
  }

  lemma {:induction false} ShiftZero(n: nat)
    ensures Shift(0, n) == 0
  {
    if n > 0 {
      ShiftZero(n - 1);
    }
  }

  ghost function Value(s: seq<u32>): nat {
    if s == [] then 0 else s[0] + B * Value(s[1..])
  }

  lemma {:induction false} ValueSnoc(s: seq<u32>, x: u32)
    ensures Value(s + [x]) == Value(s) + Shift(x, |s|)
  {
    if s == [] {
      assert s + [x] == [x] && [x][1..] == [];
    } else {
      ValueSnoc(s[1..], x);
      assert (s + [x])[1..] == s[1..] + [x];
    }
  }

  lemma ValueNext(s: seq<u32>, i: nat)
    requires i < |s|
    ensures Value(s[..i + 1]) == Value(s[..i]) + Shift(s[i], i)
  {
    assert s[..i + 1] == s[..i] + [s[i]];
    ValueSnoc(s[..i], s[i]);
  }

  lemma {:induction false} ValueSplit(s: seq<u32>, k: nat)
    requires k <= |s|
    ensures Value(s) == Value(s[..k]) + Shift(Value(s[k..]), k)
  {
    if k > 0 {
      ValueSplit(s[1..], k - 1);
      assert s[1..][..k - 1] == s[..k][1..] && s[1..][k - 1..] == s[k..];
    } else {
      assert s[0..] == s;
    }
  }

  lemma {:induction false} ValueBound(s: seq<u32>)
    ensures Value(s) < Shift(1, |s|)
  {
    if s != [] {
      ValueBound(s[1..]);
    }
  }

  lemma {:induction false} ValueUpdate(s: seq<u32>, i: nat, x: u32)
    requires i < |s|
    ensures Value(s[i := x]) == Value(s) + Shift(x - s[i], i)
  {
    if i > 0 {
      ValueUpdate(s[1..], i - 1, x);
      assert s[i := x][1..] == s[1..][i - 1 := x];
    } else {
      assert s[0 := x][1..] == s[1..];
    }
  }

  // A number has one spelling of each length.
  lemma {:induction false} ValueInjective(s: seq<u32>, t: seq<u32>)
    requires |s| == |t| && Value(s) == Value(t)
    ensures s == t
  {
    if s != [] {
      assert s[0] == t[0];
      ValueInjective(s[1..], t[1..]);
      assert s == [s[0]] + s[1..] && t == [t[0]] + t[1..];
    }
  }

  lemma {:induction false} ValueZeros(s: seq<u32>)
    requires forall i :: 0 <= i < |s| ==> s[i] == 0
    ensures Value(s) == 0
  {
    if s != [] {
      ValueZeros(s[1..]);
    }
  }

  // Limb k becomes s and c is carried on, after taking in t and a carry.
  lemma LimbReplaced(r: seq<u32>, k: nat, s: u32, c: int, t: int, carry: int)
    requires k < |r| && s + B * c == r[k] + t + carry
    ensures Value(r[k := s]) + Shift(c, k + 1) == Value(r) + Shift(t, k) + Shift(carry, k)
  {
    ValueUpdate(r, k, s);
    ShiftNext(c, k);
    ShiftAdd(s - r[k], B * c, k);
    ShiftAdd(t, carry, k);
    assert s - r[k] + B * c == t + carry;
  }

  // One step of adding x * y into r from limb at on: limb at + j takes x * y[j] and
  // the carry, and passes on the new carry.
  lemma RowStep(r: seq<u32>, at: nat, j: nat, x: nat, y: seq<u32>, carry: nat, s: u32, c: nat, base: nat)
    requires at + j < |r| && j < |y| && s + B * c == r[at + j] + x * y[j] + carry
    requires Value(r) + Shift(carry, at + j) == base + Shift(x * Value(y[..j]), at)
    ensures Value(r[at + j := s]) + Shift(c, at + j + 1) == base + Shift(x * Value(y[..j + 1]), at)
  {
    LimbReplaced(r, at + j, s, c, x * y[j], carry);
    RowArithmetic(x, y, j);
    ShiftAdd(x * Value(y[..j]), Shift(x * y[j], j), at);
    ShiftTwice(x * y[j], j, at);
  }

  lemma RowArithmetic(x: nat, y: seq<u32>, j: nat)
    requires j < |y|
    ensures x * Value(y[..j + 1]) == x * Value(y[..j]) + Shift(x * y[j], j)
  {
    ValueNext(y, j);
    ShiftMul(x, y[j], j);
    var v, t := Value(y[..j]), Shift(y[j], j);
    assert x * (v + t) == x * v + x * t;
  }
}
