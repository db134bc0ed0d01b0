/**
 The CPU's conversion between big integers and the shaders' limbs
 (demo/krackpot/src/reference/secp.js:87-101).
 */
module Packing {
  import opened Limbs
  import opened Modular
  import opened BigInt

  // A negative number gives the limbs of its residue mod 2^256, as n & 0xFFFFFFFF
  // and n >> 32 do.
  method BigIntToLimbsLE(number: int) returns (limbs: array<u32>)
    ensures limbs.Length == 8 && Value(limbs[..]) == number % TWO256
  {
    limbs := new u32[8](_ => 0);
    var n := number;
    for i := 0 to 8
      invariant number == Value(limbs[..i]) + Shift(n, i)
    {
      ghost var before := limbs[..i];
      limbs[i] := n % B;
      assert limbs[..i] == before && limbs[..i + 1] == before + [limbs[i]];
      ValueSnoc(before, limbs[i]);
      ShiftAdd(n % B, B * (n / B), i);
      ShiftNext(n / B, i);
      n := n / B;
    }
    assert limbs[..8] == limbs[..];
    U256Bound(limbs[..]);
    Shift8(n);
    DivModUnique(number, n, Value(limbs[..]), TWO256);
  }

  method LimbsLEToBigInt(limbs: U256) returns (n: nat)
    ensures n == Value(limbs)
  {
    n := 0;
    for i := 8 downto 0
      invariant n == Value(limbs[i..])
    {
      assert limbs[i..][1..] == limbs[i + 1..];
      n := n * B + limbs[i];
    }
    assert limbs[0..] == limbs;
  }

  // The limbs of a number are its only spelling, and they give it back exactly
  // when it fits 256 bits.
  lemma RoundTrip(number: int, limbs: U256)
    ensures Value(limbs) == number % TWO256 ==> (Value(limbs) == number <==> 0 <= number < TWO256)
    ensures forall other: U256 :: Value(other) == Value(limbs) ==> other == limbs
  {
    U256Bound(limbs);
    if 0 <= number < TWO256 {
      DivModUnique(number, 0, number, TWO256);
    }
    forall other: U256 | Value(other) == Value(limbs) ensures other == limbs {
      ValueInjective(other, limbs);
    }
  }
}
