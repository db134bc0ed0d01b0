/** Montgomery's trick on limbs (demo/krackpot/src/shaders/search.js:130-145). */
module BatchInverseLimbs {
  import opened Modular
  import opened Limbs
  import opened BigInt
  import opened Field
  import opened Curve
  import opened CurveLimbs
  import opened BatchInverse

  // a spells the product of the first i + 1 residues.
  ghost predicate SpellsPrefix(z: seq<nat>, a: U256, i: int) {
    0 <= i < |z| && Small(a) && Cong(Value(a), Prefix(z, i + 1), P)
  }

  // a spells the inverse of z[i], or is 0 when some residue vanishes.
  ghost predicate SpellsInverse(z: seq<nat>, a: U256, i: int) {
    0 <= i < |z| && Small(a) && Inverts(P, z, Value(a), z[i])
  }

  ghost predicate Spells(z: seq<nat>, a: U256, i: int) {
    0 <= i < |z| && Value(a) == z[i] < P
  }

  lemma FirstPrefix(z: seq<nat>, a: U256)
    requires Spells(z, a, 0)
    ensures SpellsPrefix(z, a, 0)
  {
    assert Prefix(z, 1) == Prefix(z, 0) * z[0];
  }

  method NextPrefix(a: U256, b: U256, ghost z: seq<nat>, ghost k: int) returns (r: U256)
    requires 0 < k < |z| && SpellsPrefix(z, a, k - 1) && Spells(z, b, k)
    ensures SpellsPrefix(z, r, k)
  {
    MulC(P, Value(a), Prefix(z, k), z[k], z[k]);
    r := FpMul(a, b);
  }

  method PrefixPassLimbs(zs: array<U256>, count: nat, ghost z: seq<nat>) returns (inv: array<U256>)
    requires 1 <= count <= zs.Length && |z| == count
    requires forall i :: 0 <= i < count ==> Spells(z, zs[i], i)
    ensures fresh(inv) && inv.Length == zs.Length
    ensures forall i :: 0 <= i < count ==> SpellsPrefix(z, inv[i], i)
  {
    inv := new U256[zs.Length];
    FirstPrefix(z, zs[0]);
    inv[0] := zs[0];
    for k := 1 to count
      invariant forall i :: 0 <= i < count ==> Spells(z, zs[i], i)
      invariant forall i :: 0 <= i < k ==> SpellsPrefix(z, inv[i], i)
    {
      var next := NextPrefix(inv[k - 1], zs[k], z, k);
      inv[k] := next;
    }
  }

  // u spells the inverse of the product of the first k: what slot k - 1 is to hold,
  // and the same for one factor less.
  method BackStep(u: U256, before: U256, zk: U256, ghost z: seq<nat>, ghost k: int) returns (tmp: U256, u': U256)
    requires 1 < k <= |z| && SpellsPrefix(z, before, k - 2) && Spells(z, zk, k - 1)
    requires Small(u) && Inverts(P, z, Value(u), Prefix(z, k))
    ensures SpellsInverse(z, tmp, k - 1)
    ensures Small(u') && Inverts(P, z, Value(u'), Prefix(z, k - 1))
  {
    StepBack(P, z, Value(u), k, Value(before));
    tmp := FpMul(u, before);
    u' := FpMul(u, zk);
  }

  method InvertLast(last: U256, ghost z: seq<nat>) returns (u: U256)
    requires IsPrime(P) && |z| > 0 && SpellsPrefix(z, last, |z| - 1)
    ensures Small(u) && Inverts(P, z, Value(u), Prefix(z, |z|))
  {
    InvInverts(P, z, Value(last));
    u := FpInv(last);
  }

  method BackwardPassLimbs(zs: array<U256>, inv: array<U256>, count: nat, ghost z: seq<nat>)
    requires IsPrime(P) && 1 <= count <= zs.Length == inv.Length && zs != inv
    requires |z| == count && forall i :: 0 <= i < count ==> Spells(z, zs[i], i)
    requires forall i :: 0 <= i < count ==> SpellsPrefix(z, inv[i], i)
    modifies inv
    ensures forall i :: 0 <= i < count ==> SpellsInverse(z, inv[i], i)
  {
    var u := InvertLast(inv[count - 1], z);
    var k := count;
    while k > 1
      invariant 1 <= k <= count
      invariant forall i :: 0 <= i < count ==> Spells(z, zs[i], i)
      invariant Small(u) && Inverts(P, z, Value(u), Prefix(z, k))
      invariant forall i :: 0 <= i < k - 1 ==> SpellsPrefix(z, inv[i], i)
      invariant forall i :: k <= i < count ==> SpellsInverse(z, inv[i], i)
    {
      var kk := k - 1;
      var tmp;
      tmp, u := BackStep(u, inv[kk - 1], zs[kk], z, k);
      inv[kk] := tmp;
      k := kk;
    }
    assert Prefix(z, 1) == Prefix(z, 0) * z[0];
    inv[0] := u;
  }

  // Each slot spells the inverse of its Z, or 0 in every slot when a Z vanishes.
  method BatchInvertLimbs(zs: array<U256>, count: nat, ghost z: seq<nat>) returns (inv: array<U256>)
    requires IsPrime(P) && 1 <= count <= zs.Length && |z| == count
    requires forall i :: 0 <= i < count ==> Spells(z, zs[i], i)
    ensures fresh(inv) && inv.Length == zs.Length
    ensures forall i :: 0 <= i < count ==> SpellsInverse(z, inv[i], i)
  {
    inv := PrefixPassLimbs(zs, count, z);
    BackwardPassLimbs(zs, inv, count, z);
  }
}
