/**
 Montgomery's trick (demo/krackpot/src/shaders/search.js:130-145): all inverses
 from one, in an array that first holds prefix products.
 */
module BatchInverse {
  import opened Modular
  import opened Field
  import opened Curve

  // The product of the first k residues.
  function Prefix(z: seq<nat>, k: nat): nat
    requires k <= |z|
  {
    if k == 0 then 1 else Prefix(z, k - 1) * z[k - 1]
  }

  ghost predicate Units(p: nat, z: seq<nat>)
    requires p > 0
  {
    forall k :: 0 <= k < |z| ==> z[k] % p != 0
  }

  lemma {:induction false} PrefixUnit(p: nat, z: seq<nat>, k: nat)
    requires IsPrime(p) && k <= |z|
    ensures Prefix(z, k) % p != 0 <==> forall i :: 0 <= i < k ==> z[i] % p != 0
  {
    if k == 0 {
      DivModUnique(1, 0, 1, p);
    } else {
      PrefixUnit(p, z, k - 1);
      PrimeProduct(Prefix(z, k - 1), z[k - 1], p);
    }
  }

  // u inverts the product of the first k: or, when a factor vanishes, u is 0.
  ghost predicate Inverts(p: nat, z: seq<nat>, u: nat, w: int)
    requires p > 0
  {
    if Units(p, z) then Cong(u * w, 1, p) else u == 0
  }

  lemma InvInverts(p: nat, z: seq<nat>, last: nat)
    requires IsPrime(p) && p > 2 && Cong(last, Prefix(z, |z|), p) && last < p
    ensures Inverts(p, z, Inv(p, last), Prefix(z, |z|))
  {
    PrefixUnit(p, z, |z|);
    if Units(p, z) {
      InvC(p, last);
      CongMul(last, Prefix(z, |z|), Inv(p, last), Inv(p, last), p);
      assert Prefix(z, |z|) * Inv(p, last) == Inv(p, last) * Prefix(z, |z|);
    } else {
      DivModUnique(last, 0, last, p);
      assert last == 0 && Pow(0, p - 2) == 0 * Pow(0, p - 3);
      DivModUnique(0, 0, 0, p);
    }
  }

  // One step back: u * P[k-1] inverts z[k], and u * z[k] inverts one prefix less.
  lemma StepBack(p: nat, z: seq<nat>, u: nat, k: nat, before: nat)
    requires p > 0 && 0 < k <= |z| && Inverts(p, z, u, Prefix(z, k)) && Cong(before, Prefix(z, k - 1), p)
    ensures Inverts(p, z, Mul(p, u, before), z[k - 1]) && Inverts(p, z, Mul(p, u, z[k - 1]), Prefix(z, k - 1))
  {
    var w, x := Prefix(z, k - 1), z[k - 1];
    if Units(p, z) {
      MulC(p, u, u, before, w);
      MulC(p, u, u, x, x);
      CongMul(Mul(p, u, before), u * w, x, x, p);
      CongMul(Mul(p, u, x), u * x, w, w, p);
      assert (u * w) * x == u * (w * x) && (u * x) * w == u * (w * x);
    } else {
      DivModUnique(0, 0, 0, p);
      assert 0 * before == 0 && 0 * x == 0;
    }
  }

  // inv[i] holds the product of the first i + 1.
  ghost predicate HoldsPrefix(p: nat, z: seq<nat>, inv: array<nat>, i: int)
    requires p > 0
    reads inv
  {
    0 <= i < inv.Length && i < |z| && inv[i] < p && Cong(inv[i], Prefix(z, i + 1), p)
  }

  // inv[i] inverts z[i], or is 0 when some residue vanishes.
  ghost predicate HoldsInverse(p: nat, z: seq<nat>, inv: array<nat>, i: int)
    requires p > 0
    reads inv
  {
    0 <= i < inv.Length && i < |z| && inv[i] < p && Inverts(p, z, inv[i], z[i])
  }

  method PrefixPass(p: nat, zs: array<nat>, count: nat) returns (inv: array<nat>)
    requires p > 0 && 1 <= count <= zs.Length
    requires forall k :: 0 <= k < count ==> zs[k] < p
    ensures fresh(inv) && inv.Length == zs.Length
    ensures forall i :: 0 <= i < count ==> HoldsPrefix(p, zs[..count], inv, i)
  {
    inv := new nat[zs.Length];
    ghost var z := zs[..count];
    inv[0] := zs[0];
    assert Prefix(z, 1) == Prefix(z, 0) * z[0];
    for k := 1 to count
      invariant z == zs[..count]
      invariant forall i :: 0 <= i < k ==> HoldsPrefix(p, z, inv, i)
    {
      assert HoldsPrefix(p, z, inv, k - 1);
      MulC(p, inv[k - 1], Prefix(z, k), zs[k], zs[k]);
      label Before:
      inv[k] := Mul(p, inv[k - 1], zs[k]);
      forall i | 0 <= i < k ensures HoldsPrefix(p, z, inv, i) {
        assert old@Before(HoldsPrefix(p, z, inv, i));
      }
    }
  }

  // The walk back over the same array: slot k - 1 is read as a prefix product just
  // before it is overwritten with an inverse.
  method BackwardPass(p: nat, zs: array<nat>, inv: array<nat>, count: nat)
    requires IsPrime(p) && p > 2 && 1 <= count <= zs.Length == inv.Length && zs != inv
    requires forall i :: 0 <= i < count ==> HoldsPrefix(p, zs[..count], inv, i)
    modifies inv
    ensures forall i :: 0 <= i < count ==> HoldsInverse(p, zs[..count], inv, i)
  {
    ghost var z := zs[..count];
    assert HoldsPrefix(p, z, inv, count - 1);
    InvInverts(p, z, inv[count - 1]);
    var u: nat := Inv(p, inv[count - 1]);
    var k := count;
    while k > 1
      invariant 1 <= k <= count && z == zs[..count] && u < p && Inverts(p, z, u, Prefix(z, k))
      invariant forall i :: 0 <= i < k - 1 ==> HoldsPrefix(p, z, inv, i)
      invariant forall i :: k <= i < count ==> HoldsInverse(p, z, inv, i)
    {
      var kk := k - 1;
      assert HoldsPrefix(p, z, inv, kk - 1);
      StepBack(p, z, u, k, inv[kk - 1]);
      var tmp := Mul(p, u, inv[kk - 1]);
      u := Mul(p, u, zs[kk]);
      label Before:
      inv[kk] := tmp;
      forall i | 0 <= i < kk - 1 ensures HoldsPrefix(p, z, inv, i) {
        assert old@Before(HoldsPrefix(p, z, inv, i));
      }
      forall i | kk < i < count ensures HoldsInverse(p, z, inv, i) {
        assert old@Before(HoldsInverse(p, z, inv, i));
      }
      k := kk;
    }
    label Last:
    inv[0] := u;
    assert Prefix(z, 1) == Prefix(z, 0) * z[0];
    forall i | 0 < i < count ensures HoldsInverse(p, z, inv, i) {
      assert old@Last(HoldsInverse(p, z, inv, i));
    }
  }

  // Each slot inverts its Z when no Z vanishes; a single Z = 0 (a point at
  // infinity) leaves 0 in every slot.
  method BatchInvert(p: nat, zs: array<nat>, count: nat) returns (inv: array<nat>)
    requires IsPrime(p) && p > 2 && 1 <= count <= zs.Length
    requires forall k :: 0 <= k < count ==> zs[k] < p
    ensures fresh(inv) && inv.Length == zs.Length
    ensures forall i :: 0 <= i < count ==> HoldsInverse(p, zs[..count], inv, i)
  {
    inv := PrefixPass(p, zs, count);
    BackwardPass(p, zs, inv, count);
  }

  // INV[i] * Z[i] = 1 for every slot exactly when every Z is nonzero mod p.
  lemma TrickWorksIff(p: nat, z: seq<nat>, us: seq<nat>)
    requires IsPrime(p) && |us| == |z| && z != []
    requires forall i :: 0 <= i < |z| ==> Inverts(p, z, us[i], z[i])
    ensures (forall i :: 0 <= i < |z| ==> Cong(us[i] * z[i], 1, p)) <==> Units(p, z)
  {
    if !Units(p, z) {
      assert us[0] == 0 && 0 * z[0] == 0;
      DivModUnique(0, 0, 0, p);
      DivModUnique(1, 0, 1, p);
      assert !Cong(us[0] * z[0], 1, p);
    }
  }
}
