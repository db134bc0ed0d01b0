/**
 The search kernel on limbs, up to the hash, for the modulus and generator of the
 repository (demo/krackpot/src/shaders/search.js:84-149).
 */
module SearchLimbs {
  import opened Modular
  import opened Numbers
  import opened Options
  import opened Limbs
  import opened BigInt
  import opened Field
  import opened Curve
  import opened CurveLimbs
  import opened Scalars
  import opened ScalarLimbs
  import opened BatchInverse
  import opened BatchInverseLimbs
  import opened Search

  datatype ThreadOffset = ThreadOffset(x: U256, y: U256)

  ghost function AbsOffset(q: ThreadOffset): Affine {
    Point(Value(q.x), Value(q.y))
  }

  ghost function AbsTable(table: seq<ThreadOffset>): (points: seq<Affine>)
    ensures |points| == |table| && forall b :: 0 <= b < |table| ==> points[b] == AbsOffset(table[b])
  {
    seq(|table|, b requires 0 <= b < |table| => AbsOffset(table[b]))
  }

  // The limbs stand for the multiple k.
  ghost predicate LimbsAt(mul: int -> Affine, j: LimbPoint, k: int) {
    SmallPoint(j) && At(P, mul, Abs(j), k)
  }

  lemma AddLimbsAt(n: nat, mul: int -> Affine, j: LimbPoint, k: int, q: ThreadOffset, i: int)
    requires Setting(P, n, Generator(), mul) && LimbsAt(mul, j, k) && AbsOffset(q) == mul(i)
    ensures Small(q.x) && Small(q.y)
    ensures At(P, mul, PointAddMixed(P, Abs(j), Value(q.x), Value(q.y)), k + i)
  {
    assert Multiple(P, n, mul, i);
    AddAt(P, n, Generator(), mul, Abs(j), k, i);
  }

  method AddIfSetLimbs(ghost n: nat, ghost mul: int -> Affine, j: LimbPoint, bit: nat, q: ThreadOffset, ghost k: int,
      ghost i: int) returns (r: LimbPoint)
    requires Setting(P, n, Generator(), mul) && LimbsAt(mul, j, k) && AbsOffset(q) == mul(i) && bit <= 1
    ensures LimbsAt(mul, r, k + bit * i)
  {
    r := j;
    if bit == 1 {
      AddLimbsAt(n, mul, j, k, q, i);
      r := PointAddMixedLimbs(j, q.x, q.y);
    }
  }

  lemma InfinityAt(n: nat, mul: int -> Affine)
    requires Setting(P, n, Generator(), mul)
    ensures LimbsAt(mul, INFINITY_LIMBS, 0)
  {
    InfinityOnLimbs();
    SettingSteps(P, n, Generator(), mul);
  }

  // The walk over the table of limbs.
  method TableWalkLimbs(ghost n: nat, ghost mul: int -> Affine, table: seq<ThreadOffset>, ghost stride: nat, t: nat)
    returns (r: LimbPoint)
    requires Setting(P, n, Generator(), mul) && TableFor(mul, stride, AbsTable(table))
    ensures LimbsAt(mul, r, LowBits(t, OFFSET_TABLE_BITS) * stride)
  {
    InfinityAt(n, mul);
    r := INFINITY_LIMBS;
    var w: nat := 1;
    for b := 0 to OFFSET_TABLE_BITS
      invariant w == Pow2(b) && LimbsAt(mul, r, LowBits(t, b) * stride)
    {
      NextLowBit(t, b);
      LowBitStep(LowBits(t, b), t / w % 2, w, stride);
      assert AbsTable(table)[b] == mul(Pow2(b) * stride);
      r := AddIfSetLimbs(n, mul, r, t / w % 2, table[b], LowBits(t, b) * stride, w * stride);
      w := 2 * w;
    }
  }

  method NextLimbs(ghost n: nat, ghost mul: int -> Affine, j: LimbPoint, ghost k: int) returns (r: LimbPoint)
    requires Setting(P, n, Generator(), mul) && LimbsAt(mul, j, k)
    ensures LimbsAt(mul, r, k + 1)
  {
    GeneratorSteps(n, mul);
    r := AddStepG(GX_LIMBS, GY_LIMBS, j, Track(P, mul), k);
  }

  method WalkPointsLimbs(ghost n: nat, ghost mul: int -> Affine, start: LimbPoint, count: nat, ghost s: int)
    returns (xs: array<U256>, ys: array<U256>, zs: array<U256>)
    requires Setting(P, n, Generator(), mul) && LimbsAt(mul, start, s) && 1 <= count <= MAX_BATCH
    ensures fresh(xs) && fresh(ys) && fresh(zs) && xs.Length == ys.Length == zs.Length == MAX_BATCH
    ensures forall k :: 0 <= k < count ==> LimbsAt(mul, LimbPoint(xs[k], ys[k], zs[k]), s + k)
  {
    xs, ys, zs := new U256[MAX_BATCH], new U256[MAX_BATCH], new U256[MAX_BATCH];
    var r := start;
    xs[0], ys[0], zs[0] := r.x, r.y, r.z;
    for k := 1 to count
      invariant LimbsAt(mul, r, s + k - 1)
      invariant forall i :: 0 <= i < k ==> LimbsAt(mul, LimbPoint(xs[i], ys[i], zs[i]), s + i)
    {
      r := NextLimbs(n, mul, r, s + k - 1);
      xs[k], ys[k], zs[k] := r.x, r.y, r.z;
    }
  }

  // hash_with_zinv, up to the hash
  method AffineLimbs(x: U256, y: U256, zInv: U256) returns (ax: U256, ay: U256)
    ensures (Value(ax), Value(ay)) == AffineCoords(P, Value(x), Value(y), Value(zInv))
  {
    var zInvSq := FpSqr(zInv);
    var zInvCu := FpMul(zInvSq, zInv);
    ax := FpMul(x, zInvSq);
    ay := FpMul(y, zInvCu);
  }

  ghost function Values(a: seq<U256>): (z: seq<nat>)
    ensures |z| == |a| && forall k :: 0 <= k < |a| ==> z[k] == Value(a[k])
  {
    seq(|a|, k requires 0 <= k < |a| => Value(a[k]))
  }

  // Affine limbs of slot k that spell what the kernel should hash.
  ghost predicate SpellsHashed(n: nat, mul: int -> Affine, s: int, count: nat, k: nat, ax: U256, ay: U256) {
    n > 0 && (Value(ax), Value(ay)) == Hashed(n, mul, s, count, k)
  }

  lemma SlotLimbs(n: nat, mul: int -> Affine, j: LimbPoint, z: seq<nat>, s: int, count: nat, k: nat, u: U256)
    requires Setting(P, n, Generator(), mul) && k < count == |z| && LimbsAt(mul, j, s + k) && z[k] == Value(j.z)
    requires SpellsInverse(z, u, k) && (Units(P, z) <==> Finite(n, s, count))
    ensures AffineCoords(P, Value(j.x), Value(j.y), Value(u)) == Hashed(n, mul, s, count, k)
  {
    SlotCoords(P, n, Generator(), mul, Abs(j), z, s, count, k, Value(u));
  }

  lemma UnitsOnLimbs(n: nat, mul: int -> Affine, xs: seq<U256>, ys: seq<U256>, zs: seq<U256>, s: int)
    requires Setting(P, n, Generator(), mul) && |xs| == |ys| == |zs|
    requires forall k :: 0 <= k < |zs| ==> LimbsAt(mul, LimbPoint(xs[k], ys[k], zs[k]), s + k)
    ensures Units(P, Values(zs)) <==> Finite(n, s, |zs|)
  {
    forall k | 0 <= k < |zs| ensures Track(P, mul)(Jacobian(Values(xs)[k], Values(ys)[k], Values(zs)[k]), s + k) {
      assert LimbsAt(mul, LimbPoint(xs[k], ys[k], zs[k]), s + k);
    }
    UnitsIffFinite(P, n, Generator(), mul, Values(xs), Values(ys), Values(zs), s);
  }

  // With the right inverse, slot k reads back as what the kernel should hash.
  ghost predicate SlotReady(n: nat, mul: int -> Affine, s: int, count: nat, k: nat, x: U256, y: U256, u: U256) {
    n > 0 && AffineCoords(P, Value(x), Value(y), Value(u)) == Hashed(n, mul, s, count, k)
  }

  // All Z inverted at once.
  method InvertLimbs(ghost n: nat, ghost mul: int -> Affine, xs: array<U256>, ys: array<U256>, zs: array<U256>,
      count: nat, ghost s: int) returns (inv: array<U256>)
    requires Setting(P, n, Generator(), mul) && 1 <= count <= xs.Length == ys.Length == zs.Length
    requires forall k :: 0 <= k < count ==> LimbsAt(mul, LimbPoint(xs[k], ys[k], zs[k]), s + k)
    ensures fresh(inv) && inv.Length == zs.Length
    ensures forall k :: 0 <= k < count ==> SlotReady(n, mul, s, count, k, xs[k], ys[k], inv[k])
  {
    ghost var z := Values(zs[..count]);
    UnitsOnLimbs(n, mul, xs[..count], ys[..count], zs[..count], s);
    forall k | 0 <= k < count ensures Spells(z, zs[k], k) {
      assert LimbsAt(mul, LimbPoint(xs[k], ys[k], zs[k]), s + k);
    }
    inv := BatchInvertLimbs(zs, count, z);
    forall k | 0 <= k < count ensures SlotReady(n, mul, s, count, k, xs[k], ys[k], inv[k]) {
      assert LimbsAt(mul, LimbPoint(xs[k], ys[k], zs[k]), s + k) && SpellsInverse(z, inv[k], k);
      SlotLimbs(n, mul, LimbPoint(xs[k], ys[k], zs[k]), z, s, count, k, inv[k]);
    }
  }

  // Each slot read back.
  method AffineAll(ghost n: nat, ghost mul: int -> Affine, xs: array<U256>, ys: array<U256>, inv: array<U256>,
      count: nat, ghost s: int) returns (coords: seq<(U256, U256)>)
    requires count <= xs.Length == ys.Length == inv.Length
    requires forall k :: 0 <= k < count ==> SlotReady(n, mul, s, count, k, xs[k], ys[k], inv[k])
    ensures |coords| == count
    ensures forall k :: 0 <= k < count ==> SpellsHashed(n, mul, s, count, k, coords[k].0, coords[k].1)
  {
    coords := [];
    for k := 0 to count
      invariant |coords| == k
      invariant forall i :: 0 <= i < k ==> SpellsHashed(n, mul, s, count, i, coords[i].0, coords[i].1)
    {
      assert SlotReady(n, mul, s, count, k, xs[k], ys[k], inv[k]);
      var ax, ay := AffineLimbs(xs[k], ys[k], inv[k]);
      coords := coords + [(ax, ay)];
    }
  }

  // What one thread hashes, on limbs from the uploaded table to the coordinates.
  method ThreadCoordsLimbs(ghost n: nat, ghost mul: int -> Affine, table: seq<ThreadOffset>, keysPerThread: nat,
      base: ThreadOffset, ghost chunk: int, t: nat) returns (coords: seq<(U256, U256)>)
    requires Setting(P, n, Generator(), mul) && TableFor(mul, keysPerThread, AbsTable(table))
    requires AbsOffset(base) == mul(chunk)
    ensures |coords| == Min(keysPerThread, MAX_BATCH)
    ensures forall k :: 0 <= k < |coords| ==>
      SpellsHashed(n, mul, Start(chunk, keysPerThread, t), |coords|, k, coords[k].0, coords[k].1)
  {
    var count := Min(keysPerThread, MAX_BATCH);
    if count == 0 {
      return [];
    }
    var r := TableWalkLimbs(n, mul, table, keysPerThread, t);
    TableBits(t);
    ghost var s := Start(chunk, keysPerThread, t);
    r := AddIfSetLimbs(n, mul, r, 1, base, t % 0x40_0000 * keysPerThread, chunk);
    var xs, ys, zs := WalkPointsLimbs(n, mul, r, count, s);
    var inv := InvertLimbs(n, mul, xs, ys, zs, count, s);
    coords := AffineAll(n, mul, xs, ys, inv, count, s);
  }
}
