/**
 The search kernel (demo/krackpot/src/shaders/search.js): where a thread starts,
 which points it walks, and which hits it records.

 The hash of a public key is a parameter, any function of the affine point.
 */
module Search {
  import opened Modular
  import opened Numbers
  import opened Field
  import opened Curve
  import opened Scalars
  import opened BatchInverse

  const OFFSET_TABLE_BITS: nat := 22
  const MAX_BATCH: nat := 48
  const MAX_HITS: nat := 16

  // ---- The offset table ----

  // table[b] = 2^b * stride * G
  ghost predicate TableFor(mul: int -> Affine, stride: nat, table: seq<Affine>) {
    |table| == OFFSET_TABLE_BITS &&
    forall b {:trigger table[b]} :: 0 <= b < |table| ==> table[b].Point? && table[b] == mul(Pow2(b) * stride)
  }

  // The low b bits of t.
  ghost function LowBits(t: nat, b: nat): nat {
    Pow2Pos(b);
    t % Pow2(b)
  }

  lemma NextLowBit(t: nat, b: nat)
    ensures Pow2(b) > 0
    ensures LowBits(t, b + 1) == LowBits(t, b) + (t / Pow2(b) % 2) * Pow2(b)
  {
    Pow2Pos(b);
    NextRemainder(t, Pow2(b));
  }

  lemma NextRemainder(t: nat, w: nat)
    requires w > 0
    ensures t % (2 * w) == t % w + (t / w % 2) * w
  {
    var q, r := t / w, t % w;
    var i, j := q / 2, q % 2;
    assert t == q * w + r;
    TwiceAround(i, j, w);
    MulMono(j, 1, w);
    DivModUnique(t, i, j * w + r, 2 * w);
  }

  lemma TwiceAround(i: int, j: int, w: int)
    ensures (2 * i + j) * w == i * (2 * w) + j * w
  {}

  // The walk over the table: each set bit of t adds its multiple.
  method TableWalk(p: nat, ghost n: nat, ghost g: Affine, ghost mul: int -> Affine, table: seq<Affine>,
      ghost stride: nat, t: nat)
    returns (r: Jacobian)
    requires Setting(p, n, g, mul) && TableFor(mul, stride, table)
    ensures At(p, mul, r, LowBits(t, OFFSET_TABLE_BITS) * stride)
  {
    r := INFINITY;
    var w: nat := 1;
    SettingSteps(p, n, g, mul);
    for b := 0 to OFFSET_TABLE_BITS
      invariant w == Pow2(b) && At(p, mul, r, LowBits(t, b) * stride)
    {
      NextLowBit(t, b);
      var bit := t / w % 2;
      LowBitStep(LowBits(t, b), bit, w, stride);
      r := AddIfSet(p, n, g, mul, r, bit, table[b], LowBits(t, b) * stride, w * stride);
      w := 2 * w;
    }
  }

  lemma LowBitStep(low: nat, bit: nat, w: nat, stride: nat)
    ensures (low + bit * w) * stride == low * stride + bit * (w * stride)
  {}

  method AddIfSet(p: nat, ghost n: nat, ghost g: Affine, ghost mul: int -> Affine, j: Jacobian, bit: nat, q: Affine,
      ghost k: int, ghost i: int)
    returns (r: Jacobian)
    requires Setting(p, n, g, mul) && At(p, mul, j, k) && q.Point? && q == mul(i) && bit <= 1
    ensures At(p, mul, r, k + bit * i)
  {
    r := j;
    if bit == 1 {
      AddAt(p, n, g, mul, j, k, i);
      r := PointAddMixed(p, j, q.x, q.y);
    }
  }

  // Where thread t starts: only 22 bits of its index are read.
  function Start(chunk: int, stride: nat, t: nat): int {
    chunk + t % 0x40_0000 * stride
  }

  lemma TableBits(t: nat)
    ensures LowBits(t, OFFSET_TABLE_BITS) == t % 0x40_0000
  {
    assert Pow2(1) == 2 && Pow2(2) == 4;
    Pow2Add(2, 2);
    Pow2Add(4, 1);
    Pow2Add(5, 6);
    Pow2Add(4, 2);
    Pow2Add(11, 11);
  }

  // A thread starts where the CPU will look for it exactly when its index fits in
  // the table's 22 bits; past that it silently scans keys of another thread.
  lemma PlacedIff(chunk: int, stride: nat, t: nat)
    requires stride > 0
    ensures Start(chunk, stride, t) == chunk + t * stride <==> t < 0x40_0000
  {
    if t >= 0x40_0000 {
      assert t % 0x40_0000 < t;
      assert (t - t % 0x40_0000) * stride > 0;
    }
  }

  // ---- Hits ----

  datatype FoundKey = FoundKey(threadId: nat, keyOffset: nat)

  // The result buffer: a counter that every hit bumps and room for the first 16.
  class SearchOutput {
    var foundCount: nat
    const results: array<FoundKey>
    ghost var log: seq<FoundKey>

    ghost predicate Valid()
      reads this, results
    {
      && results.Length == MAX_HITS && foundCount == |log|
      && forall i {:trigger results[i]} :: 0 <= i < MAX_HITS && i < |log| ==> results[i] == log[i]
    }

    constructor ()
      ensures Valid() && log == [] && foundCount == 0 && fresh(results) && results.Length == 16
    {
      foundCount := 0;
      results := new FoundKey[MAX_HITS](_ => FoundKey(0, 0));
      log := [];
    }

    // atomicAdd on the counter, then a write if there is room
    method Record(t: nat, k: nat)
      requires Valid()
      modifies this, results
      ensures Valid() && log == old(log) + [FoundKey(t, k)]
    {
      var idx := foundCount;
      foundCount := foundCount + 1;
      if idx < MAX_HITS {
        results[idx] := FoundKey(t, k);
      }
      log := log + [FoundKey(t, k)];
    }
  }

  // The hits among the first k offsets of thread t.
  ghost function Hits(t: nat, hit: nat -> bool, k: nat): seq<FoundKey> {
    if k == 0 then [] else Hits(t, hit, k - 1) + (if hit(k - 1) then [FoundKey(t, k - 1)] else [])
  }

  lemma {:induction false} HitsAre(t: nat, hit: nat -> bool, k: nat, f: FoundKey)
    ensures f in Hits(t, hit, k) <==> f.threadId == t && f.keyOffset < k && hit(f.keyOffset)
  {
    if k > 0 {
      HitsAre(t, hit, k - 1, f);
    }
  }

  // ---- One thread ----

  ghost predicate AtInfinity(n: nat, s: int, k: nat)
    requires n > 0
  {
    (s + k) % n == 0
  }

  // None of the keys s, ..., s + count - 1 is a multiple of the group order.
  ghost predicate Finite(n: nat, s: int, count: nat)
    requires n > 0
  {
    forall k: nat {:trigger AtInfinity(n, s, k)} :: k < count ==> !AtInfinity(n, s, k)
  }

  // The affine coordinates the kernel hashes for key s + k: those of the point, or
  // (0, 0) for the whole thread when one of its keys is the point at infinity.
  ghost function Hashed(n: nat, mul: int -> Affine, s: int, count: nat, k: nat): (nat, nat)
    requires n > 0
  {
    var a := mul(s + k);
    if Finite(n, s, count) && a.Point? then (a.x, a.y) else (0, 0)
  }

  method WalkPoints(p: nat, g: Affine, start: Jacobian, count: nat, ghost at: (Jacobian, int) -> bool, ghost s: int)
    returns (xs: array<nat>, ys: array<nat>, zs: array<nat>)
    requires Steps(p, g, at) && at(start, s) && 1 <= count <= MAX_BATCH
    ensures fresh(xs) && fresh(ys) && fresh(zs) && xs.Length == ys.Length == zs.Length == MAX_BATCH
    ensures forall k :: 0 <= k < count ==> at(Jacobian(xs[k], ys[k], zs[k]), s + k)
  {
    xs, ys, zs := new nat[MAX_BATCH], new nat[MAX_BATCH], new nat[MAX_BATCH];
    var r := start;
    xs[0], ys[0], zs[0] := r.x, r.y, r.z;
    for k := 1 to count
      invariant at(r, s + k - 1)
      invariant forall i :: 0 <= i < k ==> at(Jacobian(xs[i], ys[i], zs[i]), s + i)
    {
      r := NextPoint(p, g, r, at, s + k - 1);
      xs[k], ys[k], zs[k] := r.x, r.y, r.z;
    }
  }

  method NextPoint(p: nat, g: Affine, j: Jacobian, ghost at: (Jacobian, int) -> bool, ghost k: int)
    returns (r: Jacobian)
    requires Steps(p, g, at) && at(j, k)
    ensures at(r, k + 1)
  {
    assert StepAt(p, g, at, j, k);
    r := PointAddMixed(p, j, g.x, g.y);
  }

  // hash_with_zinv, up to the hash
  function AffineCoords(p: nat, x: nat, y: nat, zInv: nat): (nat, nat)
    requires p > 0
  {
    var zInvSq := Sqr(p, zInv);
    (Mul(p, x, zInvSq), Mul(p, y, Mul(p, zInvSq, zInv)))
  }

  // A coordinate vanishes exactly at the multiples of the order.
  lemma ZeroAtInfinity(p: nat, n: nat, g: Affine, mul: int -> Affine, j: Jacobian, k: int)
    requires Setting(p, n, g, mul) && At(p, mul, j, k)
    ensures j.z % p != 0 <==> k % n != 0
    ensures k % n != 0 ==> mul(k) == JacobianToAffine(p, j) && mul(k).Point?
  {
    assert Multiple(p, n, mul, k);
    DivModUnique(j.z, 0, j.z, p);
  }

  lemma InverseUnique(p: nat, z: nat, u: nat)
    requires IsPrime(p) && z % p != 0 && u < p && Cong(u * z, 1, p)
    ensures u == Inv(p, z)
  {
    InvC(p, z);
    assert u * z == z * u;
    PrimeCancel(z, u, Inv(p, z), p);
    CongSmall(u, Inv(p, z), p);
  }

  lemma CoordsOf(p: nat, n: nat, g: Affine, mul: int -> Affine, j: Jacobian, k: int, zInv: nat)
    requires Setting(p, n, g, mul) && At(p, mul, j, k) && k % n != 0
    requires zInv < p && Cong(zInv * j.z, 1, p)
    ensures mul(k).Point? && AffineCoords(p, j.x, j.y, zInv) == (mul(k).x, mul(k).y)
  {
    ZeroAtInfinity(p, n, g, mul, j, k);
    InverseUnique(p, j.z, zInv);
  }

  lemma CoordsOfZero(p: nat, x: nat, y: nat)
    requires p > 0
    ensures AffineCoords(p, x, y, 0) == (0, 0)
  {
    DivModUnique(0, 0, 0, p);
    assert Sqr(p, 0) == 0 && Mul(p, x, 0) == 0 && Mul(p, y, 0) == 0;
  }

  ghost function HitTest(n: nat, mul: int -> Affine, s: int, count: nat, hash: ((nat, nat)) -> nat,
      target: nat): nat -> bool
    requires n > 0
  {
    (k: nat) => hash(Hashed(n, mul, s, count, k)) == target
  }

  // What one thread hashes: walk to its start, walk its points, invert all Z at once.
  method ThreadCoords(p: nat, ghost n: nat, g: Affine, ghost mul: int -> Affine, table: seq<Affine>, keysPerThread: nat,
      base: Affine, ghost chunk: int, t: nat) returns (coords: seq<(nat, nat)>)
    requires Setting(p, n, g, mul) && TableFor(mul, keysPerThread, table)
    requires base.Point? && base == mul(chunk)
    ensures |coords| == Min(keysPerThread, MAX_BATCH)
    ensures forall k :: 0 <= k < |coords| ==>
      coords[k] == Hashed(n, mul, Start(chunk, keysPerThread, t), |coords|, k)
  {
    var count := Min(keysPerThread, MAX_BATCH);
    if count == 0 {
      return [];
    }
    var r := TableWalk(p, n, g, mul, table, keysPerThread, t);
    TableBits(t);
    ghost var s := Start(chunk, keysPerThread, t);
    r := AddIfSet(p, n, g, mul, r, 1, base, t % 0x40_0000 * keysPerThread, chunk);
    SettingSteps(p, n, g, mul);
    var xs, ys, zs := WalkPoints(p, g, r, count, Track(p, mul), s);
    var inv := InvertAll(p, n, g, mul, xs, ys, zs, count, s);
    coords := CoordsList(p, n, mul, xs, ys, inv, count, s);
  }

  // hash_with_zinv of each slot, up to the hash
  method CoordsList(p: nat, ghost n: nat, ghost mul: int -> Affine, xs: array<nat>, ys: array<nat>, inv: array<nat>,
      count: nat, ghost s: int) returns (coords: seq<(nat, nat)>)
    requires p > 0 && n > 0 && count <= xs.Length == ys.Length == inv.Length
    requires forall k :: 0 <= k < count ==> CoordsRight(p, n, mul, xs, ys, inv, s, count, k)
    ensures |coords| == count && forall k :: 0 <= k < count ==> coords[k] == Hashed(n, mul, s, count, k)
  {
    coords := [];
    for k := 0 to count
      invariant |coords| == k && forall i :: 0 <= i < k ==> coords[i] == Hashed(n, mul, s, count, i)
    {
      assert CoordsRight(p, n, mul, xs, ys, inv, s, count, k);
      coords := coords + [AffineCoords(p, xs[k], ys[k], inv[k])];
    }
  }

  // One thread on its own.
  method SearchThread(p: nat, ghost n: nat, g: Affine, ghost mul: int -> Affine, table: seq<Affine>, keysPerThread: nat,
      base: Affine, ghost chunk: int, t: nat, hash: ((nat, nat)) -> nat, target: nat, out: SearchOutput)
    requires Setting(p, n, g, mul) && TableFor(mul, keysPerThread, table)
    requires base.Point? && base == mul(chunk) && out.Valid()
    modifies out, out.results
    ensures out.Valid()
    ensures
      var count := Min(keysPerThread, MAX_BATCH);
      out.log == old(out.log) + Hits(t, HitTest(n, mul, Start(chunk, keysPerThread, t), count, hash, target), count)
  {
    var coords := ThreadCoords(p, n, g, mul, table, keysPerThread, base, chunk, t);
    RecordHits(n, mul, coords, Start(chunk, keysPerThread, t), t, hash, target, out);
  }

  // The kernel's coordinates for slot k are the ones it should hash.
  ghost predicate CoordsRight(p: nat, n: nat, mul: int -> Affine, xs: array<nat>, ys: array<nat>, inv: array<nat>,
      s: int, count: nat, k: int)
    requires p > 0 && n > 0
    reads xs, ys, inv
  {
    0 <= k < xs.Length == ys.Length == inv.Length
    && AffineCoords(p, xs[k], ys[k], inv[k]) == Hashed(n, mul, s, count, k)
  }

  method InvertAll(p: nat, ghost n: nat, ghost g: Affine, ghost mul: int -> Affine,
      xs: array<nat>, ys: array<nat>, zs: array<nat>, count: nat, ghost s: int) returns (inv: array<nat>)
    requires Setting(p, n, g, mul) && 1 <= count <= MAX_BATCH && xs.Length == ys.Length == zs.Length == MAX_BATCH
    requires forall k :: 0 <= k < count ==> Track(p, mul)(Jacobian(xs[k], ys[k], zs[k]), s + k)
    ensures fresh(inv) && inv.Length == MAX_BATCH
    ensures forall k :: 0 <= k < count ==> CoordsRight(p, n, mul, xs, ys, inv, s, count, k)
  {
    forall k | 0 <= k < count ensures zs[k] < p {
      assert Track(p, mul)(Jacobian(xs[k], ys[k], zs[k]), s + k);
    }
    inv := BatchInvert(p, zs, count);
    UnitsIffFinite(p, n, g, mul, xs[..count], ys[..count], zs[..count], s);
    forall k | 0 <= k < count ensures CoordsRight(p, n, mul, xs, ys, inv, s, count, k) {
      assert HoldsInverse(p, zs[..count], inv, k) && Track(p, mul)(Jacobian(xs[k], ys[k], zs[k]), s + k);
      SlotCoords(p, n, g, mul, Jacobian(xs[k], ys[k], zs[k]), zs[..count], s, count, k, inv[k]);
    }
  }

  // The k-th stored point is s + k.
  lemma UnitsIffFinite(p: nat, n: nat, g: Affine, mul: int -> Affine, xs: seq<nat>, ys: seq<nat>, zs: seq<nat>, s: int)
    requires Setting(p, n, g, mul) && |xs| == |ys| == |zs|
    requires forall k :: 0 <= k < |zs| ==> Track(p, mul)(Jacobian(xs[k], ys[k], zs[k]), s + k)
    ensures Units(p, zs) <==> Finite(n, s, |zs|)
  {
    forall k: nat | k < |zs| ensures zs[k] % p != 0 <==> !AtInfinity(n, s, k) {
      assert Track(p, mul)(Jacobian(xs[k], ys[k], zs[k]), s + k);
      ZeroAtInfinity(p, n, g, mul, Jacobian(xs[k], ys[k], zs[k]), s + k);
    }
  }

  lemma SlotCoords(p: nat, n: nat, g: Affine, mul: int -> Affine, j: Jacobian, z: seq<nat>, s: int, count: nat,
      k: nat, u: nat)
    requires Setting(p, n, g, mul) && k < count == |z| && z[k] == j.z && At(p, mul, j, s + k)
    requires u < p && Inverts(p, z, u, z[k]) && (Units(p, z) <==> Finite(n, s, count))
    ensures AffineCoords(p, j.x, j.y, u) == Hashed(n, mul, s, count, k)
  {
    if Units(p, z) {
      assert !AtInfinity(n, s, k);
      CoordsOf(p, n, g, mul, j, s + k, u);
    } else {
      CoordsOfZero(p, j.x, j.y);
    }
  }

  method RecordHits(ghost n: nat, ghost mul: int -> Affine, coords: seq<(nat, nat)>, ghost s: int, t: nat,
      hash: ((nat, nat)) -> nat, target: nat, out: SearchOutput)
    requires n > 0 && out.Valid()
    requires forall k :: 0 <= k < |coords| ==> coords[k] == Hashed(n, mul, s, |coords|, k)
    modifies out, out.results
    ensures out.Valid()
    ensures out.log == old(out.log) + Hits(t, HitTest(n, mul, s, |coords|, hash, target), |coords|)
  {
    ghost var hit, before := HitTest(n, mul, s, |coords|, hash, target), out.log;
    for k := 0 to |coords|
      invariant out.Valid() && out.log == before + Hits(t, hit, k)
    {
      var pkh := hash(coords[k]);
      if pkh == target {
        out.Record(t, k);
      }
    }
  }
}
