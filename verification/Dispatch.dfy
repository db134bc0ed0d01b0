/**
 One dispatch, end to end: the offset table the CPU uploads, the threads in
 whatever order the GPU runs them, and the scalars the CPU rebuilds from the hits
 (demo/krackpot/src/coordinator.js:237-250 and 437-442, shaders/search.js:98-158).
 */
module Dispatch {
  import opened Modular
  import opened Options
  import opened Field
  import opened Curve
  import opened Scalars
  import opened Search
  import opened Draws
  import opened Sizing

  // The last entry of the largest table stays below the group order.
  const TABLE_SPAN: nat := 48 * 0x20_0000

  // ---- The table ----

  lemma PointUnlessInfinity(p: nat, n: nat, g: Affine, mul: int -> Affine, k: int)
    requires Setting(p, n, g, mul)
    ensures mul(k).Point? <==> k % n != 0
  {
    assert Multiple(p, n, mul, k);
  }

  lemma Pow2Of21()
    ensures Pow2(21) == 0x20_0000
  {
    assert Pow2(1) == 2 && Pow2(2) == 4;
    Pow2Add(2, 2);
    Pow2Add(4, 1);
    Pow2Add(5, 5);
    Pow2Add(10, 1);
    Pow2Add(10, 11);
  }

  lemma {:induction false} Pow2Grows(b: nat, c: nat)
    requires b <= c
    ensures 0 < Pow2(b) <= Pow2(c)
  {
    if b < c {
      Pow2Grows(b, c - 1);
    } else {
      Pow2Pos(b);
    }
  }

  lemma EntryBelow(stride: nat, b: nat)
    requires 1 <= stride <= MAX_BATCH && b < OFFSET_TABLE_BITS
    ensures 0 < Pow2(b) * stride <= TABLE_SPAN
  {
    Pow2Of21();
    Pow2Grows(b, 21);
    MulMono(1, stride, Pow2(b));
    MulMono(stride, 48, Pow2(b));
  }

  lemma EntryIsPoint(p: nat, n: nat, g: Affine, mul: int -> Affine, stride: nat, b: nat)
    requires Setting(p, n, g, mul) && n > TABLE_SPAN && 1 <= stride <= MAX_BATCH && b < OFFSET_TABLE_BITS
    ensures mul(Pow2(b) * stride).Point?
  {
    var k := Pow2(b) * stride;
    EntryBelow(stride, b);
    DivModUnique(k, 0, k, n);
    PointUnlessInfinity(p, n, g, mul, k);
  }

  method OffsetEntry(p: nat, n: nat, g: Affine, ghost mul: int -> Affine, ghost stride: nat, ghost b: nat,
      multiplier: nat) returns (q: Affine)
    requires Setting(p, n, g, mul) && n > TABLE_SPAN && 1 <= stride <= MAX_BATCH && b < OFFSET_TABLE_BITS
    requires multiplier == Pow2(b) * stride
    ensures q.Point? && q == mul(Pow2(b) * stride)
  {
    EntryIsPoint(p, n, g, mul, stride, b);
    var point := ScalarMul(Adder(p), n, multiplier, g);
    ScalarMulCorrect(p, n, g, mul, multiplier);
    q := point.value;
  }

  lemma Doubled(k: nat, stride: nat)
    ensures Pow2(k + 1) * stride == Pow2(k) * stride * 2
  {
    assert Pow2(k + 1) == 2 * Pow2(k);
  }

  method BuildOffsetTable(p: nat, n: nat, g: Affine, ghost mul: int -> Affine, stride: nat) returns (table: seq<Affine>)
    requires Setting(p, n, g, mul) && n > TABLE_SPAN && 1 <= stride <= MAX_BATCH
    ensures TableFor(mul, stride, table)
  {
    table := [];
    var multiplier := stride;
    for k := 0 to OFFSET_TABLE_BITS
      invariant multiplier == Pow2(k) * stride && |table| == k
      invariant forall b {:trigger table[b]} :: 0 <= b < k ==> table[b].Point? && table[b] == mul(Pow2(b) * stride)
    {
      var q := OffsetEntry(p, n, g, mul, stride, k, multiplier);
      table := table + [q];
      Doubled(k, stride);
      multiplier := multiplier * 2;
    }
  }

  // ---- Where a key is scanned, and how it is rebuilt ----

  function Rebuild(chunk: int, stride: nat, f: FoundKey): int {
    chunk + (f.threadId * stride + f.keyOffset)
  }

  function Slot(chunk: int, stride: nat, key: int): FoundKey
    requires stride > 0 && chunk <= key
  {
    FoundKey((key - chunk) / stride, (key - chunk) % stride)
  }

  ghost predicate InDispatch(chunk: int, stride: nat, threads: nat, key: int) {
    chunk <= key < chunk + threads * stride
  }

  predicate IsSlot(stride: nat, threads: nat, f: FoundKey) {
    f.threadId < threads && f.keyOffset < stride
  }

  // Every slot of the dispatch holds one key of its interval, ...
  lemma SlotToKey(chunk: int, stride: nat, threads: nat, f: FoundKey)
    requires IsSlot(stride, threads, f)
    ensures InDispatch(chunk, stride, threads, Rebuild(chunk, stride, f))
    ensures Slot(chunk, stride, Rebuild(chunk, stride, f)) == f
  {
    MulMono(f.threadId + 1, threads, stride);
    DivModUnique(f.threadId * stride + f.keyOffset, f.threadId, f.keyOffset, stride);
  }

  // ... and every key of the interval has exactly one slot.
  lemma KeyToSlot(chunk: int, stride: nat, threads: nat, key: int)
    requires stride > 0 && InDispatch(chunk, stride, threads, key)
    ensures IsSlot(stride, threads, Slot(chunk, stride, key))
    ensures Rebuild(chunk, stride, Slot(chunk, stride, key)) == key
  {
    var t := (key - chunk) / stride;
    if t >= threads {
      MulMono(threads, t, stride);
    }
  }

  // ---- What a dispatch reports ----

  // The hash the CPU derives for a key; it has none at infinity.
  ghost function Pkh(mul: int -> Affine, hash: ((nat, nat)) -> nat, key: int): Option<nat> {
    var a := mul(key);
    if a.Point? then Some(hash((a.x, a.y))) else None
  }

  // One of the keys of the thread that scans this one is a multiple of the order.
  ghost predicate Blocked(n: nat, chunk: int, stride: nat, key: int)
    requires n > 0 && stride > 0 && chunk <= key
  {
    !Finite(n, chunk + Slot(chunk, stride, key).threadId * stride, stride)
  }

  // The hash the kernel compares for a key.
  ghost function Scanned(n: nat, mul: int -> Affine, hash: ((nat, nat)) -> nat, chunk: int, stride: nat,
      key: int): Option<nat>
    requires n > 0 && stride > 0 && chunk <= key
  {
    if Blocked(n, chunk, stride, key) then Some(hash((0, 0))) else Pkh(mul, hash, key)
  }

  ghost predicate IsHit(n: nat, mul: int -> Affine, hash: ((nat, nat)) -> nat, target: nat, chunk: int, stride: nat,
      threads: nat, f: FoundKey)
    requires n > 0
  {
    IsSlot(stride, threads, f)
    && HitTest(n, mul, Start(chunk, stride, f.threadId), stride, hash, target)(f.keyOffset)
  }

  // With no thread index past the table's 22 bits, a slot is a hit exactly when the
  // key the CPU rebuilds from it scans as the target.
  lemma HitIsKey(n: nat, mul: int -> Affine, hash: ((nat, nat)) -> nat, target: nat, chunk: int, stride: nat,
      threads: nat, f: FoundKey)
    requires n > 0 && IsSlot(stride, threads, f) && threads <= 0x40_0000
    requires forall k :: mul(k).Point? <==> k % n != 0
    ensures
      var key := Rebuild(chunk, stride, f);
      chunk <= key
      && (IsHit(n, mul, hash, target, chunk, stride, threads, f)
          <==> Scanned(n, mul, hash, chunk, stride, key) == Some(target))
  {
    PlacedIff(chunk, stride, f.threadId);
    SlotToKey(chunk, stride, threads, f);
    var s, key := chunk + f.threadId * stride, Rebuild(chunk, stride, f);
    assert s == Start(chunk, stride, f.threadId) && s + f.keyOffset == key;
    assert Blocked(n, chunk, stride, key) <==> !Finite(n, s, stride);
    var hit := HitTest(n, mul, s, stride, hash, target);
    assert hit(f.keyOffset) <==> hash(Hashed(n, mul, s, stride, f.keyOffset)) == target;
    if Finite(n, s, stride) {
      assert !AtInfinity(n, s, f.keyOffset);
      assert mul(key).Point?;
    }
  }

  // A key is blocked by any multiple of the order in its thread, itself included.
  lemma BlockedBy(n: nat, chunk: int, stride: nat, threads: nat, key: int, k: nat)
    requires n > 0 && k < stride && InDispatch(chunk, stride, threads, key)
    requires (chunk + Slot(chunk, stride, key).threadId * stride + k) % n == 0
    ensures Blocked(n, chunk, stride, key)
  {
    assert AtInfinity(n, chunk + Slot(chunk, stride, key).threadId * stride, k);
  }

  // No key of a dispatch, a multiple of the order itself included, is blocked exactly
  // when its interval avoids those multiples.
  lemma BlockedOnlyAtInfinity(n: nat, chunk: int, stride: nat, threads: nat)
    requires n > 0 && stride > 0
    ensures (forall key {:trigger Blocked(n, chunk, stride, key)} ::
        InDispatch(chunk, stride, threads, key) ==> !Blocked(n, chunk, stride, key))
      <==> (forall k {:trigger InDispatch(chunk, stride, threads, k)} ::
        InDispatch(chunk, stride, threads, k) ==> k % n != 0)
  {
    forall key | InDispatch(chunk, stride, threads, key) && key % n == 0 ensures Blocked(n, chunk, stride, key) {
      KeyToSlot(chunk, stride, threads, key);
      BlockedBy(n, chunk, stride, threads, key, Slot(chunk, stride, key).keyOffset);
    }
    if forall k {:trigger InDispatch(chunk, stride, threads, k)} ::
      InDispatch(chunk, stride, threads, k) ==> k % n != 0
    {
      forall key {:trigger Blocked(n, chunk, stride, key)} | InDispatch(chunk, stride, threads, key)
        ensures !Blocked(n, chunk, stride, key)
      {
        KeyUnblocked(n, chunk, stride, threads, key);
      }
    }
  }

  lemma KeyUnblocked(n: nat, chunk: int, stride: nat, threads: nat, key: int)
    requires n > 0 && stride > 0 && InDispatch(chunk, stride, threads, key)
    requires forall k {:trigger InDispatch(chunk, stride, threads, k)} ::
      InDispatch(chunk, stride, threads, k) ==> k % n != 0
    ensures !Blocked(n, chunk, stride, key)
  {
    KeyToSlot(chunk, stride, threads, key);
    var t := Slot(chunk, stride, key).threadId;
    var s := chunk + t * stride;
    forall k: nat {:trigger AtInfinity(n, s, k)} | k < stride ensures !AtInfinity(n, s, k) {
      SlotToKey(chunk, stride, threads, FoundKey(t, k));
      assert InDispatch(chunk, stride, threads, s + k);
    }
  }

  // The kernel compares a key's own hash exactly when the key is not blocked, or when
  // the hash is that of (0, 0) anyway.
  lemma ScannedIff(n: nat, mul: int -> Affine, hash: ((nat, nat)) -> nat, chunk: int, stride: nat, key: int)
    requires n > 0 && stride > 0 && chunk <= key
    ensures Scanned(n, mul, hash, chunk, stride, key) == Pkh(mul, hash, key)
      <==> !Blocked(n, chunk, stride, key) || Pkh(mul, hash, key) == Some(hash((0, 0)))
  {}

  // The keys 1 to 5000, the default size, and the first key -1, which the source may
  // draw: the first thread meets key 0, so key 1 is scanned as the hash of (0, 0).
  lemma NegativeChunkBlocks(n: nat, mul: int -> Affine, hash: ((nat, nat)) -> nat)
    requires n > 0
    ensures Drawn(-1, DEFAULT_DISPATCH_KEYS, 1, 5000) && Partition(DEFAULT_DISPATCH_KEYS) == (1, 48)
    ensures InDispatch(-1, 48, 64, 1) && Blocked(n, -1, 48, 1)
    ensures Scanned(n, mul, hash, -1, 48, 1) == Some(hash((0, 0)))
  {
    assert NonZero(-1) == -1;
    BlockedBy(n, -1, 48, 64, 1, 1);
  }

  // ---- The threads ----

  ghost predicate Distinct(log: seq<FoundKey>) {
    forall i, j :: 0 <= i < j < |log| ==> log[i] != log[j]
  }

  // The log holds, once, each hit outside the slots that are left.
  ghost predicate LogOf(n: nat, mul: int -> Affine, hash: ((nat, nat)) -> nat, target: nat, chunk: int, stride: nat,
      threads: nat, left: set<FoundKey>, log: seq<FoundKey>)
    requires n > 0
  {
    Distinct(log) && forall f {:trigger f in log} ::
      f in log <==> IsHit(n, mul, hash, target, chunk, stride, threads, f) && f !in left
  }

  lemma OneSlotMore(n: nat, mul: int -> Affine, hash: ((nat, nat)) -> nat, target: nat, chunk: int, stride: nat,
      threads: nat, left: set<FoundKey>, log: seq<FoundKey>, f: FoundKey)
    requires n > 0 && IsSlot(stride, threads, f) && f in left
    requires LogOf(n, mul, hash, target, chunk, stride, threads, left, log)
    ensures
      var more := if IsHit(n, mul, hash, target, chunk, stride, threads, f) then [f] else [];
      LogOf(n, mul, hash, target, chunk, stride, threads, left - {f}, log + more)
  {
    assert f !in log;
    forall g {:trigger g in log + [f]} ensures g in log + [f] <==> g in log || g == f {}
  }

  // The slots of the first threads.
  function SlotsOf(stride: nat, threads: nat): (slots: set<FoundKey>)
    ensures forall f :: f in slots <==> IsSlot(stride, threads, f)
  {
    set t, k | 0 <= t < threads && 0 <= k < stride :: FoundKey(t, k)
  }

  method AllCoords(p: nat, ghost n: nat, g: Affine, ghost mul: int -> Affine, table: seq<Affine>, stride: nat,
      base: Affine, ghost chunk: int, threads: nat) returns (coords: seq<seq<(nat, nat)>>)
    requires Setting(p, n, g, mul) && TableFor(mul, stride, table) && 1 <= stride <= MAX_BATCH
    requires base.Point? && base == mul(chunk)
    ensures |coords| == threads
    ensures forall f :: IsSlot(stride, threads, f) ==> SlotHolds(n, mul, chunk, stride, coords, f)
  {
    coords := [];
    for t := 0 to threads
      invariant |coords| == t
      invariant forall f :: IsSlot(stride, t, f) ==> SlotHolds(n, mul, chunk, stride, coords, f)
    {
      var row := ThreadCoords(p, n, g, mul, table, stride, base, chunk, t);
      ghost var before := coords;
      coords := coords + [row];
      forall f | IsSlot(stride, t + 1, f) ensures SlotHolds(n, mul, chunk, stride, coords, f) {
        if f.threadId < t {
          assert IsSlot(stride, t, f) && SlotHolds(n, mul, chunk, stride, before, f);
        }
      }
    }
  }

  ghost predicate SlotHolds(n: nat, mul: int -> Affine, chunk: int, stride: nat, coords: seq<seq<(nat, nat)>>,
      f: FoundKey)
    requires n > 0
  {
    && f.threadId < |coords| && f.keyOffset < |coords[f.threadId]|
    && coords[f.threadId][f.keyOffset] == Hashed(n, mul, Start(chunk, stride, f.threadId), stride, f.keyOffset)
  }

  // dispatchWorkgroups: the slots of all threads reach the counter in any order, so
  // in every interleaving of the threads.
  method RunThreads(p: nat, ghost n: nat, g: Affine, ghost mul: int -> Affine, table: seq<Affine>, stride: nat,
      base: Affine, ghost chunk: int, threads: nat, hash: ((nat, nat)) -> nat, target: nat, out: SearchOutput)
    requires Setting(p, n, g, mul) && TableFor(mul, stride, table) && 1 <= stride <= MAX_BATCH
    requires base.Point? && base == mul(chunk) && out.Valid() && out.log == []
    modifies out, out.results
    ensures out.Valid() && LogOf(n, mul, hash, target, chunk, stride, threads, {}, out.log)
  {
    var coords := AllCoords(p, n, g, mul, table, stride, base, chunk, threads);
    var left := SlotsOf(stride, threads);
    while left != {}
      invariant forall f :: f in left ==> IsSlot(stride, threads, f)
      invariant out.Valid() && LogOf(n, mul, hash, target, chunk, stride, threads, left, out.log)
      decreases |left|
    {
      var f :| f in left;
      OneSlotMore(n, mul, hash, target, chunk, stride, threads, left, out.log, f);
      assert SlotHolds(n, mul, chunk, stride, coords, f);
      if hash(coords[f.threadId][f.keyOffset]) == target {
        out.Record(f.threadId, f.keyOffset);
      }
      left := left - {f};
    }
  }
}
