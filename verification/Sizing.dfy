/**
 How many keys a dispatch covers (demo/krackpot/src/coordinator.js:316-349):
 calibration, shrinking after a loss, and the split into threads.
 */
module Sizing {
  import opened Modular
  import opened Numbers

  const WORKGROUP_SIZE: nat := 64
  const KEYS_PER_THREAD: nat := 48
  const MIN_DISPATCH_KEYS: nat := 64
  const DEFAULT_DISPATCH_KEYS: nat := 3072
  const MAX_RECOVERY_ATTEMPTS: nat := 4
  const MAX_KEYS_PER_DISPATCH: nat := 0x400_0000

  function CeilDiv(a: nat, b: nat): nat
    requires b > 0
  {
    (a + b - 1) / b
  }

  // The size a page starts with, from what the last one saved.
  function Restored(saved: int): nat {
    if 0 < saved <= MAX_KEYS_PER_DISPATCH then saved else DEFAULT_DISPATCH_KEYS
  }

  // An unset, unreadable or excessive size is replaced by that of one full workgroup.
  lemma RestoredIff(saved: int)
    ensures Restored(saved) == saved <==> 1 <= saved <= 0x400_0000
    ensures !(1 <= saved <= 0x400_0000) ==>
      Partition(Restored(saved)) == (1, 48) && Size(Restored(saved)) == Restored(saved)
  {}

  // ---- The split ----

  // partition: workgroups and keys per thread
  function Partition(desired: nat): (split: (nat, nat))
    ensures split.0 >= 1 && 1 <= split.1 <= KEYS_PER_THREAD
  {
    var workgroups := Max(1, CeilDiv(desired, WORKGROUP_SIZE * KEYS_PER_THREAD));
    (workgroups, if workgroups == 1 then Max(1, Min(KEYS_PER_THREAD, CeilDiv(desired, WORKGROUP_SIZE)))
        else KEYS_PER_THREAD)
  }

  function Threads(desired: nat): nat {
    Partition(desired).0 * WORKGROUP_SIZE
  }

  function Size(desired: nat): nat {
    Threads(desired) * Partition(desired).1
  }

  lemma CeilCovers(a: nat, b: nat)
    requires b > 0
    ensures a <= CeilDiv(a, b) * b < a + b
    ensures CeilDiv(a, b) * b == a <==> a % b == 0
  {
    var q, r := a / b, a % b;
    if r == 0 {
      DivModUnique(a + b - 1, q, b - 1, b);
    } else {
      DivModUnique(a + b - 1, q + 1, r - 1, b);
    }
  }

  // A dispatch covers at least what it was asked for, and exactly that for whole
  // workgroups, or for a multiple of 64 within the first.
  lemma PartitionCovers(desired: nat)
    ensures Partition(desired).0 >= 1 && 1 <= Partition(desired).1 <= KEYS_PER_THREAD
    ensures desired <= Size(desired) < desired + (if desired <= 3072 then 65 else 3072)
    ensures Size(desired) == desired <==> desired > 0 && desired % (if desired <= 3072 then 64 else 3072) == 0
  {
    var many, few := CeilDiv(desired, 3072), CeilDiv(desired, 64);
    CeilCovers(desired, 3072);
    CeilCovers(desired, 64);
    if desired > 3072 {
      assert Partition(desired) == (many, 48);
    } else if desired > 0 {
      assert Partition(desired) == (1, few);
    } else {
      assert Partition(desired) == (1, 1);
    }
  }

  // One workgroup serves up to 3072 keys, with as few keys per thread as cover them;
  // above, there are 48, and no workgroup to spare.
  lemma SplitIsLeast(desired: nat)
    ensures
      var (workgroups, stride) := Partition(desired);
      && (workgroups == 1 <==> desired <= 3072) && (workgroups > 1 ==> stride == 48)
      && (workgroups == 1 && stride > 1 ==> 64 * (stride - 1) < desired)
      && (workgroups > 1 ==> 3072 * (workgroups - 1) < desired)
  {
    CeilCovers(desired, 3072);
    CeilCovers(desired, 64);
    if desired <= 3072 {
      assert Partition(desired).0 == 1;
    }
  }

  // Every thread index fits in the table's 22 bits up to this size, and not past it.
  lemma FitsTableIff(desired: nat)
    ensures Threads(desired) <= 0x40_0000 <==> desired <= 48 * 0x40_0000
  {}

  // ---- Calibration ----

  function Shrink(size: nat): nat {
    Max(MIN_DISPATCH_KEYS, size / 8)
  }

  // recalibrate
  function Recalibrated(size: nat, elapsed: real): nat {
    if elapsed > 500.0 then Max(WORKGROUP_SIZE, size / 2)
    else if elapsed < 50.0 then Min(MAX_KEYS_PER_DISPATCH, size * 2)
    else if elapsed < 175.0 then Min(MAX_KEYS_PER_DISPATCH, size * 5 / 4)
    else size
  }

  function Shrunk(size: nat, losses: nat): nat {
    if losses == 0 then size else Shrink(Shrunk(size, losses - 1))
  }

  function Pow8(k: nat): nat {
    if k == 0 then 1 else 8 * Pow8(k - 1)
  }

  lemma {:induction false} Pow8Pos(k: nat)
    ensures Pow8(k) > 0
  {
    if k > 0 {
      Pow8Pos(k - 1);
    }
  }

  lemma DivTwice(a: nat, b: nat)
    requires b > 0
    ensures a / b / 8 == a / (8 * b)
  {
    var q, r := a / b, a % b;
    var i, j := q / 8, q % 8;
    assert (8 * i + j) * b == i * (8 * b) + j * b;
    MulMono(j, 7, b);
    DivModUnique(a, i, j * b + r, 8 * b);
  }

  // k losses in a row divide the size by 8^k, down to 64.
  lemma {:induction false} ShrunkIs(size: nat, losses: nat)
    ensures Pow8(losses) > 0
    ensures losses > 0 ==> Shrunk(size, losses) == Max(MIN_DISPATCH_KEYS, Quotient(size, Pow8(losses)))
  {
    Pow8Pos(losses);
    if losses > 1 {
      ShrunkIs(size, losses - 1);
      DivTwice(size, Pow8(losses - 1));
    }
  }

  // From any size, seven losses reach the smallest dispatch ...
  lemma SevenLossesSuffice(size: nat)
    requires size <= MAX_KEYS_PER_DISPATCH
    ensures Shrunk(size, 7) == MIN_DISPATCH_KEYS
  {
    ShrunkIs(size, 7);
    assert Pow8(2) == 64 && Pow8(4) == 4096 && Pow8(6) == 262144;
  }

  lemma DivBelow(a: nat, b: nat, m: nat)
    requires m > 0
    ensures a / m < b <==> a < b * m
  {
    var q, r := a / m, a % m;
    assert a == q * m + r;
    if q < b {
      MulMono(q + 1, b, m);
    } else {
      MulMono(b, q, m);
    }
  }

  // The smallest dispatch is one workgroup of one key per thread.
  lemma MinimalIff(size: nat)
    ensures Size(size) >= MIN_DISPATCH_KEYS
    ensures Size(size) == MIN_DISPATCH_KEYS <==> size <= MIN_DISPATCH_KEYS
  {
    PartitionCovers(size);
    if 0 < size <= 64 {
      assert Partition(size) == (1, 1);
    } else if size == 0 {
      assert Partition(size) == (1, 1);
    }
  }

  // After k losses in a row the next dispatch is of the smallest size exactly below
  // 65 * 8^k keys.
  lemma ShrunkToMinimumIff(size: nat, losses: nat)
    ensures Shrunk(size, losses) == MIN_DISPATCH_KEYS
      <==> if losses == 0 then size == MIN_DISPATCH_KEYS else size < 65 * Pow8(losses)
    ensures Size(Shrunk(size, losses)) == MIN_DISPATCH_KEYS <==> size < 65 * Pow8(losses)
  {
    ShrunkIs(size, losses);
    DivBelow(size, 65, Pow8(losses));
    MinimalIff(Shrunk(size, losses));
  }

  // A dispatch below 50 ms doubles the size exactly up to half the ceiling, ...
  lemma DoublesIff(size: nat, elapsed: real)
    requires elapsed < 50.0
    ensures Recalibrated(size, elapsed) == 2 * size <==> 2 * size <= 0x400_0000
    ensures 2 * size >= 0x400_0000 ==> Recalibrated(size, elapsed) == 0x400_0000
  {}

  // ... one from 50 to below 175 ms adds a quarter, within the ceiling, ...
  lemma AddsQuarterIff(size: nat, elapsed: real)
    requires 50.0 <= elapsed < 175.0
    ensures Recalibrated(size, elapsed) == size + size / 4 <==> size + size / 4 <= 0x400_0000
    ensures size + size / 4 >= 0x400_0000 ==> Recalibrated(size, elapsed) == 0x400_0000
  {}

  // ... and sizes grow, stay and fall in no other case than these.
  lemma GrowsIff(size: nat, elapsed: real)
    requires 1 <= size <= 0x400_0000
    ensures Recalibrated(size, elapsed) > size
      <==> if elapsed <= 500.0
        then size < 0x400_0000 && (elapsed < 50.0 || (elapsed < 175.0 && size >= 4))
        else size < 64
    ensures Recalibrated(size, elapsed) < size <==> elapsed > 500.0 && size > 64
    ensures 175.0 <= elapsed <= 500.0 ==> Recalibrated(size, elapsed) == size
  {
    assert size * 5 / 4 == size + size / 4;
  }

  // After an overlong dispatch the size asked for is halved exactly from 128 keys on.
  lemma OvershootHalvesIff(size: nat, elapsed: real)
    requires elapsed > 500.0
    ensures Recalibrated(size, elapsed) == size / 2 <==> size >= 128
    ensures size < 128 ==> Recalibrated(size, elapsed) == 64
  {}

  lemma OvershootAt100()
    ensures Recalibrated(100, 600.0) == 64 && 100 / 2 == 50
    ensures Recalibrated(10, 600.0) == 64
  {}

  // The keys by which dispatches of about this size grow.
  function Unit(size: nat): nat {
    if size <= 3072 then 64 else 3072
  }

  lemma SizeIsCeil(size: nat)
    requires size > 0
    ensures Size(size) == CeilDiv(size, Unit(size)) * Unit(size)
  {
    var many, few := CeilDiv(size, 3072), CeilDiv(size, 64);
    CeilCovers(size, 3072);
    CeilCovers(size, 64);
    if size > 3072 {
      assert Partition(size) == (many, 48);
    } else {
      assert Partition(size) == (1, few);
    }
  }

  lemma CeilAtMost(a: nat, u: nat, k: nat)
    requires u > 0 && a <= k * u
    ensures CeilDiv(a, u) <= k
  {
    CeilCovers(a, u);
    if CeilDiv(a, u) > k {
      MulMono(k + 1, CeilDiv(a, u), u);
    }
  }

  lemma CeilAbove(a: nat, u: nat, k: nat)
    requires u > 0 && a > k * u
    ensures CeilDiv(a, u) > k
  {
    CeilCovers(a, u);
    if CeilDiv(a, u) <= k {
      MulMono(CeilDiv(a, u), k, u);
    }
  }

  // Halving the argument halves the ceiling exactly for an even one, or at the first
  // argument of an odd one.
  lemma CeilHalves(size: nat, u: nat)
    requires size > 1 && u > 0
    ensures 2 * CeilDiv(size / 2, u) <= CeilDiv(size, u)
      <==> CeilDiv(size, u) % 2 == 0 || size % (2 * u) == 1
  {
    var q := CeilDiv(size, u);
    var k := q / 2;
    CeilCovers(size, u);
    if q % 2 == 0 {
      TwiceTimes(k, 0, u);
      CeilAtMost(size / 2, u, k);
    } else {
      TwiceTimes(k, 1, u);
      OddCeilHalves(size, u, k);
    }
  }

  lemma TwiceTimes(k: nat, r: nat, u: nat)
    ensures (2 * k + r) * u == 2 * (k * u) + r * u
  {}

  lemma OddCeilHalves(size: nat, u: nat, k: nat)
    requires u > 0 && 2 * (k * u) < size <= 2 * (k * u) + u
    ensures CeilDiv(size / 2, u) <= k <==> size % (2 * u) == 1
  {
    var r := size - 2 * (k * u);
    assert k * (2 * u) == 2 * (k * u);
    DivModUnique(size, k, r, 2 * u);
    if r == 1 {
      CeilAtMost(size / 2, u, k);
    } else {
      CeilAbove(size / 2, u, k);
    }
  }

  // Halving within one unit.
  lemma HalvedInUnit(size: nat, u: nat)
    requires size > 1 && u == Unit(size) && u == Unit(size / 2)
    ensures 2 * Size(size / 2) <= Size(size) <==> CeilDiv(size, u) % 2 == 0 || size % (2 * u) == 1
  {
    SizeIsCeil(size);
    SizeIsCeil(size / 2);
    CeilHalves(size, u);
    var c, h := CeilDiv(size, u), CeilDiv(size / 2, u);
    assert Size(size) == c * u && Size(size / 2) == h * u;
    if 2 * h <= c {
      MulMono(2 * h, c, u);
    } else {
      MulMono(c + 1, 2 * h, u);
    }
  }

  // From two workgroups, or three and one key asked for, down to one.
  lemma HalvedToOne(size: nat)
    requires 3072 < size <= 6145
    ensures 2 * Size(size / 2) <= Size(size) && (CeilDiv(size, 3072) % 2 == 0 || size % 6144 == 1)
  {
    SizeIsCeil(size);
    SizeIsCeil(size / 2);
    CeilAtMost(size / 2, 64, 48);
    if size < 6145 {
      CeilAtMost(size, 3072, 2);
      CeilAbove(size, 3072, 1);
    }
  }

  // Below 128 keys the next dispatch is the smallest.
  lemma SmallOvershoot(size: nat)
    requires 0 < size < 128
    ensures Size(64) == 64 && CeilDiv(size, 64) == (if size <= 64 then 1 else 2)
    ensures Size(size) == 64 * CeilDiv(size, 64)
  {
    MinimalIff(64);
    SizeIsCeil(size);
  }

  // The next dispatch has at most half the keys of the overlong one exactly when that
  // one had an even number of units, or was asked for the first key of its last one.
  lemma OvershootHalvesDispatchIff(size: nat, elapsed: real)
    requires size > 0 && elapsed > 500.0
    ensures 2 * Size(Recalibrated(size, elapsed)) <= Size(size)
      <==> CeilDiv(size, Unit(size)) % 2 == 0 || (size > 1 && size % (2 * Unit(size)) == 1)
  {
    var next := Recalibrated(size, elapsed);
    if size < 128 {
      assert next == 64;
      SmallOvershoot(size);
    } else {
      assert next == size / 2;
      HalvedBelow(size);
    }
  }

  lemma HalvedBelow(size: nat)
    requires size >= 128
    ensures 2 * Size(size / 2) <= Size(size)
      <==> CeilDiv(size, Unit(size)) % 2 == 0 || size % (2 * Unit(size)) == 1
  {
    if 3072 < size <= 6145 {
      HalvedToOne(size);
    } else {
      HalvedInUnit(size, Unit(size));
    }
  }

  lemma OvershootAt6146()
    ensures Size(6146) == 9216 && Size(Recalibrated(6146, 600.0)) == 6144
    ensures Size(100) == 128 && Size(Recalibrated(100, 600.0)) == 64
  {
    SizeIsCeil(6146);
    SizeIsCeil(3073);
    SizeIsCeil(100);
    SizeIsCeil(64);
  }
}
