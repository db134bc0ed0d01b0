/**
 Which keys of the searched range a dispatch misses because their thread meets the
 point at infinity (demo/krackpot/src/coordinator.js:377-387, shaders/search.js:130-145).
 */
module Misses {
  import opened Modular
  import opened Search
  import opened Sizing
  import opened Draws
  import opened Dispatch

  // The first key of the thread that scans this one.
  function BlockStart(chunk: int, stride: nat, key: int): int
    requires stride > 0
  {
    key - (key - chunk) % stride
  }

  lemma BlockOf(chunk: int, stride: nat, threads: nat, key: int)
    requires stride > 0 && InDispatch(chunk, stride, threads, key)
    ensures BlockStart(chunk, stride, key) == chunk + Slot(chunk, stride, key).threadId * stride
    ensures chunk <= BlockStart(chunk, stride, key) <= key < BlockStart(chunk, stride, key) + stride
    ensures BlockStart(chunk, stride, key) + stride <= chunk + threads * stride
  {
    var q := (key - chunk) / stride;
    assert key - chunk == q * stride + (key - chunk) % stride;
    KeyToSlot(chunk, stride, threads, key);
    MulMono(q + 1, threads, stride);
  }

  // Keys of one block share their thread.
  lemma SameBlock(chunk: int, stride: nat, threads: nat, key: int, other: int)
    requires stride > 0 && InDispatch(chunk, stride, threads, key)
    requires BlockStart(chunk, stride, key) <= other < BlockStart(chunk, stride, key) + stride
    ensures InDispatch(chunk, stride, threads, other)
    ensures BlockStart(chunk, stride, other) == BlockStart(chunk, stride, key)
  {
    BlockOf(chunk, stride, threads, key);
    var s := BlockStart(chunk, stride, key);
    DivModUnique(other - chunk, Slot(chunk, stride, key).threadId, other - s, stride);
  }

  // A key is blocked by the multiples of the order in its block.
  lemma BlockedIff(n: nat, chunk: int, stride: nat, threads: nat, key: int)
    requires n > 0 && stride > 0 && InDispatch(chunk, stride, threads, key)
    ensures Blocked(n, chunk, stride, key)
      <==> exists m {:trigger m % n} ::
        BlockStart(chunk, stride, key) <= m < BlockStart(chunk, stride, key) + stride && m % n == 0
  {
    BlockOf(chunk, stride, threads, key);
    var s := BlockStart(chunk, stride, key);
    if Blocked(n, chunk, stride, key) {
      var k: nat :| k < stride && AtInfinity(n, s, k);
      assert (s + k) % n == 0;
    }
    if m :| s <= m < s + stride && m % n == 0 {
      assert AtInfinity(n, s, m - s);
    }
  }

  // The kernel misses a key of the range: it has a public point, and is not scanned.
  ghost predicate Missed(n: nat, chunk: int, stride: nat, threads: nat, lo: int, hi: int, key: int)
    requires n > 0 && stride > 0
  {
    lo <= key <= hi && key % n != 0 && InDispatch(chunk, stride, threads, key) && Blocked(n, chunk, stride, key)
  }

  ghost predicate NoneMissed(n: nat, chunk: int, stride: nat, threads: nat, lo: int, hi: int)
    requires n > 0 && stride > 0
  {
    forall key {:trigger Missed(n, chunk, stride, threads, lo, hi, key)} ::
      !Missed(n, chunk, stride, threads, lo, hi, key)
  }

  // The block of m meets the range nowhere, or in m alone.
  ghost predicate Harmless(chunk: int, stride: nat, lo: int, hi: int, m: int)
    requires stride > 0
  {
    var s := BlockStart(chunk, stride, m);
    var first, last := if lo < s then s else lo, if hi < s + stride then hi else s + stride - 1;
    first > last || first == last == m
  }

  lemma OneMultiple(n: nat, m: int, key: int)
    requires 0 < n && m % n == 0 && key != m && m - n < key < m + n
    ensures key % n != 0
  {
    var q := m / n;
    assert m == q * n;
    if key < m {
      assert key == (q - 1) * n + (key - m + n);
      DivModUnique(key, q - 1, key - m + n, n);
    } else {
      DivModUnique(key, q, key - m, n);
    }
  }

  // No key of the range is missed exactly when every multiple of the order in the
  // dispatch sits in a block that meets the range nowhere else.
  lemma NoneMissedIff(n: nat, chunk: int, stride: nat, threads: nat, lo: int, hi: int)
    requires 0 < stride < n
    ensures NoneMissed(n, chunk, stride, threads, lo, hi)
      <==> forall m {:trigger Harmless(chunk, stride, lo, hi, m)} ::
        InDispatch(chunk, stride, threads, m) && m % n == 0 ==> Harmless(chunk, stride, lo, hi, m)
  {
    forall m {:trigger Harmless(chunk, stride, lo, hi, m)}
      | InDispatch(chunk, stride, threads, m) && m % n == 0 && !Harmless(chunk, stride, lo, hi, m)
      ensures !NoneMissed(n, chunk, stride, threads, lo, hi)
    {
      HarmfulMisses(n, chunk, stride, threads, lo, hi, m);
    }
    forall key {:trigger Missed(n, chunk, stride, threads, lo, hi, key)}
      | Missed(n, chunk, stride, threads, lo, hi, key)
      ensures exists m :: InDispatch(chunk, stride, threads, m) && m % n == 0 && !Harmless(chunk, stride, lo, hi, m)
    {
      BlockedIff(n, chunk, stride, threads, key);
      var s := BlockStart(chunk, stride, key);
      var m :| s <= m < s + stride && m % n == 0;
      BlockOf(chunk, stride, threads, key);
      SameBlock(chunk, stride, threads, key, m);
      assert !Harmless(chunk, stride, lo, hi, m);
    }
  }

  lemma HarmfulMisses(n: nat, chunk: int, stride: nat, threads: nat, lo: int, hi: int, m: int)
    requires 0 < stride < n && InDispatch(chunk, stride, threads, m) && m % n == 0
    requires !Harmless(chunk, stride, lo, hi, m)
    ensures !NoneMissed(n, chunk, stride, threads, lo, hi)
  {
    BlockOf(chunk, stride, threads, m);
    var s := BlockStart(chunk, stride, m);
    var first, last := if lo < s then s else lo, if hi < s + stride then hi else s + stride - 1;
    var key := if first == m then last else first;
    SameBlock(chunk, stride, threads, m, key);
    BlockedIff(n, chunk, stride, threads, key);
    OneMultiple(n, m, key);
    assert Missed(n, chunk, stride, threads, lo, hi, key);
  }

  // For private keys: the block of 0 must end by the start of the range, and that of
  // the order begin past its end.
  lemma NoneMissedForKeys(n: nat, chunk: int, stride: nat, threads: nat, lo: int, hi: int)
    requires 0 < stride < n && 1 <= lo <= hi < n && chunk + threads * stride <= 2 * n
    ensures NoneMissed(n, chunk, stride, threads, lo, hi)
      <==>
      ((InDispatch(chunk, stride, threads, 0) ==> BlockStart(chunk, stride, 0) + stride <= lo)
      && (InDispatch(chunk, stride, threads, n) ==> hi < BlockStart(chunk, stride, n)))
  {
    NoneMissedIff(n, chunk, stride, threads, lo, hi);
    DivModUnique(0, 0, 0, n);
    DivModUnique(n, 1, 0, n);
    if InDispatch(chunk, stride, threads, 0) {
      BlockOf(chunk, stride, threads, 0);
      assert Harmless(chunk, stride, lo, hi, 0) <==> BlockStart(chunk, stride, 0) + stride <= lo;
    }
    if InDispatch(chunk, stride, threads, n) {
      BlockOf(chunk, stride, threads, n);
      assert Harmless(chunk, stride, lo, hi, n) <==> hi < BlockStart(chunk, stride, n);
    }
    forall m {:trigger Harmless(chunk, stride, lo, hi, m)}
      | InDispatch(chunk, stride, threads, m) && m % n == 0 && m != 0 && m != n
      ensures Harmless(chunk, stride, lo, hi, m)
    {
      BlockOf(chunk, stride, threads, m);
      if m > 0 {
        OnlyOrder(n, m);
      } else {
        NegativeMultiple(n, m);
      }
    }
  }

  lemma OnlyOrder(n: nat, m: int)
    requires n > 0 && m % n == 0 && 0 < m < 2 * n
    ensures m == n
  {
    if m != n {
      DivModUnique(n, 1, 0, n);
      OneMultiple(n, n, m);
    }
  }

  lemma NegativeMultiple(n: nat, m: int)
    requires n > 0 && m % n == 0 && m < 0
    ensures m <= 0 - n
  {
    if m > 0 - n {
      DivModUnique(0, 0, 0, n);
      OneMultiple(n, 0, m);
    }
  }

  // ---- All draws of a range ----

  // A dispatch of the split that the size asked for gets misses no key of the range.
  ghost predicate Fine(n: nat, lo: int, hi: int, desired: nat, chunk: int)
    requires n > 0
  {
    NoneMissed(n, chunk, Partition(desired).1, Threads(desired), lo, hi)
  }

  lemma FineIff(n: nat, lo: int, hi: int, desired: nat, chunk: int)
    requires 1 <= lo <= hi < n && Size(desired) < n && lo - desired < chunk <= hi && chunk != 0
    ensures
      var stride := Partition(desired).1;
      Fine(n, lo, hi, desired, chunk)
      <==>
      ((chunk < 0 ==> stride - (0 - chunk) % stride <= lo)
      && (n < chunk + Size(desired) ==> (n - chunk) % stride < n - hi))
  {
    PartitionCovers(desired);
    var stride, threads := Partition(desired).1, Threads(desired);
    assert stride <= Size(desired) by {
      MulMono(1, threads, stride);
    }
    NoneMissedForKeys(n, chunk, stride, threads, lo, hi);
  }

  // Every first key that can be drawn is fine, negative ones included, exactly when
  // the range ends a thread's keys below the order, and starts a thread's keys above
  // 0 or so high that no negative draw comes near it.
  lemma EveryDrawFineIff(n: nat, lo: int, hi: int, desired: nat)
    requires 1 <= lo <= hi < n && 1 <= desired < hi - lo + 1 && Size(desired) < n
    ensures
      var stride := Partition(desired).1;
      (forall chunk {:trigger Fine(n, lo, hi, desired, chunk)} ::
        Drawn(chunk, desired, lo, hi) ==> Fine(n, lo, hi, desired, chunk))
      <==>
      (hi + stride <= n
      && (stride <= lo || desired <= lo + 1 || (stride == lo + 1 && desired <= lo + stride)))
  {
    PartitionCovers(desired);
    var stride := Partition(desired).1;
    MulMono(1, Threads(desired), stride);
    if hi + stride > n {
      TopDrawMisses(n, lo, hi, desired);
    } else if desired > lo + 1 && stride > lo && !(stride == lo + 1 && desired <= lo + stride) {
      NegativeDrawMisses(n, lo, hi, desired);
    } else {
      forall chunk {:trigger Fine(n, lo, hi, desired, chunk)} | Drawn(chunk, desired, lo, hi)
        ensures Fine(n, lo, hi, desired, chunk)
      {
        DrawIsFine(n, lo, hi, desired, chunk);
      }
    }
  }

  lemma TopDrawMisses(n: nat, lo: int, hi: int, desired: nat)
    requires 1 <= lo <= hi < n && 1 <= desired < hi - lo + 1 && Size(desired) < n && hi + Partition(desired).1 > n
    ensures Drawn(hi, desired, lo, hi) && !Fine(n, lo, hi, desired, hi)
  {
    PartitionCovers(desired);
    var stride := Partition(desired).1;
    MulMono(1, Threads(desired), stride);
    assert NonZero(hi) == hi;
    FineIff(n, lo, hi, desired, hi);
    DivModUnique(n - hi, 0, n - hi, stride);
  }

  lemma NegativeDrawMisses(n: nat, lo: int, hi: int, desired: nat)
    requires 1 <= lo <= hi < n && 1 <= desired < hi - lo + 1 && Size(desired) < n
    requires
      var stride := Partition(desired).1;
      desired > lo + 1 && stride > lo && !(stride == lo + 1 && desired <= lo + stride)
    ensures exists chunk :: chunk < 0 && Drawn(chunk, desired, lo, hi) && !Fine(n, lo, hi, desired, chunk)
  {
    PartitionCovers(desired);
    var stride := Partition(desired).1;
    var chunk: int := -1;
    if desired > lo + stride {
      chunk := 0 - stride as int;
    }
    assert NonZero(chunk) == chunk;
    FineIff(n, lo, hi, desired, chunk);
    if desired > lo + stride {
      DivModUnique(stride, 1, 0, stride);
    } else {
      DivModUnique(1, 0, 1, stride);
    }
  }

  lemma DrawIsFine(n: nat, lo: int, hi: int, desired: nat, chunk: int)
    requires 1 <= lo <= hi < n && 1 <= desired < hi - lo + 1 && Size(desired) < n && Drawn(chunk, desired, lo, hi)
    requires
      var stride := Partition(desired).1;
      && hi + stride <= n
      && (stride <= lo || desired <= lo + 1 || (stride == lo + 1 && desired <= lo + stride))
    ensures Fine(n, lo, hi, desired, chunk)
  {
    PartitionCovers(desired);
    var stride := Partition(desired).1;
    FineIff(n, lo, hi, desired, chunk);
    if chunk < 0 && stride > lo {
      DivModUnique(0 - chunk, 0, 0 - chunk, stride);
    }
  }

  // The keys from 1 to 5000 at the default size: the first key -1 misses key 1, and
  // the first key -47, whose dispatch holds 0 as well, misses nothing.
  lemma TwoNegativeDraws(n: nat)
    requires n > 10000
    ensures Partition(DEFAULT_DISPATCH_KEYS) == (1, 48)
    ensures Drawn(-1, DEFAULT_DISPATCH_KEYS, 1, 5000) && Missed(n, -1, 48, 64, 1, 5000, 1)
    ensures Drawn(-47, DEFAULT_DISPATCH_KEYS, 1, 5000) && InDispatch(-47, 48, 64, 0)
    ensures NoneMissed(n, -47, 48, 64, 1, 5000)
  {
    assert NonZero(-1) == -1 && NonZero(-47) == -47;
    BlockedBy(n, -1, 48, 64, 1, 1);
    DivModUnique(1, 0, 1, n);
    NoneMissedForKeys(n, -47, 48, 64, 1, 5000);
  }
}
