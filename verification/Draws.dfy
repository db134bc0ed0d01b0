/**
 The draw of the first key of a dispatch (demo/krackpot/src/coordinator.js:371-391):
 which draws cover a key, and when all keys are equally likely to be covered.
 */
module Draws {
  import opened Modular
  import opened Sizing

  // The scalar of the point at infinity is replaced.
  function NonZero(c: int): int {
    if c == 0 then 1 else c
  }

  // The first key of a dispatch: the start of a range that fits, or any draw whose
  // dispatch meets a larger one.
  ghost predicate Drawn(chunk: int, desired: nat, lo: int, hi: int) {
    if hi - lo + 1 <= desired then chunk == NonZero(lo)
    else exists c {:trigger NonZero(c)} :: lo - desired < c <= hi && chunk == NonZero(c)
  }

  // The first key that a sample gives: the start of a range that fits, or that many
  // keys above the lowest whose dispatch meets a larger one.  Samples count modulo the
  // number of such keys, which those of the source are below.
  function FirstKey(sample: nat, desired: nat, lo: int, hi: int): int
    requires desired > 0
  {
    NonZero(if hi - lo + 1 <= desired then lo else lo - desired + 1 + sample % (hi - lo + desired))
  }

  lemma FirstKeyDrawn(sample: nat, desired: nat, lo: int, hi: int)
    requires desired > 0
    ensures Drawn(FirstKey(sample, desired, lo, hi), desired, lo, hi)
  {
    if hi - lo + 1 > desired {
      assert NonZero(lo - desired + 1 + sample % (hi - lo + desired)) == FirstKey(sample, desired, lo, hi);
    }
  }

  // Every first key is given by some sample below that number, and by that one alone
  // but for key 1, which 0 is replaced by.
  lemma FirstKeyGiven(c: int, desired: nat, lo: int, hi: int)
    requires 0 < desired < hi - lo + 1 && lo - desired < c <= hi
    ensures FirstKey(c - lo + desired - 1, desired, lo, hi) == NonZero(c)
    ensures forall sample: nat {:trigger FirstKey(sample, desired, lo, hi)} ::
      sample < hi - lo + desired && FirstKey(sample, desired, lo, hi) == c && c != 1 ==> sample == c - lo + desired - 1
  {
    var range, n := hi - lo + desired, c - lo + desired - 1;
    DivModUnique(n, 0, n, range);
    forall sample: nat {:trigger FirstKey(sample, desired, lo, hi)}
      | sample < range && FirstKey(sample, desired, lo, hi) == c && c != 1
      ensures sample == n
    {
      DivModUnique(sample, 0, sample, range);
    }
  }

  // The loop skips a draw whose scalar is another multiple of the order.
  predicate Runs(n: nat, c: int)
    requires n > 0
  {
    NonZero(c) % n != 0
  }

  // No first key that a run could draw is the point at infinity.
  ghost predicate NoInfinity(n: nat, lo: int, hi: int)
    requires n > 0
  {
    forall c {:trigger NonZero(c)} ::
      lo - MAX_KEYS_PER_DISPATCH < c && (c <= hi || c == lo) ==> NonZero(c) % n != 0
  }

  lemma DrawnIsFinite(n: nat, drawn: int, desired: nat, lo: int, hi: int)
    requires n > 0 && NoInfinity(n, lo, hi) && Drawn(drawn, desired, lo, hi) && desired <= MAX_KEYS_PER_DISPATCH
    ensures drawn % n != 0
  {}

  ghost predicate ZeroDrawn(lo: int, hi: int, desired: nat) {
    lo - desired < 0 <= hi
  }

  // The draws whose dispatch, of the given true size, runs and covers the key.
  ghost function Covering(n: nat, lo: int, hi: int, desired: nat, size: nat, key: int): set<int>
    requires n > 0
  {
    set c: int | lo - desired < c <= hi && Runs(n, c) && NonZero(c) <= key < NonZero(c) + size
  }

  // ---- Counting ----

  lemma NextQuotient(n: nat, b: int)
    requires n > 0
    ensures b / n == (b - 1) / n + if b % n == 0 then 1 else 0
  {
    var q, r := b / n, b % n;
    if r == 0 {
      assert b - 1 == (q - 1) * n + (n - 1);
      DivModUnique(b - 1, q - 1, n - 1, n);
    } else {
      DivModUnique(b - 1, q, r - 1, n);
    }
  }

  // The numbers above a, up to b, that n does not divide.
  ghost function NonMultiples(n: nat, a: int, b: int): (s: set<int>)
    requires n > 0
    ensures forall c {:trigger c in s} :: c in s <==> a < c <= b && c % n != 0
    ensures |s| == if a < b then (b - a) - (b / n - a / n) else 0
    decreases b - a
  {
    if a < b then
      NextQuotient(n, b);
      NonMultiples(n, a, b - 1) + if b % n != 0 then {b} else {}
    else {}
  }

  function First(lo: int, desired: nat, size: nat, key: int): int {
    if lo - desired < key - size then key - size else lo - desired
  }

  lemma CoveringIs(n: nat, lo: int, hi: int, desired: nat, size: nat, key: int, c: int)
    requires n >= 2 && lo <= key <= hi
    ensures c in Covering(n, lo, hi, desired, size, key)
      <==> if c == 0 then ZeroDrawn(lo, hi, desired) && 1 <= key <= size
        else First(lo, desired, size, key) < c <= key && c % n != 0
  {
    if c == 0 {
      DivModUnique(1, 0, 1, n);
    }
  }

  lemma CoveringSet(n: nat, lo: int, hi: int, desired: nat, size: nat, key: int)
    requires n >= 2 && lo <= key <= hi
    ensures Covering(n, lo, hi, desired, size, key)
      == NonMultiples(n, First(lo, desired, size, key), key)
        + if ZeroDrawn(lo, hi, desired) && 1 <= key <= size then {0} else {}
  {
    var plain := NonMultiples(n, First(lo, desired, size, key), key);
    forall c ensures c in Covering(n, lo, hi, desired, size, key)
        <==> c in plain || (c == 0 && ZeroDrawn(lo, hi, desired) && 1 <= key <= size)
    {
      CoveringIs(n, lo, hi, desired, size, key, c);
      assert c == 0 ==> c % n == 0;
    }
  }

  // How many draws cover a key: those in reach but the multiples of the order, and
  // one more for each key up to the size when 0 is drawn.
  lemma DrawsCovering(n: nat, lo: int, hi: int, desired: nat, size: nat, key: int)
    requires n >= 2 && lo <= key <= hi
    ensures
      var first := First(lo, desired, size, key);
      |Covering(n, lo, hi, desired, size, key)|
        == (key - first) - (key / n - first / n) + if ZeroDrawn(lo, hi, desired) && 1 <= key <= size then 1 else 0
  {
    CoveringSet(n, lo, hi, desired, size, key);
    var plain := NonMultiples(n, First(lo, desired, size, key), key);
    assert 0 % n == 0 && 0 !in plain;
    if First(lo, desired, size, key) == key {
      assert plain == {};
    }
  }

  // ---- Equal chances ----

  ghost predicate SameCover(n: nat, lo: int, hi: int, desired: nat, size: nat, key: int, other: int)
    requires n > 0
  {
    |Covering(n, lo, hi, desired, size, key)| == |Covering(n, lo, hi, desired, size, other)|
  }

  // Every key of the range is covered by as many draws as any other.
  ghost predicate Uniform(n: nat, lo: int, hi: int, desired: nat, size: nat)
    requires n > 0
  {
    forall key, other {:trigger SameCover(n, lo, hi, desired, size, key, other)} ::
      lo <= key <= hi && lo <= other <= hi ==> SameCover(n, lo, hi, desired, size, key, other)
  }

  // Going from key x - 1 to x loses as many draws as it gains.
  ghost predicate Balanced(n: nat, lo: int, hi: int, desired: nat, size: nat, x: int)
    requires n > 0
  {
    var zero := ZeroDrawn(lo, hi, desired);
    (if x % n != 0 then 1 else 0) + (if zero && x == 1 then 1 else 0)
    == (if x - size > lo - desired && (x - size) % n != 0 then 1 else 0) + if zero && x == size + 1 then 1 else 0
  }

  lemma StepBalanced(n: nat, lo: int, hi: int, desired: nat, size: nat, x: int)
    requires n >= 2 && lo < x <= hi && 0 < size
    ensures SameCover(n, lo, hi, desired, size, x - 1, x) <==> Balanced(n, lo, hi, desired, size, x)
  {
    DrawsCovering(n, lo, hi, desired, size, x - 1);
    DrawsCovering(n, lo, hi, desired, size, x);
    NextQuotient(n, x);
    NextQuotient(n, x - size);
  }

  // Neither x nor the key a dispatch before it is a multiple of the order, and the
  // replaced 0 changes nothing at x.
  ghost predicate Level(n: nat, lo: int, hi: int, desired: nat, size: nat, x: int)
    requires n > 0
  {
    x % n != 0 && (x - size) % n != 0 && !(ZeroDrawn(lo, hi, desired) && (x == 1 || x == size + 1))
  }

  lemma BalancedIff(n: nat, lo: int, hi: int, desired: nat, size: nat, x: int)
    requires n >= 2 && lo < x <= hi && 1 <= desired <= size < n
    ensures Balanced(n, lo, hi, desired, size, x)
      <==> if x <= lo + (size - desired) then x % n == 0 else Level(n, lo, hi, desired, size, x)
  {
    DivModUnique(1, 0, 1, n);
    NotBothMultiples(n, x, size);
    if x == 1 || x == size + 1 {
      DivModUnique(size, 0, size, n);
      NotBothMultiples(n, 1, size);
      NotBothMultiples(n, size + 1, size);
    }
  }

  lemma NotBothMultiples(n: nat, x: int, size: nat)
    requires 0 < size < n
    ensures !(x % n == 0 && (x - size) % n == 0)
  {
    if x % n == 0 {
      var q := x / n;
      assert x - size == (q - 1) * n + (n - size);
      DivModUnique(x - size, q - 1, n - size, n);
    }
  }

  lemma {:induction false} LevelFrom(n: nat, lo: int, hi: int, desired: nat, size: nat, key: int)
    requires n >= 2 && lo <= key <= hi && 0 < size
    requires forall x {:trigger Balanced(n, lo, hi, desired, size, x)} ::
      lo < x <= hi ==> Balanced(n, lo, hi, desired, size, x)
    ensures SameCover(n, lo, hi, desired, size, lo, key)
    decreases key - lo
  {
    if key > lo {
      LevelFrom(n, lo, hi, desired, size, key - 1);
      assert Balanced(n, lo, hi, desired, size, key);
      StepBalanced(n, lo, hi, desired, size, key);
    }
  }

  lemma UniformIffBalanced(n: nat, lo: int, hi: int, desired: nat, size: nat)
    requires n >= 2 && 0 < size
    ensures Uniform(n, lo, hi, desired, size)
      <==> forall x {:trigger Balanced(n, lo, hi, desired, size, x)} ::
        lo < x <= hi ==> Balanced(n, lo, hi, desired, size, x)
  {
    if Uniform(n, lo, hi, desired, size) {
      forall x {:trigger Balanced(n, lo, hi, desired, size, x)} | lo < x <= hi
        ensures Balanced(n, lo, hi, desired, size, x)
      {
        assert SameCover(n, lo, hi, desired, size, x - 1, x);
        StepBalanced(n, lo, hi, desired, size, x);
      }
    }
    if forall x {:trigger Balanced(n, lo, hi, desired, size, x)} ::
      lo < x <= hi ==> Balanced(n, lo, hi, desired, size, x)
    {
      forall key, other {:trigger SameCover(n, lo, hi, desired, size, key, other)}
        | lo <= key <= hi && lo <= other <= hi
        ensures SameCover(n, lo, hi, desired, size, key, other)
      {
        LevelFrom(n, lo, hi, desired, size, key);
        LevelFrom(n, lo, hi, desired, size, other);
      }
    }
  }

  // The dispatch is as large as asked for; or one key larger, or the range has two
  // keys, and the second key of the range is a multiple of the order.
  ghost predicate Snug(n: nat, lo: int, hi: int, desired: nat, size: nat)
    requires n > 0
  {
    size == desired || ((lo + 1) % n == 0 && (size == desired + 1 || hi == lo + 1))
  }

  // Every key of a range that is drawn from is equally likely to fall in a dispatch
  // exactly when the dispatch is snug and every key past the slack is level.
  lemma UniformIff(n: nat, lo: int, hi: int, desired: nat)
    requires 1 <= desired < hi - lo + 1 && Size(desired) < n
    ensures
      var size := Size(desired);
      Uniform(n, lo, hi, desired, size)
      <==>
      (Snug(n, lo, hi, desired, size)
      && forall x {:trigger Level(n, lo, hi, desired, size, x)} ::
        lo + (size - desired) < x <= hi ==> Level(n, lo, hi, desired, size, x))
  {
    var size := Size(desired);
    PartitionCovers(desired);
    UniformIffBalanced(n, lo, hi, desired, size);
    forall x {:trigger Balanced(n, lo, hi, desired, size, x)} {:trigger Level(n, lo, hi, desired, size, x)}
      | lo < x <= hi
      ensures Balanced(n, lo, hi, desired, size, x)
        <==> if x <= lo + (size - desired) then x % n == 0 else Level(n, lo, hi, desired, size, x)
    {
      BalancedIff(n, lo, hi, desired, size, x);
    }
    NotBothMultiples(n, lo + 2, 1);
    assert Balanced(n, lo, hi, desired, size, lo + 1) || !Balanced(n, lo, hi, desired, size, lo + 1);
    assert Balanced(n, lo, hi, desired, size, lo + 2) || !Balanced(n, lo, hi, desired, size, lo + 2);
  }

  // Among the private keys, 1 to n - 1: exactly for a whole number of workgroups, or
  // of 64s within the first, that does not exceed the start of the range.
  lemma UniformForKeys(n: nat, lo: int, hi: int, desired: nat)
    requires 1 <= lo && hi < n && 1 <= desired < hi - lo + 1 && Size(desired) < n
    ensures Uniform(n, lo, hi, desired, Size(desired))
      <==> desired <= lo && desired % (if desired <= 3072 then 64 else 3072) == 0
  {
    var size := Size(desired);
    PartitionCovers(desired);
    UniformIff(n, lo, hi, desired);
    DivModUnique(lo + 1, 0, lo + 1, n);
    if size == desired {
      forall x | lo < x <= hi
        ensures Level(n, lo, hi, desired, size, x) <==> desired <= lo || (x != 1 && x != size && x != size + 1)
      {
        DivModUnique(x, 0, x, n);
        if x >= size {
          DivModUnique(x - size, 0, x - size, n);
        } else {
          DivModUnique(x - size, -1, x - size + n, n);
        }
      }
      assert lo < desired ==> !Level(n, lo, hi, desired, size, size);
    }
  }

  // The range of the page: 3073 keys are asked for, a dispatch covers 6144, and the
  // first key of the range has half the draws of a later one.
  lemma SlackAtLowEdge(n: nat)
    requires n > 0x7f_ffff_ffff_ffff_ffff
    ensures
      var lo, hi := 0x40_0000_0000_0000_0000, 0x7f_ffff_ffff_ffff_ffff;
      && Size(3073) == 6144
      && |Covering(n, lo, hi, 3073, 6144, lo)| == 3073
      && |Covering(n, lo, hi, 3073, 6144, lo + 6143)| == 6144
  {
    var lo, hi := 0x40_0000_0000_0000_0000, 0x7f_ffff_ffff_ffff_ffff;
    assert Partition(3073) == (2, 48);
    DrawsCovering(n, lo, hi, 3073, 6144, lo);
    DrawsCovering(n, lo, hi, 3073, 6144, lo + 6143);
    DivModUnique(lo - 3073, 0, lo - 3073, n);
    DivModUnique(lo - 1, 0, lo - 1, n);
    DivModUnique(lo, 0, lo, n);
    DivModUnique(lo + 6143, 0, lo + 6143, n);
  }

  // A range that reaches past the order: the draw at n is skipped, so key n has one
  // draw less than key 128.
  lemma SkippedDraw(n: nat)
    requires n > 200
    ensures Size(64) == 64
    ensures |Covering(n, 64, 2 * n, 64, 64, n)| == 63 && |Covering(n, 64, 2 * n, 64, 64, 128)| == 64
  {
    DrawsCovering(n, 64, 2 * n, 64, 64, n);
    DrawsCovering(n, 64, 2 * n, 64, 64, 128);
    DivModUnique(n, 1, 0, n);
    DivModUnique(n - 64, 0, n - 64, n);
    DivModUnique(128, 0, 128, n);
    DivModUnique(64, 0, 64, n);
  }
}
