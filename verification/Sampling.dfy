/**
 The sampling of a uniform integer from random bytes
 (demo/krackpot/src/coordinator.js:61-77).  The random bytes are a parameter.
 */
module Sampling {
  import opened Modular
  import opened Numbers
  import opened Options
  import opened Positional
  import Sizing

  // range.toString(2).length
  function BitLength(range: nat): nat {
    |ToDigits(range, 2)|
  }

  function ByteLength(range: nat): nat {
    Sizing.CeilDiv(BitLength(range), 8)
  }

  function Masked(buffer: seq<byte>, bits: nat): (n: nat)
    ensures n < Pow2(bits)
  {
    Pow2Pos(bits);
    FromDigits(buffer, 256) % Pow2(bits)
  }

  // What the mask drops.
  function High(buffer: seq<byte>, bits: nat): nat {
    Pow2Pos(bits);
    Quotient(FromDigits(buffer, 256), Pow2(bits))
  }

  function Join(high: nat, bits: nat, low: nat): nat {
    high * Pow2(bits) + low
  }

  // ---- Lengths ----

  lemma {:induction false} BitLengthFits(range: nat)
    ensures range < Pow2(BitLength(range))
    ensures range > 0 ==> BitLength(range) > 0 && range >= Pow2(BitLength(range) - 1)
    decreases range
  {
    if range > 0 {
      DivSmaller(range, 2);
      BitLengthFits(range / 2);
    }
  }

  lemma ByteLengthCovers(range: nat)
    ensures BitLength(range) <= 8 * ByteLength(range)
  {
    Sizing.CeilCovers(BitLength(range), 8);
  }

  // ---- Byte strings of one length are the numbers below 256^length ----

  function BytesOf(n: nat, length: nat): (buffer: seq<byte>)
    ensures |buffer| == length
  {
    if length == 0 then [] else BytesOf(n / 256, length - 1) + [n % 256]
  }

  lemma {:induction false} BytesOfSpell(n: nat, length: nat)
    requires n < Pow2(8 * length)
    ensures FromDigits(BytesOf(n, length), 256) == n
  {
    if length > 0 {
      Pow2Add(8, 8 * (length - 1));
      assert Pow2(4) == 16;
      Pow2Add(4, 4);
      BytesOfSpell(n / 256, length - 1);
      FromSnoc(BytesOf(n / 256, length - 1), n % 256, 256);
    }
  }

  lemma {:induction false} BytesOfValue(buffer: seq<byte>)
    ensures FromDigits(buffer, 256) < Pow2(8 * |buffer|)
    ensures BytesOf(FromDigits(buffer, 256), |buffer|) == buffer
    decreases |buffer|
  {
    if buffer != [] {
      var front, last := buffer[..|buffer| - 1], buffer[|buffer| - 1];
      BytesOfValue(front);
      assert buffer == front + [last];
      Pow2Add(8, 8 * |front|);
      assert Pow2(4) == 16;
      Pow2Add(4, 4);
      DivModUnique(FromDigits(buffer, 256), FromDigits(front, 256), last, 256);
    }
  }

  // ---- Every value has the same number of byte strings ----

  lemma Parts(x: nat, high: nat, low: nat, w: nat)
    requires low < w
    ensures x == high * w + low <==> x % w == low && x / w == high
  {
    if x == high * w + low {
      DivModUnique(x, high, low, w);
    }
  }

  lemma JoinFits(high: nat, bits: nat, low: nat, m: nat, bound: nat)
    requires high < m && low < Pow2(bits) && m * Pow2(bits) <= bound
    ensures Join(high, bits, low) < bound
  {
    MulMono(high + 1, m, Pow2(bits));
  }

  // One string has given low and other bits.
  lemma GivesIff(s: seq<byte>, bits: nat, v: nat, m: nat)
    requires v < Pow2(bits) && Join(m, bits, v) < Pow2(8 * |s|)
    ensures s == BytesOf(Join(m, bits, v), |s|) <==> Masked(s, bits) == v && High(s, bits) == m
  {
    BytesOfSpell(Join(m, bits, v), |s|);
    BytesOfValue(s);
    Parts(FromDigits(s, 256), m, v, Pow2(bits));
  }

  // The first m strings of a list.
  ghost function Listed(nth: nat -> seq<byte>, m: nat): set<seq<byte>> {
    if m == 0 then {} else Listed(nth, m - 1) + {nth(m - 1)}
  }

  ghost predicate Ranked(nth: nat -> seq<byte>, ok: seq<byte> -> bool, rank: seq<byte> -> nat, k: nat, s: seq<byte>) {
    s == nth(k) <==> ok(s) && rank(s) == k
  }

  // A list that holds exactly the strings with a property, by their rank, has as many
  // as their ranks.
  lemma {:induction false} ListedIs(nth: nat -> seq<byte>, ok: seq<byte> -> bool, rank: seq<byte> -> nat, m: nat)
    requires forall k: nat, s {:trigger Ranked(nth, ok, rank, k, s)} :: k < m ==> Ranked(nth, ok, rank, k, s)
    ensures |Listed(nth, m)| == m
    ensures forall s :: s in Listed(nth, m) <==> ok(s) && rank(s) < m
  {
    if m > 0 {
      ListedIs(nth, ok, rank, m - 1);
      assert Ranked(nth, ok, rank, m - 1, nth(m - 1));
      forall s ensures s in Listed(nth, m) <==> ok(s) && rank(s) < m {
        assert Ranked(nth, ok, rank, m - 1, s);
      }
    }
  }

  ghost function Nth(length: nat, bits: nat, v: nat): nat -> seq<byte> {
    (high: nat) => BytesOf(Join(high, bits, v), length)
  }

  ghost function Gives(length: nat, bits: nat, v: nat): seq<byte> -> bool {
    (s: seq<byte>) => |s| == length && Masked(s, bits) == v
  }

  ghost function HighOf(bits: nat): seq<byte> -> nat {
    (s: seq<byte>) => High(s, bits)
  }

  lemma RankedByHigh(length: nat, bits: nat, v: nat, k: nat, s: seq<byte>)
    requires v < Pow2(bits) && Join(k, bits, v) < Pow2(8 * length)
    ensures Ranked(Nth(length, bits, v), Gives(length, bits, v), HighOf(bits), k, s)
  {
    if |s| == length {
      GivesIff(s, bits, v, k);
    }
  }

  lemma HighBounded(length: nat, bits: nat, v: nat, s: seq<byte>)
    requires bits <= 8 * length && Gives(length, bits, v)(s)
    ensures HighOf(bits)(s) < Pow2(8 * length - bits)
  {
    Pow2Pos(bits);
    Pow2Add(8 * length - bits, bits);
    BytesOfValue(s);
    Sizing.DivBelow(FromDigits(s, 256), Pow2(8 * length - bits), Pow2(bits));
  }

  lemma HighFits(length: nat, bits: nat, v: nat, k: nat)
    requires bits <= 8 * length && v < Pow2(bits) && k < Pow2(8 * length - bits)
    ensures Join(k, bits, v) < Pow2(8 * length)
  {
    Pow2Add(8 * length - bits, bits);
    JoinFits(k, bits, v, Pow2(8 * length - bits), Pow2(8 * length));
  }

  // The strings of a length with low bits v, one for each value of the other bits.
  ghost function Shares(length: nat, bits: nat, v: nat): set<seq<byte>>
    requires bits <= 8 * length
  {
    Listed(Nth(length, bits, v), Pow2(8 * length - bits))
  }

  lemma SharesAre(length: nat, bits: nat, v: nat)
    requires bits <= 8 * length && v < Pow2(bits)
    ensures |Shares(length, bits, v)| == Pow2(8 * length - bits)
    ensures forall s :: s in Shares(length, bits, v) <==> Gives(length, bits, v)(s)
  {
    var nth, ok, rank, m := Nth(length, bits, v), Gives(length, bits, v), HighOf(bits), Pow2(8 * length - bits);
    forall k: nat, s {:trigger Ranked(nth, ok, rank, k, s)} | k < m ensures Ranked(nth, ok, rank, k, s) {
      HighFits(length, bits, v, k);
      RankedByHigh(length, bits, v, k, s);
    }
    ListedIs(nth, ok, rank, m);
    forall s ensures s in Listed(nth, m) <==> ok(s) {
      if ok(s) {
        HighBounded(length, bits, v, s);
      }
    }
  }

  lemma Masks(range: nat, v: nat)
    requires v < range
    ensures BitLength(range) <= 8 * ByteLength(range) && v < Pow2(BitLength(range))
  {
    ByteLengthCovers(range);
    BitLengthFits(range);
  }

  // Each value of a range is given by the same number of strings of random bytes, 2 to
  // the number of bits masked off.
  lemma EqualShares(range: nat, v: nat)
    requires v < range
    ensures
      var bits, length := BitLength(range), ByteLength(range);
      && bits <= 8 * length
      && |Shares(length, bits, v)| == Pow2(8 * length - bits)
      && forall s :: s in Shares(length, bits, v) <==> Gives(length, bits, v)(s)
  {
    var bits, length := BitLength(range), ByteLength(range);
    Masks(range, v);
    SharesAre(length, bits, v);
  }

  // The mask keeps at least half of the masked values.
  lemma RejectsAtMostHalf(range: nat)
    requires range > 0
    ensures range < Pow2(BitLength(range)) <= 2 * range
  {
    BitLengthFits(range);
  }

  // ---- The loop ----

  // Draw i is the first that is not rejected, and gives n.
  predicate AcceptedAt(range: nat, buffers: seq<seq<byte>>, i: nat, n: nat) {
    && i < |buffers| && Masked(buffers[i], BitLength(range)) == n < range
    && forall j :: 0 <= j < i ==> Masked(buffers[j], BitLength(range)) >= range
  }

  ghost predicate FirstAccepted(range: nat, buffers: seq<seq<byte>>, n: nat) {
    exists i :: AcceptedAt(range, buffers, i, n)
  }

  // cryptoRandomBigInt, with the buffers that the generator of random bytes would
  // fill; None when all of them are rejected.
  method Sample(lo: int, hi: int, buffers: seq<seq<byte>>) returns (r: Option<int>)
    ensures hi < lo ==> r == Some(lo)
    ensures hi >= lo && r.None? ==> forall s :: s in buffers ==> Masked(s, BitLength(hi - lo + 1)) >= hi - lo + 1
    ensures hi >= lo && r.Some? ==> lo <= r.value <= hi && FirstAccepted(hi - lo + 1, buffers, r.value - lo)
  {
    var range := hi - lo + 1;
    if range <= 0 {
      return Some(lo);
    }
    var bits := BitLength(range);
    Pow2Pos(bits);
    for i := 0 to |buffers|
      invariant forall j :: 0 <= j < i ==> Masked(buffers[j], bits) >= range
    {
      var n := NumberOf(buffers[i]);
      n := n % Pow2(bits);
      if n < range {
        assert AcceptedAt(range, buffers, i, n);
        return Some(lo + n);
      }
    }
    r := None;
  }
}
