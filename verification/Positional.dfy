/** Numbers as lists of digits, most significant digit first. */
module Positional {
  import opened Modular

  type byte = x: nat | x < 256

  ghost predicate Digits(ds: seq<nat>, base: nat) {
    forall d :: d in ds ==> d < base
  }

  function FromDigits(ds: seq<nat>, base: nat): nat {
    if ds == [] then 0 else FromDigits(ds[..|ds| - 1], base) * base + ds[|ds| - 1]
  }

  // No leading zero; zero is the empty list.
  function ToDigits(n: nat, base: nat): (ds: seq<nat>)
    requires base >= 2
    ensures Digits(ds, base) && (ds != [] ==> ds[0] != 0)
  {
    if n == 0 then [] else DivSmaller(n, base); ToDigits(n / base, base) + [n % base]
  }

  lemma DivSmaller(n: nat, base: nat)
    requires n > 0 && base >= 2
    ensures 0 <= n / base < n && n == (n / base) * base + n % base
  {
    assert n == (n / base) * base + n % base;
    if n / base >= n {
      assert (n / base) * base >= n * 2 by {
        MulGrows(n / base, n, base, 2);
      }
    }
  }

  lemma MulGrows(a: nat, b: nat, c: nat, d: nat)
    requires a >= b && c >= d
    ensures a * c >= b * d
  {
    assert a * c - b * d == (a - b) * c + b * (c - d);
  }

  lemma ToDigitsSnoc(q: nat, r: nat, base: nat)
    requires base >= 2 && r < base && (q > 0 || r > 0)
    ensures q * base + r > 0
    ensures ToDigits(q * base + r, base) == ToDigits(q, base) + [r]
  {
    DivModUnique(q * base + r, q, r, base);
    if q > 0 {
      MulGrows(q, 1, base, 2);
    }
  }

  lemma FromSnoc(ds: seq<nat>, d: nat, base: nat)
    ensures FromDigits(ds + [d], base) == FromDigits(ds, base) * base + d
  {
    assert (ds + [d])[..|ds|] == ds;
  }

  // The first digit has the greatest weight.
  lemma {:induction false} FirstDigit(d: nat, ds: seq<nat>, base: nat)
    ensures FromDigits([d] + ds, base) == d * Pow(base, |ds|) + FromDigits(ds, base)
    decreases |ds|
  {
    if ds == [] {
      assert ([d] + ds)[..0] == [];
    } else {
      var front, last := ds[..|ds| - 1], ds[|ds| - 1];
      FirstDigit(d, front, base);
      assert [d] + ds == ([d] + front) + [last];
      assert ds == front + [last];
      FromSnoc([d] + front, last, base);
      FromSnoc(front, last, base);
      ShiftWeight(d, Pow(base, |front|), FromDigits(front, base), base);
    }
  }

  lemma ShiftWeight(d: int, w: int, rest: int, base: int)
    ensures (d * w + rest) * base == d * (base * w) + rest * base
  {}

  lemma {:induction false} FromTo(n: nat, base: nat)
    requires base >= 2
    ensures FromDigits(ToDigits(n, base), base) == n
    decreases n
  {
    if n > 0 {
      DivSmaller(n, base);
      FromTo(n / base, base);
      FromSnoc(ToDigits(n / base, base), n % base, base);
    }
  }

  lemma DigitsSnoc(front: seq<nat>, last: nat, base: nat)
    requires Digits(front + [last], base)
    ensures Digits(front, base) && last < base
  {
    var ds := front + [last];
    assert last in ds && forall d :: d in front ==> d in ds;
  }

  lemma {:induction false} ToFrom(ds: seq<nat>, base: nat)
    requires base >= 2 && Digits(ds, base) && (ds != [] ==> ds[0] != 0)
    ensures ToDigits(FromDigits(ds, base), base) == ds
    ensures ds != [] ==> FromDigits(ds, base) > 0
    decreases |ds|
  {
    if ds != [] {
      var front, last := ds[..|ds| - 1], ds[|ds| - 1];
      assert ds == front + [last];
      DigitsSnoc(front, last, base);
      ToFrom(front, base);
      FromSnoc(front, last, base);
      ToDigitsSnoc(FromDigits(front, base), last, base);
    }
  }

  // Leading zeros carry no value.
  function Zeros(k: nat): (z: seq<nat>)
    ensures |z| == k && forall d :: d in z ==> d == 0
  {
    if k == 0 then [] else [0] + Zeros(k - 1)
  }

  function LeadingZeros(ds: seq<nat>): (k: nat)
    ensures k <= |ds| && ds[..k] == Zeros(k)
    ensures k < |ds| ==> ds[k] != 0
  {
    if ds != [] && ds[0] == 0 then
      var k := LeadingZeros(ds[1..]);
      assert ds[..k + 1] == [0] + ds[1..][..k];
      k + 1
    else 0
  }

  lemma LeadingZerosFrom(ds: seq<nat>, k: nat)
    requires k < |ds|
    ensures LeadingZeros(ds[k..]) == if ds[k] == 0 then 1 + LeadingZeros(ds[k + 1..]) else 0
  {
    assert ds[k..][1..] == ds[k + 1..];
  }

  lemma {:induction false} ValueOfPadded(k: nat, ds: seq<nat>, base: nat)
    ensures FromDigits(Zeros(k) + ds, base) == FromDigits(ds, base)
    decreases |ds|, k
  {
    var all := Zeros(k) + ds;
    if ds != [] {
      assert all[..|all| - 1] == Zeros(k) + ds[..|ds| - 1];
      ValueOfPadded(k, ds[..|ds| - 1], base);
    } else if k > 0 {
      assert all == Zeros(k) && Zeros(k)[..k - 1] == Zeros(k - 1) by { ZerosFront(k); }
      assert all[|all| - 1] in Zeros(k);
      ValueOfPadded(k - 1, [], base);
      assert Zeros(k - 1) + [] == Zeros(k - 1);
    }
  }

  lemma {:induction false} ZerosFront(k: nat)
    requires k > 0
    ensures Zeros(k)[..k - 1] == Zeros(k - 1)
  {
    forall i | 0 <= i < k - 1 ensures Zeros(k)[i] == Zeros(k - 1)[i] {
      assert Zeros(k)[i] in Zeros(k) && Zeros(k - 1)[i] in Zeros(k - 1);
    }
  }

  lemma {:induction false} LeadingZerosOf(k: nat, ds: seq<nat>)
    requires ds != [] ==> ds[0] != 0
    ensures LeadingZeros(Zeros(k) + ds) == k
  {
    if k > 0 {
      LeadingZerosOf(k - 1, ds);
      assert (Zeros(k) + ds)[1..] == Zeros(k - 1) + ds;
    } else {
      assert Zeros(0) + ds == ds;
    }
  }

  // The same number with the same count of leading zeros, in another base.
  function Rebase(ds: seq<nat>, base: nat, base': nat): seq<nat>
    requires base' >= 2
  {
    Zeros(LeadingZeros(ds)) + ToDigits(FromDigits(ds, base), base')
  }

  // Going to another base and back is the identity, leading zeros included.
  lemma RebaseInverts(ds: seq<nat>, base: nat, base': nat)
    requires base >= 2 && base' >= 2 && Digits(ds, base)
    ensures Digits(Rebase(ds, base, base'), base')
    ensures Rebase(Rebase(ds, base, base'), base', base) == ds
  {
    var k, n := LeadingZeros(ds), FromDigits(ds, base);
    var there := Rebase(ds, base, base');
    LeadingZerosOf(k, ToDigits(n, base'));
    ValueOfPadded(k, ToDigits(n, base'), base');
    FromTo(n, base');
    assert ds == Zeros(k) + ds[k..];
    ValueOfPadded(k, ds[k..], base);
    assert forall d :: d in ds[k..] ==> d in ds;
    ToFrom(ds[k..], base);
  }

  function Bytes(ds: seq<nat>): (bytes: seq<byte>)
    requires Digits(ds, 256)
    ensures bytes == ds
  {
    assert forall i :: 0 <= i < |ds| ==> ds[i] in ds;
    ds
  }

  // n = n * 256 + b for each byte b
  method NumberOf(bytes: seq<byte>) returns (n: nat)
    ensures n == FromDigits(bytes, 256)
  {
    n := 0;
    for k := 0 to |bytes|
      invariant n == FromDigits(bytes[..k], 256)
    {
      assert bytes[..k + 1][..k] == bytes[..k];
      n := n * 256 + bytes[k];
    }
    assert bytes[..|bytes|] == bytes;
  }
}
