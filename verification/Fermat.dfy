/**
 Fermat's little theorem: multiplying by a nonzero residue permutes the nonzero
 residues of a prime, so both sides have the same product.
 */
module Fermat {
  import opened Modular
  import opened Options

  ghost function Pick(s: set<nat>): nat
    requires s != {}
  {
    var x :| x in s;
    x
  }

  // The product of a finite set.
  ghost function Product(s: set<nat>): nat {
    if s == {} then 1 else Pick(s) * Product(s - {Pick(s)})
  }

  lemma Swap(x: int, y: int, r: int)
    ensures x * (y * r) == y * (x * r)
  {}

  // Any element can be split off, not just the one picked.
  lemma {:induction false} ProductSplit(s: set<nat>, y: nat)
    requires y in s
    ensures Product(s) == y * Product(s - {y})
  {
    var x := Pick(s);
    if x != y {
      var rest := s - {x} - {y};
      ProductSplit(s - {x}, y);
      ProductSplit(s - {y}, x);
      assert s - {y} - {x} == rest;
      Swap(x, y, Product(rest));
    }
  }

  ghost function UpTo(k: nat): set<nat> {
    if k == 0 then {} else UpTo(k - 1) + {k}
  }

  lemma {:induction false} InUpTo(k: nat, i: nat)
    ensures i in UpTo(k) <==> 1 <= i <= k
  {
    if k > 0 {
      InUpTo(k - 1, i);
    }
  }

  ghost function Factorial(k: nat): nat {
    if k == 0 then 1 else k * Factorial(k - 1)
  }

  lemma {:induction false} ProductUpTo(k: nat)
    ensures Product(UpTo(k)) == Factorial(k) && |UpTo(k)| == k
  {
    if k > 0 {
      InUpTo(k - 1, k);
      assert UpTo(k) - {k} == UpTo(k - 1);
      ProductSplit(UpTo(k), k);
      ProductUpTo(k - 1);
    }
  }

  // The multiples a, 2a, ..., ka, reduced.
  ghost function Multiples(a: int, k: nat, p: nat): set<nat>
    requires p > 0
  {
    if k == 0 then {} else Multiples(a, k - 1, p) + {(a * k) % p}
  }

  lemma {:induction false} MultipleOf(a: int, k: nat, p: nat, x: nat) returns (i: nat)
    requires p > 0 && x in Multiples(a, k, p)
    ensures 1 <= i <= k && (a * i) % p == x
  {
    if x == (a * k) % p {
      i := k;
    } else {
      i := MultipleOf(a, k - 1, p, x);
    }
  }

  lemma MultiplesDiffer(a: int, i: nat, j: nat, p: nat)
    requires IsPrime(p) && a % p != 0 && i < p && j < p && (a * i) % p == (a * j) % p
    ensures i == j
  {
    PrimeCancel(a, i, j, p);
    CongSmall(i, j, p);
  }

  lemma {:induction false} ProductOfMultiples(a: int, k: nat, p: nat)
    requires IsPrime(p) && a % p != 0 && k < p
    ensures Cong(Product(Multiples(a, k, p)), Pow(a, k) * Factorial(k), p)
    ensures |Multiples(a, k, p)| == k
  {
    if k > 0 {
      var front, x := Multiples(a, k - 1, p), (a * k) % p;
      if x in front {
        var i := MultipleOf(a, k - 1, p, x);
        MultiplesDiffer(a, i, k, p);
      }
      assert Multiples(a, k, p) - {x} == front;
      ProductSplit(Multiples(a, k, p), x);
      ProductOfMultiples(a, k - 1, p);
      CongMod(a * k, p);
      CongMul(x, a * k, Product(front), Pow(a, k - 1) * Factorial(k - 1), p);
      Regroup(a, k, Pow(a, k - 1), Factorial(k - 1));
    }
  }

  lemma Regroup(a: int, k: int, w: int, f: int)
    ensures (a * k) * (w * f) == (a * w) * (k * f)
  {}

  lemma {:induction false} SameSize<T>(a: set<T>, b: set<T>)
    requires a <= b && |a| == |b|
    ensures a == b
  {
    assert |b - a| == |b| - |a|;
  }

  lemma {:induction false} FactorialUnit(k: nat, p: nat)
    requires IsPrime(p) && k < p
    ensures Factorial(k) % p != 0
  {
    if k == 0 {
      DivModUnique(1, 0, 1, p);
    } else {
      FactorialUnit(k - 1, p);
      DivModUnique(k, 0, k, p);
      PrimeProduct(k, Factorial(k - 1), p);
    }
  }

  lemma CancelFactorial(f: nat, w: int, p: nat)
    requires IsPrime(p) && f % p != 0 && Cong(f, w * f, p)
    ensures Cong(w, 1, p)
  {
    assert w * f == f * w;
    PrimeCancel(f, w, 1, p);
  }

  lemma FermatLittle(a: int, p: nat)
    requires IsPrime(p) && a % p != 0
    ensures Cong(Pow(a, p - 1), 1, p)
  {
    var m, all := Multiples(a, p - 1, p), UpTo(p - 1);
    forall x | x in m ensures x in all {
      var i := MultipleOf(a, p - 1, p, x);
      DivModUnique(i, 0, i, p);
      PrimeProduct(a, i, p);
      InUpTo(p - 1, x);
    }
    ProductUpTo(p - 1);
    ProductOfMultiples(a, p - 1, p);
    SameSize(m, all);
    FactorialUnit(p - 1, p);
    CancelFactorial(Factorial(p - 1), Pow(a, p - 1), p);
  }

  // The inverse by Fermat's power and the inverse by Euclid's algorithm agree.
  lemma InversesAgree(a: int, p: nat)
    requires IsPrime(p)
    ensures a % p != 0 ==> ModInv(a, p) == Some(Pow(a, p - 2) % p)
    ensures a % p == 0 ==> ModInv(a, p) == None
  {
    PrimeCoprime(a, p);
    ModInvCorrect(a, p);
    if a % p != 0 {
      var i, f := ModInv(a, p).value, Pow(a, p - 2);
      FermatLittle(a, p);
      assert Pow(a, p - 1) == a * f;
      PrimeCancel(a, i, f, p);
      CongMod(f, p);
      CongSmall(i, f % p, p);
    }
  }
}
