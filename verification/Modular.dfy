/**
 Arithmetic modulo m on integers: congruence, powers, and the inverse by
 Euclid's algorithm (demo/krackpot/src/reference/secp.js).
 */
module Modular {
  import opened Options

  // ---- Congruence ----

  ghost predicate Cong(a: int, b: int, m: int)
    requires m > 0
  {
    a % m == b % m
  }

  lemma DivModUnique(n: int, q: int, r: int, m: int)
    requires 0 <= r < m && n == q * m + r
    ensures n / m == q && n % m == r
  {
    var q', r' := n / m, n % m;
    assert (q - q') * m == r' - r && (q' - q) * m == r - r';
    if q > q' {
      MulMono(1, q - q', m);
    }
    if q < q' {
      MulMono(1, q' - q, m);
    }
  }

  lemma MulMono(a: int, b: int, m: int)
    requires a <= b && m >= 0
    ensures a * m <= b * m
  {}

  lemma CongFromMultiple(a: int, b: int, k: int, m: int)
    requires m > 0 && a - b == k * m
    ensures Cong(a, b, m)
  {
    assert b == (b / m) * m + b % m;
    assert (b / m + k) * m == (b / m) * m + k * m;
    DivModUnique(a, b / m + k, b % m, m);
  }

  lemma MultipleFromCong(a: int, b: int, m: int) returns (k: int)
    requires m > 0 && Cong(a, b, m)
    ensures a - b == k * m
  {
    k := a / m - b / m;
    assert a == (a / m) * m + a % m && b == (b / m) * m + b % m;
    assert k * m == (a / m) * m - (b / m) * m;
  }

  lemma CongMod(a: int, m: int)
    requires m > 0
    ensures Cong(a % m, a, m)
  {
    assert a == (a / m) * m + a % m;
    CongFromMultiple(a, a % m, a / m, m);
  }

  lemma CongSmall(a: int, b: int, m: int)
    requires m > 0 && Cong(a, b, m) && 0 <= a < m && 0 <= b < m
    ensures a == b
  {
    DivModUnique(a, 0, a, m);
    DivModUnique(b, 0, b, m);
  }

  lemma CongAdd(a: int, a': int, b: int, b': int, m: int)
    requires m > 0 && Cong(a, a', m) && Cong(b, b', m)
    ensures Cong(a + b, a' + b', m) && Cong(a - b, a' - b', m)
  {
    var j := MultipleFromCong(a, a', m);
    var k := MultipleFromCong(b, b', m);
    assert (j + k) * m == j * m + k * m && (j - k) * m == j * m - k * m;
    CongFromMultiple(a + b, a' + b', j + k, m);
    CongFromMultiple(a - b, a' - b', j - k, m);
  }

  lemma ProductDifference(a: int, a': int, b: int, b': int, x: int, y: int)
    requires a - a' == x && b - b' == y
    ensures a * b - a' * b' == x * b + a' * y
  {
    assert a * b == a' * b + x * b && a' * b == a' * b' + a' * y;
  }

  lemma FactorOut(j: int, b: int, a: int, k: int, m: int)
    ensures (j * m) * b + a * (k * m) == (j * b + a * k) * m
  {
    assert (j * m) * b == (j * b) * m && a * (k * m) == (a * k) * m;
  }

  lemma CongMul(a: int, a': int, b: int, b': int, m: int)
    requires m > 0 && Cong(a, a', m) && Cong(b, b', m)
    ensures Cong(a * b, a' * b', m)
  {
    var j := MultipleFromCong(a, a', m);
    var k := MultipleFromCong(b, b', m);
    ProductDifference(a, a', b, b', j * m, k * m);
    FactorOut(j, b, a', k, m);
    CongFromMultiple(a * b, a' * b', j * b + a' * k, m);
  }

  // ---- Powers ----

  function Pow(b: int, n: nat): int {
    if n == 0 then 1 else b * Pow(b, n - 1)
  }

  lemma {:induction false} PowDouble(b: int, k: nat)
    ensures Pow(b, 2 * k) == Pow(b * b, k)
  {
    if k > 0 {
      PowDouble(b, k - 1);
      assert Pow(b, 2 * k) == b * (b * Pow(b, 2 * k - 2));
    }
  }

  lemma {:induction false} CongPow(a: int, b: int, n: nat, m: int)
    requires m > 0 && Cong(a, b, m)
    ensures Cong(Pow(a, n), Pow(b, n), m)
  {
    if n > 0 {
      CongPow(a, b, n - 1, m);
      CongMul(a, b, Pow(a, n - 1), Pow(b, n - 1), m);
    }
  }

  function Pow2(n: nat): nat {
    if n == 0 then 1 else 2 * Pow2(n - 1)
  }

  lemma {:induction false} Pow2Add(m: nat, n: nat)
    ensures Pow2(m + n) == Pow2(m) * Pow2(n)
  {
    if m > 0 {
      Pow2Add(m - 1, n);
    }
  }

  lemma {:induction false} Pow2Pos(b: nat)
    ensures Pow2(b) > 0
  {
    if b > 0 {
      Pow2Pos(b - 1);
    }
  }

  // ---- Euclid's algorithm ----

  // The loop of modInv: (g, x) and (g1, x1) with g congruent to a * x throughout.
  function Euclid(g: nat, x: int, g1: nat, x1: int): (nat, int)
    decreases g1
  {
    if g1 == 0 then (g, x) else Euclid(g1, x1, g % g1, x - g / g1 * x1)
  }

  function ModInv(a: int, m: int): Option<nat>
    requires m > 0
  {
    var (g, x) := Euclid(m, 0, a % m, 1);
    if g != 1 then None else Some(x % m)
  }

  method ModInvLoop(a: int, m: int) returns (r: Option<nat>)
    requires m > 0
    ensures r == ModInv(a, m)
  {
    var g: nat, x := m, 0;
    var g1: nat, x1 := a % m, 1;
    while g1 != 0
      invariant Euclid(m, 0, a % m, 1) == Euclid(g, x, g1, x1)
      decreases g1
    {
      var q := g / g1;
      assert g - q * g1 == g % g1;
      g, g1 := g1, g - q * g1;
      x, x1 := x1, x - q * x1;
    }
    if g != 1 {
      return None;
    }
    r := Some(x % m);
  }

  ghost predicate Coprime(a: int, m: int) {
    forall d: nat :: d > 0 && a % d == 0 && m % d == 0 ==> d == 1
  }

  lemma {:induction false} EuclidKeepsCong(a: int, m: int, g: nat, x: int, g1: nat, x1: int)
    requires m > 0 && Cong(g, a * x, m) && Cong(g1, a * x1, m)
    ensures var (h, y) := Euclid(g, x, g1, x1); Cong(h, a * y, m)
    decreases g1
  {
    if g1 != 0 {
      var q := g / g1;
      assert g % g1 == g - q * g1;
      CongMul(q, q, g1, a * x1, m);
      CongAdd(g, a * x, q * g1, q * (a * x1), m);
      assert a * (x - q * x1) == a * x - q * (a * x1);
      EuclidKeepsCong(a, m, g1, x1, g % g1, x - q * x1);
    }
  }

  lemma DividesMultiple(d: nat, a: int, k: int)
    requires d > 0 && a % d == 0
    ensures (k * a) % d == 0
  {
    assert a == (a / d) * d;
    assert k * a == (k * (a / d)) * d;
    DivModUnique(k * a, k * (a / d), 0, d);
  }

  lemma DividesDifference(d: nat, a: int, b: int)
    requires d > 0 && b % d == 0
    ensures (a - b) % d == 0 <==> a % d == 0
  {
    CongAdd(a, a, b, 0, d);
  }

  lemma {:induction false} EuclidKeepsDivisors(g: nat, x: int, g1: nat, x1: int, d: nat)
    requires d > 0
    ensures Euclid(g, x, g1, x1).0 % d == 0 <==> g % d == 0 && g1 % d == 0
    decreases g1
  {
    if g1 != 0 {
      var q := g / g1;
      assert g % g1 == g - q * g1;
      if g1 % d == 0 {
        DividesMultiple(d, g1, q);
        DividesDifference(d, g, q * g1);
      }
      EuclidKeepsDivisors(g1, x1, g % g1, x - q * x1, d);
    }
  }

  lemma {:induction false} EuclidPositive(g: nat, x: int, g1: nat, x1: int)
    requires g > 0
    ensures Euclid(g, x, g1, x1).0 > 0
    decreases g1
  {
    if g1 != 0 {
      EuclidPositive(g1, x1, g % g1, x - g / g1 * x1);
    }
  }

  lemma DivisorsOfResidue(a: int, m: int, d: nat)
    requires m > 0 && d > 0 && m % d == 0
    ensures (a % m) % d == 0 <==> a % d == 0
  {
    assert a % m == a - (a / m) * m;
    DividesMultiple(d, m, a / m);
    DividesDifference(d, a, (a / m) * m);
  }

  // modInv yields an inverse exactly for coprime arguments and throws otherwise.
  lemma ModInvCorrect(a: int, m: int)
    requires m > 0
    ensures ModInv(a, m).Some? <==> Coprime(a, m)
    ensures ModInv(a, m).Some? ==> 0 <= ModInv(a, m).value < m && Cong(a * ModInv(a, m).value, 1, m)
  {
    var (g, x) := Euclid(m, 0, a % m, 1);
    CongMod(a, m);
    CongFromMultiple(m, a * 0, 1, m);
    EuclidKeepsCong(a, m, m, 0, a % m, 1);
    EuclidPositive(m, 0, a % m, 1);
    if g == 1 {
      CongMod(x, m);
      CongMul(a, a, x % m, x, m);
      forall d: nat | d > 0 && a % d == 0 && m % d == 0 ensures d == 1 {
        DivisorsOfResidue(a, m, d);
        EuclidKeepsDivisors(m, 0, a % m, 1, d);
        if d > 1 {
          DivModUnique(1, 0, 1, d);
        }
      }
    } else {
      DivModUnique(g, 1, 0, g);
      EuclidKeepsDivisors(m, 0, a % m, 1, g);
      DivisorsOfResidue(a, m, g);
    }
  }

  // ---- Primes ----

  ghost predicate IsPrime(p: nat) {
    p >= 2 && forall d: nat :: 1 < d < p ==> p % d != 0
  }

  lemma PrimeCoprime(a: int, p: nat)
    requires IsPrime(p)
    ensures Coprime(a, p) <==> a % p != 0
  {
    if a % p != 0 {
      forall d: nat | d > 0 && a % d == 0 && p % d == 0 ensures d == 1 {
        if d > p {
          DivModUnique(p, 0, p, d);
        }
      }
    } else {
      DivModUnique(p, 1, 0, p);
    }
  }

  lemma Reorder(a: int, i: int, b: int)
    ensures i * (a * b) == (a * i) * b
  {}

  // A factor that is a unit mod a prime cancels.
  lemma PrimeCancel(a: int, b: int, c: int, p: nat)
    requires IsPrime(p) && a % p != 0 && Cong(a * b, a * c, p)
    ensures Cong(b, c, p)
  {
    PrimeCoprime(a, p);
    ModInvCorrect(a, p);
    var i := ModInv(a, p).value;
    CongMul(i, i, a * b, a * c, p);
    CongMul(a * i, 1, b, b, p);
    CongMul(a * i, 1, c, c, p);
    Reorder(a, i, b);
    Reorder(a, i, c);
  }

  // A product vanishes mod a prime only when a factor does.
  lemma PrimeProduct(a: int, b: int, p: nat)
    requires IsPrime(p)
    ensures (a * b) % p == 0 <==> a % p == 0 || b % p == 0
  {
    if a % p == 0 {
      DividesMultiple(p, a, b);
    } else if b % p == 0 {
      DividesMultiple(p, b, a);
    } else if (a * b) % p == 0 {
      PrimeCancel(a, b, 0, p);
    }
  }
}
