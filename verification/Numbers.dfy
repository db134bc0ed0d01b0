module Numbers {
  function Min(a: nat, b: nat): nat {
    if a < b then a else b
  }

  function Max(a: nat, b: nat): nat {
    if a < b then b else a
  }

  function Quotient(a: nat, b: nat): nat
    requires b > 0
  {
    a / b
  }
}
