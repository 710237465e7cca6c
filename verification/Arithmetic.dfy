/** Ceiling division, which sizes every fragment table in the packetizers. */
module Arithmetic {

  /** `usize::div_ceil` */
  function CeilDiv(a: nat, b: nat): nat
    requires b > 0
  {
    if a == 0 then 0 else (a - 1) / b + 1
  }

  /** The quotient is the only multiple count that just covers `a`. */
  lemma CeilDivCovers(a: nat, b: nat)
    requires b > 0
    ensures a <= CeilDiv(a, b) * b
    ensures a > 0 ==> CeilDiv(a, b) > 0 && (CeilDiv(a, b) - 1) * b < a
  {
    if a > 0 {
      var q := (a - 1) / b;
      assert a - 1 == q * b + (a - 1) % b;
      assert (q + 1) * b == q * b + b;
    }
  }

  lemma MulAtMost(a: nat, b: nat, c: nat)
    requires a <= b
    ensures a * c <= b * c
  {
  }

  lemma CeilDivAtMost(a: nat, b: nat, n: nat)
    requires b > 0 && a <= n * b
    ensures CeilDiv(a, b) <= n
  {
    CeilDivCovers(a, b);
    if CeilDiv(a, b) > n {
      MulAtMost(n, CeilDiv(a, b) - 1, b);
    }
  }

  lemma CeilDivAtLeast(a: nat, b: nat, n: nat)
    requires b > 0 && n > 0 && (n - 1) * b < a
    ensures CeilDiv(a, b) >= n
  {
    CeilDivCovers(a, b);
    if CeilDiv(a, b) < n {
      MulAtMost(CeilDiv(a, b), n - 1, b);
    }
  }

  lemma CeilDivIs(a: nat, b: nat, n: nat)
    requires b > 0 && n > 0 && (n - 1) * b < a <= n * b
    ensures CeilDiv(a, b) == n
  {
    CeilDivAtMost(a, b, n);
    CeilDivAtLeast(a, b, n);
  }

  lemma CeilDivOfMultiple(n: nat, b: nat)
    requires b > 0
    ensures CeilDiv(n * b, b) == n
  {
    if n > 0 {
      assert (n - 1) * b == n * b - b;
      CeilDivIs(n * b, b, n);
    }
  }

  /** Larger pieces never need more of them. */
  lemma CeilDivAntitone(a: nat, b: nat, c: nat)
    requires 0 < b <= c
    ensures CeilDiv(a, c) <= CeilDiv(a, b)
  {
    CeilDivCovers(a, b);
    MulAtMost(b, c, CeilDiv(a, b));
    CeilDivAtMost(a, c, CeilDiv(a, b));
  }
}
