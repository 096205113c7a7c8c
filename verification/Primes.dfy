// Prime numbers: trial division is enough, every number has a prime divisor, there is no last one.
module Primes {
  import opened Arith

  predicate Divides(d: int, n: int)
    requires 1 <= d
  {
    n % d == 0
  }

  // No d in [2, b) divides n.
  ghost predicate Free(n: int, b: int) {
    forall d :: 2 <= d < b ==> !Divides(d, n)
  }

  ghost predicate IsPrime(p: int) {
    2 <= p && Free(p, p)
  }

  lemma DividesTransitive(e: int, d: int, n: int)
    requires 1 <= e && 1 <= d && Divides(e, d) && Divides(d, n)
    ensures Divides(e, n)
  {
    DivMod(d, e);
    DivMod(n, d);
    MulSwap(e, d / e, n / d);
    MultipleMod(e, (d / e) * (n / d));
  }

  // The smallest divisor above 1 is prime.
  lemma {:induction false} SmallestDivisor(n: int, from: int) returns (d: int)
    requires 2 <= from <= n && Free(n, from)
    ensures from <= d <= n && Divides(d, n) && Free(n, d) && IsPrime(d)
    decreases n - from
  {
    if Divides(from, n) {
      d := from;
      forall e | 2 <= e < d
        ensures !Divides(e, d)
      {
        if Divides(e, d) {
          DividesTransitive(e, d, n);
        }
      }
    } else {
      assert from != n by {
        DivModUnique(n, n, 1, 0);
      }
      d := SmallestDivisor(n, from + 1);
    }
  }

  // Without a divisor up to the square root there is none.
  lemma FreeToRoot(n: int, b: int)
    requires 2 <= n && 2 <= b && Free(n, b) && n / b < b
    ensures IsPrime(n)
  {
    forall d | 2 <= d < n
      ensures !Divides(d, n)
    {
      if d >= b && Divides(d, n) {
        Cofactor(d, b, n);
      }
    }
  }

  // A divisor at or above b leaves one below it.
  lemma Cofactor(d: int, b: int, n: int)
    requires 2 <= b <= d < n && n / b < b && Divides(d, n)
    ensures !Free(n, b)
  {
    var q := n / d;
    DivMod(n, d);
    BelowSquare(n, b);
    CofactorRange(d, b, n, q);
    MultipleMod(q, d);
    assert Divides(q, n);
  }

  lemma BelowSquare(n: int, b: int)
    requires 1 <= b && n / b < b
    ensures n < b * b
  {
    DivMod(n, b);
    MulMono(b, n / b, b - 1);
    MulAdd(b, b, 1);
  }

  lemma CofactorRange(d: int, b: int, n: int, q: int)
    requires 2 <= b <= d < n && n == d * q && n < b * b
    ensures 2 <= q < b && n == q * d
  {
    if q <= 1 {
      MulMono(d, q, 1);
    } else if q >= b {
      MulMono(d, b, q);
      MulMono(b, b, d);
    }
  }

  // A number with no prime divisor below b has no divisor below b.
  lemma FreeOfPrimes(n: int, b: int)
    requires forall p :: 2 <= p < b && IsPrime(p) ==> !Divides(p, n)
    ensures Free(n, b)
  {
    forall d | 2 <= d < b
      ensures !Divides(d, n)
    {
      if Divides(d, n) {
        var p := SmallestDivisor(d, 2);
        DividesTransitive(p, d, n);
      }
    }
  }

  function Factorial(n: nat): (f: int)
    ensures 1 <= f
  {
    if n == 0 then 1
    else
      MulAtLeast(n, Factorial(n - 1));
      n * Factorial(n - 1)
  }

  lemma {:induction false} DividesFactorial(d: int, n: nat)
    requires 1 <= d <= n
    ensures Divides(d, Factorial(n))
  {
    if d == n {
      MultipleMod(n, Factorial(n - 1));
    } else {
      DividesFactorial(d, n - 1);
      DividesMultiple(d, Factorial(n - 1), n);
    }
  }

  lemma DividesMultiple(d: int, x: int, k: int)
    requires 1 <= d && Divides(d, x)
    ensures Divides(d, k * x)
  {
    var q := x / d;
    DivMod(x, d);
    MulSwap(k, d, q);
    assert k * x == d * (k * q) by {
      assert x == d * q;
    }
    MultipleMod(d, k * q);
  }

  // Some prime lies above n: a prime divisor of n! + 1.
  lemma PrimeAbove(n: nat) returns (p: int)
    ensures IsPrime(p) && n < p
  {
    var m := Factorial(n) + 1;
    p := SmallestDivisor(m, 2);
    if p <= n {
      DividesFactorial(p, n);
      DivMod(Factorial(n), p);
      DivModUnique(m, p, Factorial(n) / p, 1);
    }
  }
}
