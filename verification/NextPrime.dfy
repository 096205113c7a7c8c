// The least prime from n on: a table up to 211, then the numbers coprime to 210 in order, each
// tried by table primes and by the same wheel of potential primes.
module NextPrime {
  import opened Arith
  import opened Primes

  const WHEEL: int := 210

  // The constant arrays small_primes and indices of runtime/lib/libcxx/src/hash.cpp, row by row.
  const PRIMES0: seq<int> := [0, 2, 3, 5, 7, 11, 13, 17, 19, 23, 29, 31, 37, 41, 43, 47]
  const PRIMES1: seq<int> := [53, 59, 61, 67, 71, 73, 79, 83, 89, 97, 101, 103, 107, 109, 113, 127]
  const PRIMES2: seq<int> := [131, 137, 139, 149, 151, 157, 163, 167, 173, 179, 181, 191, 193, 197, 199, 211]
  const SMALL_PRIMES: seq<int> := PRIMES0 + PRIMES1 + PRIMES2

  const INDICES0: seq<int> := [1, 11, 13, 17, 19, 23, 29, 31, 37, 41, 43, 47, 53, 59, 61, 67]
  const INDICES1: seq<int> := [71, 73, 79, 83, 89, 97, 101, 103, 107, 109, 113, 121, 127, 131, 137, 139]
  const INDICES2: seq<int> := [143, 149, 151, 157, 163, 167, 169, 173, 179, 181, 187, 191, 193, 197, 199, 209]
  const INDICES: seq<int> := INDICES0 + INDICES1 + INDICES2

  // What the unrolled trial loop adds to the divisor, step by step, once around the wheel.
  const STEPS0: seq<int> := [10, 2, 4, 2, 4, 6, 2, 6, 4, 2, 4, 6, 6, 2, 6, 4]
  const STEPS1: seq<int> := [2, 6, 4, 6, 8, 4, 2, 4, 2, 4, 8, 6, 4, 6, 2, 4]
  const STEPS2: seq<int> := [6, 2, 6, 6, 4, 2, 4, 6, 2, 6, 4, 2, 4, 2, 10, 2]
  const STEPS: seq<int> := STEPS0 + STEPS1 + STEPS2

  // ----- The tables -----------------------------------------------------------------------------

  ghost predicate Sorted(a: seq<int>) {
    forall i, j :: 0 <= i < j < |a| ==> a[i] < a[j]
  }

  lemma SortedJoin(a: seq<int>, b: seq<int>)
    requires Sorted(a) && Sorted(b) && (a != [] && b != [] ==> a[|a| - 1] < b[0])
    ensures Sorted(a + b)
  {
  }

  lemma SmallPrimesSorted()
    ensures Sorted(SMALL_PRIMES)
  {
    SortedJoin(PRIMES0, PRIMES1);
    SortedJoin(PRIMES0 + PRIMES1, PRIMES2);
  }

  lemma IndicesSorted()
    ensures Sorted(INDICES)
  {
    SortedJoin(INDICES0, INDICES1);
    SortedJoin(INDICES0 + INDICES1, INDICES2);
  }

  // One of the primes up to 13, or divisible by none of them.
  predicate SmallPrime(m: int) {
    || m == 2 || m == 3 || m == 5 || m == 7 || m == 11 || m == 13
    || (m % 2 != 0 && m % 3 != 0 && m % 5 != 0 && m % 7 != 0 && m % 11 != 0 && m % 13 != 0)
  }

  lemma PrimesTo50(m: int)
    requires 2 <= m < 50
    ensures m in PRIMES0 <==> SmallPrime(m)
  {
  }

  lemma PrimesTo76(m: int)
    requires 50 <= m < 76
    ensures m in PRIMES1 <==> SmallPrime(m)
  {
  }

  lemma PrimesTo102(m: int)
    requires 76 <= m < 102
    ensures m in PRIMES1 <==> SmallPrime(m)
  {
  }

  lemma PrimesTo128(m: int)
    requires 102 <= m < 128
    ensures m in PRIMES1 <==> SmallPrime(m)
  {
  }

  lemma PrimesTo150(m: int)
    requires 128 <= m < 150
    ensures m in PRIMES2 <==> SmallPrime(m)
  {
  }

  lemma PrimesTo171(m: int)
    requires 150 <= m < 171
    ensures m in PRIMES2 <==> SmallPrime(m)
  {
  }

  lemma PrimesTo191(m: int)
    requires 171 <= m < 191
    ensures m in PRIMES2 <==> SmallPrime(m)
  {
  }

  lemma PrimesTo201(m: int)
    requires 191 <= m < 201
    ensures m in PRIMES2 <==> SmallPrime(m)
  {
  }

  lemma PrimesTo212(m: int)
    requires 201 <= m < 212
    ensures m in PRIMES2 <==> SmallPrime(m)
  {
  }

  // No multiple of 2, 3, 5 or 7.
  predicate Coprime(m: int) {
    m % 2 != 0 && m % 3 != 0 && m % 5 != 0 && m % 7 != 0
  }

  lemma IndicesRow0Low(m: int)
    requires 0 <= m < 35
    ensures m in INDICES0 <==> Coprime(m)
  {
  }

  lemma IndicesRow0High(m: int)
    requires 35 <= m < 70
    ensures m in INDICES0 <==> Coprime(m)
  {
  }

  lemma IndicesRow0(m: int)
    requires 0 <= m < 70
    ensures m in INDICES0 <==> Coprime(m)
  {
    if m < 35 { IndicesRow0Low(m); } else { IndicesRow0High(m); }
  }

  lemma IndicesRow1Low(m: int)
    requires 70 <= m < 105
    ensures m in INDICES1 <==> Coprime(m)
  {
  }

  lemma IndicesRow1High(m: int)
    requires 105 <= m < 140
    ensures m in INDICES1 <==> Coprime(m)
  {
  }

  lemma IndicesRow1(m: int)
    requires 70 <= m < 140
    ensures m in INDICES1 <==> Coprime(m)
  {
    if m < 105 { IndicesRow1Low(m); } else { IndicesRow1High(m); }
  }

  lemma IndicesRow2Low(m: int)
    requires 140 <= m < 175
    ensures m in INDICES2 <==> Coprime(m)
  {
  }

  lemma IndicesRow2High(m: int)
    requires 175 <= m < 210
    ensures m in INDICES2 <==> Coprime(m)
  {
  }

  lemma IndicesRow2(m: int)
    requires 140 <= m < 210
    ensures m in INDICES2 <==> Coprime(m)
  {
    if m < 175 { IndicesRow2Low(m); } else { IndicesRow2High(m); }
  }

  lemma RowRanges()
    ensures forall i :: 0 <= i < 16 ==> 0 <= PRIMES0[i] < 50 <= PRIMES1[i] < 128 <= PRIMES2[i] < 212
    ensures forall i :: 0 <= i < 16 ==> 0 <= INDICES0[i] < 70 <= INDICES1[i] < 140 <= INDICES2[i] < 210
  {
  }

  lemma TableIs(m: int)
    ensures m in SMALL_PRIMES <==> m in PRIMES0 || m in PRIMES1 || m in PRIMES2
    ensures m in INDICES <==> m in INDICES0 || m in INDICES1 || m in INDICES2
  {
  }

  // The table holds exactly the small primes.
  lemma InTable(m: int)
    requires 2 <= m < 212
    ensures m in SMALL_PRIMES <==> SmallPrime(m)
  {
    RowRanges();
    TableIs(m);
    if m < 50 {
      PrimesTo50(m);
    } else if m < 76 {
      PrimesTo76(m);
    } else if m < 102 {
      PrimesTo102(m);
    } else if m < 128 {
      PrimesTo128(m);
    } else if m < 150 {
      PrimesTo150(m);
    } else if m < 171 {
      PrimesTo171(m);
    } else if m < 191 {
      PrimesTo191(m);
    } else if m < 201 {
      PrimesTo201(m);
    } else {
      PrimesTo212(m);
    }
  }

  // The indices are exactly the residues coprime to 210.
  lemma InIndices(m: int)
    requires 0 <= m < WHEEL
    ensures m in INDICES <==> Coprime(m)
  {
    RowRanges();
    TableIs(m);
    if m < 70 {
      IndicesRow0(m);
    } else if m < 140 {
      IndicesRow1(m);
    } else {
      IndicesRow2(m);
    }
  }

  lemma StepsInRow(j: nat)
    requires j < 16
    ensures j < 15 ==> INDICES0[j] + STEPS0[j] == INDICES0[j + 1] && STEPS0[j] > 0
    ensures j < 15 ==> INDICES1[j] + STEPS1[j] == INDICES1[j + 1] && STEPS1[j] > 0
    ensures j < 15 ==> INDICES2[j] + STEPS2[j] == INDICES2[j + 1] && STEPS2[j] > 0
  {
  }

  lemma RowEnds()
    ensures INDICES0[15] + STEPS0[15] == INDICES1[0] && INDICES1[15] + STEPS1[15] == INDICES2[0]
    ensures INDICES2[15] + STEPS2[15] == WHEEL + INDICES0[0]
    ensures STEPS0[15] > 0 && STEPS1[15] > 0 && STEPS2[15] > 0
  {
  }

  // The steps lead from each index to the next and around.
  lemma StepsFollow(j: nat)
    requires j < 48
    ensures STEPS[j] > 0
    ensures j < 47 ==> INDICES[j] + STEPS[j] == INDICES[j + 1]
    ensures j == 47 ==> INDICES[j] + STEPS[j] == WHEEL + INDICES[0]
  {
    RowEnds();
    var k := if j < 16 then j else if j < 32 then j - 16 else j - 32;
    StepsInRow(k);
    ThreeRows(INDICES0, INDICES1, INDICES2, j);
    ThreeRows(STEPS0, STEPS1, STEPS2, j);
    if j < 47 {
      ThreeRows(INDICES0, INDICES1, INDICES2, j + 1);
    } else {
      ThreeRows(INDICES0, INDICES1, INDICES2, 0);
    }
  }

  lemma ThreeRows(r0: seq<int>, r1: seq<int>, r2: seq<int>, j: nat)
    requires |r0| == 16 && |r1| == 16 && |r2| == 16 && j < 48
    ensures (r0 + r1 + r2)[j] == if j < 16 then r0[j] else if j < 32 then r1[j - 16] else r2[j - 32]
  {
  }

  // ----- Small numbers --------------------------------------------------------------------------------

  // Below 289 the test by primes up to 13 decides.
  lemma SmallPrimeIs(m: int)
    requires 2 <= m < 289
    ensures SmallPrime(m) <==> IsPrime(m)
  {
    if IsPrime(m) {
      PrimePasses(m);
    } else if SmallPrime(m) {
      PassedIsPrime(m);
    }
  }

  lemma PrimePasses(m: int)
    requires IsPrime(m)
    ensures SmallPrime(m)
  {
    assert m > 2 ==> !Divides(2, m);
    assert m > 3 ==> !Divides(3, m);
    assert m > 5 ==> !Divides(5, m);
    assert m > 7 ==> !Divides(7, m);
    assert m > 11 ==> !Divides(11, m);
    assert m > 13 ==> !Divides(13, m);
  }

  lemma PassedIsPrime(m: int)
    requires 2 <= m < 289 && SmallPrime(m)
    ensures IsPrime(m)
  {
    if m <= 13 {
      assert m == 2 || Free(m, 3);
      assert m < 11 || Free(m, 4);
      if m > 2 {
        FreeToRoot(m, if m < 11 then 3 else 4);
      }
    } else {
      forall p | 2 <= p < 17 && IsPrime(p)
        ensures !Divides(p, m)
      {
        PrimePasses(p);
      }
      FreeOfPrimes(m, 17);
      FreeToRoot(m, 17);
    }
  }

  // ----- The wheel ------------------------------------------------------------------------------------

  // Being coprime to 210 depends only on the residue.
  lemma CoprimeResidue(d: int)
    requires 0 <= d
    ensures Coprime(d) <==> Coprime(d % WHEEL)
  {
    DivMod(d, WHEEL);
    var k, r := d / WHEEL, d % WHEEL;
    DivModUnique(d, 2, 105 * k + r / 2, r % 2);
    DivModUnique(d, 3, 70 * k + r / 3, r % 3);
    DivModUnique(d, 5, 42 * k + r / 5, r % 5);
    DivModUnique(d, 7, 30 * k + r / 7, r % 7);
  }

  // Nothing between two neighbours on the wheel is coprime to 210.
  lemma BetweenIndices(k: nat, j: nat, d: int)
    requires j < 48 && WHEEL * k + INDICES[j] < d < WHEEL * k + INDICES[j] + STEPS[j]
    ensures !Coprime(d)
  {
    IndicesSorted();
    StepsFollow(j);
    RowRanges();
    ThreeRows(INDICES0, INDICES1, INDICES2, j);
    var r := d - WHEEL * k;
    CoprimeResidue(d);
    if r < WHEEL {
      DivModUnique(d, WHEEL, k, r);
      NotIndex(r, j);
      InIndices(r);
    } else {
      DivModUnique(d, WHEEL, k + 1, 0);
    }
  }

  // A number strictly between neighbours of a sorted table is not in it.
  lemma NotIndex(r: int, j: nat)
    requires j < 48 && INDICES[j] < r && (j < 47 ==> r < INDICES[j + 1])
    ensures r !in INDICES
  {
    IndicesSorted();
    SkippedOver(INDICES, r, j + 1);
  }

  lemma SkippedOver(a: seq<int>, m: int, i: nat)
    requires Sorted(a) && i <= |a| && (i > 0 ==> a[i - 1] < m) && (i < |a| ==> m < a[i])
    ensures m !in a
  {
    forall k | 0 <= k < |a|
      ensures a[k] != m
    {
    }
  }

  // Above 7, a number that is not coprime to 210 is not prime.
  lemma NotPrime(m: int)
    requires 7 < m && !Coprime(m)
    ensures !IsPrime(m)
  {
    assert m % 2 == 0 ==> Divides(2, m);
    assert m % 3 == 0 ==> Divides(3, m);
    assert m % 5 == 0 ==> Divides(5, m);
    assert m % 7 == 0 ==> Divides(7, m);
  }

  // A number coprime to 210 has no divisor that is not.
  lemma CoprimeFree(n: int, d: int)
    requires 2 <= d && Coprime(n) && !Coprime(d)
    ensures !Divides(d, n)
  {
    if Divides(d, n) {
      if d % 2 == 0 {
        DividesTransitive(2, d, n);
      } else if d % 3 == 0 {
        DividesTransitive(3, d, n);
      } else if d % 5 == 0 {
        DividesTransitive(5, d, n);
      } else {
        DividesTransitive(7, d, n);
      }
    }
  }

  // Stepping the divisor from one potential prime to the next misses no divisor.
  lemma WheelStep(n: int, k: nat, j: nat)
    requires j < 48 && Coprime(n) && 2 <= WHEEL * k + INDICES[j]
    requires Free(n, WHEEL * k + INDICES[j]) && !Divides(WHEEL * k + INDICES[j], n)
    ensures Free(n, WHEEL * k + INDICES[j] + STEPS[j])
  {
    var i := WHEEL * k + INDICES[j];
    forall d | 2 <= d < i + STEPS[j]
      ensures !Divides(d, n)
    {
      if d > i {
        BetweenIndices(k, j, d);
        CoprimeFree(n, d);
      }
    }
  }

  // Stepping from one table prime to the next misses none either.
  lemma TableStep(n: int, j: nat)
    requires 1 <= j < 47 && Free(n, SMALL_PRIMES[j]) && !Divides(SMALL_PRIMES[j], n)
    ensures Free(n, SMALL_PRIMES[j + 1])
  {
    SmallPrimesSorted();
    EntryRange(j);
    EntryRange(j + 1);
    forall p | 2 <= p < SMALL_PRIMES[j + 1] && IsPrime(p)
      ensures !Divides(p, n)
    {
      SmallPrimeIs(p);
      InTable(p);
      var i :| 0 <= i < 48 && SMALL_PRIMES[i] == p;
      assert i <= j;
    }
    FreeOfPrimes(n, SMALL_PRIMES[j + 1]);
  }

  lemma EntryRange(j: nat)
    requires 1 <= j < 48
    ensures 2 <= SMALL_PRIMES[j] < 212
  {
    RowRanges();
    ThreeRows(PRIMES0, PRIMES1, PRIMES2, j);
    SmallPrimesSorted();
    FirstEntries();
  }

  lemma FirstEntries()
    ensures SMALL_PRIMES[1] == 2 && SMALL_PRIMES[5] == 11 && SMALL_PRIMES[47] == 211 && SMALL_PRIMES[0] == 0
    ensures INDICES[0] == 1 && INDICES[47] == 209
  {
    ThreeRows(PRIMES0, PRIMES1, PRIMES2, 1);
    ThreeRows(PRIMES0, PRIMES1, PRIMES2, 5);
    ThreeRows(PRIMES0, PRIMES1, PRIMES2, 47);
    ThreeRows(INDICES0, INDICES1, INDICES2, 47);
  }

  // Coprime to 210 means free of divisors up to 10.
  lemma CoprimeStart(n: int)
    requires Coprime(n)
    ensures Free(n, 11)
  {
    forall d | 2 <= d < 11
      ensures !Divides(d, n)
    {
      SmallNotCoprime(d);
      CoprimeFree(n, d);
    }
  }

  lemma SmallNotCoprime(d: int)
    requires 2 <= d < 11
    ensures !Coprime(d)
  {
  }

  // ----- The code ----------------------------------------------------------------------------------------

  // std::lower_bound: the first element not below x.
  method LowerBound(a: seq<int>, x: int) returns (i: nat)
    requires Sorted(a)
    ensures i <= |a| && (forall k :: 0 <= k < i ==> a[k] < x) && (forall k :: i <= k < |a| ==> x <= a[k])
  {
    i := 0;
    var len := |a|;
    while len != 0
      invariant 0 <= i && 0 <= len && i + len <= |a|
      invariant forall k :: 0 <= k < i ==> a[k] < x
      invariant forall k :: i + len <= k < |a| ==> x <= a[k]
      decreases len
    {
      var half := len / 2;
      if a[i + half] < x {
        i := i + half + 1;
        len := len - half - 1;
      } else {
        len := half;
      }
    }
  }

  // Trial division of a candidate: by the table primes from 11 on, then around the wheel from 211.
  method IsPrimeCandidate(n: int) returns (prime: bool)
    requires 211 < n && Coprime(n)
    ensures prime <==> IsPrime(n)
  {
    FirstEntries();
    CoprimeStart(n);
    var j := 5;
    while j < 47
      invariant 5 <= j <= 47 && Free(n, SMALL_PRIMES[j])
    {
      EntryRange(j);
      var p := SMALL_PRIMES[j];
      var q := n / p;
      if q < p {
        FreeToRoot(n, p);
        return true;
      }
      if n == q * p {
        Composite(n, p);
        return false;
      }
      NoDivisor(n, p);
      TableStep(n, j);
      j := j + 1;
    }
    var i := 211;
    var s := 0;
    ghost var k := 1;
    while true
      invariant 0 <= s < 48 && i == WHEEL * k + INDICES[s] && 1 <= k && 211 <= i && Free(n, i)
      decreases n - i
    {
      var q := n / i;
      if q < i {
        FreeToRoot(n, i);
        return true;
      }
      if n == q * i {
        RootBelow(n, i);
        Composite(n, i);
        return false;
      }
      RootBelow(n, i);
      NoDivisor(n, i);
      WheelStep(n, k, s);
      StepsFollow(s);
      i := i + STEPS[s];
      if s == 47 {
        k := k + 1;
      }
      s := if s == 47 then 0 else s + 1;
    }
  }

  lemma Composite(n: int, p: int)
    requires 2 <= p < n && n == n / p * p
    ensures !IsPrime(n)
  {
    MultipleMod(p, n / p);
    assert Divides(p, n);
  }

  lemma NoDivisor(n: int, p: int)
    requires 2 <= p && n != n / p * p
    ensures !Divides(p, n)
  {
    DivMod(n, p);
  }

  lemma RootBelow(n: int, i: int)
    requires 2 <= i <= n / i
    ensures i < n
  {
    DivMod(n, i);
    MulMono(i, 2, n / i);
  }

  // The largest prime a 32-bit size_t holds.
  const MAX_PRIME: int := 0xFFFF_FFFB

  datatype Result = Prime(value: int) | Overflow

  // __next_prime for a 32-bit size_t: throws beyond the last prime, otherwise the least prime
  // from n on, or 0 for 0.
  method NextPrime(n: nat) returns (r: Result)
    ensures r == Overflow <==> n > 0xFFFF_FFFB
    ensures n == 0 ==> r == Prime(0)
    ensures 0 < n <= 0xFFFF_FFFB ==>
              r.Prime? && IsPrime(r.value) && n <= r.value && forall m :: n <= m < r.value ==> !IsPrime(m)
  {
    if n > MAX_PRIME {
      return Overflow;
    }
    var p := LeastPrimeFrom(n);
    r := Prime(p);
  }

  // The search itself, over unbounded numbers.
  method LeastPrimeFrom(n0: nat) returns (r: nat)
    ensures n0 == 0 ==> r == 0
    ensures n0 > 0 ==> IsPrime(r) && n0 <= r && forall m :: n0 <= m < r ==> !IsPrime(m)
  {
    FirstEntries();
    SmallPrimesSorted();
    if n0 <= SMALL_PRIMES[47] {
      var i := LowerBound(SMALL_PRIMES, n0);
      r := SMALL_PRIMES[i];
      FromTable(n0, i);
      return;
    }
    IndicesSorted();
    var k0 := n0 / WHEEL;
    DivMod(n0, WHEEL);
    var at := LowerBound(INDICES, n0 - k0 * WHEEL);
    r := WHEEL * k0 + INDICES[at];
    FirstCandidate(n0, k0, at);
    ghost var bound := PrimeAbove(n0);
    while true
      invariant 1 <= k0 && at < 48 && r == WHEEL * k0 + INDICES[at] && 211 < r && n0 <= r
      invariant forall m :: n0 <= m < r ==> !IsPrime(m)
      decreases bound - r
    {
      CandidateCoprime(k0, at);
      var prime := IsPrimeCandidate(r);
      if prime {
        return;
      }
      NextCandidate(n0, k0, at);
      StepsFollow(at);
      at := at + 1;
      if at == 48 {
        k0 := k0 + 1;
        at := 0;
      }
      r := WHEEL * k0 + INDICES[at];
    }
  }

  lemma FromTable(n: nat, i: nat)
    requires n <= 211 && i <= 48
    requires (forall k :: 0 <= k < i ==> SMALL_PRIMES[k] < n) && (forall k :: i <= k < 48 ==> n <= SMALL_PRIMES[k])
    ensures i < 48 && SMALL_PRIMES[i] >= 0 && (n == 0 ==> SMALL_PRIMES[i] == 0)
    ensures n > 0 ==> IsPrime(SMALL_PRIMES[i]) && n <= SMALL_PRIMES[i] &&
                      forall m :: n <= m < SMALL_PRIMES[i] ==> !IsPrime(m)
  {
    FirstEntries();
    SmallPrimesSorted();
    assert i < 48 by {
      assert SMALL_PRIMES[47] >= n;
    }
    if n > 0 {
      assert i >= 1;
      EntryRange(i);
      InTable(SMALL_PRIMES[i]);
      SmallPrimeIs(SMALL_PRIMES[i]);
      forall m | n <= m < SMALL_PRIMES[i]
        ensures !IsPrime(m)
      {
        if 2 <= m {
          SkippedOver(SMALL_PRIMES, m, i);
          InTable(m);
          SmallPrimeIs(m);
        }
      }
    }
  }

  lemma CandidateCoprime(k: nat, j: nat)
    requires j < 48
    ensures Coprime(WHEEL * k + INDICES[j])
  {
    IndexIsCoprime(j);
    var n, r := WHEEL * k + INDICES[j], INDICES[j];
    DivModUnique(n, WHEEL, k, r);
    CoprimeResidue(n);
  }

  lemma IndexIsCoprime(j: nat)
    requires j < 48
    ensures 0 <= INDICES[j] < WHEEL && Coprime(INDICES[j])
  {
    RowRanges();
    ThreeRows(INDICES0, INDICES1, INDICES2, j);
    InIndices(INDICES[j]);
  }

  lemma FirstCandidate(n: nat, k: nat, j: nat)
    requires 211 < n && k == n / WHEEL && j <= 48
    requires (forall i :: 0 <= i < j ==> INDICES[i] < n - k * WHEEL)
    requires (forall i :: j <= i < 48 ==> n - k * WHEEL <= INDICES[i])
    ensures 1 <= k && j < 48 && n <= WHEEL * k + INDICES[j]
    ensures forall m :: n <= m < WHEEL * k + INDICES[j] ==> !IsPrime(m)
  {
    DivMod(n, WHEEL);
    FirstEntries();
    assert j < 48 by {
      assert INDICES[47] == 209;
    }
    forall m | n <= m < WHEEL * k + INDICES[j]
      ensures !IsPrime(m)
    {
      if j > 0 {
        StepsFollow(j - 1);
        BetweenIndices(k, j - 1, m);
        NotPrime(m);
      } else {
        DivModUnique(m, WHEEL, k, 0);
        CoprimeResidue(m);
        NotPrime(m);
      }
    }
  }

  lemma NextCandidate(n: nat, k: nat, j: nat)
    requires 1 <= k && j < 48 && 211 < WHEEL * k + INDICES[j] && !IsPrime(WHEEL * k + INDICES[j])
    requires forall m :: n <= m < WHEEL * k + INDICES[j] ==> !IsPrime(m)
    ensures forall m :: n <= m < WHEEL * k + INDICES[j] + STEPS[j] ==> !IsPrime(m)
  {
    var r := WHEEL * k + INDICES[j];
    forall m | n <= m < r + STEPS[j]
      ensures !IsPrime(m)
    {
      if m > r {
        BetweenIndices(k, j, m);
        NotPrime(m);
      }
    }
  }
}
