// Facts about quotients, remainders and multiples with a variable divisor.
module Arithmetic {

  lemma MulMonotone(a: int, b: int, d: int)
    requires a <= b && d >= 0
    ensures a * d <= b * d
  {
  }

  lemma DivModUnique(n: int, q: int, r: int, d: int)
    requires d > 0 && 0 <= r < d && n == q * d + r
    ensures n / d == q && n % d == r
  {
    var q' := n / d;
    assert n == q' * d + n % d;
    if q > q' {
      MulMonotone(q' + 1, q, d);
    } else if q < q' {
      MulMonotone(q + 1, q', d);
    }
  }

  lemma DivModIdentity(n: int, d: int)
    requires d > 0
    ensures n == n / d * d + n % d && 0 <= n % d < d
  {
  }

  // Adding multiples of the divisor does not change a remainder.
  lemma ModShift(n: int, q: int, d: int)
    requires d > 0
    ensures (n + q * d) % d == n % d
  {
    DivModIdentity(n, d);
    assert n + q * d == (n / d + q) * d + n % d;
    DivModUnique(n + q * d, n / d + q, n % d, d);
  }

  lemma ModAbsorbed(x: int, y: int, d: int)
    requires d > 0
    ensures (x % d + y) % d == (x + y) % d
  {
    DivModIdentity(x, d);
    ModShift(x % d + y, x / d, d);
    assert x % d + y + x / d * d == x + y;
  }

  // b is a multiple of d, said without a division.
  predicate MultipleOf(b: nat, d: nat)
    requires d > 0
  {
    b == 0 || (b >= d && MultipleOf(b - d, d))
  }

  lemma {:induction false} MultipleOfIsRemainderZero(b: nat, d: nat)
    requires d > 0
    ensures MultipleOf(b, d) <==> b % d == 0
    decreases b
  {
    if b >= d {
      MultipleOfIsRemainderZero(b - d, d);
      ModShift(b - d, 1, d);
    } else {
      DivModUnique(b, 0, b, d);
    }
  }

  // Multiples of a width leave room for a whole group.
  lemma {:induction false} MultipleFits(b: nat, n: nat, d: nat)
    requires d > 0 && MultipleOf(b, d) && MultipleOf(n, d) && b < n
    ensures b + d <= n
    decreases b
  {
    if b > 0 {
      MultipleFits(b - d, n - d, d);
    }
  }

  // A multiple of 2 * m is a multiple of m, at an even place; j past it is at an even or an odd place.
  lemma DoubleMultiple(b: nat, j: nat, m: nat)
    requires m > 0 && MultipleOf(b, 2 * m) && j < 2 * m
    ensures MultipleOf(b, m) && MultipleOf(b + m, m)
    ensures (b + j) / m % 2 == if j < m then 0 else 1
  {
    MultipleOfIsRemainderZero(b, 2 * m);
    DoublePlace(b, j, m);
    MultipleOfIsRemainderZero(b, m);
    MultipleOfIsRemainderZero(b + m, m);
  }

  lemma DoublePlace(b: int, j: int, m: int)
    requires m > 0 && b % (2 * m) == 0 && 0 <= j < 2 * m
    ensures b % m == 0 && (b + m) % m == 0
    ensures (b + j) / m % 2 == if j < m then 0 else 1
  {
    DivModIdentity(b, 2 * m);
    var q := b / (2 * m);
    assert b == (2 * q) * m;
    DivModUnique(b, 2 * q, 0, m);
    DivModUnique(b + m, 2 * q + 1, 0, m);
    if j < m {
      DivModUnique(b + j, 2 * q, j, m);
    } else {
      assert b + j == (2 * q + 1) * m + (j - m);
      DivModUnique(b + j, 2 * q + 1, j - m, m);
    }
  }

  // The group of a place.
  lemma GroupBase(l: nat, d: nat)
    requires d > 0
    ensures l % d <= l && l % d < d && MultipleOf(l - l % d, d)
  {
    DivModIdentity(l, d);
    if l / d < 0 {
      MulMonotone(l / d, -1, d);
    }
    MulMonotone(0, l / d, d);
    DivModUnique(l - l % d, l / d, 0, d);
    MultipleOfIsRemainderZero(l - l % d, d);
  }

  lemma HalveBoth(l: int, m: int)
    requires l >= 0 && m > 0 && m % 2 == 0
    ensures l / m == l / 2 / (m / 2)
  {
    var h := m / 2;
    DivModIdentity(l / 2, h);
    var q, r := l / 2 / h, l / 2 % h;
    assert q * m == 2 * (q * h);
    DivModUnique(l, q, 2 * r + l % 2, m);
  }

  // A position of a least element.
  lemma {:induction false} LeastIndex(counts: seq<nat>) returns (t: nat)
    requires |counts| > 0
    ensures t < |counts| && forall u :: 0 <= u < |counts| ==> counts[t] <= counts[u]
  {
    t := 0;
    if |counts| > 1 {
      var n := |counts| - 1;
      t := LeastIndex(counts[..n]);
      if counts[n] < counts[t] {
        t := n;
      }
    }
  }

  function Sum(counts: seq<nat>): nat {
    if counts == [] then 0 else Sum(counts[..|counts| - 1]) + counts[|counts| - 1]
  }

  // A sum whose terms do not grow does not grow, and falls with any of them.
  lemma {:induction false} SumFalls(before: seq<nat>, after: seq<nat>)
    requires |before| == |after|
    requires forall t :: 0 <= t < |before| ==> after[t] <= before[t]
    ensures Sum(after) <= Sum(before)
    ensures (exists t :: 0 <= t < |before| && after[t] < before[t]) ==> Sum(after) < Sum(before)
  {
    if before != [] {
      var n := |before| - 1;
      assert forall t :: 0 <= t < n ==> before[..n][t] == before[t] && after[..n][t] == after[t];
      SumFalls(before[..n], after[..n]);
    }
  }

  lemma {:induction false} SumBound(counts: seq<nat>, most: nat)
    requires forall t :: 0 <= t < |counts| ==> counts[t] <= most
    ensures Sum(counts) <= |counts| * most
  {
    if counts != [] {
      var n := |counts| - 1;
      SumBound(counts[..n], most);
      assert |counts| * most == n * most + most;
    }
  }
}
