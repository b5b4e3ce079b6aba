/** The few facts about multiples that the modules need. */
module Multiples {
  lemma DivMod(a: int, m: int)
    requires m > 0
    ensures a == (a / m) * m + a % m && 0 <= a % m < m
  {
  }

  lemma NextMultiple(j: int, k: int, m: int)
    requires m > 0 && j < k
    ensures (j + 1) * m <= k * m && (j + 1) * m == j * m + m
  {
    var d := k - j - 1;
    assert k * m == (j + 1) * m + d * m;
  }

  lemma MulMonotone(j: nat, k: nat, m: nat)
    requires j <= k
    ensures j * m <= k * m && m * j <= m * k
  {
    assert k * m == j * m + (k - j) * m;
  }

  /** Quotient and remainder are unique. */
  lemma DivModUnique(a: int, q: int, r: int, m: int)
    requires m > 0 && 0 <= r < m && a == q * m + r
    ensures a / m == q && a % m == r
  {
    DivMod(a, m);
    var q' := a / m;
    if q' < q {
      NextMultiple(q', q, m);
    } else if q < q' {
      NextMultiple(q, q', m);
    }
  }

  lemma AddMultiple(a: int, m: int)
    requires m > 0
    ensures (a + m) % m == a % m
  {
    DivMod(a, m);
    NextMultiple(a / m, a / m + 1, m);
    DivModUnique(a + m, a / m + 1, a % m, m);
  }

  lemma MultiplesApart(o: int, p: int, m: int)
    requires m > 0 && o % m == 0 && p % m == 0 && o < p
    ensures o + m <= p
  {
    DivMod(o, m);
    DivMod(p, m);
    if o / m < p / m {
      NextMultiple(o / m, p / m, m);
    } else if p / m < o / m {
      NextMultiple(p / m, o / m, m);
    }
  }

  /** The first multiple at or after a number. */
  lemma MultipleFrom(o: nat, m: nat) returns (p: nat)
    requires m > 0
    ensures o <= p < o + m && p % m == 0
  {
    DivMod(o, m);
    p := o;
    if o % m > 0 {
      p := o + m - o % m;
      NextMultiple(o / m, o / m + 1, m);
      DivModUnique(p, o / m + 1, 0, m);
    }
  }
}
