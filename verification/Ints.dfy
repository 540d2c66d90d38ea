/** Integer arithmetic under names, so that a proof can hide the non-linear bodies. */
module Ints {
  function Times(a: int, b: int): int { a * b }
  function Quot(a: int, b: int): int requires b > 0 { a / b }
  function Rem(a: int, b: int): int requires b > 0 { a % b }

  lemma TimesPositive(a: int, b: int)
    requires a > 0 && b > 0
    ensures Times(a, b) > 0
  {
  }

  lemma TimesNonNegative(a: int, b: int)
    requires a >= 0 && b >= 0
    ensures Times(a, b) >= 0
  {
  }

  lemma QuotOne(a: int)
    ensures Quot(a, 1) == a
  {
  }

  lemma DivMod(a: int, b: int)
    requires b > 0
    ensures Times(Quot(a, b), b) + Rem(a, b) == a && 0 <= Rem(a, b) < b
  {
  }

  lemma TimesBound(q: int, e: int, b: int, r: int)
    requires 0 <= q < e && 0 <= r < b
    ensures 0 <= Times(q, b) + r < Times(b, e)
  {
    assert q * b + r < (q + 1) * b <= e * b;
  }

  lemma MulMonotone(a: int, b: int, c: int)
    requires a <= b && c >= 0
    ensures a * c <= b * c
  {
  }

  lemma SmallMultiple(k: int, b: int)
    requires -b < k * b < b
    ensures k == 0
  {
    if k > 0 {
      MulMonotone(1, k, b);
    } else if k < 0 {
      MulMonotone(k, -1, b);
    }
  }

  lemma QuotBound(x: int, b: int, e: int)
    requires b > 0 && 0 <= x < Times(b, e)
    ensures 0 <= Quot(x, b) < e
  {
    var q := x / b;
    assert q * b <= x;
    if q >= e {
      MulMonotone(e, q, b);
    }
  }

  lemma QuotRemUnique(q: int, b: int, r: int)
    requires 0 <= r < b
    ensures Quot(Times(q, b) + r, b) == q && Rem(Times(q, b) + r, b) == r
  {
    var x := q * b + r;
    var p := x / b;
    assert x == p * b + x % b;
    assert (p - q) * b == r - x % b;
    SmallMultiple(p - q, b);
  }

  lemma TimesOne(a: int)
    ensures Times(a, 1) == a
  {
  }

  lemma TimesFacts(a: int, b: int, c: int)
    ensures Times(a, 1) == a && Times(1, a) == a && Times(0, b) == 0 && Times(a, b) == Times(b, a)
  {
  }

  lemma TimesSwap(a: int, b: int, c: int)
    ensures Times(Times(a, b), c) == Times(Times(a, c), b)
  {
  }

  lemma TimesAssoc(a: int, b: int, c: int)
    ensures Times(a, Times(b, c)) == Times(Times(a, b), c)
  {
  }

  lemma TimesPlus(a: int, b: int, c: int)
    ensures Times(a + b, c) == Times(a, c) + Times(b, c)
  {
  }

  lemma RemAdd(x: int, m: int)
    requires m > 0
    ensures Rem(x + m, m) == Rem(x, m)
  {
    hide *;
    DivMod(x, m);
    TimesPlus(Quot(x, m), 1, m);
    TimesFacts(m, m, 0);
    QuotRemUnique(Quot(x, m) + 1, m, Rem(x, m));
  }

  lemma RemSmall(x: int, m: int)
    requires 0 <= x < m
    ensures Rem(x, m) == x
  {
  }
}
