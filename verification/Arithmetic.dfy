/** Division, remainders and powers of two. */
module Arithmetic {

  function Pow2(n: nat): (p: nat)
    ensures p > 0
  {
    if n == 0 then 1 else 2 * Pow2(n - 1)
  }

  lemma Pow2Doubles(n: nat)
    ensures Pow2(n + 1) == 2 * Pow2(n)
  {
  }

  function Quotient(x: nat, d: nat): nat
    requires d > 0
  {
    x / d
  }

  lemma {:induction false} Pow2Adds(m: nat, n: nat)
    ensures Pow2(m + n) == Pow2(m) * Pow2(n)
  {
    if m != 0 {
      Pow2Adds(m - 1, n);
      assert Pow2(m + n) == 2 * Pow2(m - 1 + n);
      assert 2 * (Pow2(m - 1) * Pow2(n)) == (2 * Pow2(m - 1)) * Pow2(n);
    }
  }

  lemma {:induction false} Pow2Grows(m: nat, n: nat)
    requires m <= n
    ensures Pow2(m) <= Pow2(n)
    decreases n
  {
    if m < n {
      Pow2Grows(m, n - 1);
    }
  }

  lemma {:induction false} TimesGrows(size: nat, a: nat, b: nat)
    requires a < b
    ensures size * a + size <= size * b
    decreases b
  {
    assert size * b == size * (b - 1) + size;
    if a < b - 1 {
      TimesGrows(size, a, b - 1);
    }
  }

  /** Quotient and remainder are unique. */
  lemma RemainderIs(x: nat, size: nat, q: nat, m: nat)
    requires size > 0 && x == size * q + m && m < size
    ensures x % size == m && x / size == q
  {
    var other := x / size;
    if other < q {
      TimesGrows(size, other, q);
    } else if q < other {
      TimesGrows(size, q, other);
    }
  }

  /** One step round a circle of `size` places. */
  lemma NextOnCircle(first: nat, i: nat, size: nat)
    requires first < size && i < size
    ensures ((first + i) % size + 1) % size == (first + i + 1) % size
    ensures (first + i + 1) % size == first <==> i + 1 == size
  {
    hide Pow2;
    var m := if first + i < size then first + i else first + i - size;
    var q := if first + i < size then 0 else 1;
    RemainderIs(first + i, size, q, m);
    if m + 1 < size {
      RemainderIs(first + i + 1, size, q, m + 1);
      RemainderIs(m + 1, size, 0, m + 1);
    } else {
      assert q == 0 && size * 1 == size;
      RemainderIs(first + i + 1, size, 1, 0);
    }
  }
}
