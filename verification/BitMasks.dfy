/** Bitwise AND on unbounded naturals, and what a power-of-two mask computes. */
module BitMasks {

  function Pow2(k: nat): (p: nat)
    ensures p > 0
  {
    if k == 0 then 1 else 2 * Pow2(k - 1)
  }

  function BitAnd(a: nat, b: nat): nat {
    if a == 0 || b == 0 then 0
    else 2 * BitAnd(a / 2, b / 2) + (if a % 2 == 1 && b % 2 == 1 then 1 else 0)
  }

  lemma MulGap(k: int, m: nat)
    ensures k >= 1 ==> k * m >= m
    ensures k <= -1 ==> k * m <= 0 - m
  {
  }

  lemma ModUnique(a: int, m: nat, q: int, r: nat)
    requires m > 0 && r < m && a == q * m + r
    ensures a % m == r
  {
    var k := a / m - q;
    assert a == a / m * m + a % m;
    assert k * m == r - a % m;
    MulGap(k, m);
  }

  lemma ModDouble(a: nat, m: nat)
    requires m > 0
    ensures a % (2 * m) == 2 * (a / 2 % m) + a % 2
  {
    var q, r := a / 2 / m, a / 2 % m;
    assert a / 2 == q * m + r;
    assert a == q * (2 * m) + (2 * r + a % 2);
    ModUnique(a, 2 * m, q, 2 * r + a % 2);
  }

  lemma MaskStep(a: nat, m: nat)
    requires a > 0 && m > 0
    ensures BitAnd(a, 2 * m - 1) == 2 * BitAnd(a / 2, m - 1) + a % 2
  {
    assert (2 * m - 1) / 2 == m - 1 && (2 * m - 1) % 2 == 1;
  }

  lemma MaskDouble(a: nat, m: nat)
    requires m > 0 && BitAnd(a / 2, m - 1) == a / 2 % m
    ensures BitAnd(a, 2 * m - 1) == a % (2 * m)
  {
    ModDouble(a, m);
    if a > 0 { MaskStep(a, m); }
  }

  /** Masking with `2^k - 1` takes the remainder modulo `2^k`. */
  lemma {:induction false} MaskIsMod(a: nat, k: nat)
    ensures BitAnd(a, Pow2(k) - 1) == a % Pow2(k)
  {
    if k == 0 {
      ModUnique(a, Pow2(0), a, 0);
    } else {
      MaskIsMod(a / 2, k - 1);
      MaskDouble(a, Pow2(k - 1));
    }
  }

  lemma {:induction false} Pow2Monotone(j: nat, k: nat)
    requires j <= k
    ensures Pow2(j) <= Pow2(k)
  {
    if j < k { Pow2Monotone(j, k - 1); }
  }

  /** `2^j` divides `2^k`: reducing modulo `2^k` first does not change the remainder modulo `2^j`. */
  lemma {:induction false} Pow2Divides(j: nat, k: nat) returns (q: nat)
    requires j <= k
    ensures Pow2(k) == q * Pow2(j)
  {
    if j == k {
      q := 1;
    } else {
      var p := Pow2Divides(j, k - 1);
      q := 2 * p;
      assert 2 * (p * Pow2(j)) == (2 * p) * Pow2(j);
    }
  }

  lemma ModOfMultiple(a: int, q: nat, m: nat)
    requires q > 0 && m > 0 && q * m > 0
    ensures a % (q * m) % m == a % m
  {
    var n := q * m;
    var d, r := a / n, a % n;
    var e := r / m;
    assert a == d * n + r;
    assert r == e * m + r % m;
    assert d * n == (d * q) * m;
    assert (d * q) * m + e * m == (d * q + e) * m;
    ModUnique(a, m, d * q + e, r % m);
  }

  lemma ModMod(a: int, j: nat, k: nat)
    requires j <= k
    ensures a % Pow2(k) % Pow2(j) == a % Pow2(j)
  {
    var q := Pow2Divides(j, k);
    ModOfMultiple(a, q, Pow2(j));
  }

  // ----- Positions on a ring of `m` slots -----

  /** `j` steps after position `a`, for at most one turn. */
  lemma ModStep(a: nat, j: nat, m: nat)
    requires m > 0 && j < m
    ensures (a + j) % m == if a % m + j < m then a % m + j else a % m + j - m
  {
    var q, r := a / m, a % m;
    assert a == q * m + r;
    if r + j < m {
      ModUnique(a + j, m, q, r + j);
    } else {
      assert a + j == (q + 1) * m + (r + j - m) by { assert (q + 1) * m == q * m + m; }
      ModUnique(a + j, m, q + 1, r + j - m);
    }
  }

  /** Different positions less than one turn apart are different slots. */
  lemma ModDistinct(a: nat, i: nat, j: nat, m: nat)
    requires m > 0 && i < j < m
    ensures (a + i) % m != (a + j) % m
  {
    ModStep(a, i, m);
    ModStep(a, j, m);
  }

  /** A full turn comes back to the same slot. */
  lemma ModTurn(a: nat, m: nat)
    requires m > 0
    ensures (a + m) % m == a % m
  {
    assert a == a / m * m + a % m;
    assert a + m == (a / m + 1) * m + a % m by { assert (a / m + 1) * m == a / m * m + m; }
    ModUnique(a + m, m, a / m + 1, a % m);
  }
}
