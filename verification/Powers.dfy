/** Integer powers, geometric sums and the two bit tricks the code base uses on `usize`:
    rounding up to a power of two and counting trailing zeros. */
module Powers {

  /** The product by repeated addition. */
  function Times(x: nat, y: nat): (r: nat)
    ensures x > 0 ==> r >= y
    ensures x > 1 && y > 0 ==> r > y
  {
    if x == 0 then 0 else y + Times(x - 1, y)
  }

  lemma {:induction false} TimesProduct(x: nat, y: nat)
    ensures Times(x, y) == x * y
  {
    if x > 0 { TimesProduct(x - 1, y); }
  }

  function Pow(b: nat, n: nat): (r: nat)
    ensures b > 0 ==> r > 0
  {
    if n == 0 then 1 else b * Pow(b, n - 1)
  }

  lemma PowStep(b: nat, n: nat)
    ensures Pow(b, n + 1) == b * Pow(b, n) == Pow(b, n) * b
  {}

  ghost predicate IsPower(b: nat, n: nat) {
    exists e: nat :: n == Pow(b, e)
  }

  ghost predicate IsPow2(n: nat) {
    IsPower(2, n)
  }

  /** b^0 + b^1 + ... + b^h: the size of a perfect b-ary tree with h + 1 rows. */
  ghost function Geo(b: nat, h: nat): (r: nat)
    ensures r > 0
  {
    if h == 0 then 1 else Pow(b, h) + Geo(b, h - 1)
  }

  lemma {:induction false} PowAdd(b: nat, m: nat, n: nat)
    ensures Pow(b, m + n) == Pow(b, m) * Pow(b, n)
  {
    if m == 0 {
    } else {
      PowAdd(b, m - 1, n);
      PowStep(b, m - 1);
      PowStep(b, m - 1 + n);
      MulAssoc(b, Pow(b, m - 1), Pow(b, n));
    }
  }

  lemma {:induction false} PowPow(b: nat, m: nat, n: nat)
    ensures Pow(Pow(b, m), n) == Pow(b, m * n)
  {
    if n == 0 {
    } else {
      PowPow(b, m, n - 1);
      PowStep(Pow(b, m), n - 1);
      PowAdd(b, m, m * (n - 1));
      assert m * n == m + m * (n - 1);
    }
  }

  lemma {:induction false} PowStrict(b: nat, m: nat, n: nat)
    requires b >= 2 && m < n
    ensures Pow(b, m) < Pow(b, n)
    decreases n
  {
    if m + 1 < n {
      PowStrict(b, m, n - 1);
    }
  }

  lemma PowMonotone(b: nat, m: nat, n: nat)
    requires b >= 1 && m <= n
    ensures Pow(b, m) <= Pow(b, n)
  {}

  /** The top rows of a tree hold fewer nodes than the row below them. */
  lemma {:induction false} GeoBelowPow(b: nat, h: nat)
    requires b >= 2
    ensures Geo(b, h) < Pow(b, h + 1)
  {
    if h > 0 { GeoBelowPow(b, h - 1); }
    PowStep(b, h);
    MulMono(2, b, Pow(b, h));
  }

  lemma {:induction false} GeoStrict(b: nat, m: nat, n: nat)
    requires b >= 1 && m < n
    ensures Geo(b, m) < Geo(b, n)
    decreases n
  {
    if m + 1 < n { GeoStrict(b, m, n - 1); }
  }

  lemma GeoMonotone(b: nat, m: nat, n: nat)
    requires b >= 1 && m <= n
    ensures Geo(b, m) <= Geo(b, n)
  {
    if m < n { GeoStrict(b, m, n); }
  }

  lemma {:induction false} GeoBinary(h: nat)
    ensures Geo(2, h) == 2 * Pow(2, h) - 1
  {
    if h > 0 { GeoBinary(h - 1); PowStep(2, h - 1); }
  }

  // ---------- small facts about products and quotients ----------

  lemma MulAssoc(a: int, b: int, c: int)
    ensures a * (b * c) == (a * b) * c
  {}

  lemma MulMono(a: int, b: int, c: int)
    requires a <= b && c >= 0
    ensures a * c <= b * c
  {}

  lemma DivUnique(x: int, b: int, q: int, r: int)
    requires b > 0 && 0 <= r < b && x == q * b + r
    ensures x / b == q && x % b == r
  {
    assert x == (x / b) * b + x % b;
    if x / b < q {
      MulMono(x / b + 1, q, b);
    } else if x / b > q {
      MulMono(q + 1, x / b, b);
    }
  }

  lemma MulDiv(q: int, b: int)
    requires b > 0
    ensures (q * b) / b == q && (q * b) % b == 0
  {
    DivUnique(q * b, b, q, 0);
  }

  /** The aligned group of b indices holding x stays inside a range of w groups. */
  lemma GroupFits(x: nat, b: nat, w: nat)
    requires b > 0 && x < w * b
    ensures x / b < w
    ensures (x / b) * b <= x < (x / b) * b + b <= w * b
  {
    assert x == (x / b) * b + x % b;
    if x / b >= w {
      MulMono(w, x / b, b);
    }
    MulMono(x / b + 1, w, b);
  }

  /** One row up in a perfect tree. */
  lemma PowDiv(b: nat, n: nat)
    requires b > 0
    ensures Pow(b, n + 1) / b == Pow(b, n) && Pow(b, n + 1) % b == 0
  {
    PowStep(b, n);
    MulDiv(Pow(b, n), b);
  }

  lemma PowSmall(b: nat)
    ensures Pow(b, 0) == 1 && Pow(b, 1) == b
  {}

  lemma ExactDiv(w: nat, b: nat)
    requires b > 0 && w % b == 0
    ensures w == (w / b) * b
  {}

  lemma DivDiv(n: nat, a: nat, b: nat)
    requires a > 0 && b > 0
    ensures a * b > 0 && n / (a * b) == (n / a) / b
  {
    var q, r := n / a, n % a;
    assert n == q * a + r;
    var q', r' := q / b, q % b;
    assert q == q' * b + r';
    assert q * a == q' * (a * b) + r' * a by {
      MulAssoc(q', b, a);
    }
    MulMono(r' + 1, b, a);
    DivUnique(n, a * b, q', r' * a + r);
  }

  lemma DivPowStep(n: nat, b: nat, e: nat)
    requires b > 0
    ensures (n / Pow(b, e)) / b == n / Pow(b, e + 1)
  {
    DivDiv(n, Pow(b, e), b);
    PowStep(b, e);
  }

  // ---------- next_power_of_two and trailing_zeros ----------

  function NextPow2From(n: nat, p: nat): (r: nat)
    requires p > 0
    decreases n - p
  {
    if p >= n then p else NextPow2From(n, 2 * p)
  }

  /** `usize::next_power_of_two`: the smallest power of two that is at least n. */
  function NextPow2(n: nat): nat {
    NextPow2From(n, 1)
  }

  lemma {:induction false} NextPow2FromIsLeast(n: nat, e: nat)
    requires e == 0 || Pow(2, e - 1) < n
    ensures Pow(2, e) > 0
    ensures var r := NextPow2From(n, Pow(2, e));
            IsPow2(r) && n <= r && forall f: nat :: n <= Pow(2, f) ==> r <= Pow(2, f)
    decreases n - Pow(2, e)
  {
    if Pow(2, e) >= n {
      forall f: nat | n <= Pow(2, f)
        ensures Pow(2, e) <= Pow(2, f)
      {
        if f < e {
          PowMonotone(2, f, e - 1);
        } else {
          PowMonotone(2, e, f);
        }
      }
    } else {
      PowStep(2, e);
      NextPow2FromIsLeast(n, e + 1);
    }
  }

  /** The guard `n == next_pow2(n)`, used all over the code, says exactly that n is a power of two. */
  lemma NextPow2Fixed(n: nat)
    ensures n == NextPow2(n) <==> IsPow2(n)
  {
    NextPow2FromIsLeast(n, 0);
  }

  /** `usize::trailing_zeros` on a non-zero number. */
  function TrailingZeros(n: nat): nat
    requires n > 0
  {
    if n % 2 == 1 then 0 else 1 + TrailingZeros(n / 2)
  }

  lemma {:induction false} TrailingZerosPow2(e: nat)
    ensures TrailingZeros(Pow(2, e)) == e
  {
    if e > 0 {
      TrailingZerosPow2(e - 1);
      PowStep(2, e - 1);
      MulDiv(Pow(2, e - 1), 2);
    }
  }

  /** `x >> s` on an unsigned machine word. */
  function Shr(x: nat, s: nat): nat {
    x / Pow(2, s)
  }

  /** Shifting by `log2_pow2(b)` divides by b when b is a power of two. */
  lemma ShiftDivides(x: nat, b: nat)
    requires IsPow2(b)
    ensures b > 0 && Shr(x, TrailingZeros(b)) == x / b
  {
    var e: nat :| b == Pow(2, e);
    TrailingZerosPow2(e);
  }

  /** Two powers of two: the smaller divides the larger. */
  lemma Pow2Divides(m: nat, n: nat)
    requires IsPow2(m) && IsPow2(n) && m <= n
    ensures m > 0 && n % m == 0 && IsPow2(n / m)
  {
    var e: nat :| m == Pow(2, e);
    var f: nat :| n == Pow(2, f);
    if f < e { PowStrict(2, f, e); }
    var q := Pow(2, f - e);
    assert n == q * m by { PowAdd(2, f - e, e); }
    MulDiv(q, m);
    assert n / m == q;
  }

  /** A power of a power of two is a power of two. */
  lemma PowerIsPow2(b: nat, h: nat)
    requires IsPow2(b)
    ensures IsPow2(Pow(b, h))
  {
    var e: nat :| b == Pow(2, e);
    PowPow(2, e, h);
  }

  lemma Pow2Even(n: nat)
    requires IsPow2(n) && n > 1
    ensures n % 2 == 0
  {}

  // ---------- quotients by repeated subtraction ----------

  /** The remainder. */
  function Rem(j: nat, b: nat): (r: nat)
    requires b > 0
    ensures r < b && r <= j
  {
    if j < b then j else Rem(j - b, b)
  }

  /** The quotient. */
  function Quot(j: nat, b: nat): (q: nat)
    requires b > 0
    ensures q <= j && (b >= 2 && j > 0 ==> q < j)
  {
    if j < b then 0 else 1 + Quot(j - b, b)
  }

  lemma {:induction false} QuotRem(j: nat, b: nat)
    requires b > 0
    ensures Quot(j, b) == j / b && Rem(j, b) == j % b
    ensures Quot(j, b) * b == j - Rem(j, b)
  {
    if j < b {
      DivUnique(j, b, 0, j);
    } else {
      QuotRem(j - b, b);
      assert (Quot(j - b, b) + 1) * b == Quot(j - b, b) * b + b;
      DivUnique(j, b, Quot(j - b, b) + 1, Rem(j - b, b));
    }
  }

  lemma QuotProduct(q: nat, b: nat)
    requires b > 0
    ensures Quot(q * b, b) == q && Rem(q * b, b) == 0
  {
    QuotRem(q * b, b);
    MulDiv(q, b);
  }

  /** One row up in a perfect tree. */
  lemma PowQuot(b: nat, n: nat)
    requires b > 0
    ensures Quot(Pow(b, n + 1), b) == Pow(b, n) && Rem(Pow(b, n + 1), b) == 0
  {
    PowStep(b, n);
    QuotProduct(Pow(b, n), b);
  }

  /** n quotients by b, one after the other: the index of an ancestor n rows up. */
  function Up(j: nat, b: nat, n: nat): (r: nat)
    requires b > 0
    ensures r <= j
    decreases n
  {
    if n == 0 then j else Quot(Up(j, b, n - 1), b)
  }

  lemma {:induction false} UpFromBelow(j: nat, b: nat, n: nat)
    requires b > 0
    ensures Up(Quot(j, b), b, n) == Up(j, b, n + 1)
    decreases n
  {
    if n > 0 { UpFromBelow(j, b, n - 1); }
  }

  lemma {:induction false} UpIsQuotient(j: nat, b: nat, n: nat)
    requires b > 0
    ensures Up(j, b, n) == j / Pow(b, n)
    decreases n
  {
    if n > 0 {
      UpIsQuotient(j, b, n - 1);
      QuotRem(Up(j, b, n - 1), b);
      DivPowStep(j, b, n - 1);
    }
  }

  lemma {:induction false} UpPow(b: nat, h: nat, n: nat)
    requires b > 0 && n <= h
    ensures Up(Pow(b, h), b, n) == Pow(b, h - n)
    decreases n
  {
    if n > 0 {
      UpPow(b, h, n - 1);
      PowQuot(b, h - n);
    }
  }

  /** Shifting by `log2_pow2(b)` takes the quotient by b. */
  lemma ShiftQuot(x: nat, b: nat)
    requires IsPow2(b)
    ensures b > 0 && Shr(x, TrailingZeros(b)) == Quot(x, b)
  {
    ShiftDivides(x, b);
    QuotRem(x, b);
  }

  lemma {:induction false} TimesFits(c: nat, b: nat, p: nat)
    requires c < b
    ensures Times(c, p) + p <= Times(b, p)
    decreases b
  {
    if c + 1 < b { TimesFits(c, b - 1, p); }
  }
}
