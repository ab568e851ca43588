/** Integer arithmetic behind the blind-signature helpers: congruences, Euclid's
    algorithm, Fermat's little theorem and the RSA identity for a product of two primes. */
module NumberTheory {

  // ---- congruences -------------------------------------------------------------------

  type pos = n: nat | 1 <= n witness 1

  predicate Divides(d: pos, x: int) { x % d == 0 }

  lemma Quotient(x: int, n: pos, q: int, r: int)
    requires x == q * n + r && 0 <= r < n
    ensures x / n == q && x % n == r
  {
    var q', r' := x / n, x % n;
    assert q' * n + r' == x;
    assert (q' - q) * n == q' * n - q * n == r - r';
    if q' > q {
      MulAtLeast(q' - q, n);
    } else if q' < q {
      MulAtLeast(q - q', n);
    }
  }

  lemma MulAtLeast(k: int, n: pos)
    requires k >= 1
    ensures k * n >= n
  {
    assert k * n == n + (k - 1) * n;
  }

  lemma ModAddMul(x: int, k: int, n: pos)
    ensures (x + k * n) % n == x % n
  {
    assert x + k * n == (x / n + k) * n + x % n;
    Quotient(x + k * n, n, x / n + k, x % n);
  }

  /** Two numbers with the same residue differ by a multiple, and conversely. */
  lemma SameResidue(x: int, y: int, n: pos)
    ensures x % n == y % n <==> Divides(n, x - y)
  {
    if Divides(n, x - y) {
      var k := (x - y) / n;
      assert x == y + k * n;
      ModAddMul(y, k, n);
    }
    if x % n == y % n {
      assert x - y == (x / n - y / n) * n + 0;
      Quotient(x - y, n, x / n - y / n, 0);
    }
  }

  lemma TimesSum(x: int, y: int, z: int)
    ensures x * (y + z) == x * y + x * z
  {
  }

  /** Reducing one factor. */
  lemma ModMulRight(a: int, b: int, n: pos)
    ensures (a * b) % n == (a * (b % n)) % n
  {
    var q, r := b / n, b % n;
    assert b == r + q * n;
    TimesSum(a, r, q * n);
    assert a * (q * n) == (a * q) * n;
    ModAddMul(a * r, a * q, n);
  }

  lemma ModMul(a: int, b: int, n: pos)
    ensures (a * b) % n == ((a % n) * (b % n)) % n
  {
    ModMulRight(a, b, n);
    ModMulRight(b % n, a, n);
    assert a * (b % n) == (b % n) * a && (b % n) * (a % n) == (a % n) * (b % n);
  }

  lemma ModMulCong(a: int, a': int, b: int, b': int, n: pos)
    requires a % n == a' % n && b % n == b' % n
    ensures (a * b) % n == (a' * b') % n
  {
    ModMul(a, b, n);
    ModMul(a', b', n);
  }

  lemma ModAddCong(a: int, a': int, b: int, b': int, n: pos)
    requires a % n == a' % n && b % n == b' % n
    ensures (a + b) % n == (a' + b') % n
  {
    SameResidue(a, a', n);
    SameResidue(b, b', n);
    var k, l := (a - a') / n, (b - b') / n;
    assert a + b == (a' + b') + (k + l) * n;
    ModAddMul(a' + b', k + l, n);
  }

  lemma ModSmall(x: nat, n: pos)
    requires x < n
    ensures x % n == x
  {
    Quotient(x, n, 0, x);
  }

  lemma ModMod(x: int, n: pos)
    ensures (x % n) % n == x % n
  {
    ModSmall(x % n, n);
  }

  lemma MultipleOf(d: pos, k: int)
    ensures Divides(d, d * k)
  {
    Quotient(d * k, d, k, 0);
  }

  lemma DividesMul(d: pos, x: int, k: int)
    requires Divides(d, x)
    ensures Divides(d, x * k)
  {
    var q := x / d;
    assert x * k == d * (q * k);
    MultipleOf(d, q * k);
  }

  lemma DividesCombine(d: pos, x: int, y: int)
    requires Divides(d, x) && Divides(d, y)
    ensures Divides(d, x + y) && Divides(d, x - y)
  {
    var k, l := x / d, y / d;
    assert x + y == d * (k + l) && x - y == d * (k - l);
    MultipleOf(d, k + l);
    MultipleOf(d, k - l);
  }

  lemma DivisorBound(d: pos, x: pos)
    requires Divides(d, x)
    ensures d <= x
  {
    var k := x / d;
    assert x == d * k;
    MulAtLeast(k, d);
  }

  // ---- powers ------------------------------------------------------------------------

  function Pow(b: int, e: nat): int {
    if e == 0 then 1 else b * Pow(b, e - 1)
  }

  lemma {:induction false} PowNat(b: nat, e: nat)
    ensures Pow(b, e) >= 0
    ensures b > 0 ==> Pow(b, e) > 0
  {
    if e > 0 { PowNat(b, e - 1); }
  }

  lemma {:induction false} PowAdd(b: int, x: nat, y: nat)
    ensures Pow(b, x + y) == Pow(b, x) * Pow(b, y)
  {
    if x > 0 {
      PowAdd(b, x - 1, y);
      assert Pow(b, x + y) == b * (Pow(b, x - 1) * Pow(b, y)) == Pow(b, x) * Pow(b, y);
    }
  }

  lemma {:induction false} PowMul(b: int, x: nat, y: nat)
    ensures x * y >= 0
    ensures Pow(b, x * y) == Pow(Pow(b, x), y)
  {
    if y > 0 {
      PowMul(b, x, y - 1);
      assert x * y == x + x * (y - 1);
      PowAdd(b, x, x * (y - 1));
    }
  }

  lemma {:induction false} PowProduct(a: int, b: int, e: nat)
    ensures Pow(a * b, e) == Pow(a, e) * Pow(b, e)
  {
    if e > 0 {
      PowProduct(a, b, e - 1);
      calc {
        Pow(a * b, e);
        (a * b) * (Pow(a, e - 1) * Pow(b, e - 1));
        (a * Pow(a, e - 1)) * (b * Pow(b, e - 1));
      }
    }
  }

  lemma {:induction false} PowCong(a: int, b: int, e: nat, n: pos)
    requires a % n == b % n
    ensures Pow(a, e) % n == Pow(b, e) % n
  {
    if e > 0 {
      PowCong(a, b, e - 1, n);
      ModMulCong(a, b, Pow(a, e - 1), Pow(b, e - 1), n);
    }
  }

  // ---- Euclid ------------------------------------------------------------------------

  function Gcd(a: nat, b: nat): nat
    decreases b
  {
    if b == 0 then a else Gcd(b, a % b)
  }

  /** Coprimality by its divisors, independent of any algorithm. */
  ghost predicate Coprime(a: nat, n: nat) {
    forall d: pos :: Divides(d, a) && Divides(d, n) ==> d == 1
  }

  lemma {:induction false} Bezout(a: nat, b: nat) returns (s: int, t: int)
    ensures a * s + b * t == Gcd(a, b)
    decreases b
  {
    if b == 0 {
      s, t := 1, 0;
    } else {
      var s', t' := Bezout(b, a % b);
      s, t := t', s' - (a / b) * t';
      calc {
        a * s + b * t;
        a * t' + b * (s' - (a / b) * t');
        b * s' + (a - b * (a / b)) * t';
        { assert a - b * (a / b) == a % b; }
        b * s' + (a % b) * t';
      }
    }
  }

  lemma {:induction false} GcdDivides(a: nat, b: nat)
    requires a > 0 || b > 0
    ensures Gcd(a, b) > 0
    ensures Divides(Gcd(a, b), a) && Divides(Gcd(a, b), b)
    decreases b
  {
    if b == 0 {
      MultipleOf(a, 1);
      MultipleOf(a, 0);
    } else {
      GcdDivides(b, a % b);
      var g: pos := Gcd(b, a % b);
      DividesMul(g, b, a / b);
      DividesCombine(g, b * (a / b), a % b);
      assert b * (a / b) + a % b == a;
    }
  }

  lemma DividesResidue(d: pos, a: nat, n: pos)
    requires Divides(d, n)
    ensures Divides(d, a) <==> Divides(d, a % n)
  {
    DividesMul(d, n, a / n);
    assert n * (a / n) + a % n == a;
    if Divides(d, a) {
      DividesCombine(d, a, n * (a / n));
    }
    if Divides(d, a % n) {
      DividesCombine(d, n * (a / n), a % n);
    }
  }

  /** Euclid's algorithm, started on the modulus and the reduced argument, answers 1
      exactly on coprime pairs. */
  lemma GcdOneIffCoprime(a: nat, n: pos)
    ensures Gcd(n, a % n) == 1 <==> Coprime(a, n)
  {
    var r := a % n;
    GcdDivides(n, r);
    DividesResidue(Gcd(n, r), a, n);
    if Gcd(n, r) == 1 {
      var s, t := Bezout(n, r);
      forall d: pos | Divides(d, a) && Divides(d, n) ensures d == 1 {
        DividesResidue(d, a, n);
        DividesMul(d, n, s);
        DividesMul(d, r, t);
        DividesCombine(d, n * s, r * t);
        DivisorBound(d, 1);
      }
    }
  }

  // ---- primes ------------------------------------------------------------------------

  ghost predicate Prime(p: nat) {
    p > 1 && forall d: pos :: Divides(d, p) ==> d == 1 || d == p
  }

  lemma EuclidLemma(p: nat, a: nat, b: int)
    requires Prime(p) && Divides(p, a * b) && !Divides(p, a)
    ensures Divides(p, b)
  {
    GcdDivides(p, a);
    var g := Gcd(p, a);
    assert g == 1;
    var s, t := Bezout(p, a);
    calc {
      b;
      { assert p * s + a * t == 1; }
      (p * s + a * t) * b;
      p * (s * b) + (a * b) * t;
    }
    MultipleOf(p, s * b);
    DividesMul(p, a * b, t);
    DividesCombine(p, p * (s * b), (a * b) * t);
  }

  function Choose(n: nat, k: nat): nat {
    if k == 0 then 1 else if n == 0 then 0 else Choose(n - 1, k - 1) + Choose(n - 1, k)
  }

  lemma {:induction false} ChooseAbove(n: nat, k: nat)
    requires k > n
    ensures Choose(n, k) == 0
  {
    if n > 0 {
      ChooseAbove(n - 1, k - 1);
      ChooseAbove(n - 1, k);
    }
  }

  lemma {:induction false} Absorption(n: nat, k: nat)
    ensures (k + 1) * Choose(n + 1, k + 1) == (n + 1) * Choose(n, k)
  {
    if n == 0 {
      if k > 0 {
        ChooseAbove(0, k);
        ChooseAbove(1, k + 1);
      }
    } else {
      Absorption(n - 1, k);
      if k > 0 { Absorption(n - 1, k - 1); }
      AbsorptionStep(n, k, if k == 0 then 0 else Choose(n - 1, k - 1),
                     Choose(n - 1, k), Choose(n, k + 1));
    }
  }

  lemma AbsorptionStep(n: nat, k: nat, left: nat, right: nat, above: nat)
    requires (k + 1) * above == n * right
    requires k > 0 ==> k * (left + right) == n * left
    requires k == 0 ==> left == 0 && right == 1
    ensures (k + 1) * (left + right + above) == (n + 1) * (left + right)
  {
    calc {
      (k + 1) * (left + right + above);
      k * (left + right) + (left + right) + (k + 1) * above;
      k * (left + right) + (left + right) + n * right;
      { assert k * (left + right) == n * left; }
      n * left + n * right + (left + right);
      (n + 1) * (left + right);
    }
  }

  lemma PrimeDividesChoose(p: nat, k: nat)
    requires Prime(p) && 0 < k < p
    ensures Divides(p, Choose(p, k))
  {
    Absorption(p - 1, k - 1);
    assert k * Choose(p, k) == p * Choose(p - 1, k - 1);
    MultipleOf(p, Choose(p - 1, k - 1));
    if Divides(p, k) { DivisorBound(p, k); }
    EuclidLemma(p, k, Choose(p, k));
  }

  function BinomialSum(a: nat, n: nat, k: nat): nat {
    PowNat(a, k);
    if k == 0 then 1 else BinomialSum(a, n, k - 1) + Choose(n, k) * Pow(a, k)
  }

  lemma {:induction false} BinomialPascal(a: nat, n: nat, k: nat)
    requires k > 0
    ensures BinomialSum(a, n + 1, k) == BinomialSum(a, n, k) + a * BinomialSum(a, n, k - 1)
  {
    PascalTerm(a, Choose(n, k - 1), Choose(n, k), Pow(a, k - 1));
    if k > 1 {
      BinomialPascal(a, n, k - 1);
      SumStep(a, BinomialSum(a, n, k - 2), Choose(n, k - 1) * Pow(a, k - 1));
    }
  }

  lemma PascalTerm(a: int, left: int, right: int, power: int)
    ensures (left + right) * (a * power) == right * (a * power) + a * (left * power)
  {
    assert left * (a * power) == a * (left * power);
  }

  lemma SumStep(a: int, x: int, y: int)
    ensures a * (x + y) == a * x + a * y
  {
  }

  lemma BinomialLast(a: nat, n: nat)
    ensures BinomialSum(a, n, n + 1) == BinomialSum(a, n, n)
  {
    ChooseAbove(n, n + 1);
    assert 0 * Pow(a, n + 1) == 0;
  }

  lemma {:induction false} BinomialTheorem(a: nat, n: nat)
    ensures Pow(a + 1, n) == BinomialSum(a, n, n)
  {
    if n > 0 {
      BinomialTheorem(a, n - 1);
      BinomialPascal(a, n - 1, n);
      BinomialLast(a, n - 1);
    }
  }

  lemma {:induction false} BinomialModPrime(a: nat, p: nat, k: nat)
    requires Prime(p) && k < p
    ensures BinomialSum(a, p, k) % p == 1 % p
  {
    if k > 0 {
      BinomialModPrime(a, p, k - 1);
      PrimeDividesChoose(p, k);
      DividesMul(p, Choose(p, k), Pow(a, k));
      ModAddCong(BinomialSum(a, p, k - 1), 1, Choose(p, k) * Pow(a, k), 0, p);
    }
  }

  /** Fermat's little theorem. */
  lemma {:induction false} Fermat(a: nat, p: nat)
    requires Prime(p)
    ensures Pow(a, p) % p == a % p
  {
    if a == 0 {
      assert Pow(0, p) == 0 * Pow(0, p - 1);
    } else {
      Fermat(a - 1, p);
      BinomialTheorem(a - 1, p);
      BinomialModPrime(a - 1, p, p - 1);
      assert Choose(p, p) == 1 by { ChooseSelf(p); }
      ModAddCong(BinomialSum(a - 1, p, p - 1), 1, Pow(a - 1, p), a - 1, p);
    }
  }

  lemma {:induction false} ChooseSelf(n: nat)
    ensures Choose(n, n) == 1
  {
    if n > 0 {
      ChooseSelf(n - 1);
      ChooseAbove(n - 1, n);
    }
  }

  /** Exponents that are 1 modulo p - 1 act as the identity modulo p. */
  lemma {:induction false} FermatExponent(a: nat, p: nat, k: nat)
    requires Prime(p)
    ensures k * (p - 1) >= 0
    ensures Pow(a, 1 + k * (p - 1)) % p == a % p
  {
    if k > 0 {
      FermatExponent(a, p, k - 1);
      var rest := (k - 1) * (p - 1);
      assert 1 + k * (p - 1) == p + rest;
      PowAdd(a, p, rest);
      Fermat(a, p);
      ModMulCong(Pow(a, p), a, Pow(a, rest), Pow(a, rest), p);
    } else {
      assert k * (p - 1) == 0;
      assert Pow(a, 1) == a * Pow(a, 0);
    }
  }

  // ---- RSA key pairs -----------------------------------------------------------------

  /** A two-prime key pair as in section 3 of RFC 8017: e*d is 1 modulo p-1 and modulo q-1. */
  ghost predicate KeyPair(n: nat, e: nat, d: nat, p: nat, q: nat) {
    && Prime(p) && Prime(q) && p != q && n == p * q
    && (e * d) % (p - 1) == 1 % (p - 1)
    && (e * d) % (q - 1) == 1 % (q - 1)
  }

  lemma KeyExponentMod(x: nat, ed: nat, p: nat)
    requires Prime(p) && ed > 0 && ed % (p - 1) == 1 % (p - 1)
    ensures Pow(x, ed) % p == x % p
  {
    SameResidue(ed, 1, p - 1);
    var k := (ed - 1) / (p - 1);
    assert ed == 1 + k * (p - 1);
    FermatExponent(x, p, k);
  }

  /** What two distinct primes divide, their product divides. */
  lemma PrimeProductDivides(p: nat, q: nat, x: int)
    requires Prime(p) && Prime(q) && p != q
    requires Divides(p, x) && Divides(q, x)
    ensures p * q > 0 && Divides(p * q, x)
  {
    EuclidLemma(q, p, x / p);
    NestedQuotient(p, q, x);
  }

  lemma NestedQuotient(p: pos, q: pos, x: int)
    requires Divides(p, x) && Divides(q, x / p)
    ensures p * q > 0 && Divides(p * q, x)
  {
    var k := x / p;
    var j := k / q;
    assert x == p * (q * j) == (p * q) * j;
    MulAtLeast(p, q);
    MultipleOf(p * q, j);
  }

  lemma KeyExponentPositive(ed: nat, p: nat, q: nat)
    requires p > 1 && q > 1 && p != q
    requires ed % (p - 1) == 1 % (p - 1) && ed % (q - 1) == 1 % (q - 1)
    ensures ed > 0
  {
    if ed == 0 {
      var m: pos := if p > 2 then p - 1 else q - 1;
      Quotient(0, m, 0, 0);
      Quotient(1, m, 0, 1);
    }
  }

  /** For a two-prime modulus, raising to e and then to d gives every message back. */
  lemma RsaIdentity(x: nat, n: nat, e: nat, d: nat, p: nat, q: nat)
    requires KeyPair(n, e, d, p, q)
    ensures n > 1 && e * d > 0
    ensures Pow(x, e * d) % n == x % n
  {
    var ed := e * d;
    KeyExponentPositive(ed, p, q);
    KeyExponentMod(x, ed, p);
    KeyExponentMod(x, ed, q);
    SameResidue(Pow(x, ed), x, p);
    SameResidue(Pow(x, ed), x, q);
    PrimeProductDivides(p, q, Pow(x, ed) - x);
    MulAtLeast(p, q);
    SameResidue(Pow(x, ed), x, n);
  }
}
