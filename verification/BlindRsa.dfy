/** Chaum blind signatures on ballot commitments: the modular loops, the blind / sign /
    unblind / verify helpers, and why the election authority's endorsement verifies. */
module BlindRsa {
  import opened NumberTheory
  import opened HexCodec
  import opened Results

  /** What the helpers throw. */
  datatype Fault = NotHex | DivisionByZero | NoInverse

  datatype PublicParams = PublicParams(modulusHex: string, exponentHex: string)
  datatype PrivateKey = PrivateKey(n: nat, d: nat)
  datatype Blinded = Blinded(blindedHex: string, blindingFactorHex: string)

  const SIGNATURE_BYTES: nat := 256

  /** The 256-byte hex field in which blinded values and signatures travel. */
  function Field(v: nat): string { BytesToHex(BigIntToBuffer(v, SIGNATURE_BYTES)) }

  ghost function FieldCapacity(): pos { Capacity(SIGNATURE_BYTES) }

  /** The residue the square-and-multiply loop computes; at modulus 1 it leaves exponent 0 unreduced. */
  ghost function Residue(base: nat, exp: nat, mod: pos): nat {
    PowNat(base, exp);
    if exp == 0 then 1 else Pow(base, exp) % mod
  }

  function BlindingFactor(random: nat, n: nat): nat
    requires n > 1
  {
    random % (n - 1) + 1
  }

  // ---- loops ---------------------------------------------------------------------------

  lemma SquarePower(b: nat, e: nat)
    ensures Pow(b, e) == if e % 2 == 1 then b * Pow(b * b, e / 2) else Pow(b * b, e / 2)
  {
    PowProduct(b, b, e / 2);
    PowAdd(b, e / 2, e / 2);
    assert e % 2 == 0 ==> e == e / 2 + e / 2;
    assert e % 2 == 1 ==> e - 1 == e / 2 + e / 2;
  }

  lemma SquareStep(result: nat, b: nat, e: nat, mod: pos, result': nat, b': nat)
    requires result' % mod == (if e % 2 == 1 then result * b else result) % mod
    requires b' % mod == (b * b) % mod
    ensures (result' * Pow(b', e / 2)) % mod == (result * Pow(b, e)) % mod
  {
    var half := Pow(b * b, e / 2);
    var whole := if e % 2 == 1 then result * b else result;
    SquarePower(b, e);
    PowCong(b', b * b, e / 2, mod);
    ModMulCong(result', whole, Pow(b', e / 2), half, mod);
    Associate(result, b, half);
  }

  lemma Associate(x: int, y: int, z: int)
    ensures (x * y) * z == x * (y * z)
  {
  }

  method ModPow(base: nat, exp: nat, mod: nat) returns (r: Result<nat, Fault>)
    ensures mod == 0 ==> r == Err(DivisionByZero)
    ensures mod > 0 ==> r == Ok(Residue(base, exp, mod))
  {
    if mod == 0 { return Err(DivisionByZero); }
    var result: nat, b: nat, e: nat := 1, base % mod, exp;
    ModMod(base, mod);
    PowCong(b, base, exp, mod);
    while e > 0
      invariant (result * Pow(b, e)) % mod == Pow(base, exp) % mod
      invariant exp == 0 ==> e == 0 && result == 1
      invariant exp > 0 && e == 0 ==> result < mod
    {
      ghost var result0, b0 := result, b;
      if e % 2 == 1 {
        result := (result * b) % mod;
        ModMod(result0 * b0, mod);
      }
      b := (b * b) % mod;
      ModMod(b0 * b0, mod);
      SquareStep(result0, b0, e, mod, result, b);
      e := e / 2;
    }
    if exp > 0 { ModSmall(result, mod); }
    return Ok(result);
  }

  /** The bookkeeping of the extended Euclid loop: each remainder is its cofactor times a,
      the cofactors alternate in sign, and they balance to the modulus. */
  ghost predicate EuclidState(a: nat, mod: pos, oldR: nat, r: nat, oldT: int, t: int) {
    && r < oldR
    && (oldT * a) % mod == oldR % mod && (t * a) % mod == r % mod
    && Balanced(mod, oldR, r, oldT, t)
    && oldT < mod && 0 < oldT + mod
    && Gcd(oldR, r) == Gcd(mod, a % mod)
  }

  ghost predicate Balanced(mod: pos, oldR: nat, r: nat, oldT: int, t: int) {
    || (oldT <= 0 < t && t * oldR - oldT * r == mod)
    || (t < 0 <= oldT && oldT * r - t * oldR == mod)
  }

  lemma EuclidStart(a: nat, mod: pos)
    ensures EuclidState(a, mod, mod, a % mod, 0, 1)
  {
    Quotient(mod, mod, 1, 0);
    Quotient(a % mod, mod, 0, a % mod);
    Quotient(0, mod, 0, 0);
  }

  lemma EuclidCong(a: nat, mod: pos, oldR: int, r: int, oldT: int, t: int, q: int)
    requires (oldT * a) % mod == oldR % mod && (t * a) % mod == r % mod
    ensures ((oldT - q * t) * a) % mod == (oldR - q * r) % mod
  {
    var k := -q;
    ModMulCong(k, k, t * a, r, mod);
    ModAddCong(oldT * a, oldR, k * (t * a), k * r, mod);
    CofactorProduct(a, oldT, t, q, k);
    assert oldR + k * r == oldR - q * r;
  }

  lemma CofactorProduct(a: int, oldT: int, t: int, q: int, k: int)
    requires k == -q
    ensures oldT * a + k * (t * a) == (oldT - q * t) * a
  {
    assert k * (t * a) == (k * t) * a == -(q * t) * a;
  }

  lemma EuclidBalance(mod: pos, oldR: nat, r: nat, oldT: int, t: int, q: pos)
    requires Balanced(mod, oldR, r, oldT, t) && q * r <= oldR
    ensures Balanced(mod, r, oldR - q * r, t, oldT - q * t)
  {
    assert (oldT - q * t) * r - t * (oldR - q * r) == oldT * r - t * oldR by {
      assert q * t * r == t * (q * r);
    }
    if t > 0 {
      MulAtLeast(q, t);
    } else {
      var s := -t;
      MulAtLeast(q, s);
      assert q * s == -(q * t);
    }
  }

  lemma CofactorBound(mod: pos, oldR: nat, r: nat, oldT: int, t: int)
    requires 0 < r < oldR && Balanced(mod, oldR, r, oldT, t)
    ensures t < mod && 0 < t + mod
  {
    if t > 0 {
      assert oldT * r <= 0;
      assert t * oldR == t * 2 + t * (oldR - 2) >= t * 2;
    } else {
      var s := -t;
      assert oldT * r >= 0;
      assert s * oldR == s * 2 + s * (oldR - 2) >= s * 2;
    }
  }

  lemma EuclidQuotient(oldR: nat, r: pos)
    requires r < oldR
    ensures oldR / r >= 1 && (oldR / r) * r <= oldR && oldR - (oldR / r) * r == oldR % r < r
  {
    if oldR / r < 1 { assert false; }
  }

  lemma EuclidStep(a: nat, mod: pos, oldR: nat, r: nat, oldT: int, t: int)
    requires EuclidState(a, mod, oldR, r, oldT, t) && r > 0
    ensures var q := oldR / r;
            oldR - q * r == oldR % r && EuclidState(a, mod, r, oldR - q * r, t, oldT - q * t)
  {
    var q := oldR / r;
    EuclidQuotient(oldR, r);
    EuclidCong(a, mod, oldR, r, oldT, t, q);
    EuclidBalance(mod, oldR, r, oldT, t, q);
    CofactorBound(mod, oldR, r, oldT, t);
  }

  lemma EuclidEnd(a: nat, mod: pos, oldR: nat, oldT: int, t: int)
    requires EuclidState(a, mod, oldR, 0, oldT, t)
    ensures oldR == 1 <==> Coprime(a, mod)
  {
    GcdOneIffCoprime(a, mod);
  }

  lemma EuclidAnswer(a: nat, mod: pos, oldT: int)
    requires (oldT * a) % mod == 1 % mod && oldT < mod && 0 < oldT + mod
    ensures var x := if oldT < 0 then oldT + mod else oldT;
            0 <= x < mod && (a * x) % mod == 1 % mod
  {
    ModAddMul(oldT * a, a, mod);
    SumStep(a, oldT, mod);
  }

  predicate IsInverse(a: nat, x: nat, n: pos) { x < n && (a * x) % n == 1 % n }

  lemma InverseExists(a: nat, n: pos)
    requires Coprime(a, n)
    ensures exists x: nat :: IsInverse(a, x, n)
  {
    GcdOneIffCoprime(a, n);
    var s, t := Bezout(n, a % n);
    ModMod(a, n);
    ModMod(t, n);
    ModMulCong(a, a % n, t % n, t, n);
    ModAddMul((a % n) * t, s, n);
    assert IsInverse(a, t % n, n);
  }

  lemma InverseUnique(a: nat, x: nat, y: nat, n: pos)
    requires IsInverse(a, x, n) && IsInverse(a, y, n)
    ensures x == y
  {
    ModMulCong(x, x, a * y, 1, n);
    ModMulCong(a * x, 1, y, y, n);
    assert x * (a * y) == (a * x) * y;
    ModSmall(x, n);
    ModSmall(y, n);
  }

  /** The inverse of a modulo n in canonical range. */
  ghost function InverseMod(a: nat, n: pos): (x: nat)
    requires Coprime(a, n)
    ensures IsInverse(a, x, n)
  {
    InverseExists(a, n);
    var x: nat :| IsInverse(a, x, n);
    x
  }

  /** Terminates on every input, throws just when a and mod share a factor, and otherwise
      answers the inverse in its canonical range. */
  method ModInverse(a: nat, mod: nat) returns (x: Result<nat, Fault>)
    ensures mod == 0 ==> x == Err(DivisionByZero)
    ensures mod > 0 ==> x == if Coprime(a, mod) then Ok(InverseMod(a, mod)) else Err(NoInverse)
  {
    if mod == 0 { return Err(DivisionByZero); }
    var oldR: nat, r: nat := mod, a % mod;
    var oldT: int, t: int := 0, 1;
    EuclidStart(a, mod);
    while r != 0
      invariant EuclidState(a, mod, oldR, r, oldT, t)
      decreases r
    {
      var q := oldR / r;
      EuclidStep(a, mod, oldR, r, oldT, t);
      oldR, r := r, oldR - q * r;
      oldT, t := t, oldT - q * t;
    }
    EuclidEnd(a, mod, oldR, oldT, t);
    if oldR != 1 { return Err(NoInverse); }
    EuclidAnswer(a, mod, oldT);
    var canonical: nat := if oldT < 0 then oldT + mod else oldT;
    InverseUnique(a, canonical, InverseMod(a, mod), mod);
    return Ok(canonical);
  }

  // ---- the helpers ---------------------------------------------------------------------

  ghost function BlindedValue(m: nat, r: nat, e: nat, n: pos): nat {
    PowNat(r, e);
    (m * Pow(r, e)) % n
  }

  /** Multiplies the commitment by a power of a random factor, in a 256-byte field. */
  method BlindCommitment(commitmentHex: string, params: PublicParams, random: nat)
    returns (b: Result<Blinded, Fault>)
    ensures b.Ok? <==>
            && BufferToBigInt(params.modulusHex).Some? && BufferToBigInt(params.exponentHex).Some?
            && BufferToBigInt(commitmentHex).Some? && BufferToBigInt(params.modulusHex).value > 1
    ensures b.Ok? ==>
            var n, e := BufferToBigInt(params.modulusHex).value, BufferToBigInt(params.exponentHex).value;
            var r := BlindingFactor(random, n);
            && 0 < r < n
            && b.value.blindedHex == Field(BlindedValue(BufferToBigInt(commitmentHex).value, r, e, n))
            && BufferToBigInt(b.value.blindingFactorHex) == Some(r)
    ensures b.Err? ==> b.error != NoInverse
  {
    var n := BufferToBigInt(params.modulusHex);
    var e := BufferToBigInt(params.exponentHex);
    var m := BufferToBigInt(commitmentHex);
    if n.None? || e.None? || m.None? { return Err(NotHex); }
    if n.value <= 1 { return Err(DivisionByZero); }
    var r := BlindingFactor(random, n.value);
    var power := ModPow(r, e.value, n.value);
    var blinded := (m.value * power.value) % n.value;
    ResidueModulo(r, e.value, n.value);
    ModMulCong(m.value, m.value, power.value, Pow(r, e.value), n.value);
    ParseToHex(r);
    return Ok(Blinded(Field(blinded), ToHex(r)));
  }

  lemma ResidueModulo(base: nat, exp: nat, mod: pos)
    ensures Residue(base, exp, mod) % mod == Pow(base, exp) % mod
    ensures mod > 1 ==> Residue(base, exp, mod) == Pow(base, exp) % mod
  {
    ModMod(Pow(base, exp), mod);
    if mod > 1 { ModSmall(1, mod); }
  }

  /** The electoral authority raises whatever it was sent to its private exponent. */
  method SignBlindedCommitment(blindedHex: string, key: PrivateKey) returns (s: Result<string, Fault>)
    ensures s.Ok? <==> FromHex(blindedHex) != [] && key.n > 0
    ensures s.Ok? ==> s.value == Field(Residue(BytesValue(FromHex(blindedHex)), key.d, key.n))
    ensures s.Err? ==> s.error != NoInverse
  {
    var blinded := FromHex(blindedHex);
    if blinded == [] { return Err(NotHex); }
    var signed := ModPow(BytesValue(blinded), key.d, key.n);
    if signed.Err? { return Err(signed.error); }
    return Ok(Field(signed.value));
  }

  /** Divides the blinding factor out of a signed value. */
  method UnblindSignature(signedBlindedHex: string, blindingFactorHex: string, params: PublicParams)
    returns (sig: Result<string, Fault>)
    ensures sig.Ok? <==>
            && BufferToBigInt(params.modulusHex).Some? && BufferToBigInt(signedBlindedHex).Some?
            && BufferToBigInt(blindingFactorHex).Some? && BufferToBigInt(params.modulusHex).value > 0
            && Coprime(BufferToBigInt(blindingFactorHex).value, BufferToBigInt(params.modulusHex).value)
    ensures sig.Ok? ==>
            var n: pos := BufferToBigInt(params.modulusHex).value;
            var inverse := InverseMod(BufferToBigInt(blindingFactorHex).value, n);
            sig.value == Field((BufferToBigInt(signedBlindedHex).value * inverse) % n)
  {
    var n := BufferToBigInt(params.modulusHex);
    var signed := BufferToBigInt(signedBlindedHex);
    var r := BufferToBigInt(blindingFactorHex);
    if n.None? || signed.None? || r.None? { return Err(NotHex); }
    var inv := ModInverse(r.value, n.value);
    if inv.Err? { return Err(inv.error); }
    return Ok(Field((signed.value * inv.value) % n.value));
  }

  /** Compares without reducing the commitment; anything that throws counts as a refusal. */
  method VerifyBlindRsaSignature(commitmentHex: string, signatureHex: string, params: PublicParams)
    returns (ok: bool)
    ensures ok <==> Verifies(commitmentHex, signatureHex, params)
  {
    var n := BufferToBigInt(params.modulusHex);
    var e := BufferToBigInt(params.exponentHex);
    var s := BufferToBigInt(signatureHex);
    var m := BufferToBigInt(commitmentHex);
    if n.None? || e.None? || s.None? || m.None? { return false; }
    var recovered := ModPow(s.value, e.value, n.value);
    return recovered == Ok(m.value);
  }

  ghost predicate Verifies(commitmentHex: string, signatureHex: string, params: PublicParams) {
    var n, e := BufferToBigInt(params.modulusHex), BufferToBigInt(params.exponentHex);
    var s, m := BufferToBigInt(signatureHex), BufferToBigInt(commitmentHex);
    && n.Some? && e.Some? && s.Some? && m.Some? && n.value > 0
    && Residue(s.value, e.value, n.value) == m.value
  }

  // ---- the protocol --------------------------------------------------------------------

  /** The private operation undoes the blinding power: what comes back is the plain RSA
      signature, whatever the blinding factor was. */
  lemma UnblindedValue(m: nat, r: nat, e: nat, d: nat, n: nat, p: nat, q: nat)
    requires KeyPair(n, e, d, p, q) && n > 1 && Coprime(r, n)
    ensures (Residue(BlindedValue(m, r, e, n), d, n) * InverseMod(r, n)) % n == Pow(m, d) % n
  {
    var blinded, inv := BlindedValue(m, r, e, n), InverseMod(r, n);
    var md := Pow(m, d);
    calc {
      Residue(blinded, d, n) % n;
      { ResidueModulo(blinded, d, n); }
      Pow(blinded, d) % n;
      { ModMod(m * Pow(r, e), n); PowCong(blinded, m * Pow(r, e), d, n); }
      Pow(m * Pow(r, e), d) % n;
      { PowProduct(m, Pow(r, e), d); PowMul(r, e, d); }
      (md * Pow(r, e * d)) % n;
      { RsaIdentity(r, n, e, d, p, q); ModMulCong(md, md, Pow(r, e * d), r, n); }
      (md * r) % n;
    }
    ModMulCong(Residue(blinded, d, n), md * r, inv, inv, n);
    Associate(md, r, inv);
    ModMulCong(md, md, r * inv, 1, n);
  }

  lemma SignatureOpens(m: nat, e: nat, d: nat, n: nat, p: nat, q: nat)
    requires KeyPair(n, e, d, p, q) && n > 1
    ensures Pow(m, d) % n >= 0 && Residue(Pow(m, d) % n, e, n) == m % n
  {
    var s := Pow(m, d) % n;
    ResidueModulo(s, e, n);
    ModMod(Pow(m, d), n);
    PowCong(s, Pow(m, d), e, n);
    PowMul(m, d, e);
    assert d * e == e * d;
    RsaIdentity(m, n, e, d, p, q);
  }

  ghost predicate Published(params: PublicParams, n: nat, e: nat) {
    BufferToBigInt(params.modulusHex) == Some(n) && BufferToBigInt(params.exponentHex) == Some(e)
  }

  /** What is left of a value after a journey through the 256-byte field. */
  ghost function Carried(v: nat): nat { v % FieldCapacity() }

  lemma FieldCarries(v: nat)
    ensures BufferToBigInt(Field(v)) == Some(Carried(v))
    ensures FromHex(Field(v)) != [] && BytesValue(FromHex(Field(v))) == Carried(v)
  {
    FieldRoundTrip(v, SIGNATURE_BYTES);
    BufferValue(v, SIGNATURE_BYTES);
  }

  /** The signature that blinding, signing and unblinding produce. */
  ghost function Endorsement(m: nat, r: nat, n: nat, e: nat, d: nat): nat
    requires n > 1 && Coprime(r, n)
  {
    var signed := Carried(Residue(Carried(BlindedValue(m, r, e, n)), d, n));
    Carried((signed * InverseMod(r, n)) % n)
  }

  /** Blind, sign, unblind, for keys of any size. It succeeds exactly for a readable commitment
      and an invertible blinding factor. With a matching two-prime key that fits the field
      the result is m^d mod n, which verifies exactly for the commitments below the modulus. */
  method FinalizeBlindEndorsement(commitmentHex: string, params: PublicParams, key: PrivateKey, random: nat,
                                  ghost e: nat, ghost p: nat, ghost q: nat)
    returns (sig: Result<string, Fault>)
    requires Published(params, key.n, e)
    ensures sig.Ok? <==>
            BufferToBigInt(commitmentHex).Some? && key.n > 1 && Coprime(BlindingFactor(random, key.n), key.n)
    ensures sig.Ok? ==>
            var m, r := BufferToBigInt(commitmentHex).value, BlindingFactor(random, key.n);
            && BufferToBigInt(sig.value) == Some(Endorsement(m, r, key.n, e, key.d))
            && (Verifies(commitmentHex, sig.value, params) <==> Endorsed(m, r, key.n, e, key.d))
    ensures sig.Ok? && KeyPair(key.n, e, key.d, p, q) && key.n <= FieldCapacity() ==>
            var m := BufferToBigInt(commitmentHex).value;
            && BufferToBigInt(sig.value) == Some(Pow(m, key.d) % key.n)
            && (Verifies(commitmentHex, sig.value, params) <==> m < key.n)
  {
    var blinded := BlindCommitment(commitmentHex, params, random);
    if blinded.Err? { return Err(blinded.error); }
    ghost var m, r := BufferToBigInt(commitmentHex).value, BlindingFactor(random, key.n);
    ghost var value := BlindedValue(m, r, e, key.n);
    FieldCarries(value);
    var signed := SignBlindedCommitment(blinded.value.blindedHex, key);
    FieldCarries(Residue(Carried(value), key.d, key.n));
    sig := UnblindSignature(signed.value, blinded.value.blindingFactorHex, params);
    if sig.Ok? {
      FieldCarries((Carried(Residue(Carried(value), key.d, key.n)) * InverseMod(r, key.n)) % key.n);
      if KeyPair(key.n, e, key.d, p, q) && key.n <= FieldCapacity() {
        EndorsementFits(m, r, key.n, e, key.d, p, q);
        SignatureOpens(m, e, key.d, key.n, p, q);
        if m < key.n { ModSmall(m, key.n); }
      }
    }
  }

  lemma CarriedWhole(v: nat)
    requires v < FieldCapacity()
    ensures Carried(v) == v
  {
    ModSmall(v, FieldCapacity());
  }

  /** Within the field nothing is lost on the way. */
  lemma EndorsementFits(m: nat, r: nat, n: nat, e: nat, d: nat, p: nat, q: nat)
    requires KeyPair(n, e, d, p, q) && 1 < n <= FieldCapacity() && Coprime(r, n)
    ensures Endorsement(m, r, n, e, d) == Pow(m, d) % n
  {
    var value := BlindedValue(m, r, e, n);
    CarriedWhole(value);
    ResidueModulo(value, d, n);
    CarriedWhole(Residue(value, d, n));
    CarriedWhole((Residue(value, d, n) * InverseMod(r, n)) % n);
    UnblindedValue(m, r, e, d, n, p, q);
  }

  /** Raising to e is injective below n, so only C itself opens to C^e mod n. */
  lemma OnlyOneOpens(s: nat, c: nat, n: nat, e: nat, d: nat, p: nat, q: nat)
    requires KeyPair(n, e, d, p, q) && n > 1 && s < n && c < n
    requires Pow(s, e) % n == Pow(c, e) % n
    ensures s == c
  {
    PowCong(Pow(s, e), Pow(c, e), d, n);
    PowMul(s, e, d);
    PowMul(c, e, d);
    RsaIdentity(s, n, e, d, p, q);
    RsaIdentity(c, n, e, d, p, q);
    ModSmall(s, n);
    ModSmall(c, n);
  }

  /** With a larger key no field content is a signature on C^e mod n, C the field's capacity. */
  lemma TooLarge(s: nat, n: nat, e: nat, d: nat, p: nat, q: nat)
    requires KeyPair(n, e, d, p, q) && n > FieldCapacity() && s < FieldCapacity()
    ensures Pow(FieldCapacity(), e) % n >= 0 && Residue(s, e, n) != Pow(FieldCapacity(), e) % n
  {
    ResidueModulo(s, e, n);
    if Pow(s, e) % n == Pow(FieldCapacity(), e) % n { OnlyOneOpens(s, FieldCapacity(), n, e, d, p, q); }
  }

  /** The round trip verifies. */
  ghost predicate Endorsed(m: nat, r: nat, n: nat, e: nat, d: nat)
    requires n > 1 && Coprime(r, n)
  {
    Residue(Endorsement(m, r, n, e, d), e, n) == m
  }

  lemma OneIsCoprime(n: pos)
    ensures Coprime(1, n)
  {
  }

  /** For a matching key every commitment below the modulus survives every invertible blinding
      factor exactly when the modulus fits the 256-byte field. */
  lemma RoundTripExact(n: nat, e: nat, d: nat, p: nat, q: nat)
    requires KeyPair(n, e, d, p, q) && n > 1
    ensures (forall m: nat, r: nat :: m < n && 0 < r < n && Coprime(r, n) ==> Endorsed(m, r, n, e, d))
            <==> n <= FieldCapacity()
  {
    if n <= FieldCapacity() {
      forall m: nat, r: nat | m < n && 0 < r < n && Coprime(r, n) ensures Endorsed(m, r, n, e, d) {
        EndorsementFits(m, r, n, e, d, p, q);
        SignatureOpens(m, e, d, n, p, q);
        ModSmall(m, n);
      }
    } else {
      var m := Pow(FieldCapacity(), e) % n;
      OneIsCoprime(n);
      TooLarge(Endorsement(m, 1, n, e, d), n, e, d, p, q);
      assert !Endorsed(m, 1, n, e, d);
    }
  }

  // ---- what the authority learns -------------------------------------------------------------

  const DRAWN_BYTES: nat := 32

  /** What the draw comes to as written: the random bytes go into a copy of the buffer, and the
      buffer itself stays zero. */
  const DRAWN: nat := 0

  /** The blinding factor is therefore 1, and the authority is shown the commitment itself: two
      views agree exactly for commitments that agree modulo n. */
  lemma ConstantFactor(m: nat, m': nat, e: nat, n: pos)
    requires n > 1
    ensures BlindingFactor(DRAWN, n) == 1 && Coprime(1, n)
    ensures BlindedValue(m, 1, e, n) == m % n
    ensures BlindedValue(m, 1, e, n) == BlindedValue(m', 1, e, n) <==> m % n == m' % n
  {
    Quotient(0, n - 1, 0, 0);
    OneIsCoprime(n);
    PowOne(e);
  }

  lemma {:induction false} PowOne(e: nat)
    ensures Pow(1, e) == 1
  {
    if e > 0 { PowOne(e - 1); }
  }

  /** A draw of the given number of bytes that yields an invertible factor. */
  ghost predicate Drawable(random: nat, n: nat)
    requires n > 1
  {
    random < Capacity(DRAWN_BYTES) && Coprime(BlindingFactor(random, n), n)
  }

  ghost predicate Views(m: nat, random: nat, e: nat, n: nat, view: nat)
    requires n > 1
  {
    Drawable(random, n) && BlindedValue(m, BlindingFactor(random, n), e, n) == view
  }

  /** Whatever the authority is shown for m, some draw shows it the same for m'. */
  ghost predicate Hides(m: nat, m': nat, e: nat, n: nat)
    requires n > 1
  {
    forall random: nat, view: nat :: Views(m, random, e, n, view) ==> exists random': nat :: Views(m', random', e, n, view)
  }

  lemma EveryFactorDrawn(r: nat, n: nat)
    requires 0 < r < n <= Capacity(DRAWN_BYTES) + 1
    ensures r - 1 < Capacity(DRAWN_BYTES) && BlindingFactor(r - 1, n) == r
  {
    if r > 1 { Quotient(r - 1, n - 1, 0, r - 1); } else { Quotient(0, n - 1, 0, 0); }
  }

  lemma SmallKeyHides(m: nat, m': nat, n: nat, e: nat, d: nat, p: nat, q: nat)
    requires KeyPair(n, e, d, p, q) && 1 < n <= Capacity(DRAWN_BYTES) + 1 && Coprime(m, n) && Coprime(m', n)
    ensures Hides(m, m', e, n)
  {
    forall random: nat, view: nat | Views(m, random, e, n, view) ensures exists random': nat :: Views(m', random', e, n, view) {
      var r' := Unlinkable(m, m', BlindingFactor(random, n), e, d, n, p, q);
      EveryFactorDrawn(r', n);
      assert Views(m', r' - 1, e, n, view);
    }
  }

  /** With a larger modulus the factor n - 1 is never drawn. */
  lemma LastFactorNotDrawn(random: nat, n: nat)
    requires random < Capacity(DRAWN_BYTES) && n > Capacity(DRAWN_BYTES) + 1
    ensures BlindingFactor(random, n) < n - 1
  {
    Quotient(random, n - 1, 0, random);
  }

  lemma LastIsCoprime(n: pos)
    requires n > 1
    ensures Coprime(n - 1, n)
  {
    forall d: pos | Divides(d, n - 1) && Divides(d, n) ensures d == 1 {
      DividesCombine(d, n, n - 1);
      DivisorBound(d, 1);
    }
  }

  /** Only one factor blinds m' to a given view. */
  lemma FactorDetermined(m': nat, r: nat, s: nat, n: nat, e: nat, d: nat, p: nat, q: nat)
    requires KeyPair(n, e, d, p, q) && n > 1 && r < n && s < n
    requires BlindedValue(m', r, e, n) == 1 && BlindedValue(m', s, e, n) == 1
    ensures r == s
  {
    PowNat(r, e);
    PowNat(s, e);
    ModMod(Pow(r, e), n);
    ModMod(Pow(s, e), n);
    ModMulCong(m', m', Pow(r, e) % n, Pow(r, e), n);
    ModMulCong(m', m', Pow(s, e) % n, Pow(s, e), n);
    ModSmall(1, n);
    InverseUnique(m', Pow(r, e) % n, Pow(s, e) % n, n);
    OnlyOneOpens(r, s, n, e, d, p, q);
  }

  /** A commitment that only the last factor blinds to the view 1. */
  lemma NeedsLastFactor(n: nat, e: nat, d: nat, p: nat, q: nat) returns (m': nat)
    requires KeyPair(n, e, d, p, q) && n > 1
    ensures Coprime(m', n)
    ensures forall r: nat :: r < n && BlindedValue(m', r, e, n) == 1 ==> r == n - 1
  {
    LastIsCoprime(n);
    CoprimePower(n - 1, e, n);
    PowNat(n - 1, e);
    var power: nat := Pow(n - 1, e);
    m' := InverseMod(power, n);
    ModSmall(1, n);
    assert power * m' == m' * power;
    HasInverse(m', power, n);
    forall r: nat | r < n && BlindedValue(m', r, e, n) == 1 ensures r == n - 1 {
      FactorDetermined(m', r, n - 1, n, e, d, p, q);
    }
  }

  lemma LargeKeyShows(n: nat, e: nat, d: nat, p: nat, q: nat) returns (m': nat)
    requires KeyPair(n, e, d, p, q) && n > Capacity(DRAWN_BYTES) + 1
    ensures Coprime(1, n) && Coprime(m', n) && !Hides(1, m', e, n)
  {
    m' := NeedsLastFactor(n, e, d, p, q);
    ConstantFactor(1, 1, e, n);
    ModSmall(1, n);
    assert Views(1, DRAWN, e, n, 1);
    forall random': nat ensures !Views(m', random', e, n, 1) {
      if Views(m', random', e, n, 1) { LastFactorNotDrawn(random', n); }
    }
  }

  /** Were the 32 bytes drawn, views would hide commitments, for every matching key, exactly up
      to moduli that the draw can cover. */
  lemma HidingExact(n: nat, e: nat, d: nat, p: nat, q: nat)
    requires KeyPair(n, e, d, p, q) && n > 1
    ensures (forall m: nat, m': nat :: Coprime(m, n) && Coprime(m', n) ==> Hides(m, m', e, n))
            <==> n <= Capacity(DRAWN_BYTES) + 1
  {
    if n <= Capacity(DRAWN_BYTES) + 1 {
      forall m: nat, m': nat | Coprime(m, n) && Coprime(m', n) ensures Hides(m, m', e, n) {
        SmallKeyHides(m, m', n, e, d, p, q);
      }
    } else {
      var m' := LargeKeyShows(n, e, d, p, q);
    }
  }

  /** Any value to be signed for m is also what some other invertible factor yields for m'. */
  lemma Unlinkable(m: nat, m': nat, r: nat, e: nat, d: nat, n: nat, p: nat, q: nat) returns (r': nat)
    requires KeyPair(n, e, d, p, q) && n > 1
    requires Coprime(m, n) && Coprime(m', n) && Coprime(r, n)
    ensures 0 < r' < n && Coprime(r', n)
    ensures BlindedValue(m', r', e, n) == BlindedValue(m, r, e, n)
  {
    var inv' := InverseMod(m', n);
    var ratio := m * inv';
    PowNat(ratio, d);
    var raw: nat := Pow(ratio, d) * r;
    r' := raw % n;
    calc {
      Pow(r', e) % n;
      { ModMod(raw, n); PowCong(r', raw, e, n); }
      Pow(raw, e) % n;
      { PowProduct(Pow(ratio, d), r, e); PowMul(ratio, d, e); assert d * e == e * d; }
      (Pow(ratio, e * d) * Pow(r, e)) % n;
      { RsaIdentity(ratio, n, e, d, p, q); ModMulCong(Pow(ratio, e * d), ratio, Pow(r, e), Pow(r, e), n); }
      (ratio * Pow(r, e)) % n;
    }
    ModMulCong(m', m', Pow(r', e), ratio * Pow(r, e), n);
    RatioCancels(m, m', inv', Pow(r, e), n);
    assert m' * inv' == inv' * m';
    HasInverse(inv', m', n);
    CoprimeProduct(m, inv', n);
    CoprimePower(ratio, d, n);
    CoprimeProduct(Pow(ratio, d), r, n);
    CoprimeResidue(raw, n);
  }

  lemma HasInverse(a: nat, x: nat, n: pos)
    requires (a * x) % n == 1 % n
    ensures Coprime(a, n)
  {
    SameResidue(a * x, 1, n);
    forall d: pos | Divides(d, a) && Divides(d, n) ensures d == 1 {
      DividesMul(d, a, x);
      assert a * x - 1 == n * ((a * x - 1) / n);
      DividesMul(d, n, (a * x - 1) / n);
      DividesCombine(d, a * x, a * x - 1);
      DivisorBound(d, 1);
    }
  }

  lemma CoprimeProduct(a: nat, b: nat, n: pos)
    requires Coprime(a, n) && Coprime(b, n)
    ensures Coprime(a * b, n)
  {
    var x, y := InverseMod(a, n), InverseMod(b, n);
    ModMulCong(a * x, 1, b * y, 1, n);
    assert (a * x) * (b * y) == (a * b) * (x * y);
    HasInverse(a * b, x * y, n);
  }

  lemma {:induction false} CoprimePower(a: nat, e: nat, n: pos)
    requires Coprime(a, n)
    ensures Pow(a, e) >= 0 && Coprime(Pow(a, e), n)
  {
    if e == 0 {
      HasInverse(1, 1, n);
    } else {
      CoprimePower(a, e - 1, n);
      CoprimeProduct(a, Pow(a, e - 1), n);
    }
  }

  lemma CoprimeResidue(a: nat, n: nat)
    requires n > 1 && Coprime(a, n)
    ensures a % n > 0 && Coprime(a % n, n)
  {
    forall d: pos | Divides(d, a % n) && Divides(d, n) ensures d == 1 {
      DividesResidue(d, a, n);
    }
    if a % n == 0 {
      MultipleOf(n, 0);
      MultipleOf(n, 1);
    }
  }

  lemma RatioCancels(m: int, m': int, inv': int, x: int, n: pos)
    requires (m' * inv') % n == 1 % n
    ensures (m' * ((m * inv') * x)) % n == (m * x) % n
  {
    assert m' * ((m * inv') * x) == (m' * inv') * (m * x);
    ModMulCong(m' * inv', 1, m * x, m * x, n);
  }
}
