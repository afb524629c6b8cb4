/** The key side of the 2x2 Hill cipher: the modular inverse search, the
    validation of a key matrix (`leerMatrizClave`) and the inverse matrix
    used for decryption. */
module HillKey {
  import opened Wrappers
  import opened JsArith

  /** The key matrix [[k11, k12], [k21, k22]] as the user typed it. */
  datatype Matrix = Matrix(k11: int, k12: int, k21: int, k22: int)

  /** A key accepted by validation: the matrix with the determinant and
      its inverse attached, as the script stores them on the key object. */
  datatype Key = Key(matrix: Matrix, det: int, detInv: int)

  /** Every way a cipher operation can fail, in the order they are checked. */
  datatype Error = AllZeroKey | SingularKey | NonInvertibleKey | EmptyInput

  predicate IsZero(m: Matrix)
  {
    m.k11 == 0 && m.k12 == 0 && m.k21 == 0 && m.k22 == 0
  }

  /** The determinant over the integers, before any reduction. */
  function Det(m: Matrix): int
  {
    m.k11 * m.k22 - m.k12 * m.k21
  }

  /** `x` is a multiplicative inverse of `a` modulo `m`. */
  predicate IsInverse(a: int, x: int, m: int)
    requires m > 0
  {
    (a * x) % m == 1
  }

  /** `d` divides `n`. */
  predicate Divides(d: int, n: int)
    requires d > 0
  {
    n % d == 0
  }

  /** `a` and `m` are coprime: no divisor above 1 divides both. */
  ghost predicate Coprime(a: int, m: int)
  {
    forall d :: 1 < d ==> !(Divides(d, a) && Divides(d, m))
  }

  /** The first inverse of `a` modulo `m` at or after `from`, or None: the
      search `modInverse` performs, as a function. */
  function LeastInverse(a: int, m: int, from: int): (r: Option<int>)
    requires m > 0
    decreases m - from
    ensures r.Some? ==> from <= r.value < m && IsInverse(a, r.value, m)
    ensures r.Some? ==> forall y :: from <= y < r.value ==> !IsInverse(a, y, m)
    ensures r.None? <==> forall y :: from <= y < m ==> !IsInverse(a, y, m)
  {
    if from >= m then None
    else if IsInverse(a, from, m) then Some(from)
    else LeastInverse(a, m, from + 1)
  }

  /** `modInverse(a, m)`: reduce `a` into [0, m) with the repaired JavaScript
      remainder, then try x = 1, 2, ... below m. */
  method ModInverse(a: int, m: int) returns (r: Option<int>)
    requires m > 0
    ensures r.Some? ==> 1 <= r.value < m && IsInverse(a % m, r.value, m)
    ensures r.Some? ==> forall y :: 1 <= y < r.value ==> !IsInverse(a % m, y, m)
    ensures r.None? <==> forall y :: 1 <= y < m ==> !IsInverse(a % m, y, m)
    ensures r == LeastInverse(a % m, m, 1)
  {
    var b := Repair(Rem(a, m), m);
    RepairIsMod(a, m);
    var x := 1;
    while x < m
      invariant 1 <= x <= m
      invariant LeastInverse(b, m, x) == LeastInverse(b, m, 1)
    {
      if Rem(b * x, m) == 1 {
        return Some(x);
      }
      x := x + 1;
    }
    return None;
  }

  /** For the modulus 26: an inverse exists exactly when `a` is odd and not 13. */
  lemma InverseExistsIffOddNot13(a: int)
    requires 0 <= a < M
    ensures LeastInverse(a, M, 1).Some? <==> (a % 2 == 1 && a != 13)
  {
    if a % 2 == 1 && a != 13 {
      var x := InverseTable(a);
      assert IsInverse(a, x, M);
    } else if LeastInverse(a, M, 1).Some? {
      InverseNeedsOddNot13(a, LeastInverse(a, M, 1).value);
    }
  }

  /** Only an odd residue other than 13 has an inverse modulo 26: an even
      `a` makes `a * x` even, and 13 makes it a multiple of 13. */
  lemma InverseNeedsOddNot13(a: int, x: int)
    requires 0 <= a < M && IsInverse(a, x, M)
    ensures a % 2 == 1 && a != 13
  {
    ParityOfProduct(a, x);
    ParityModulo26(a * x);
    ThirteenTimes(x);
  }

  /** An even factor makes the product even. */
  lemma ParityOfProduct(a: int, x: int)
    ensures a % 2 == 0 ==> (a * x) % 2 == 0
  {
    if a % 2 == 0 {
      var h := a / 2;
      assert a * x == 2 * (h * x);
      ModUnique(a * x, 2, h * x, 0);
    }
  }

  /** Reducing modulo 26 keeps the parity. */
  lemma ParityModulo26(p: int)
    ensures (p % M) % 2 == p % 2
  {
    var q, r := p / M, p % M;
    assert p == 2 * (13 * q + r / 2) + r % 2;
    ModUnique(p, 2, 13 * q + r / 2, r % 2);
  }

  /** A multiple of 13 is 0 or 13 modulo 26. */
  lemma ThirteenTimes(x: int)
    ensures (13 * x) % M == 0 || (13 * x) % M == 13
  {
    var t := x / 2;
    if x % 2 == 0 {
      assert 13 * x == M * t;
      ModUnique(13 * x, M, t, 0);
    } else {
      assert 13 * x == M * t + 13;
      ModUnique(13 * x, M, t, 13);
    }
  }

  /** The inverse of each odd residue other than 13, modulo 26. */
  function InverseTable(a: int): (x: int)
    requires 0 <= a < M && a % 2 == 1 && a != 13
    ensures 1 <= x < M && IsInverse(a, x, M)
  {
    if a == 1 then 1 else if a == 3 then 9 else if a == 5 then 21
    else if a == 7 then 15 else if a == 9 then 3 else if a == 11 then 19
    else if a == 15 then 7 else if a == 17 then 23 else if a == 19 then 11
    else if a == 21 then 5 else if a == 23 then 17 else 25
  }

  /** A divisor above 1 times any integer is never 1. */
  lemma ProductNotOne(d: int, k: int)
    requires d > 1
    ensures d * k != 1
  {
    if k >= 1 {
      MulAtLeast(d, k);
    } else if k <= -1 {
      MulAtLeast(d, -k);
      assert d * k == -(d * -k);
    }
  }

  /** A divisor above 1 of an invertible `a` cannot divide 26, since it would
      divide `a * x - 26 * q`, which is 1. */
  lemma InverseExcludesDivisor(a: int, x: int, d: int)
    requires IsInverse(a, x, M) && 1 < d && Divides(d, a)
    ensures !Divides(d, M)
  {
    var q := (a * x) / M;
    assert a * x == M * q + 1;
    var s, t := a / d, M / d;
    assert a == d * s;
    assert M == d * t + M % d;
    assert d * (s * x - t * q) == (d * s) * x - (d * t) * q;
    ProductNotOne(d, s * x - t * q);
  }

  /** A residue with an inverse modulo 26 is coprime to 26. */
  lemma InverseMeansCoprime(a: int, x: int)
    requires IsInverse(a, x, M)
    ensures Coprime(a, M)
  {
    forall d | 1 < d
      ensures !(Divides(d, a) && Divides(d, M))
    {
      if Divides(d, a) {
        InverseExcludesDivisor(a, x, d);
      }
    }
  }

  /** A residue without an inverse modulo 26 shares the divisor 2 or 13
      with 26. */
  lemma NoInverseMeansNotCoprime(a: int)
    requires 0 <= a < M && LeastInverse(a, M, 1).None?
    ensures !Coprime(a, M)
  {
    InverseExistsIffOddNot13(a);
    if a % 2 == 0 {
      assert Divides(2, a) && Divides(2, M);
    } else {
      assert Divides(13, a) && Divides(13, M);
    }
  }

  /** `modInverse(a, 26)` finds an inverse exactly when gcd(a, 26) = 1. */
  lemma InverseExistsIffCoprime(a: int)
    requires 0 <= a < M
    ensures LeastInverse(a, M, 1).Some? <==> Coprime(a, M)
  {
    if LeastInverse(a, M, 1).Some? {
      InverseMeansCoprime(a, LeastInverse(a, M, 1).value);
    } else {
      NoInverseMeansNotCoprime(a);
    }
  }

  /** A divisor of 26 divides `a` exactly when it divides `a`'s residue. */
  lemma DividesResidue(d: int, a: int)
    requires d > 0 && Divides(d, M)
    ensures Divides(d, a) <==> Divides(d, a % M)
  {
    var t := M / d;
    assert M == d * t;
    assert a == M * (a / M) + a % M;
    assert M * (a / M) == d * (t * (a / M));
    ModShift(d, t * (a / M), a % M);
  }

  /** `modInverse(a, 26)` on any integer: the search on `a`'s residue finds
      an inverse exactly when `a` is coprime to 26. */
  lemma ModInverseIffCoprime(a: int)
    ensures LeastInverse(a % M, M, 1).Some? <==> Coprime(a, M)
  {
    InverseExistsIffCoprime(a % M);
    forall d | 1 < d
      ensures (Divides(d, a) && Divides(d, M)) <==> (Divides(d, a % M) && Divides(d, M))
    {
      if Divides(d, M) {
        DividesResidue(d, a);
      }
    }
  }

  /** The residues coprime to 26 are the odd ones other than 13. */
  lemma CoprimeIffOddNot13(a: int)
    requires 0 <= a < M
    ensures Coprime(a, M) <==> (a % 2 == 1 && a != 13)
  {
    InverseExistsIffCoprime(a);
    InverseExistsIffOddNot13(a);
  }

  /** Inverses modulo 26 are unique in [1, 26), so the least one found by
      the search is the only one. */
  lemma InverseUnique(a: int, x: int, y: int)
    requires 1 <= x < M && 1 <= y < M
    requires IsInverse(a, x, M) && IsInverse(a, y, M)
    ensures x == y
  {
    // x = x * (a * y) = (a * x) * y = y, all modulo 26.
    ModLinear(a * y, 0, 1, 0, x, 0);
    ModLinear(a * x, 0, 1, 0, y, 0);
    assert (a * y) * x == (a * x) * y;
    ModUnique(x, M, 0, x);
    ModUnique(y, M, 0, y);
  }

  /** One row (a, b) of a matrix times the pair (x, y), modulo 26. */
  function Row(a: int, b: int, x: int, y: int): int
  {
    (a * x + b * y) % M
  }

  /** The rows of the identity matrix leave a pair of residues alone. */
  lemma RowIdentity(x: int, y: int)
    requires 0 <= x < M && 0 <= y < M
    ensures Row(1, 0, x, y) == x && Row(0, 1, x, y) == y
  {
    ModUnique(x, M, 0, x);
    ModUnique(y, M, 0, y);
  }

  /** Congruent operands give the same row product. */
  lemma RowCongruent(a: int, b: int, x: int, y: int, x': int, y': int)
    requires x % M == x' % M && y % M == y' % M
    ensures Row(a, b, x, y) == Row(a, b, x', y')
  {
    ModLinear(x, y, x', y', a, b);
    assert x * a + y * b == a * x + b * y;
    assert x' * a + y' * b == a * x' + b * y';
  }

  /** Multiplying a row into a column product, regrouped by column. */
  lemma Regroup(e: int, f: int, k: Matrix, x: int, y: int)
    ensures e * (k.k11 * x + k.k12 * y) + f * (k.k21 * x + k.k22 * y) ==
            (e * k.k11 + f * k.k21) * x + (e * k.k12 + f * k.k22) * y
  {
    assert e * (k.k11 * x + k.k12 * y) == (e * k.k11) * x + (e * k.k12) * y;
    assert f * (k.k21 * x + k.k22 * y) == (f * k.k21) * x + (f * k.k22) * y;
  }

  /** A row (e, f) whose products with the columns of K are congruent to
      (s, t) turns K * (x, y) into s * x + t * y, modulo 26. */
  lemma RowUndoes(e: int, f: int, k: Matrix, x: int, y: int, s: int, t: int)
    requires Row(e, f, k.k11, k.k21) == s % M && Row(e, f, k.k12, k.k22) == t % M
    ensures Row(e, f, Row(k.k11, k.k12, x, y), Row(k.k21, k.k22, x, y)) == Row(s, t, x, y)
  {
    var P, Q := k.k11 * x + k.k12 * y, k.k21 * x + k.k22 * y;
    ModMod(P);
    ModMod(Q);
    RowCongruent(e, f, P % M, Q % M, P, Q);
    Regroup(e, f, k, x, y);
    ModLinear(e * k.k11 + f * k.k21, e * k.k12 + f * k.k22, s, t, x, y);
  }

  /** What an accepted key satisfies. */
  predicate Valid(key: Key)
  {
    !IsZero(key.matrix) &&
    key.det == Det(key.matrix) % M && key.det != 0 &&
    1 <= key.detInv < M && IsInverse(key.det, key.detInv, M)
  }

  /** Key validation as a function of the four entries: all-zero first,
      then a zero determinant, then a determinant without inverse. */
  function CheckKey(m: Matrix): Result<Key, Error>
  {
    if IsZero(m) then Err(AllZeroKey)
    else
      var det := Det(m) % M;
      if det == 0 then Err(SingularKey)
      else match LeastInverse(det, M, 1)
        case None => Err(NonInvertibleKey)
        case Some(x) => Ok(Key(m, det, x))
  }

  /** `leerMatrizClave` with the four fields already read as integers. */
  method ReadKey(m: Matrix) returns (r: Result<Key, Error>)
    ensures r == CheckKey(m)
  {
    if m.k11 == 0 && m.k12 == 0 && m.k21 == 0 && m.k22 == 0 {
      return Err(AllZeroKey);
    }
    var det := Rem(Det(m), M);
    if det < 0 {
      det := det + M;
    }
    LiftNegativeIsMod(Det(m));
    if det == 0 {
      return Err(SingularKey);
    }
    ModMod(Det(m));
    var detInv := ModInverse(det, M);
    if detInv.None? {
      return Err(NonInvertibleKey);
    }
    return Ok(Key(m, det, detInv.value));
  }

  /** The outcome of validation, case by case. */
  lemma CheckKeyOutcome(m: Matrix)
    ensures CheckKey(m) == Err(AllZeroKey) <==> IsZero(m)
    ensures CheckKey(m) == Err(SingularKey) <==> !IsZero(m) && Det(m) % M == 0
    ensures CheckKey(m) == Err(NonInvertibleKey) <==>
              !IsZero(m) && Det(m) % M != 0 && !Coprime(Det(m) % M, M)
    ensures CheckKey(m).Ok? <==> !IsZero(m) && Coprime(Det(m) % M, M)
    ensures CheckKey(m).Ok? ==> Valid(CheckKey(m).value) && CheckKey(m).value.matrix == m
  {
    var det := Det(m) % M;
    InverseExistsIffCoprime(det);
    assert Divides(2, 0) && Divides(2, M);
  }

  /** An accepted key carries the only inverse of its determinant. */
  lemma CheckKeyInverseIsUnique(m: Matrix, y: int)
    requires CheckKey(m).Ok?
    requires 1 <= y < M && IsInverse(Det(m) % M, y, M)
    ensures CheckKey(m).value.detInv == y
  {
    CheckKeyOutcome(m);
    InverseUnique(Det(m) % M, CheckKey(m).value.detInv, y);
  }

  /** K^-1 = detInv * [[k22, -k12], [-k21, k11]], each entry reduced with the
      JavaScript remainder and then repaired into [0, 26). */
  function InverseKey(key: Key): (inv: Matrix)
    ensures inv.k11 == (key.detInv * key.matrix.k22) % M
    ensures inv.k12 == (key.detInv * -key.matrix.k12) % M
    ensures inv.k21 == (key.detInv * -key.matrix.k21) % M
    ensures inv.k22 == (key.detInv * key.matrix.k11) % M
  {
    var k, d := key.matrix, key.detInv;
    RepairIsMod(d * k.k22, M);
    RepairIsMod(d * -k.k12, M);
    RepairIsMod(d * -k.k21, M);
    RepairIsMod(d * k.k11, M);
    Matrix(Repair(Rem(d * k.k22, M), M), Repair(Rem(d * -k.k12, M), M),
           Repair(Rem(d * -k.k21, M), M), Repair(Rem(d * k.k11, M), M))
  }

  /** Coefficients congruent to `e0`, `f0` combine `x`, `y` to what `e0`,
      `f0` combine them to, modulo 26. */
  lemma CongruentCombination(e: int, f: int, e0: int, f0: int, x: int, y: int, t: int)
    requires e % M == e0 % M && f % M == f0 % M
    requires e0 * x + f0 * y == t
    ensures (e * x + f * y) % M == t % M
  {
    ModLinear(e, f, e0, f0, x, y);
  }

  /** detInv times the integer determinant is 1 modulo 26. */
  lemma DetInvTimesDet(key: Key)
    requires Valid(key)
    ensures (key.detInv * Det(key.matrix)) % M == 1
  {
    var d := key.detInv;
    ModMod(Det(key.matrix));
    CongruentCombination(Det(key.matrix), 0, key.det, 0, d, 0, key.det * d);
    assert key.det * d == d * key.det;
  }

  /** The adjugate rows times the columns of K, over the integers. */
  lemma AdjugateProducts(d: int, k: Matrix)
    ensures (d * k.k22) * k.k11 + (d * -k.k12) * k.k21 == d * Det(k)
    ensures (d * k.k22) * k.k12 + (d * -k.k12) * k.k22 == 0
    ensures (d * -k.k21) * k.k11 + (d * k.k11) * k.k21 == 0
    ensures (d * -k.k21) * k.k12 + (d * k.k11) * k.k22 == d * Det(k)
  {
  }

  /** For a valid key, K^-1 * K is the identity modulo 26. */
  lemma InverseKeyInverts(key: Key)
    requires Valid(key)
    ensures var inv, k := InverseKey(key), key.matrix;
            Row(inv.k11, inv.k12, k.k11, k.k21) == 1 && Row(inv.k11, inv.k12, k.k12, k.k22) == 0 &&
            Row(inv.k21, inv.k22, k.k11, k.k21) == 0 && Row(inv.k21, inv.k22, k.k12, k.k22) == 1
  {
    var inv, k, d := InverseKey(key), key.matrix, key.detInv;
    var e0, f0, g0, h0 := d * k.k22, d * -k.k12, d * -k.k21, d * k.k11;
    var t := d * Det(k);
    ModMod(e0);
    ModMod(f0);
    ModMod(g0);
    ModMod(h0);
    DetInvTimesDet(key);
    AdjugateProducts(d, k);
    CongruentCombination(inv.k11, inv.k12, e0, f0, k.k11, k.k21, t);
    CongruentCombination(inv.k11, inv.k12, e0, f0, k.k12, k.k22, 0);
    CongruentCombination(inv.k21, inv.k22, g0, h0, k.k11, k.k21, 0);
    CongruentCombination(inv.k21, inv.k22, g0, h0, k.k12, k.k22, t);
  }
}
