/** Integer remainder as JavaScript computes it, and the two ways the cipher
    repairs a negative remainder, each proved equal to Euclidean `%`. */
module JsArith {

  /** The alphabet size: every residue in the cipher is taken modulo 26. */
  const M: int := 26

  /** JavaScript's `a % m` on integers: the remainder truncates toward zero,
      so it takes the sign of the dividend. */
  function Rem(a: int, m: int): (r: int)
    requires m > 0
    ensures -m < r < m
    ensures a >= 0 ==> r == a % m
    ensures a < 0 ==> r <= 0
  {
    if a >= 0 then a % m else -((-a) % m)
  }

  /** The repair `(x + m) % m` applied to a JavaScript remainder. */
  function Repair(x: int, m: int): int
    requires m > 0
  {
    Rem(x + m, m)
  }

  /** The repair `if (det < 0) det += 26` applied to a JavaScript remainder. */
  function LiftNegative(x: int): int
  {
    if x < 0 then x + M else x
  }

  /** Euclidean division is unique: a quotient and a remainder in [0, m)
      that rebuild `a` give `a % m`. */
  lemma ModUnique(a: int, m: int, q: int, r: int)
    requires m > 0 && 0 <= r < m && a == m * q + r
    ensures a % m == r
  {
    var q', r' := a / m, a % m;
    assert a == m * q' + r';
    var d := q - q';
    assert m * d == r' - r;
    if d >= 1 {
      MulAtLeast(m, d);
    } else if d <= -1 {
      MulAtLeast(m, -d);
    }
  }

  /** A positive multiple of `m` is at least `m`. */
  lemma MulAtLeast(m: int, d: int)
    requires m > 0 && d >= 1
    ensures m * d >= m
  {
  }

  /** A truncated remainder is either the Euclidean remainder or, when
      negative, exactly `m` below it. */
  lemma RemVersusMod(a: int, m: int)
    requires m > 0
    ensures Rem(a, m) >= 0 ==> Rem(a, m) == a % m
    ensures Rem(a, m) < 0 ==> Rem(a, m) + m == a % m
  {
    if a < 0 {
      var t := -a;
      var q, s := t / m, t % m;
      assert t == m * q + s;
      if s > 0 {
        assert a == m * (-q - 1) + (m - s);
        ModUnique(a, m, -q - 1, m - s);
      } else {
        assert a == m * (-q) + 0;
        ModUnique(a, m, -q, 0);
      }
    }
  }

  /** `(Rem(y, m) + m) % m` is the Euclidean remainder of `y`: the repair is
      sound because its operand is a JavaScript remainder, in (-m, m). */
  lemma RepairIsMod(y: int, m: int)
    requires m > 0
    ensures Repair(Rem(y, m), m) == y % m
    ensures 0 <= Repair(Rem(y, m), m) < m
  {
    RemVersusMod(y, m);
    var x := Rem(y, m);
    if x < 0 {
      ModUnique(x + m, m, 0, y % m);
    } else {
      ModUnique(x + m, m, 1, y % m);
    }
  }

  /** `if (det < 0) det += 26` after `det = y % 26` yields the Euclidean
      remainder of `y`. */
  lemma LiftNegativeIsMod(y: int)
    ensures LiftNegative(Rem(y, M)) == y % M
    ensures 0 <= LiftNegative(Rem(y, M)) < M
  {
    RemVersusMod(y, M);
  }

  /** The repair needs its operand above `-m`: for an operand in (-2m, -m)
      it leaves a negative value, one `m` short of the Euclidean remainder. */
  lemma RepairNeedsBound(x: int, m: int)
    requires m > 0 && -2 * m < x < -m
    ensures Repair(x, m) == x + m < 0
    ensures x % m == x + 2 * m
  {
    ModUnique(-(x + m), m, 0, -(x + m));
    ModUnique(x, m, -2, x + 2 * m);
  }

  /** Adding a multiple of `d` leaves the remainder modulo `d` unchanged. */
  lemma ModShift(d: int, z: int, r: int)
    requires d > 0
    ensures (d * z + r) % d == r % d
  {
    assert r == d * (r / d) + r % d;
    assert d * z + r == d * (z + r / d) + r % d;
    ModUnique(d * z + r, d, z + r / d, r % d);
  }

  /** Adding a multiple of 26 leaves the residue unchanged. */
  lemma ModAddMultiple(x: int, z: int)
    ensures (x + M * z) % M == x % M
  {
    assert x == M * (x / M) + x % M;
    assert x + M * z == M * (x / M + z) + x % M;
    ModUnique(x + M * z, M, x / M + z, x % M);
  }

  /** Congruent coefficients give congruent linear combinations. */
  lemma ModLinear(a: int, b: int, a': int, b': int, x: int, y: int)
    requires a % M == a' % M && b % M == b' % M
    ensures (a * x + b * y) % M == (a' * x + b' * y) % M
  {
    assert a == M * (a / M) + a % M;
    assert a' == M * (a' / M) + a' % M;
    assert b == M * (b / M) + b % M;
    assert b' == M * (b' / M) + b' % M;
    var t, u := a / M - a' / M, b / M - b' / M;
    assert a == a' + M * t;
    assert b == b' + M * u;
    assert a * x + b * y == (a' * x + b' * y) + M * (t * x + u * y);
    ModAddMultiple(a' * x + b' * y, t * x + u * y);
  }

  /** A residue is its own residue. */
  lemma ModMod(x: int)
    ensures (x % M) % M == x % M
  {
    ModUnique(x % M, M, 0, x % M);
  }
}
