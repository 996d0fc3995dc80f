/** Residues, powers of two, and the bit operations of 32-bit words, over unbounded integers. */
module ModularArithmetic {
  import opened MachineInts

  // ---------------------------------------------------------------- residues

  // The only multiple of m strictly between -m and m is zero.
  lemma OnlyZeroMultiple(m: int, k: int)
    requires m > 0 && 0 - m < m * k < m
    ensures k == 0
  {
    assert k >= 1 ==> m * k >= m * 1;
    assert k <= -1 ==> m * k <= m * -1;
  }

  lemma DivModUnique(x: int, q: int, r: int, m: int)
    requires m > 0 && x == m * q + r && 0 <= r < m
    ensures x / m == q && x % m == r
  {
    var t := x / m;
    assert x == m * t + x % m;
    assert m * (q - t) == x % m - r;
    OnlyZeroMultiple(m, q - t);
  }

  lemma ModShift(x: int, k: int, m: int)
    requires m > 0
    ensures (x + m * k) % m == x % m
  {
    assert x == m * (x / m) + x % m;
    assert x + m * k == m * (x / m + k) + x % m;
    DivModUnique(x + m * k, x / m + k, x % m, m);
  }

  lemma ModEqual(x: int, y: int, m: int) returns (k: int)
    requires m > 0 && x % m == y % m
    ensures x == y + m * k
  {
    k := x / m - y / m;
    assert x == m * (x / m) + x % m && y == m * (y / m) + y % m;
    assert m * (x / m - y / m) == m * (x / m) - m * (y / m);
  }

  lemma FactorOut(m: int, a: int, x: int, b: int)
    ensures (m * a) * x + m * b == m * (a * x + b)
    ensures x * (m * a) == m * (x * a)
  {
  }

  // Reducing the pieces of a linear expression does not change its residue.
  lemma ModLinear(p: int, x: int, q: int, m: int)
    requires m > 0
    ensures ((p % m) * x + q % m) % m == (p * x + q) % m
    ensures (p * (x % m) + q) % m == (p * x + q) % m
  {
    DivModParts(p, m);
    DivModParts(q, m);
    DivModParts(x, m);
    ModLinearCoefficients(p, p / m, p % m, x, q, q / m, q % m, m);
    ModLinearArgument(p, x, x / m, x % m, q, m);
  }

  lemma DivModParts(x: int, m: int)
    requires m > 0
    ensures x == m * (x / m) + x % m
  {
  }

  lemma Distribute(a: int, b: int, x: int)
    ensures (a + b) * x == a * x + b * x
  {
  }

  lemma ModLinearCoefficients(p: int, a: int, r: int, x: int, q: int, b: int, s: int, m: int)
    requires m > 0 && p == m * a + r && q == m * b + s
    ensures (p * x + q) % m == (r * x + s) % m
  {
    FactorOut(m, a, x, b);
    assert p * x == (m * a) * x + r * x by { Distribute(m * a, r, x); }
    ModShift(r * x + s, a * x + b, m);
  }

  lemma ModLinearArgument(p: int, x: int, c: int, r: int, q: int, m: int)
    requires m > 0 && x == m * c + r
    ensures (p * x + q) % m == (p * r + q) % m
  {
    FactorOut(m, c, p, 0);
    assert p * x == p * (m * c) + p * r;
    assert p * (m * c) == m * (p * c);
    ModShift(p * r + q, p * c, m);
  }

  // ---------------------------------------------------------------- powers of two

  function Pow2(k: nat): nat { if k == 0 then 1 else 2 * Pow2(k - 1) }

  lemma {:induction false} Pow2Positive(k: nat)
    ensures Pow2(k) >= 1
  {
    if k > 0 { Pow2Positive(k - 1); }
  }

  lemma DoubleFactor(x: int, y: int)
    ensures 2 * (x * y) == (2 * x) * y
  {
  }

  lemma {:induction false} Pow2Add(a: nat, b: nat)
    ensures Pow2(a + b) == Pow2(a) * Pow2(b)
  {
    if a == 0 {
      assert Pow2(0) == 1;
    } else {
      Pow2Add(a - 1, b);
      assert Pow2(a + b) == 2 * Pow2((a - 1) + b);
      DoubleFactor(Pow2(a - 1), Pow2(b));
    }
  }

  lemma HalfWord()
    ensures Pow2(16) == 0x1_0000
  {
    assert Pow2(4) == 16;
    Pow2Add(4, 4);
    Pow2Add(8, 8);
  }

  lemma WordSizes()
    ensures Pow2(32) == TWO_32 && Pow2(64) == TWO_64
  {
    HalfWord();
    Pow2Add(16, 16);
    Pow2Add(32, 32);
  }

  // A residue modulo 2^(i+j) determines the residue modulo 2^i.
  lemma ModNested(x: int, i: nat, j: nat)
    ensures Pow2(i) > 0 && Pow2(i + j) > 0
    ensures (x % Pow2(i + j)) % Pow2(i) == x % Pow2(i)
  {
    Pow2Positive(i);
    Pow2Positive(i + j);
    Pow2Add(i, j);
    var m := Pow2(i + j);
    assert x == m * (x / m) + x % m;
    assert m * (x / m) == Pow2(i) * (Pow2(j) * (x / m)) by {
      assert (Pow2(i) * Pow2(j)) * (x / m) == Pow2(i) * (Pow2(j) * (x / m));
    }
    ModShift(x % m, Pow2(j) * (x / m), Pow2(i));
  }

  lemma OddStep(b: int, d: int, n: int)
    requires (2 * b + 1) * d == 2 * n
    ensures d == 2 * (n - b * d) && (2 * b + 1) * (n - b * d) == n
  {
    assert (2 * b + 1) * d == 2 * (b * d) + d;
    var e := n - b * d;
    assert (2 * b + 1) * (2 * e) == 2 * ((2 * b + 1) * e);
  }

  // An odd factor can be cancelled modulo a power of two.
  lemma {:induction false} OddCancel(a: int, d: int, k: nat, q: int) returns (t: int)
    requires a % 2 == 1 && a * d == Pow2(k) * q
    ensures d == Pow2(k) * t
    decreases k
  {
    if k == 0 {
      t := d;
    } else {
      var b := a / 2;
      assert a == 2 * b + 1;
      FactorOut(2, Pow2(k - 1), q, 0);
      OddStep(b, d, Pow2(k - 1) * q);
      var e := Pow2(k - 1) * q - b * d;
      t := OddCancel(a, e, k - 1, q);
      FactorOut(2, Pow2(k - 1), t, 0);
    }
  }

  // Multiplying by an odd constant and adding another is injective on k-bit words.
  lemma OddAffineInjective(a: int, c: int, k: nat, x: int, y: int)
    requires a % 2 == 1 && 0 <= x < Pow2(k) && 0 <= y < Pow2(k)
    requires (a * x + c) % Pow2(k) == (a * y + c) % Pow2(k)
    ensures x == y
  {
    var q := ModEqual(a * x + c, a * y + c, Pow2(k));
    assert a * (x - y) == a * x - a * y;
    var t := OddCancel(a, x - y, k, q);
    OnlyZeroMultiple(Pow2(k), t);
  }

  // ---------------------------------------------------------------- bit operations

  function BitAnd(x: nat, y: nat): (r: nat)
    ensures r <= y
  {
    if x == 0 || y == 0 then 0
    else 2 * BitAnd(x / 2, y / 2) + if x % 2 == 1 && y % 2 == 1 then 1 else 0
  }

  lemma ModDoubled(x: nat, p: nat)
    requires p > 0
    ensures x % (2 * p) == 2 * ((x / 2) % p) + x % 2
  {
    var h := x / 2;
    assert h == p * (h / p) + h % p;
    FactorOut(2, p, h / p, 0);
    DivModUnique(x, h / p, 2 * (h % p) + x % 2, 2 * p);
  }

  // Masking with 2^k - 1 is reduction modulo 2^k.
  lemma {:induction false} AndMask(x: nat, k: nat)
    ensures Pow2(k) > 0 && BitAnd(x, Pow2(k) - 1) == x % Pow2(k)
  {
    Pow2Positive(k);
    if k > 0 {
      var p := Pow2(k - 1);
      AndMask(x / 2, k - 1);
      ModDoubled(x, p);
      var y := Pow2(k) - 1;
      assert y / 2 == p - 1 && y % 2 == 1;
      if x == 0 {
        assert BitAnd(0, p - 1) == 0;
      }
    }
  }

  function BitXor(x: nat, y: nat): nat
  {
    if x == 0 && y == 0 then 0
    else 2 * BitXor(x / 2, y / 2) + if x % 2 != y % 2 then 1 else 0
  }

  lemma {:induction false} XorBelow(x: nat, y: nat, k: nat)
    requires x < Pow2(k) && y < Pow2(k)
    ensures BitXor(x, y) < Pow2(k)
  {
    if k > 0 {
      XorBelow(x / 2, y / 2, k - 1);
    }
  }

  lemma {:induction false} XorCommutes(x: nat, y: nat)
    ensures BitXor(x, y) == BitXor(y, x)
  {
    if !(x == 0 && y == 0) { XorCommutes(x / 2, y / 2); }
  }

  lemma {:induction false} XorCancels(x: nat, y: nat, z: nat)
    requires BitXor(x, z) == BitXor(y, z)
    ensures x == y
  {
    if x != 0 || y != 0 || z != 0 {
      assert BitXor(x, z) == 2 * BitXor(x / 2, z / 2) + if x % 2 != z % 2 then 1 else 0;
      assert BitXor(y, z) == 2 * BitXor(y / 2, z / 2) + if y % 2 != z % 2 then 1 else 0;
      XorCancels(x / 2, y / 2, z / 2);
    }
  }
}
