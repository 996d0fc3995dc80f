/** Closed forms the stress battery compares the GPU against: LCG rounds and pointer chases. */
module KnownAnswer {
  import opened MachineInts
  import opened ModularArithmetic

  // x -> (a * x + c) mod m
  datatype Affine = Affine(a: int, c: int)

  function Apply(f: Affine, x: int, m: nat): (y: nat)
    requires m > 0
    ensures y < m
  {
    (f.a * x + f.c) % m
  }

  // First h, then g.
  function Compose(h: Affine, g: Affine, m: nat): Affine
    requires m > 0
  {
    Affine((g.a * h.a) % m, (g.a * h.c + g.c) % m)
  }

  lemma ApplyCompose(h: Affine, g: Affine, x: int, m: nat)
    requires m > 0
    ensures Apply(Compose(h, g, m), x, m) == Apply(g, Apply(h, x, m), m)
  {
    ModLinear(g.a * h.a, x, g.a * h.c + g.c, m);
    ModLinear(g.a, h.a * x + h.c, g.c, m);
    Substitute(g.a, g.c, h.a, h.c, x);
  }

  lemma Substitute(a: int, c: int, b: int, d: int, x: int)
    ensures (a * b) * x + (a * d + c) == a * (b * x + d) + c
  {
    assert (a * b) * x == a * (b * x);
    assert a * (b * x + d) == a * (b * x) + a * d;
  }

  // The loop the kernels run: n rounds, one after another.
  function Rounds(f: Affine, n: nat, x: int, m: nat): int
    requires m > 0
  {
    if n == 0 then x else Rounds(f, n - 1, Apply(f, x, m), m)
  }

  lemma {:induction false} RoundsInRange(f: Affine, n: nat, x: int, m: nat)
    requires 0 <= x < m
    ensures 0 <= Rounds(f, n, x, m) < m
  {
    if n > 0 { RoundsInRange(f, n - 1, Apply(f, x, m), m); }
  }

  lemma {:induction false} RoundsAdd(f: Affine, n: nat, k: nat, x: int, m: nat)
    requires m > 0
    ensures Rounds(f, n + k, x, m) == Rounds(f, k, Rounds(f, n, x, m), m)
  {
    if n > 0 { RoundsAdd(f, n - 1, k, Apply(f, x, m), m); }
  }

  // Two rounds at a time with the squared map.
  lemma {:induction false} RoundsDouble(f: Affine, n: nat, x: int, m: nat)
    requires m > 0
    ensures Rounds(f, 2 * n, x, m) == Rounds(Compose(f, f, m), n, x, m)
  {
    if n > 0 {
      var y := Apply(f, x, m);
      assert Rounds(f, 2 * n, x, m) == Rounds(f, 2 * n - 1, y, m) == Rounds(f, 2 * (n - 1), Apply(f, y, m), m);
      ApplyCompose(f, f, x, m);
      RoundsDouble(f, n - 1, Apply(f, y, m), m);
    }
  }

  // Rounds of an identically acting map agree.
  lemma {:induction false} RoundsCongruent(f: Affine, g: Affine, n: nat, x: int, m: nat)
    requires m > 0 && f.a % m == g.a % m && f.c % m == g.c % m
    ensures Rounds(f, n, x, m) == Rounds(g, n, x, m)
  {
    if n > 0 {
      ModLinear(f.a, x, f.c, m);
      ModLinear(g.a, x, g.c, m);
      RoundsCongruent(f, g, n - 1, Apply(f, x, m), m);
    }
  }

  // ---------------------------------------------------------------- fast exponentiation

  // What the square-and-multiply loop keeps: finishing the remaining e rounds of `base` after
  // `result` gives all n rounds of f.
  ghost predicate Halfway(f: Affine, n: nat, result: Affine, base: Affine, e: nat, m: nat)
    requires m > 0
  {
    forall x :: 0 <= x < m ==> Rounds(f, n, x, m) == Rounds(base, e, Apply(result, x, m), m)
  }

  lemma HalfwayStart(f: Affine, n: nat, base: Affine, m: nat)
    requires m > 0 && base.a % m == f.a % m && base.c % m == f.c % m
    ensures Halfway(f, n, Affine(1 % m, 0), base, n, m)
  {
    forall x | 0 <= x < m
      ensures Rounds(f, n, x, m) == Rounds(base, n, Apply(Affine(1 % m, 0), x, m), m)
    {
      ModLinear(1, x, 0, m);
      assert 0 % m == 0 by { DivModUnique(0, 0, 0, m); }
      DivModUnique(x, 0, x, m);
      RoundsCongruent(f, base, n, x, m);
    }
  }

  lemma HalfwayStep(f: Affine, n: nat, result: Affine, base: Affine, e: nat, m: nat)
    requires m > 0 && e > 0 && Halfway(f, n, result, base, e, m)
    ensures var result' := if e % 2 == 1 then Compose(result, base, m) else result;
            Halfway(f, n, result', Compose(base, base, m), e / 2, m)
  {
    var result' := if e % 2 == 1 then Compose(result, base, m) else result;
    forall x | 0 <= x < m
      ensures Rounds(f, n, x, m) == Rounds(Compose(base, base, m), e / 2, Apply(result', x, m), m)
    {
      var y := Apply(result, x, m);
      if e % 2 == 1 {
        ApplyCompose(result, base, x, m);
        assert Rounds(base, e, y, m) == Rounds(base, e - 1, Apply(base, y, m), m);
        RoundsDouble(base, e / 2, Apply(base, y, m), m);
      } else {
        RoundsDouble(base, e / 2, y, m);
      }
    }
  }

  // The closed form promised for n rounds of f: it acts as the n rounds do.
  ghost predicate ClosedForm(r: Affine, f: Affine, n: nat, m: nat)
    requires m > 0
  {
    && 0 <= r.a < m && 0 <= r.c < m
    && forall x :: 0 <= x < m ==> Apply(r, x, m) == Rounds(f, n, x, m)
  }

  // It is the only one.
  lemma ClosedFormUnique(r: Affine, s: Affine, f: Affine, n: nat, m: nat)
    requires m > 0 && ClosedForm(r, f, n, m) && ClosedForm(s, f, n, m)
    ensures r == s
  {
    assert Apply(r, 0, m) == Apply(s, 0, m);
    DivModUnique(r.c, 0, r.c, m);
    DivModUnique(s.c, 0, s.c, m);
    if m > 1 {
      assert Apply(r, 1, m) == Apply(s, 1, m);
      var k := ModEqual(r.a + r.c, s.a + s.c, m);
      OnlyZeroMultiple(m, k);
    }
  }

  // ---------------------------------------------------------------- LCG jump-ahead

  const C1: u32 := 1664525
  const C2: u32 := 1013904223

  const LCG: Affine := Affine(C1, C2)

  method LcgPow(n: u64) returns (r: Affine)
    ensures ClosedForm(r, LCG, n, TWO_32)
  {
    var result, base := Affine(1, 0), LCG;
    var e := n;
    HalfwayStart(LCG, n, base, TWO_32);
    assert 1 % TWO_32 == 1;
    while e > 0
      invariant Halfway(LCG, n, result, base, e, TWO_32)
      invariant 0 <= result.a < TWO_32 && 0 <= result.c < TWO_32
    {
      HalfwayStep(LCG, n, result, base, e, TWO_32);
      if e % 2 == 1 {
        WrapCompose(result, base);
        result := Affine(WrapU32(base.a * result.a), WrapU32(WrapU32(base.a * result.c) + base.c));
      }
      WrapCompose(base, base);
      base := Affine(WrapU32(base.a * base.a), WrapU32(WrapU32(base.a * base.c) + base.c));
      e := e / 2;
    }
    r := result;
  }

  lemma WrapCompose(h: Affine, g: Affine)
    ensures Affine(WrapU32(g.a * h.a), WrapU32(WrapU32(g.a * h.c) + g.c)) == Compose(h, g, TWO_32)
  {
    WrapAdd(g.a * h.c, g.c);
  }

  lemma WrapAdd(x: int, y: int)
    ensures WrapU32(WrapU32(x) + y) == WrapU32(x + y)
  {
  }

  // f^(2^i), by repeated squaring.
  function Squared(f: Affine, i: nat, m: nat): Affine
    requires m > 0
  {
    if i == 0 then Affine(f.a % m, f.c % m) else Compose(Squared(f, i - 1, m), Squared(f, i - 1, m), m)
  }

  lemma {:induction false} SquaredRounds(f: Affine, i: nat, x: int, m: nat)
    requires m > 0
    ensures Rounds(f, Pow2(i), x, m) == Apply(Squared(f, i, m), x, m)
    decreases i
  {
    if i == 0 {
      ModLinear(f.a, x, f.c, m);
      assert Rounds(f, 1, x, m) == Rounds(f, 0, Apply(f, x, m), m);
    } else {
      var s := Squared(f, i - 1, m);
      RoundsAdd(f, Pow2(i - 1), Pow2(i - 1), x, m);
      SquaredRounds(f, i - 1, x, m);
      SquaredRounds(f, i - 1, Apply(s, x, m), m);
      ApplyCompose(s, s, x, m);
    }
  }

  lemma ReduceBy(x: int, r: int, q: int, h: int, n: int, m: int)
    requires m > 0 && m == h * n && x == h * q + r
    ensures x % m == h * (q - n * (x / m)) + r
  {
    var d := x / m;
    DivModParts(x, m);
    assert m * d == h * (n * d);
    assert h * (q - n * d) == h * q - h * (n * d);
  }

  // Reduction modulo 2^k keeps a residue modulo a smaller power of two.
  lemma ReducedMultiple(x: int, r: int, q: int, i: nat, k: nat) returns (t: int)
    requires i <= k && x == Pow2(i) * q + r
    ensures Pow2(k) > 0 && x % Pow2(k) == Pow2(i) * t + r
  {
    Pow2Positive(k);
    Pow2Add(i, k - i);
    ReduceBy(x, r, q, Pow2(i), Pow2(k - i), Pow2(k));
    t := q - Pow2(k - i) * (x / Pow2(k));
  }

  // Squaring doubles the power of two that divides a - 1 and c.
  lemma SquareStep(a: int, c: int, h: int, p: int, q: int) returns (p': int, q': int)
    requires a == h * p + 1 && c == h * q && a % 2 == 1
    ensures a * a == (2 * h) * p' + 1 && a * c + c == (2 * h) * q'
  {
    var t := (a + 1) / 2;
    assert a + 1 == 2 * t;
    p', q' := p * t, q * t;
    FactorOut(2 * h, p, t, 0);
    FactorOut(2 * h, q, t, 0);
    assert a * a - 1 == (a - 1) * (a + 1) == (h * p) * (2 * t) == ((2 * h) * p) * t;
    assert a * c + c == c * (a + 1) == (h * q) * (2 * t) == ((2 * h) * q) * t;
  }

  // The shape of an affine map that is the identity modulo h.
  ghost predicate NearIdentity(s: Affine, h: int, p: int, q: int)
  {
    s.a == h * p + 1 && s.c == h * q && s.a % 2 == 1
  }

  lemma OddReduced(a: int, k: nat)
    requires a % 2 == 1 && k >= 1
    ensures Pow2(k) > 0 && (a % Pow2(k)) % 2 == 1
  {
    assert Pow2(1) == 2 * Pow2(0);
    var t := ReducedMultiple(a, 1, a / 2, 1, k);
  }

  lemma OddAfterEven(h: int, p: int, x: int)
    requires x == (2 * h) * p + 1
    ensures x % 2 == 1
  {
    DoubleFactor(h, p);
  }

  lemma SquaredStep(r: Affine, i: nat, k: nat, p0: int, q0: int) returns (p: int, q: int)
    requires 1 <= i <= k && NearIdentity(r, Pow2(i - 1), p0, q0)
    ensures Pow2(k) > 0 && NearIdentity(Compose(r, r, Pow2(k)), Pow2(i), p, q)
  {
    var p1, q1 := SquareStep(r.a, r.c, Pow2(i - 1), p0, q0);
    assert Pow2(i) == 2 * Pow2(i - 1);
    p := ReducedMultiple(r.a * r.a, 1, p1, i, k);
    q := ReducedMultiple(r.a * r.c + r.c, 0, q1, i, k);
    OddAfterEven(Pow2(i - 1), p, (r.a * r.a) % Pow2(k));
  }

  // With an odd multiplier, 2^i rounds act as the identity modulo 2^i.
  lemma {:induction false} SquaredNearIdentity(f: Affine, i: nat, k: nat) returns (p: int, q: int)
    requires f.a % 2 == 1 && i <= k && k >= 1
    ensures Pow2(k) > 0 && NearIdentity(Squared(f, i, Pow2(k)), Pow2(i), p, q)
    decreases i
  {
    Pow2Positive(k);
    if i == 0 {
      OddReduced(f.a, k);
      p, q := f.a % Pow2(k) - 1, f.c % Pow2(k);
    } else {
      var p0, q0 := SquaredNearIdentity(f, i - 1, k);
      p, q := SquaredStep(Squared(f, i - 1, Pow2(k)), i, k, p0, q0);
    }
  }

  // Full period: 2^k rounds of an odd affine step bring every k-bit word back.
  lemma FullPeriod(f: Affine, k: nat, x: int)
    requires f.a % 2 == 1 && 1 <= k && 0 <= x < Pow2(k)
    ensures Rounds(f, Pow2(k), x, Pow2(k)) == x
  {
    var m := Pow2(k);
    var p, q := SquaredNearIdentity(f, k, k);
    SquaredRounds(f, k, x, m);
    ModLinearCoefficients(m * p + 1, p, 1, x, m * q, q, 0, m);
    DivModUnique(x, 0, x, m);
  }

  lemma {:induction false} WholePeriods(f: Affine, k: nat, t: nat, x: int)
    requires f.a % 2 == 1 && 1 <= k && 0 <= x < Pow2(k)
    ensures Rounds(f, Pow2(k) * t, x, Pow2(k)) == x
    decreases t
  {
    if t > 0 {
      assert Pow2(k) * t == Pow2(k) * (t - 1) + Pow2(k);
      assert Pow2(k) * (t - 1) >= 0;
      WholePeriods(f, k, t - 1, x);
      RoundsAdd(f, Pow2(k) * (t - 1), Pow2(k), x, Pow2(k));
      FullPeriod(f, k, x);
    }
  }

  // The arithmetic kernel's loop in its own numbers.
  function AluKernel(x: u32, iters: nat): u32
    decreases iters
  {
    if iters == 0 then x else AluKernel((x * 1664525 + 1013904223) % 0x1_0000_0000, iters - 1)
  }

  lemma {:induction false} AluKernelIsRounds(x: u32, iters: nat)
    ensures AluKernel(x, iters) == Rounds(LCG, iters, x, TWO_32)
    decreases iters
  {
    if iters > 0 { AluKernelIsRounds((x * 1664525 + 1013904223) % 0x1_0000_0000, iters - 1); }
  }

  // A closed form of n rounds predicts n turns of the kernel from every seed.
  lemma ClosedFormPredictsKernel(r: Affine, n: nat, x: u32)
    requires ClosedForm(r, LCG, n, TWO_32)
    ensures (r.a * x + r.c) % 0x1_0000_0000 == AluKernel(x, n)
  {
    AluKernelIsRounds(x, n);
    assert Apply(r, x, TWO_32) == Rounds(LCG, n, x, TWO_32);
  }

  // `times` kernel launches of `iters` rounds each, every launch continuing from the last.
  function Dispatches(iters: nat, times: nat, x: u32): u32
  {
    if times == 0 then x else Dispatches(iters, times - 1, AluKernel(x, iters))
  }

  lemma {:induction false} DispatchesAreRounds(iters: nat, times: nat, x: u32)
    ensures Dispatches(iters, times, x) == Rounds(LCG, iters * times, x, TWO_32)
    decreases times
  {
    if times > 0 {
      assert iters * times == iters + iters * (times - 1);
      assert iters * (times - 1) >= 0;
      AluKernelIsRounds(x, iters);
      DispatchesAreRounds(iters, times - 1, AluKernel(x, iters));
      RoundsAdd(LCG, iters, iters * (times - 1), x, TWO_32);
    }
  }

  // The expected answer is right for every launch count: even when iters * times wraps around
  // 64 bits, because 2^64 rounds are whole periods of the generator.
  lemma ExpectedAfterDispatches(iters: u32, times: u64, seed: u32, r: Affine)
    requires ClosedForm(r, LCG, WrapU64(iters * times), TWO_32)
    ensures Apply(r, seed, TWO_32) == Dispatches(iters, times, seed)
  {
    var n := iters * times;
    ProductBound(iters, times, iters, times);
    var w, q := WrapU64(n), n / TWO_64;
    assert n == TWO_64 * q + w;
    WordSizes();
    assert TWO_64 * q == Pow2(32) * (TWO_32 * q);
    assert TWO_32 * q >= 0;
    WholePeriods(LCG, 32, TWO_32 * q, seed);
    RoundsAdd(LCG, TWO_64 * q, w, seed, TWO_32);
    DispatchesAreRounds(iters, times, seed);
  }

  // ---------------------------------------------------------------- single faults

  lemma {:induction false} OddRoundsInjective(f: Affine, n: nat, x: int, y: int, k: nat)
    requires f.a % 2 == 1 && 0 <= x < Pow2(k) && 0 <= y < Pow2(k) && x != y
    ensures Rounds(f, n, x, Pow2(k)) != Rounds(f, n, y, Pow2(k))
  {
    if n > 0 {
      var m := Pow2(k);
      if Apply(f, x, m) == Apply(f, y, m) {
        OddAffineInjective(f.a, f.c, k, x, y);
      }
      OddRoundsInjective(f, n - 1, Apply(f, x, m), Apply(f, y, m), k);
    }
  }

  // One corrupted round out of n is always seen: the final value is right exactly when the
  // value written after round j was right.
  lemma CorruptedRoundDetected(n: nat, j: nat, seed: u32, written: u32)
    requires j <= n
    ensures AluKernel(written, n - j) == AluKernel(seed, n) <==> written == AluKernel(seed, j)
  {
    AluKernelIsRounds(written, n - j);
    AluKernelIsRounds(seed, n);
    AluKernelIsRounds(seed, j);
    WordSizes();
    RoundsAdd(LCG, j, n - j, seed, TWO_32);
    RoundsInRange(LCG, j, seed, TWO_32);
    if written != Rounds(LCG, j, seed, TWO_32) {
      OddRoundsInjective(LCG, n - j, written, Rounds(LCG, j, seed, TWO_32), 32);
    }
  }

  // ---------------------------------------------------------------- the pointer chase

  const CHAIN_CP: u32 := 2654435761
  const CHAIN_CQ: u32 := 1442695041

  const CHAIN: Affine := Affine(CHAIN_CP, CHAIN_CQ)

  // Masks of power-of-two chains.
  ghost predicate IsMask(mask: u32)
  {
    exists k: nat :: k <= 32 && mask == Pow2(k) - 1
  }

  lemma MaskIsMod(x: nat, mask: u32)
    requires IsMask(mask)
    ensures BitAnd(x, mask) == x % (mask + 1)
    ensures BitAnd(WrapU32(x), mask) == x % (mask + 1)
  {
    var k: nat :| k <= 32 && mask == Pow2(k) - 1;
    AndMask(x, k);
    AndMask(WrapU32(x), k);
    WordSizes();
    ModNested(x, k, 32 - k);
  }

  // chain[i], as the fill kernel writes it.
  function Link(i: u32, mask: u32): u32
  {
    BitAnd(WrapU32(WrapU32(i * CHAIN_CP) + CHAIN_CQ), mask)
  }

  lemma LinkIsAffine(i: u32, mask: u32)
    requires IsMask(mask)
    ensures Link(i, mask) == Apply(CHAIN, i, mask + 1)
  {
    WrapAdd(i * CHAIN_CP, CHAIN_CQ);
    MaskIsMod(i * CHAIN_CP + CHAIN_CQ, mask);
  }

  // The fill kernel's link in its own numbers, taken modulo the chain length.
  lemma LinkInNumbers(i: u32, mask: u32)
    requires IsMask(mask)
    ensures Link(i, mask) == (i * 2654435761 + 1442695041) % (mask + 1)
  {
    LinkIsAffine(i, mask);
  }

  // The chain visits every index exactly once: no two links agree, and every index is some link.
  lemma LinksDiffer(mask: u32, i: u32, j: u32)
    requires IsMask(mask) && i <= mask && j <= mask && i != j
    ensures Link(i, mask) != Link(j, mask)
  {
    var k: nat :| k <= 32 && mask == Pow2(k) - 1;
    LinkIsAffine(i, mask);
    LinkIsAffine(j, mask);
    if Link(i, mask) == Link(j, mask) {
      OddAffineInjective(CHAIN_CP, CHAIN_CQ, k, i, j);
    }
  }

  lemma EveryIndexLinked(mask: u32, y: u32) returns (i: u32)
    requires IsMask(mask) && y <= mask
    ensures i <= mask && Link(i, mask) == y
  {
    var k: nat :| k <= 32 && mask == Pow2(k) - 1;
    var m := mask + 1;
    if k == 0 {
      i := 0;
      LinkIsAffine(0, mask);
    } else {
      RoundsInRange(CHAIN, mask, y, m);
      i := Rounds(CHAIN, mask, y, m);
      RoundsAdd(CHAIN, mask, 1, y, m);
      OneRound(CHAIN, i, m);
      FullPeriod(CHAIN, k, y);
      LinkIsAffine(i, mask);
    }
  }

  lemma OneRound(f: Affine, x: int, m: nat)
    requires m > 0
    ensures Rounds(f, 1, x, m) == Apply(f, x, m)
  {
    assert Rounds(f, 0, Apply(f, x, m), m) == Apply(f, x, m);
  }

  ghost predicate Filled(chain: seq<u32>, mask: u32)
  {
    |chain| == mask + 1 && forall i: u32 :: i <= mask ==> chain[i] == Link(i, mask)
  }

  // The chase kernel: read the next index, mask it, repeat.
  function Walk(chain: seq<u32>, mask: u32, steps: nat, idx: u32): (end: u32)
    requires |chain| == mask + 1 && idx <= mask
    ensures end <= mask
  {
    if steps == 0 then idx else Walk(chain, mask, steps - 1, BitAnd(chain[idx], mask))
  }

  lemma {:induction false} WalkIsRounds(chain: seq<u32>, mask: u32, steps: nat, idx: u32)
    requires Filled(chain, mask) && IsMask(mask) && idx <= mask
    ensures Walk(chain, mask, steps, idx) == Rounds(CHAIN, steps, idx, mask + 1)
  {
    if steps > 0 {
      LinkIsAffine(idx, mask);
      var next := chain[idx];
      MaskIsMod(next, mask);
      DivModUnique(next, 0, next, mask + 1);
      WalkIsRounds(chain, mask, steps - 1, next);
    }
  }

  method AffinePowMod(n: u64, mask: u32) returns (r: Affine)
    ensures IsMask(mask) ==> ClosedForm(r, CHAIN, n, mask + 1)
  {
    ghost var m := mask + 1;
    var result := Affine(BitAnd(1, mask), 0);
    var base := Affine(BitAnd(CHAIN_CP, mask), BitAnd(CHAIN_CQ, mask));
    var e := n;
    if IsMask(mask) {
      MaskIsMod(1, mask);
      MaskIsMod(CHAIN_CP, mask);
      MaskIsMod(CHAIN_CQ, mask);
      ModLinear(CHAIN_CP, 1, 0, m);
      DivModUnique(CHAIN_CP % m, 0, CHAIN_CP % m, m);
      DivModUnique(CHAIN_CQ % m, 0, CHAIN_CQ % m, m);
      HalfwayStart(CHAIN, n, base, m);
    }
    while e > 0
      invariant IsMask(mask) ==> Halfway(CHAIN, n, result, base, e, m)
      invariant 0 <= result.a <= mask && 0 <= result.c <= mask
      invariant 0 <= base.a <= mask && 0 <= base.c <= mask
    {
      ghost var result0, base0 := result, base;
      if e % 2 == 1 {
        result := MaskedCompose(result, base, mask);
      }
      base := MaskedCompose(base, base, mask);
      if IsMask(mask) {
        MaskedComposeIsCompose(result0, base0, mask);
        MaskedComposeIsCompose(base0, base0, mask);
        HalfwayStep(CHAIN, n, result0, base0, e, m);
      }
      e := e / 2;
    }
    r := result;
  }

  function MaskedCompose(h: Affine, g: Affine, mask: u32): Affine
    requires 0 <= h.a && 0 <= h.c && 0 <= g.a && 0 <= g.c
  {
    Affine(BitAnd(WrapU32(g.a * h.a), mask), BitAnd(WrapU32(WrapU32(g.a * h.c) + g.c), mask))
  }

  lemma MaskedComposeIsCompose(h: Affine, g: Affine, mask: u32)
    requires IsMask(mask) && 0 <= h.a && 0 <= h.c && 0 <= g.a && 0 <= g.c
    ensures MaskedCompose(h, g, mask) == Compose(h, g, mask + 1)
  {
    ProductBound(g.a, h.a, g.a, h.a);
    ProductBound(g.a, h.c, g.a, h.c);
    MaskIsMod(g.a * h.a, mask);
    WrapAdd(g.a * h.c, g.c);
    MaskIsMod(g.a * h.c + g.c, mask);
  }

  lemma MaskedApply(r: Affine, s: u32, mask: u32)
    requires IsMask(mask) && 0 <= r.a && 0 <= r.c
    ensures BitAnd(WrapU32(WrapU32(r.a * s) + r.c), mask) == Apply(r, s, mask + 1)
  {
    ProductBound(r.a, s, r.a, s);
    WrapAdd(r.a * s, r.c);
    MaskIsMod(r.a * s + r.c, mask);
  }

  // The expected end of a chase of any length, from any start.
  lemma ChaseClosedForm(chain: seq<u32>, mask: u32, steps: u64, s: u32, r: Affine)
    requires IsMask(mask) && Filled(chain, mask) && s <= mask && ClosedForm(r, CHAIN, steps, mask + 1)
    ensures Walk(chain, mask, steps, s) == BitAnd(WrapU32(WrapU32(r.a * s) + r.c), mask)
  {
    WalkIsRounds(chain, mask, steps, s);
    MaskedApply(r, s, mask);
  }

  // A chase whose read number j returns `read` instead of what the chain holds.
  function FaultyWalk(chain: seq<u32>, mask: u32, steps: nat, idx: u32, j: nat, read: u32): u32
    requires |chain| == mask + 1 && idx <= mask
  {
    if steps == 0 then idx
    else if j == 0 then Walk(chain, mask, steps - 1, BitAnd(read, mask))
    else FaultyWalk(chain, mask, steps - 1, BitAnd(chain[idx], mask), j - 1, read)
  }

  lemma FilledStep(chain: seq<u32>, mask: u32, steps: nat, s: u32)
    requires IsMask(mask) && Filled(chain, mask) && s <= mask && steps > 0
    ensures chain[s] <= mask && BitAnd(chain[s], mask) == chain[s]
    ensures Walk(chain, mask, steps, s) == Walk(chain, mask, steps - 1, chain[s])
    ensures forall j: nat, read: u32 :: j > 0 ==>
              FaultyWalk(chain, mask, steps, s, j, read) == FaultyWalk(chain, mask, steps - 1, chain[s], j - 1, read)
  {
    InRangeUnmasked(chain[s], mask);
  }

  lemma FirstReadDetected(chain: seq<u32>, mask: u32, steps: nat, s: u32, read: u32)
    requires IsMask(mask) && Filled(chain, mask) && s <= mask && 0 < steps
    ensures FaultyWalk(chain, mask, steps, s, 0, read) == Walk(chain, mask, steps, s)
       <==> BitAnd(read, mask) == chain[s]
  {
    FilledStep(chain, mask, steps, s);
    WalksSeparate(chain, mask, steps - 1, chain[s], BitAnd(read, mask));
  }

  // One wrong read is seen at the end exactly when it is wrong in the bits the mask keeps.
  lemma {:induction false} WrongReadDetected(chain: seq<u32>, mask: u32, steps: nat, s: u32, j: nat, read: u32)
    requires IsMask(mask) && Filled(chain, mask) && s <= mask && j < steps
    ensures FaultyWalk(chain, mask, steps, s, j, read) == Walk(chain, mask, steps, s)
       <==> BitAnd(read, mask) == chain[Walk(chain, mask, j, s)]
    decreases steps
  {
    if j == 0 {
      FirstReadDetected(chain, mask, steps, s, read);
    } else {
      FilledStep(chain, mask, steps, s);
      FilledStep(chain, mask, j, s);
      WrongReadDetected(chain, mask, steps - 1, chain[s], j - 1, read);
    }
  }

  // In particular, every wrong in-range read is seen.
  lemma WrongInRangeReadDetected(chain: seq<u32>, mask: u32, steps: nat, s: u32, j: nat, read: u32)
    requires IsMask(mask) && Filled(chain, mask) && s <= mask && j < steps
    requires read <= mask && read != chain[Walk(chain, mask, j, s)]
    ensures FaultyWalk(chain, mask, steps, s, j, read) != Walk(chain, mask, steps, s)
  {
    InRangeUnmasked(read, mask);
    WrongReadDetected(chain, mask, steps, s, j, read);
  }

  lemma InRangeUnmasked(x: u32, mask: u32)
    requires IsMask(mask) && x <= mask
    ensures BitAnd(x, mask) == x
  {
    MaskIsMod(x, mask);
    DivModUnique(x, 0, x, mask + 1);
  }

  lemma WalksSeparate(chain: seq<u32>, mask: u32, steps: nat, x: u32, y: u32)
    requires IsMask(mask) && Filled(chain, mask) && x <= mask && y <= mask
    ensures Walk(chain, mask, steps, x) == Walk(chain, mask, steps, y) <==> x == y
  {
    WalkIsRounds(chain, mask, steps, x);
    WalkIsRounds(chain, mask, steps, y);
    if x != y {
      var k: nat :| k <= 32 && mask == Pow2(k) - 1;
      OddRoundsInjective(CHAIN, steps, x, y, k);
    }
  }
}
