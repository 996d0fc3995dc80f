/** Fixed-width integers, the Rust operators whose behaviour differs from Dafny's, and counting. */
module MachineInts {
  datatype Option<+T> = None | Some(value: T)

  const TWO_31: int := 0x8000_0000
  const TWO_32: int := 0x1_0000_0000
  const TWO_63: int := 0x8000_0000_0000_0000
  const TWO_64: int := 0x1_0000_0000_0000_0000
  const U32_MAX: int := 0xffff_ffff
  const U64_MAX: int := 0xffff_ffff_ffff_ffff
  const I64_MIN: int := -0x8000_0000_0000_0000

  type u32 = x: int | 0 <= x < 0x1_0000_0000
  type u64 = x: int | 0 <= x < 0x1_0000_0000_0000_0000
  type i32 = x: int | -0x8000_0000 <= x < 0x8000_0000
  type i64 = x: int | -0x8000_0000_0000_0000 <= x < 0x8000_0000_0000_0000

  // Two's-complement wrap-around: what `wrapping_*` and unchecked release arithmetic compute.
  function WrapU32(x: int): u32 { x % TWO_32 }
  function WrapU64(x: int): u64 { x % TWO_64 }
  function WrapI32(x: int): i32 { (x + TWO_31) % TWO_32 - TWO_31 }
  function WrapI64(x: int): int { (x + TWO_63) % TWO_64 - TWO_63 }

  function SatAdd32(a: u32, b: u32): u32 { if a + b > U32_MAX then U32_MAX else a + b }
  function SatSub(a: nat, b: nat): nat { if a >= b then a - b else 0 }
  function SatAdd64(a: u64, b: u64): u64 { if a + b > U64_MAX then U64_MAX else a + b }
  function SatMul64(a: u64, b: u64): u64 { if a * b > U64_MAX then U64_MAX else a * b }

  // Rust's `/` truncates toward zero; Dafny's rounds down for a positive divisor.
  function TruncDiv(a: int, d: int): int
    requires d > 0
  {
    if a >= 0 then a / d else -((-a) / d)
  }

  function Max(a: int, b: int): int { if a >= b then a else b }
  function Min(a: int, b: int): int { if a <= b then a else b }

  function CeilDiv(a: int, d: int): int
    requires d > 0
  {
    (a + d - 1) / d
  }

  // CeilDiv(a, d) is the least integer q with a <= d * q.
  lemma CeilDivMeaning(a: int, d: int)
    requires d > 0
    ensures d * (CeilDiv(a, d) - 1) < a <= d * CeilDiv(a, d)
  {
    assert d * CeilDiv(a, d) + (a + d - 1) % d == a + d - 1;
  }

  lemma ScaleGe(p: int, q: int, k: int)
    requires p >= q && k >= 0
    ensures p * k >= q * k
  {
  }

  lemma CancelGe(p: int, q: int, k: int)
    requires k > 0 && p * k >= q * k
    ensures p >= q
  {
    assert p < q ==> (q - p) * k > 0;
  }

  lemma CancelGt(p: int, q: int, k: int)
    requires k > 0 && p * k > q * k
    ensures p > q
  {
    assert p <= q ==> (q - p) * k >= 0;
  }

  lemma ProductBound(a: int, b: int, a': int, b': int)
    requires 0 <= a <= a' && 0 <= b <= b'
    ensures 0 <= a * b <= a' * b'
  {
    assert a * b <= a' * b;
    assert a' * b <= a' * b';
  }

  // Counting positions one at a time.
  lemma OneMore(before: set<nat>, after: set<nat>, n: nat, more: bool)
    requires n !in before && forall i: nat :: i in after <==> i in before || (more && i == n)
    ensures |after| == |before| + if more then 1 else 0
  {
    assert after == if more then before + {n} else before;
  }
}
