/** The positional frame checksum: per-lane hashes, folded by wrapping addition. */
module FrameChecksum {
  import opened MachineInts
  import opened ModularArithmetic

  const BASIS: u32 := 2166136261
  const PRIME: u32 := 16777619
  const SPREAD: u32 := 2654435761

  function Key(i: nat): u32 { WrapU32(WrapU32(i) * SPREAD) }

  // One texel into a lane's hash, keyed by its position.
  function Mix(h: u32, texel: u32, i: nat): u32
  {
    WrapU32(BitXor(h, BitXor(texel, Key(i))) * PRIME)
  }

  // The hash of the texels i, i + stride, i + 2 * stride, ...
  function LaneHash(buf: seq<u32>, i: nat, stride: nat, h: u32): u32
    requires stride >= 1
    decreases SatSub(|buf|, i)
  {
    if i >= |buf| then h else LaneHash(buf, i + stride, stride, Mix(h, buf[i], i))
  }

  // The first n lane hashes, added up modulo 2^32.
  function AddLanes(hashOf: nat -> u32, n: nat): u32
  {
    if n == 0 then 0 else WrapU32(AddLanes(hashOf, n - 1) + hashOf(n - 1))
  }

  function LanesOf(buf: seq<u32>, stride: nat, basis: u32): nat -> u32
    requires stride >= 1
  {
    (lane: nat) => LaneHash(buf, lane, stride, basis)
  }

  function Checksum(buf: seq<u32>, lanes: u32): u32
  {
    if lanes == 0 then 0 else AddLanes(LanesOf(buf, lanes, BASIS), lanes)
  }

  method Reduce3Checksum(buf: seq<u32>, lanes: u32) returns (total: u32)
    ensures total == Checksum(buf, lanes)
  {
    if lanes == 0 {
      return 0;
    }
    total := SumLanes(buf, lanes, BASIS);
  }

  method SumLanes(buf: seq<u32>, lanes: u32, basis: u32) returns (total: u32)
    requires lanes >= 1
    ensures total == AddLanes(LanesOf(buf, lanes, basis), lanes)
  {
    total := 0;
    for lane := 0 to lanes
      invariant total == AddLanes(LanesOf(buf, lanes, basis), lane)
    {
      var h := HashLane(buf, lane, lanes, basis);
      total := WrapU32(total + h);
    }
  }

  // The inner loop: one lane's grid-stride walk.
  method HashLane(buf: seq<u32>, lane: nat, lanes: u32, basis: u32) returns (h: u32)
    requires lanes >= 1
    ensures h == LaneHash(buf, lane, lanes, basis)
  {
    var i: nat := lane;
    h := basis;
    while i < |buf|
      invariant LaneHash(buf, i, lanes, h) == LaneHash(buf, lane, lanes, basis)
      decreases SatSub(|buf|, i)
    {
      h := Mix(h, buf[i], i);
      i := i + lanes;
    }
  }

  // ---------------------------------------------------------------- one texel

  // The mixing step is injective in the hash so far and in the texel.
  lemma MixInjective(h: u32, h': u32, b: u32, b': u32, i: nat)
    requires (h == h' && b != b') || (h != h' && b == b')
    ensures Mix(h, b, i) != Mix(h', b', i)
  {
    var key := Key(i);
    var x, x' := BitXor(h, BitXor(b, key)), BitXor(h', BitXor(b', key));
    WordSizes();
    XorBelow(b, key, 32);
    XorBelow(b', key, 32);
    XorBelow(h, BitXor(b, key), 32);
    XorBelow(h', BitXor(b', key), 32);
    if x == x' {
      if h == h' {
        XorCommutes(h, BitXor(b, key));
        XorCommutes(h, BitXor(b', key));
        XorCancels(BitXor(b, key), BitXor(b', key), h);
        XorCancels(b, b', key);
      } else {
        XorCancels(h, h', BitXor(b, key));
      }
    }
    if Mix(h, b, i) == Mix(h', b', i) {
      OddAffineInjective(PRIME, 0, 32, x, x');
    }
  }

  lemma KeysDiffer(i: nat, j: nat)
    ensures Key(i) == Key(j) <==> i % TWO_32 == j % TWO_32
  {
    WordSizes();
    if Key(i) == Key(j) {
      OddAffineInjective(SPREAD, 0, 32, WrapU32(i), WrapU32(j));
    }
  }

  // The mixing step is keyed by position: the same texel at two positions mixes alike only when the
  // positions agree modulo 2^32.
  lemma PositionMatters(h: u32, texel: u32, i: nat, j: nat)
    ensures Mix(h, texel, i) == Mix(h, texel, j) <==> i % TWO_32 == j % TWO_32
  {
    var key, key' := Key(i), Key(j);
    var x, x' := BitXor(h, BitXor(texel, key)), BitXor(h, BitXor(texel, key'));
    WordSizes();
    XorBelow(texel, key, 32);
    XorBelow(texel, key', 32);
    XorBelow(h, BitXor(texel, key), 32);
    XorBelow(h, BitXor(texel, key'), 32);
    if Mix(h, texel, i) == Mix(h, texel, j) {
      OddAffineInjective(PRIME, 0, 32, x, x');
      XorSame(h, BitXor(texel, key), BitXor(texel, key'));
      XorSame(texel, key, key');
      KeysDiffer(i, j);
    }
  }

  lemma XorSame(z: nat, x: nat, y: nat)
    requires BitXor(z, x) == BitXor(z, y)
    ensures x == y
  {
    XorCommutes(z, x);
    XorCommutes(z, y);
    XorCancels(x, y, z);
  }

  // So lanes that read one texel each never agree on equal texels: moving a value from one position
  // to another is as visible as changing it.
  lemma EqualTexelsHashApart(buf: seq<u32>, lanes: u32, i: nat, j: nat)
    requires i < j < |buf| <= lanes && buf[i] == buf[j]
    ensures LaneHash(buf, i, lanes, BASIS) != LaneHash(buf, j, lanes, BASIS)
  {
    PositionMatters(BASIS, buf[i], i, j);
    assert LaneHash(buf, i, lanes, BASIS) == Mix(BASIS, buf[i], i);
    assert LaneHash(buf, j, lanes, BASIS) == Mix(BASIS, buf[j], j);
  }

  lemma {:induction false} XorZero(x: nat)
    ensures BitXor(x, 0) == x
  {
    if x > 0 { XorZero(x / 2); }
  }

  lemma {:induction false} XorSelf(x: nat)
    ensures BitXor(x, x) == 0
  {
    if x > 0 { XorSelf(x / 2); }
  }

  // One more low bit on each side.
  lemma XorLowBit(x: nat, b: nat, y: nat, d: nat)
    requires b < 2 && d < 2
    ensures BitXor(2 * x + b, 2 * y + d) == 2 * BitXor(x, y) + if b != d then 1 else 0
  {
    assert (2 * x + b) / 2 == x && (2 * y + d) / 2 == y;
    assert BitXor(0, 0) == 0;
  }

  // 101 is what tells ...100 from ...001, and what it takes from ...101 to get ...000.
  lemma XorFourOne(m: nat)
    ensures BitXor(8 * m + 4, 8 * m + 1) == 5
  {
    XorSelf(m);
    XorLowBit(m, 1, m, 0);
    XorLowBit(2 * m + 1, 0, 2 * m, 0);
    XorLowBit(4 * m + 2, 0, 4 * m, 1);
  }

  lemma XorFiveFive(m: nat, one: nat)
    requires one == 1
    ensures BitXor(8 * m + 5, 4 * one + 1) == 8 * m
  {
    XorZero(m);
    XorLowBit(m, 1, 0, one);
    XorLowBit(2 * m + 1, 0, one, 0);
    XorLowBit(4 * m + 2, 1, 2 * one, 1);
  }

  lemma MixBy(h: u32, texel: u32, i: nat, x: nat, y: nat)
    requires BitXor(texel, Key(i)) == x && BitXor(h, x) == y
    ensures Mix(h, texel, i) == WrapU32(y * 16777619)
  {
  }

  // Single steps in numbers: a texel equal to its key, and one that differs from it in the bits 101.
  lemma KeyTexelMixes(h: u32, i: nat, key: u32)
    requires key == Key(i)
    ensures Mix(h, key, i) == WrapU32(h * 16777619)
  {
    XorSelf(key);
    XorZero(h);
    MixBy(h, key, i, 0, h);
  }

  lemma OtherTexelMixes(h: u32, texel: u32, i: nat, m: nat, n: nat, one: nat)
    requires texel == 8 * m + 4 && Key(i) == 8 * m + 1 && h == 8 * n + 5 && one == 1
    ensures Mix(h, texel, i) == WrapU32(8 * n * 16777619)
  {
    XorFourOne(m);
    XorFiveFive(n, one);
    MixBy(h, texel, i, 4 * one + 1, 8 * n);
  }

  lemma KeysInNumbers()
    ensures Key(0) == 0 && Key(1) == 2654435761 && Key(2) == 1013904226
  {
  }

  lemma OneTexelLeft(buf: seq<u32>, i: nat, stride: nat, h: u32)
    requires i < |buf| <= i + stride
    ensures LaneHash(buf, i, stride, h) == Mix(h, buf[i], i)
  {
    assert LaneHash(buf, i + stride, stride, Mix(h, buf[i], i)) == Mix(h, buf[i], i);
  }

  lemma TwoTexelsLeft(buf: seq<u32>, i: nat, stride: nat, h: u32)
    requires stride >= 1 && i + stride < |buf| <= i + 2 * stride
    ensures LaneHash(buf, i, stride, h) == Mix(Mix(h, buf[i], i), buf[i + stride], i + stride)
  {
    OneTexelLeft(buf, i + stride, stride, Mix(h, buf[i], i));
  }

  lemma AddTwo(hashOf: nat -> u32)
    ensures AddLanes(hashOf, 2) == WrapU32(hashOf(0) + hashOf(1))
  {
    assert AddLanes(hashOf, 1) == WrapU32(AddLanes(hashOf, 0) + hashOf(0));
    assert AddLanes(hashOf, 2) == WrapU32(AddLanes(hashOf, 1) + hashOf(1));
  }

  lemma StridingLane(buf: seq<u32>, basis: u32)
    requires |buf| == 3 && buf[0] == 0 && buf[2] == 1013904226 && basis == 2166136261
    ensures LaneHash(buf, 0, 2, basis) == 292984781
  {
    KeysInNumbers();
    TwoTexelsLeft(buf, 0, 2, basis);
    KeyTexelMixes(basis, 0, buf[0]);
    KeyTexelMixes(Mix(basis, buf[0], 0), 2, buf[2]);
  }

  lemma SingleTexelLane(buf: seq<u32>, basis: u32, one: nat, m: nat, n: nat, h: u32)
    requires h == WrapU32(8 * n * 16777619)
    requires |buf| == 3 && one == 1 && Key(one) == 8 * m + 1 && buf[1] == 8 * m + 4 && basis == 8 * n + 5
    ensures LaneHash(buf, one, 2, basis) == h
  {
    OneTexelLeft(buf, one, 2, basis);
    OtherTexelMixes(basis, buf[1], one, m, n, one);
  }

  lemma SingleTexelInNumbers(buf: seq<u32>, basis: u32, one: nat)
    requires |buf| == 3 && buf[1] == 2654435764 && basis == 2166136261 && one == 1
    ensures LaneHash(buf, one, 2, basis) == 808256
  {
    assert Key(one) == 2654435761 by { KeysInNumbers(); }
    SingleTexelLane(buf, basis, one, 331804470, 270767032, 808256);
  }

  lemma TwoLanesAdded(buf: seq<u32>, two: u32, basis: u32)
    requires two == 2 && basis == BASIS
    ensures Checksum(buf, two) == WrapU32(LaneHash(buf, 0, two, basis) + LaneHash(buf, 1, two, basis))
  {
    AddTwo(LanesOf(buf, two, basis));
  }

  // A known answer on two lanes, the first of which strides.
  lemma KnownChecksum(buf: seq<u32>, two: u32, basis: u32)
    requires |buf| == 3 && buf[0] == 0 && buf[1] == 2654435764 && buf[2] == 1013904226
    requires two == 2 && basis == BASIS
    ensures Checksum(buf, two) == 293793037
  {
    StridingLane(buf, basis);
    SingleTexelInNumbers(buf, basis, 1);
    TwoLanesAdded(buf, two, basis);
  }

  ghost predicate DifferOnlyAt(a: seq<u32>, b: seq<u32>, p: nat)
  {
    |a| == |b| && p < |a| && a[p] != b[p] && forall i :: 0 <= i < |a| && i != p ==> a[i] == b[i]
  }

  // Once two hashes of the same remaining texels differ they never meet again.
  lemma {:induction false} HashesStayApart(a: seq<u32>, b: seq<u32>, i: nat, stride: nat, h: u32, h': u32)
    requires stride >= 1 && h != h' && |a| == |b|
    requires forall k :: i <= k < |a| ==> a[k] == b[k]
    ensures LaneHash(a, i, stride, h) != LaneHash(b, i, stride, h')
    decreases SatSub(|a|, i)
  {
    if i < |a| {
      MixInjective(h, h', a[i], b[i], i);
      HashesStayApart(a, b, i + stride, stride, Mix(h, a[i], i), Mix(h', b[i], i));
    }
  }

  // A lane sees the changed texel exactly when it steps on it.
  lemma {:induction false} LaneSeesChange(a: seq<u32>, b: seq<u32>, p: nat, i: nat, stride: nat, h: u32)
    requires stride >= 1 && DifferOnlyAt(a, b, p)
    ensures LaneHash(a, i, stride, h) != LaneHash(b, i, stride, h) <==> i <= p && (p - i) % stride == 0
    decreases SatSub(|a|, i)
  {
    if i < |a| {
      ModShift(p - i - stride, 1, stride);
      if i == p {
        assert 0 % stride == 0;
        MixInjective(h, h, a[i], b[i], i);
        HashesStayApart(a, b, i + stride, stride, Mix(h, a[i], i), Mix(h, b[i], i));
      } else {
        LaneSeesChange(a, b, p, i + stride, stride, Mix(h, a[i], i));
        if i < p < i + stride {
          DivModUnique(p - i, 0, p - i, stride);
        }
      }
    }
  }

  // Among the lanes 0 .. stride - 1, exactly the one of the texel's residue sees it.
  lemma OwnLane(p: nat, lane: nat, stride: nat)
    requires lane < stride
    ensures lane <= p && (p - lane) % stride == 0 <==> lane == p % stride
  {
    var q := p / stride;
    assert p == stride * q + p % stride;
    if lane == p % stride {
      DivModUnique(p - lane, q, 0, stride);
    } else if lane <= p && (p - lane) % stride == 0 {
      var t := (p - lane) / stride;
      assert p - lane == stride * t + (p - lane) % stride;
      DivModUnique(p, t, lane, stride);
    }
  }

  lemma WrapSumDiffers(a: u32, b: u32, x: u32, y: u32)
    requires (a == b && x != y) || (a != b && x == y)
    ensures WrapU32(a + x) != WrapU32(b + y)
  {
  }

  // If exactly one lane's hash differs, the totals differ from that lane on.
  lemma {:induction false} TotalsDiffer(f: nat -> u32, g: nat -> u32, own: nat, n: nat)
    requires forall lane: nat :: lane < n ==> (f(lane) != g(lane) <==> lane == own)
    ensures AddLanes(f, n) != AddLanes(g, n) <==> n > own
    decreases n
  {
    if n > 0 {
      TotalsDiffer(f, g, own, n - 1);
      if n > own {
        WrapSumDiffers(AddLanes(f, n - 1), AddLanes(g, n - 1), f(n - 1), g(n - 1));
      }
    }
  }

  // Changing exactly one texel to a different value changes the checksum, for every buffer and
  // every lane count but zero.
  lemma OneTexelDetectedIff(a: seq<u32>, b: seq<u32>, p: nat, lanes: u32)
    requires DifferOnlyAt(a, b, p)
    ensures Checksum(a, lanes) != Checksum(b, lanes) <==> lanes >= 1
  {
    if lanes >= 1 {
      var f, g := LanesOf(a, lanes, BASIS), LanesOf(b, lanes, BASIS);
      forall lane: nat | lane < lanes ensures f(lane) != g(lane) <==> lane == p % lanes {
        LaneSeesChange(a, b, p, lane, lanes, BASIS);
        OwnLane(p, lane, lanes);
      }
      TotalsDiffer(f, g, p % lanes, lanes);
    }
  }

  // ---------------------------------------------------------------- folding order

  // Lanes added to the atomic total in the order they finish.
  function Fold(hashes: seq<u32>): u32
  {
    if hashes == [] then 0
    else WrapU32(Fold(hashes[..|hashes| - 1]) + hashes[|hashes| - 1])
  }

  lemma FoldSnoc(hashes: seq<u32>, h: u32)
    ensures Fold(hashes + [h]) == WrapU32(Fold(hashes) + h)
  {
    assert (hashes + [h])[..|hashes|] == hashes;
  }

  lemma WrapSwap(a: u32, x: u32, y: u32)
    ensures WrapU32(WrapU32(a + x) + y) == WrapU32(WrapU32(a + y) + x)
  {
  }

  // Taking one addend out and adding it last gives the same total.
  lemma {:induction false} FoldMiddle(front: seq<u32>, x: u32, back: seq<u32>)
    ensures Fold(front + [x] + back) == WrapU32(Fold(front + back) + x)
    decreases |back|
  {
    if back == [] {
      assert front + [x] + back == front + [x] && front + back == front;
      FoldSnoc(front, x);
    } else {
      var n := |back| - 1;
      var most, last := back[..n], back[n];
      assert front + [x] + back == (front + [x] + most) + [last];
      assert front + back == (front + most) + [last];
      FoldSnoc(front + [x] + most, last);
      FoldSnoc(front + most, last);
      FoldMiddle(front, x, most);
      WrapSwap(Fold(front + most), x, last);
    }
  }

  // Finding one bag's last element in another listing of the same bag.
  lemma TakeOut(most: seq<u32>, last: u32, b: seq<u32>) returns (front: seq<u32>, back: seq<u32>)
    requires multiset(most + [last]) == multiset(b)
    ensures b == front + [last] + back && multiset(most) == multiset(front + back)
  {
    assert last in multiset(most + [last]);
    var i :| 0 <= i < |b| && b[i] == last;
    front, back := b[..i], b[i + 1..];
    assert b == front + [last] + back;
    assert multiset(most) == multiset(most + [last]) - multiset{last};
    assert multiset(front + back) == multiset(front + [last] + back) - multiset{last};
  }

  lemma {:induction false} FoldIgnoresOrder(a: seq<u32>, b: seq<u32>)
    requires multiset(a) == multiset(b)
    ensures Fold(a) == Fold(b)
    decreases |a|
  {
    if a == [] {
      assert |multiset(b)| == 0;
    } else {
      var most, last := a[..|a| - 1], a[|a| - 1];
      assert a == most + [last];
      var front, back := TakeOut(most, last, b);
      FoldIgnoresOrder(most, front + back);
      FoldMiddle(front, last, back);
    }
  }

  ghost function FirstLanes(hashOf: nat -> u32, n: nat): seq<u32>
  {
    if n == 0 then [] else FirstLanes(hashOf, n - 1) + [hashOf(n - 1)]
  }

  lemma {:induction false} TotalIsFold(hashOf: nat -> u32, n: nat)
    ensures Fold(FirstLanes(hashOf, n)) == AddLanes(hashOf, n)
  {
    if n > 0 {
      TotalIsFold(hashOf, n - 1);
      FoldSnoc(FirstLanes(hashOf, n - 1), hashOf(n - 1));
    }
  }

  // The GPU's total is the CPU's, whatever order the lanes finish in.
  lemma ScheduleDoesNotMatter(buf: seq<u32>, lanes: u32, finished: seq<u32>)
    requires lanes >= 1 && multiset(finished) == multiset(FirstLanes(LanesOf(buf, lanes, BASIS), lanes))
    ensures Fold(finished) == Checksum(buf, lanes)
  {
    FoldIgnoresOrder(finished, FirstLanes(LanesOf(buf, lanes, BASIS), lanes));
    TotalIsFold(LanesOf(buf, lanes, BASIS), lanes);
  }
}
