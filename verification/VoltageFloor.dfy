/** The condemned V/F floor: a running maximum over clocks, ceil-interpolated between them. */
module VoltageFloor {
  import opened MachineInts

  // One condemned (clock, millivolt) pair, and one knot of the envelope built from such pairs.
  datatype Pair = Pair(clock: u32, mv: u32)

  // Stands for "no condemned clock above": larger than every u32 clock.
  const NO_CLOCK: int := TWO_32

  // ---------------------------------------------------------------- reference definition

  // Highest voltage condemned at or below `clock`, -1 when there is none.
  function Worst(pairs: seq<Pair>, clock: int): (w: int)
    ensures -1 <= w < TWO_32
  {
    if pairs == [] then -1
    else
      var p := pairs[|pairs| - 1];
      var w := Worst(pairs[..|pairs| - 1], clock);
      if p.clock <= clock then Max(p.mv, w) else w
  }

  // Nearest condemned clock at or below `clock`, -1 when there is none.
  function Left(pairs: seq<Pair>, clock: int): (c: int)
    ensures -1 <= c < TWO_32 && (c >= 0 ==> c <= clock)
    ensures c >= 0 <==> Worst(pairs, clock) >= 0
  {
    if pairs == [] then -1
    else
      var p := pairs[|pairs| - 1];
      var c := Left(pairs[..|pairs| - 1], clock);
      if p.clock <= clock then Max(p.clock, c) else c
  }

  // Nearest condemned clock above `clock`, NO_CLOCK when there is none.
  function Right(pairs: seq<Pair>, clock: int): (c: int)
    ensures c <= NO_CLOCK && (clock < NO_CLOCK ==> clock < c)
  {
    if pairs == [] then NO_CLOCK
    else
      var p := pairs[|pairs| - 1];
      var c := Right(pairs[..|pairs| - 1], clock);
      if p.clock > clock then Min(p.clock, c) else c
  }

  lemma {:induction false} UpperBounds(pairs: seq<Pair>, clock: int, p: Pair)
    requires p in pairs
    ensures p.clock <= clock ==> p.mv <= Worst(pairs, clock) && p.clock <= Left(pairs, clock)
    ensures p.clock > clock ==> Right(pairs, clock) <= p.clock
  {
    var n := |pairs| - 1;
    assert pairs == pairs[..n] + [pairs[n]];
    if p in pairs[..n] {
      UpperBounds(pairs[..n], clock, p);
    }
  }

  lemma {:induction false} WorstAttained(pairs: seq<Pair>, clock: int) returns (p: Pair)
    requires Worst(pairs, clock) >= 0
    ensures p in pairs && p.clock <= clock && p.mv == Worst(pairs, clock)
  {
    var n := |pairs| - 1;
    p := pairs[n];
    if !(p.clock <= clock && p.mv == Worst(pairs, clock)) {
      p := WorstAttained(pairs[..n], clock);
    }
  }

  lemma {:induction false} LeftAttained(pairs: seq<Pair>, clock: int) returns (p: Pair)
    requires Left(pairs, clock) >= 0
    ensures p in pairs && p.clock == Left(pairs, clock)
  {
    var n := |pairs| - 1;
    p := pairs[n];
    if p.clock != Left(pairs, clock) {
      p := LeftAttained(pairs[..n], clock);
    }
  }

  lemma {:induction false} RightAttained(pairs: seq<Pair>, clock: int) returns (p: Pair)
    requires Right(pairs, clock) < NO_CLOCK
    ensures p in pairs && p.clock == Right(pairs, clock) && p.clock > clock
  {
    var n := |pairs| - 1;
    p := pairs[n];
    if !(p.clock == Right(pairs, clock) && p.clock > clock) {
      p := RightAttained(pairs[..n], clock);
    }
  }

  // No condemned clock lies strictly between the two neighbours of a clock.
  lemma NothingBetween(pairs: seq<Pair>, clock: int, p: Pair)
    requires p in pairs
    ensures p.clock <= Left(pairs, clock) || Right(pairs, clock) <= p.clock
  {
    UpperBounds(pairs, clock, p);
  }

  // The three readings the envelope is built from, told on the pairs alone.
  lemma ReadingsInPairs(pairs: seq<Pair>, clock: int)
    ensures forall p :: p in pairs && p.clock <= clock ==> p.mv <= Worst(pairs, clock) && p.clock <= Left(pairs, clock)
    ensures forall p :: p in pairs && p.clock > clock ==> Right(pairs, clock) <= p.clock
    ensures Worst(pairs, clock) == -1 || exists p :: p in pairs && p.clock <= clock && p.mv == Worst(pairs, clock)
    ensures Left(pairs, clock) == -1 || exists p :: p in pairs && p.clock <= clock && p.clock == Left(pairs, clock)
    ensures Right(pairs, clock) == NO_CLOCK || exists p :: p in pairs && p.clock > clock && p.clock == Right(pairs, clock)
  {
    forall p | p in pairs
      ensures p.clock <= clock ==> p.mv <= Worst(pairs, clock) && p.clock <= Left(pairs, clock)
      ensures p.clock > clock ==> Right(pairs, clock) <= p.clock
    {
      UpperBounds(pairs, clock, p);
    }
    if Worst(pairs, clock) >= 0 {
      var w := WorstAttained(pairs, clock);
      var l := LeftAttained(pairs, clock);
    }
    if Right(pairs, clock) < NO_CLOCK {
      var r := RightAttained(pairs, clock);
    }
  }

  // Worst only changes where a condemned clock is crossed.
  lemma {:induction false} WorstConstant(pairs: seq<Pair>, a: int, b: int)
    requires a <= b
    requires forall p :: p in pairs ==> !(a < p.clock <= b)
    ensures Worst(pairs, a) == Worst(pairs, b)
  {
    if pairs != [] {
      var n := |pairs| - 1;
      assert pairs[n] in pairs;
      WorstConstant(pairs[..n], a, b);
    }
  }

  lemma {:induction false} WorstMonotone(pairs: seq<Pair>, a: int, b: int)
    requires a <= b
    ensures Worst(pairs, a) <= Worst(pairs, b)
  {
    if pairs != [] {
      WorstMonotone(pairs[..|pairs| - 1], a, b);
    }
  }

  // The ceil-interpolated chord from (l, w) to (r, u), read at x.
  function Chord(l: int, w: int, r: int, u: int, x: int): int
    requires l < r
  {
    w + CeilDiv((u - w) * (x - l), r - l)
  }

  lemma ChordExpand(l: int, w: int, r: int, u: int, x: int, q: int)
    ensures (w + q) * (r - l) - (w * (r - x) + u * (x - l)) == (r - l) * q - (u - w) * (x - l)
  {
  }

  // A chord is the least integer at or above the straight line through its ends.
  lemma ChordMeaning(l: int, w: int, r: int, u: int, x: int)
    requires l < r
    ensures var y := Chord(l, w, r, u, x);
            (y - 1) * (r - l) < w * (r - x) + u * (x - l) <= y * (r - l)
  {
    var q := CeilDiv((u - w) * (x - l), r - l);
    CeilDivMeaning((u - w) * (x - l), r - l);
    ChordExpand(l, w, r, u, x, q);
    ChordExpand(l, w, r, u, x, q - 1);
    assert w + q - 1 == w + (q - 1);
  }

  lemma ChordLeast(l: int, w: int, r: int, u: int, x: int, z: int)
    requires l < r
    requires z * (r - l) >= w * (r - x) + u * (x - l)
    ensures Chord(l, w, r, u, x) <= z
  {
    ChordMeaning(l, w, r, u, x);
    CancelGt(z, Chord(l, w, r, u, x) - 1, r - l);
  }

  // A rising chord stays between its end values.
  lemma ChordBetween(l: int, w: int, r: int, u: int, x: int)
    requires l <= x <= r && l < r && w <= u
    ensures w <= Chord(l, w, r, u, x) <= u
  {
    ChordExpand(l, w, r, u, x, u - w);
    ChordExpand(l, w, r, u, x, 0);
    ScaleGe(r - l, x - l, u - w);
    ChordLeast(l, w, r, u, x, u);
    ChordMeaning(l, w, r, u, x);
    ScaleGe(u - w, 0, x - l);
    CancelGe(Chord(l, w, r, u, x), w, r - l);
  }

  // The stretch of envelope that decides a clock: its two neighbouring knots.
  datatype Segment = Segment(c0: int, v0: int, c1: int, v1: int)

  function SegmentAt(pairs: seq<Pair>, clock: int): Segment
  {
    var c1 := Right(pairs, clock);
    Segment(Left(pairs, clock), Worst(pairs, clock), c1, Worst(pairs, c1))
  }

  predicate Around(s: Segment, x: int)
  {
    && -1 <= s.c0 <= x < s.c1 <= NO_CLOCK
    && -1 <= s.v0 <= s.v1 < TWO_32
    && (s.c0 >= 0 <==> s.v0 >= 0)
  }

  function Read(s: Segment, x: int): Option<int>
    requires Around(s, x)
  {
    if s.c0 < 0 then None
    else if s.c1 == NO_CLOCK then Some(s.v0)
    else Some(Chord(s.c0, s.v0, s.c1, s.v1, x))
  }

  lemma SegmentAround(pairs: seq<Pair>, clock: u32)
    ensures Around(SegmentAt(pairs, clock), clock)
  {
    WorstMonotone(pairs, clock, Right(pairs, clock));
  }

  // What the ledger means by the floor at a clock.
  function Floor(pairs: seq<Pair>, clock: u32): Option<int>
  {
    SegmentAround(pairs, clock);
    Read(SegmentAt(pairs, clock), clock)
  }

  // ---------------------------------------------------------------- what the floor promises

  // The straight line from (c0, v0) to (c1, v1), read at x.
  ghost function Line(c0: int, v0: int, c1: int, v1: int, x: int): real
    requires c0 < c1
  {
    v0 as real + (v1 as real - v0 as real) * (x - c0) as real / (c1 - c0) as real
  }

  // Piecewise-linear interpolation of the running maximum through the condemned clocks.
  ghost function Interpolation(pairs: seq<Pair>, clock: u32): real
  {
    var c0, c1 := Left(pairs, clock), Right(pairs, clock);
    if c1 == NO_CLOCK then Worst(pairs, c0) as real
    else Line(c0, Worst(pairs, c0), c1, Worst(pairs, c1), clock)
  }

  lemma LineScaled(c0: int, v0: int, c1: int, v1: int, x: int)
    requires c0 < c1
    ensures Line(c0, v0, c1, v1, x) * (c1 - c0) as real == (v0 * (c1 - c0) + (v1 - v0) * (x - c0)) as real
  {
    var d := (c1 - c0) as real;
    var m := (v1 as real - v0 as real) * (x - c0) as real;
    assert m == ((v1 - v0) * (x - c0)) as real;
    assert m / d * d == m;
    assert v0 as real * d == (v0 * (c1 - c0)) as real;
  }

  lemma RealBracket(f: int, n: int, d: int, line: real)
    requires d > 0 && line * d as real == n as real
    requires (f - 1) * d < n <= f * d
    ensures (f - 1) as real < line <= f as real
  {
    assert ((f - 1) * d) as real == (f - 1) as real * d as real;
    assert (f * d) as real == f as real * d as real;
    ScaleCompare((f - 1) as real, line, d as real);
    ScaleCompare(f as real, line, d as real);
  }

  lemma ScaleCompare(a: real, b: real, d: real)
    requires d > 0.0
    ensures a < b <==> a * d < b * d
  {
  }

  lemma ChordAsReal(c0: int, v0: int, c1: int, v1: int, x: int)
    requires c0 < c1
    ensures var f := Chord(c0, v0, c1, v1, x);
            (f - 1) as real < Line(c0, v0, c1, v1, x) <= f as real
  {
    LineScaled(c0, v0, c1, v1, x);
    ChordMeaning(c0, v0, c1, v1, x);
    ChordExpand(c0, v0, c1, v1, x, 0);
    RealBracket(Chord(c0, v0, c1, v1, x), v0 * (c1 - c0) + (v1 - v0) * (x - c0), c1 - c0, Line(c0, v0, c1, v1, x));
  }

  // The floor exists exactly from the lowest condemned clock upward.
  lemma FloorExistsIff(pairs: seq<Pair>, clock: u32)
    ensures Floor(pairs, clock).Some? <==> exists p :: p in pairs && p.clock <= clock
  {
    if Left(pairs, clock) >= 0 {
      var p := LeftAttained(pairs, clock);
      assert p in pairs && p.clock <= clock;
    } else {
      forall p | p in pairs ensures p.clock > clock {
        UpperBounds(pairs, clock, p);
      }
    }
  }

  // There it is the least integer at or above the interpolated running maximum.
  lemma FloorIsLeastIntegerAbove(pairs: seq<Pair>, clock: u32)
    requires Floor(pairs, clock).Some?
    ensures var f := Floor(pairs, clock).value;
            (f - 1) as real < Interpolation(pairs, clock) <= f as real
  {
    var s := SegmentAt(pairs, clock);
    SegmentAround(pairs, clock);
    LeftCarriesWorst(pairs, clock);
    if s.c1 < NO_CLOCK {
      ChordAsReal(s.c0, s.v0, s.c1, s.v1, clock);
    }
  }

  lemma LeftCarriesWorst(pairs: seq<Pair>, clock: int)
    requires Left(pairs, clock) >= 0
    ensures Worst(pairs, Left(pairs, clock)) == Worst(pairs, clock)
  {
    forall p | p in pairs ensures !(Left(pairs, clock) < p.clock <= clock) {
      UpperBounds(pairs, clock, p);
    }
    WorstConstant(pairs, Left(pairs, clock), clock);
  }

  lemma FloorBetween(pairs: seq<Pair>, clock: u32)
    requires Floor(pairs, clock).Some?
    ensures Worst(pairs, clock) <= Floor(pairs, clock).value
    ensures Right(pairs, clock) < NO_CLOCK ==> Floor(pairs, clock).value <= Worst(pairs, Right(pairs, clock))
    ensures Right(pairs, clock) == NO_CLOCK ==> Floor(pairs, clock).value == Worst(pairs, clock)
  {
    var s := SegmentAt(pairs, clock);
    SegmentAround(pairs, clock);
    if s.c1 < NO_CLOCK {
      ChordBetween(s.c0, s.v0, s.c1, s.v1, clock);
    }
  }

  // Never below a voltage condemned at or below the clock.
  lemma FloorCoversEvidence(pairs: seq<Pair>, p: Pair, clock: u32)
    requires p in pairs && p.clock <= clock
    ensures Floor(pairs, clock).Some? && Floor(pairs, clock).value >= p.mv
  {
    UpperBounds(pairs, clock, p);
    FloorBetween(pairs, clock);
  }

  // Flat above the highest condemned clock, at the highest condemned voltage.
  lemma FloorFlatAbove(pairs: seq<Pair>, clock: u32) returns (top: Pair)
    requires pairs != [] && forall p :: p in pairs ==> p.clock <= clock
    ensures top in pairs && (forall p :: p in pairs ==> p.mv <= top.mv)
    ensures Floor(pairs, clock) == Some(top.mv)
  {
    UpperBounds(pairs, clock, pairs[0]);
    if Right(pairs, clock) < NO_CLOCK {
      var p := RightAttained(pairs, clock);
    }
    FloorBetween(pairs, clock);
    top := WorstAttained(pairs, clock);
    forall p | p in pairs ensures p.mv <= top.mv {
      UpperBounds(pairs, clock, p);
    }
  }

  // A higher clock never has a lower floor.
  lemma FloorMonotone(pairs: seq<Pair>, x: u32, y: u32)
    requires x <= y && Floor(pairs, x).Some?
    ensures Floor(pairs, y).Some? && Floor(pairs, x).value <= Floor(pairs, y).value
  {
    WorstMonotone(pairs, x, y);
    FloorBetween(pairs, x);
    FloorBetween(pairs, y);
    var r := Right(pairs, x);
    if r <= y {
      WorstMonotone(pairs, r, y);
    } else {
      SameSegment(pairs, x, y);
      if r < NO_CLOCK {
        SegmentAround(pairs, x);
        ChordMonotone(Left(pairs, x), Worst(pairs, x), r, Worst(pairs, r), x, y);
      }
    }
  }

  lemma SameSegment(pairs: seq<Pair>, x: int, y: int)
    requires 0 <= Left(pairs, x) <= x <= y < Right(pairs, x)
    ensures SegmentAt(pairs, y) == SegmentAt(pairs, x)
  {
    var l, r := Left(pairs, x), Right(pairs, x);
    var p := LeftAttained(pairs, x);
    UpperBounds(pairs, y, p);
    if r < NO_CLOCK {
      var q := RightAttained(pairs, x);
      UpperBounds(pairs, y, q);
    }
    WorstMonotone(pairs, x, y);
    var p' := LeftAttained(pairs, y);
    NothingBetween(pairs, x, p');
    if Right(pairs, y) < NO_CLOCK {
      var q' := RightAttained(pairs, y);
      NothingBetween(pairs, x, q');
    }
    forall s | s in pairs ensures !(x < s.clock <= y) {
      NothingBetween(pairs, x, s);
    }
    WorstConstant(pairs, x, y);
  }

  lemma ChordMonotone(l: int, w: int, r: int, u: int, x: int, y: int)
    requires l <= x <= y && l < r && w <= u
    ensures Chord(l, w, r, u, x) <= Chord(l, w, r, u, y)
  {
    var f := Chord(l, w, r, u, y);
    ChordMeaning(l, w, r, u, y);
    ScaleGe(y - l, x - l, u - w);
    ChordExpand(l, w, r, u, y, 0);
    ChordExpand(l, w, r, u, x, 0);
    ChordLeast(l, w, r, u, x, f);
  }

  // The floor only depends on which pairs are condemned, not on their order or repetition.
  lemma FloorIgnoresOrder(a: seq<Pair>, b: seq<Pair>, clock: u32)
    requires forall p :: p in a <==> p in b
    ensures SegmentAt(a, clock) == SegmentAt(b, clock)
    ensures Floor(a, clock) == Floor(b, clock)
  {
    AtMost(a, b, clock);
    AtMost(b, a, clock);
    AtMost(a, b, Right(a, clock));
    AtMost(b, a, Right(a, clock));
  }

  lemma AtMost(a: seq<Pair>, b: seq<Pair>, clock: int)
    requires forall p :: p in a ==> p in b
    ensures Worst(a, clock) <= Worst(b, clock)
    ensures Left(a, clock) <= Left(b, clock)
    ensures Right(a, clock) >= Right(b, clock)
  {
    if Worst(a, clock) >= 0 {
      var p := WorstAttained(a, clock);
      UpperBounds(b, clock, p);
    }
    if Left(a, clock) >= 0 {
      var p := LeftAttained(a, clock);
      UpperBounds(b, clock, p);
    }
    if Right(a, clock) < NO_CLOCK {
      var p := RightAttained(a, clock);
      UpperBounds(b, clock, p);
    }
  }
}
