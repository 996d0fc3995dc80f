/** How the voltage floor answers to one more condemned pair. */
module FloorGrowth {
  import opened MachineInts
  import opened VoltageFloor

  ghost predicate NowhereLower(after: seq<Pair>, before: seq<Pair>)
  {
    forall x: u32 :: Floor(before, x).Some? ==>
      Floor(after, x).Some? && Floor(after, x).value >= Floor(before, x).value
  }

  // The three ways a new pair can be harmless: there is no floor at its clock, it is not
  // below that floor, or the floor there is already the running maximum.
  predicate Harmless(pairs: seq<Pair>, p: Pair)
  {
    var f := Floor(pairs, p.clock);
    f.None? || p.mv >= f.value || Worst(pairs, p.clock) == f.value
  }

  lemma Snoc(pairs: seq<Pair>, p: Pair, clock: int)
    ensures Worst(pairs + [p], clock) == if p.clock <= clock then Max(p.mv, Worst(pairs, clock)) else Worst(pairs, clock)
    ensures Left(pairs + [p], clock) == if p.clock <= clock then Max(p.clock, Left(pairs, clock)) else Left(pairs, clock)
    ensures Right(pairs + [p], clock) == if p.clock > clock then Min(p.clock, Right(pairs, clock)) else Right(pairs, clock)
  {
    assert (pairs + [p])[..|pairs|] == pairs;
  }

  // The segment around x once the pair (c, mv) has been added.
  function WithPair(s: Segment, x: int, c: int, mv: int): Segment
  {
    if c <= x then Segment(Max(s.c0, c), Max(s.v0, mv), s.c1, Max(s.v1, mv))
    else if c < s.c1 then Segment(s.c0, s.v0, c, Max(s.v0, mv))
    else if c == s.c1 then Segment(s.c0, s.v0, s.c1, Max(s.v1, mv))
    else s
  }

  lemma SegmentAfter(pairs: seq<Pair>, p: Pair, x: u32)
    ensures SegmentAt(pairs + [p], x) == WithPair(SegmentAt(pairs, x), x, p.clock, p.mv)
  {
    Snoc(pairs, p, x);
    Snoc(pairs, p, Right(pairs + [p], x));
    if x < p.clock < Right(pairs, x) {
      forall q | q in pairs ensures !(x < q.clock <= p.clock) {
        UpperBounds(pairs, x, q);
      }
      WorstConstant(pairs, x, p.clock);
    }
  }

  // Cutting a chord at c with a knot on or above it: the piece left of c does not dip.
  lemma LeftPieceAbove(l: int, w: int, r: int, u: int, c: int, k: int, x: int)
    requires l <= x < c < r
    requires k >= Chord(l, w, r, u, c)
    ensures Chord(l, w, c, k, x) >= Chord(l, w, r, u, x)
  {
    var y := Chord(l, w, c, k, x);
    var a, b, d := x - l, c - x, r - c;
    ChordMeaning(l, w, c, k, x);
    ChordMeaning(l, w, r, u, c);
    ScaleGe(k, Chord(l, w, r, u, c), r - l);
    LeftPieceArithmetic(y, w, u, k, a, b, d);
    ChordLeast(l, w, r, u, x, y);
  }

  lemma LeftPieceArithmetic(y: int, w: int, u: int, k: int, a: int, b: int, d: int)
    requires a >= 0 && b > 0 && d > 0
    requires y * (a + b) >= w * b + k * a
    requires k * (a + b + d) >= w * d + u * (a + b)
    ensures y * (a + b + d) >= w * (b + d) + u * a
  {
  }

  // The piece right of c does not dip either, even when its right end was raised to u'.
  lemma RightPieceAbove(l: int, w: int, r: int, u: int, c: int, k: int, u': int, x: int)
    requires l <= c <= x < r && u' >= u
    requires k >= Chord(l, w, r, u, c)
    ensures Chord(c, k, r, u', x) >= Chord(l, w, r, u, x)
  {
    var y := Chord(c, k, r, u', x);
    var a, b, d := c - l, x - c, r - x;
    ChordMeaning(c, k, r, u', x);
    ChordMeaning(l, w, r, u, c);
    ScaleGe(k, Chord(l, w, r, u, c), r - l);
    ScaleGe(u', u, b);
    RightPieceArithmetic(y, w, u, k, a, b, d);
    ChordLeast(l, w, r, u, x, y);
  }

  lemma RightPieceArithmetic(y: int, w: int, u: int, k: int, a: int, b: int, d: int)
    requires a >= 0 && b >= 0 && d > 0
    requires y * (b + d) >= k * d + u * b
    requires k * (a + b + d) >= w * (b + d) + u * a
    ensures y * (a + b + d) >= w * d + u * (a + b)
  {
  }

  // At its own left end a chord reads exactly the knot.
  lemma ChordAtKnot(l: int, w: int, r: int, u: int)
    requires l < r
    ensures Chord(l, w, r, u, l) == w
  {
    ChordMeaning(l, w, r, u, l);
    ChordLeast(l, w, r, u, l, w);
    CancelGe(Chord(l, w, r, u, l), w, r - l);
  }

  // One segment: a knot that is not below the old chord never lowers a reading.
  lemma ReadRises(s: Segment, x: int, c: int, mv: int)
    requires Around(s, x) && s.c0 >= 0 && 0 <= c < NO_CLOCK && 0 <= mv < TWO_32
    requires s.c0 < c < s.c1 < NO_CLOCK ==> Max(s.v0, mv) >= Chord(s.c0, s.v0, s.c1, s.v1, c)
    ensures Around(WithPair(s, x, c, mv), x)
    ensures Read(WithPair(s, x, c, mv), x).Some?
    ensures Read(WithPair(s, x, c, mv), x).value >= Read(s, x).value
  {
    var t := WithPair(s, x, c, mv);
    if s.c1 == NO_CLOCK {
      if t.c1 < NO_CLOCK { ChordBetween(t.c0, t.v0, t.c1, t.v1, x); }
    } else if s.c0 < c < s.c1 {
      if c <= x {
        RightPieceAbove(s.c0, s.v0, s.c1, s.v1, c, t.v0, t.v1, x);
      } else {
        LeftPieceAbove(s.c0, s.v0, s.c1, s.v1, c, t.v1, x);
      }
    } else {
      ChordAtKnot(s.c0, s.v0, s.c1, s.v1);
      RightPieceAbove(s.c0, s.v0, s.c1, s.v1, s.c0, t.v0, t.v1, x);
    }
  }

  lemma HarmlessAt(pairs: seq<Pair>, p: Pair, x: u32)
    requires Harmless(pairs, p) && Floor(pairs, x).Some?
    ensures Floor(pairs + [p], x).Some? && Floor(pairs + [p], x).value >= Floor(pairs, x).value
  {
    var s, c := SegmentAt(pairs, x), p.clock;
    SegmentAround(pairs, x);
    if s.c0 < c < s.c1 {
      SameSegmentInside(pairs, x, c);
    }
    SegmentAfter(pairs, p, x);
    ReadRises(s, x, c, p.mv);
  }

  lemma SameSegmentInside(pairs: seq<Pair>, x: int, y: int)
    requires 0 <= Left(pairs, x) <= x < Right(pairs, x) && Left(pairs, x) <= y < Right(pairs, x)
    ensures SegmentAt(pairs, y) == SegmentAt(pairs, x)
  {
    var p := LeftAttained(pairs, x);
    UpperBounds(pairs, y, p);
    if y < x {
      if Left(pairs, y) > Left(pairs, x) || Right(pairs, y) <= x {
        var q: Pair;
        if Left(pairs, y) > Left(pairs, x) { q := LeftAttained(pairs, y); } else { q := RightAttained(pairs, y); }
        NothingBetween(pairs, x, q);
      }
      SameSegment(pairs, y, x);
    } else {
      SameSegment(pairs, x, y);
    }
  }

  // A new pair leaves every floor where it was or higher exactly when it is harmless.
  lemma EvidenceRaisesFloorsIff(pairs: seq<Pair>, p: Pair)
    ensures NowhereLower(pairs + [p], pairs) <==> Harmless(pairs, p)
  {
    if Harmless(pairs, p) {
      forall x: u32 | Floor(pairs, x).Some?
        ensures Floor(pairs + [p], x).Some? && Floor(pairs + [p], x).value >= Floor(pairs, x).value
      {
        HarmlessAt(pairs, p, x);
      }
    } else {
      HarmfulAt(pairs, p);
    }
  }

  lemma HarmfulAt(pairs: seq<Pair>, p: Pair)
    requires !Harmless(pairs, p)
    ensures Floor(pairs, p.clock).Some?
    ensures Floor(pairs + [p], p.clock).Some? && Floor(pairs + [p], p.clock).value < Floor(pairs, p.clock).value
  {
    var s := SegmentAt(pairs, p.clock);
    SegmentAround(pairs, p.clock);
    FloorBetween(pairs, p.clock);
    SegmentAfter(pairs, p, p.clock);
    var t := SegmentAt(pairs + [p], p.clock);
    if t.c1 < NO_CLOCK {
      ChordAtKnot(t.c0, t.v0, t.c1, t.v1);
    }
  }

  // Three real pairs for which an unadmitted failure lowers the floor at its own clock.
  lemma EvidenceCanLowerFloor()
    ensures var before := [Pair(1815, 862), Pair(1875, 887)];
            && Floor(before, 1845) == Some(875)
            && Floor(before + [Pair(1845, 850)], 1845) == Some(862)
  {
    var before := [Pair(1815, 862), Pair(1875, 887)];
    var p := Pair(1845, 850);
    assert before[..1] == [Pair(1815, 862)];
    assert before[..1][..0] == [];
    assert Right(before, 1845) == 1875 && Left(before, 1845) == 1815;
    assert Worst(before, 1845) == 862 && Worst(before, 1875) == 887;
    SegmentAfter(before, p, 1845);
    ChordAtKnot(1845, 862, 1875, 887);
    assert Chord(1815, 862, 1875, 887, 1845) == 862 + (25 * 30 + 59) / 60;
  }
}
