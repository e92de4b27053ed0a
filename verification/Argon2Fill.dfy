/**
 * The memory fill: lanes of blocks, each block mixed from its predecessor and a reference block whose
 * place comes from `IndexAlpha`.  Arithmetic is in 32 and 64 bits, as in the original; the mixing
 * of blocks is given.
 */
module Argon2Fill {
  import opened Numbers

  // ---------- Products, quotients and remainders of variables, by repeated addition ----------

  function Mul(a: nat, b: nat): nat {
    if a == 0 then 0 else Mul(a - 1, b) + b
  }

  function Div(a: nat, b: nat): nat
    requires b > 0
    decreases a
  {
    if a < b then 0 else Div(a - b, b) + 1
  }

  function Mod(a: nat, b: nat): (r: nat)
    requires b > 0
    ensures r < b
    decreases a
  {
    if a < b then a else Mod(a - b, b)
  }

  lemma {:induction false} MulIsProduct(a: nat, b: nat)
    ensures Mul(a, b) == a * b
  {
    if a > 0 {
      MulIsProduct(a - 1, b);
      assert a * b == (a - 1) * b + b;
    }
  }

  lemma {:induction false} MulNext(a: nat, b: nat)
    ensures Mul(a, b + 1) == Mul(a, b) + a && Mul(a, 0) == 0
  {
    if a > 0 { MulNext(a - 1, b); }
  }

  lemma {:induction false} Commute(a: nat, b: nat)
    ensures Mul(a, b) == Mul(b, a)
  {
    if b == 0 {
      MulNext(a, 0);
    } else {
      Commute(a, b - 1);
      MulNext(a, b - 1);
    }
  }

  lemma NoWrap(x: int)
    ensures 0 <= x < TWO32 ==> Wrap32(x) == x
    ensures 0 <= x < TWO64 ==> Wrap64(x) == x
  {
  }

  lemma ModSmall(a: nat, b: nat)
    requires b > 0 && a < 2 * b
    ensures Mod(a, b) == if a < b then a else a - b
  {
  }

  lemma {:induction false} Monotone(a: nat, b: nat, c: nat)
    requires a <= b
    ensures Mul(a, c) <= Mul(b, c) && Mul(c, a) <= Mul(c, b)
    decreases b
  {
    if a < b { Monotone(a, b - 1, c); }
    Commute(a, c);
    Commute(b, c);
  }

  lemma {:induction false} Distribute(a: nat, b: nat, c: nat)
    ensures Mul(a + b, c) == Mul(a, c) + Mul(b, c)
    ensures Mul(a, c) == Mul(c, a) && Mul(0, c) == 0 && Mul(1, c) == c
    decreases b
  {
    if b > 0 { Distribute(a, b - 1, c); }
    Commute(a, c);
  }

  lemma {:induction false} DivideBack(n: nat, d: nat)
    requires d > 0
    ensures Mul(d, Div(n, d)) <= n < Mul(d, Div(n, d)) + d
    decreases n
  {
    if n < d {
      MulNext(d, 0);
    } else {
      DivideBack(n - d, d);
      MulNext(d, Div(n - d, d));
    }
  }

  /** `Div` and `Mod` are the quotient and the remainder. */
  lemma DivideIsUsual(n: nat, d: nat)
    requires d > 0
    ensures Div(n, d) == n / d && Mod(n, d) == n % d
  {
    DivideBack(n, d);
    ModLeft(n, d);
    var q, r := Div(n, d), Mod(n, d);
    hide Mul, Div, Mod;
    MulIsProduct(d, q);
    OneQuotient(n, d, q, r, n / d, n % d);
  }

  lemma {:induction false} ModLeft(n: nat, d: nat)
    requires d > 0
    ensures n == Mul(d, Div(n, d)) + Mod(n, d)
    decreases n
  {
    MulNext(d, 0);
    if n >= d {
      ModLeft(n - d, d);
      MulNext(d, Div(n - d, d));
    }
  }

  lemma OneQuotient(n: nat, d: nat, q: nat, r: nat, u: nat, w: nat)
    requires d > 0 && r < d && w < d && n == d * q + r && n == d * u + w
    ensures q == u && r == w
  {
    if q < u { ProductMonotone(d, q + 1, u); }
    if u < q { ProductMonotone(d, u + 1, q); }
  }

  /** A number of at most four segments. */
  function Segments(k: nat, length: nat): (r: nat)
    requires k <= 4
    ensures r == Mul(k, length)
  {
    FourTimes(length);
    if k == 0 then 0 else if k == 1 then length else if k == 2 then 2 * length else if k == 3 then 3 * length else 4 * length
  }

  lemma FourTimes(n: nat)
    ensures Mul(0, n) == 0 && Mul(1, n) == n && Mul(2, n) == 2 * n && Mul(3, n) == 3 * n && Mul(4, n) == 4 * n
  {
    assert Mul(1, n) == n;
    assert Mul(2, n) == Mul(1, n) + n;
    assert Mul(3, n) == Mul(2, n) + n;
    assert Mul(4, n) == Mul(3, n) + n;
  }

  // ---------- The shape of the memory ----------

  datatype Shape = Shape(lanes: U32, laneLength: U32, segmentLength: U32)

  /** Lane and segment length for a parallelism and a memory cost. */
  function Layout(parallelism: U32, memoryCost: U32): (s: Shape)
    requires parallelism > 0
  {
    var blocks := if memoryCost < Wrap32(8 * parallelism) then Wrap32(8 * parallelism) else memoryCost;
    DivideBack(blocks, parallelism);
    Monotone(1, parallelism, Div(blocks, parallelism));
    Distribute(0, 1, Div(blocks, parallelism));
    Shape(parallelism, Div(blocks, parallelism), Div(blocks, parallelism) / 4)
  }

  /** A shape with at least two blocks to a segment, whose blocks can be numbered in 32 bits. */
  ghost predicate ShapeOk(s: Shape) {
    s.lanes >= 1 && s.laneLength >= 8 && s.segmentLength == s.laneLength / 4 && Mul(s.lanes, s.laneLength) < TWO32
  }

  /** A lane has its eight blocks exactly below 2^29 lanes; from there on eight blocks a lane are more
      than 32 bits can count. */
  lemma LayoutOk(parallelism: U32, memoryCost: U32)
    requires parallelism > 0
    ensures ShapeOk(Layout(parallelism, memoryCost)) <==> parallelism < 0x2000_0000
  {
    hide Mul, Div, Wrap32;
    NoWrap(8 * parallelism);
    var least := Wrap32(8 * parallelism);
    var blocks := if memoryCost < least then least else memoryCost;
    var length := Div(blocks, parallelism);
    DivideBack(blocks, parallelism);
    EightTimes(parallelism);
    Distribute(length, 1, parallelism);
    Distribute(length, 0, parallelism);
    if length < 8 {
      Monotone(length + 1, 8, parallelism);
    } else {
      Monotone(8, length, parallelism);
    }
  }

  /** The lanes share out the memory cost, or eight blocks each if that is more, but for less than one block
      a lane. */
  lemma LayoutUses(parallelism: U32, memoryCost: U32)
    requires 0 < parallelism < 0x2000_0000
    ensures var s := Layout(parallelism, memoryCost);
            var blocks := if memoryCost < 8 * parallelism then 8 * parallelism else memoryCost;
            s.lanes == parallelism && s.lanes * s.laneLength <= blocks < s.lanes * (s.laneLength + 1)
  {
    NoWrap(8 * parallelism);
    var blocks := if memoryCost < 8 * parallelism then 8 * parallelism else memoryCost;
    DivideIsUsual(blocks, parallelism);
    hide Mul, Div, Wrap32;
    assert blocks == parallelism * (blocks / parallelism) + blocks % parallelism;
  }

  lemma EightTimes(n: nat)
    ensures Mul(8, n) == 8 * n
  {
    FourTimes(n);
    Distribute(4, 4, n);
  }

  // ---------- The reference block ----------

  datatype Step = Step(pass: U32, slice: U32, lane: U32, index: U32)

  /** The steps the fill takes: the first two blocks of every lane are given. */
  ghost predicate StepOk(s: Shape, t: Step) {
    t.slice < 4 && t.lane < s.lanes && t.index < s.segmentLength && (t.pass == 0 && t.slice == 0 ==> t.index >= 2)
  }

  function RefLane(s: Shape, t: Step, rand: U64): nat
    requires s.lanes >= 1
  {
    if t.pass == 0 && t.slice == 0 then Mod(rand / TWO32, s.lanes) else t.lane
  }

  function AreaSize(s: Shape, t: Step): U32
    requires t.slice < 4
  {
    var area :=
      if t.pass == 0 then
        if t.slice == 0 then Wrap32(t.index - 1) else Wrap32(Segments(t.slice, s.segmentLength) + t.index - 1)
      else Wrap32(s.laneLength - s.segmentLength + t.index - 1);
    if area == 0 then 1 else area
  }

  function RelativePosition(area: U32, rand: U64): U64 {
    var low := rand % TWO32;
    var square := Wrap64(Mul(low, low)) / TWO32;
    Wrap64(Wrap32(area - 1) - Wrap64(Mul(area, square)) / TWO32)
  }

  function StartPosition(s: Shape, t: Step): nat
    requires s.laneLength >= 1 && t.slice < 4
  {
    if t.pass != 0 then Mod(Wrap32(Segments(t.slice + 1, s.segmentLength)), s.laneLength) else 0
  }

  function RefIndex(s: Shape, t: Step, rand: U64): nat
    requires s.laneLength >= 1 && t.slice < 4
  {
    Mod(Wrap32(StartPosition(s, t) + Wrap32(RelativePosition(AreaSize(s, t), rand))), s.laneLength)
  }

  function IndexAlpha(s: Shape, t: Step, rand: U64): U32
    requires s.lanes >= 1 && s.laneLength >= 1 && t.slice < 4
  {
    Wrap32(Mul(RefLane(s, t, rand), s.laneLength) + RefIndex(s, t, rand))
  }

  /** No product of the position mapping leaves 64 bits, no difference is negative, and the position
      is inside the reference area. */
  lemma PositionInArea(area: U32, rand: U64)
    requires area >= 1
    ensures var low := rand % TWO32; var square := Mul(low, low) / TWO32;
            Mul(low, low) < TWO64 && square < TWO32 && Mul(area, square) < TWO64 && Mul(area, square) / TWO32 <= area - 1 &&
            RelativePosition(area, rand) == area - 1 - Mul(area, square) / TWO32
  {
    hide Mul, Wrap32, Wrap64;
    var low := rand % TWO32;
    SquareFits(low);
    NoWrap(Mul(low, low));
    var square := Mul(low, low) / TWO32;
    ProductFits(area, square);
    NoWrap(Mul(area, square));
    NoWrap(area - 1);
    NoWrap(area - 1 - Mul(area, square) / TWO32);
  }

  lemma SquareFits(x: nat)
    requires x < TWO32
    ensures Mul(x, x) < TWO64 && Mul(x, x) / TWO32 < TWO32
  {
    hide Mul;
    Monotone(x, TWO32 - 1, x);
    TimesTop(x);
    assert x * TWO32 <= (TWO32 - 1) * TWO32;
  }

  lemma {:induction false} TimesTop(a: nat)
    ensures Mul(a, TWO32 - 1) == a * TWO32 - a
  {
    if a > 0 { TimesTop(a - 1); }
  }

  lemma ProductFits(a: nat, x: nat)
    requires 1 <= a < TWO32 && x < TWO32
    ensures Mul(a, x) < TWO64 && Mul(a, x) / TWO32 <= a - 1
  {
    hide Mul;
    Monotone(x, TWO32 - 1, a);
    TimesTop(a);
  }

  /** The reference block is on the memory, for every step and every pseudo-random word. */
  lemma IndexInBounds(s: Shape, t: Step, rand: U64)
    requires ShapeOk(s) && StepOk(s, t)
    ensures RefLane(s, t, rand) < s.lanes && RefIndex(s, t, rand) < s.laneLength
    ensures IndexAlpha(s, t, rand) == Mul(RefLane(s, t, rand), s.laneLength) + RefIndex(s, t, rand) < Mul(s.lanes, s.laneLength)
  {
    hide Mul, Mod, Wrap32, RelativePosition;
    var a, p := RefLane(s, t, rand), RefIndex(s, t, rand);
    Inside(a, p, s.lanes, s.laneLength);
    NoWrap(Mul(a, s.laneLength) + p);
  }

  lemma Inside(a: nat, p: nat, lanes: nat, length: nat)
    requires a < lanes && p < length
    ensures Mul(a, length) + p < Mul(lanes, length)
  {
    hide Mul;
    Monotone(a + 1, lanes, length);
    Distribute(a, 1, length);
    Distribute(1, 0, length);
  }

  /** Different places have different numbers. */
  lemma OneNumber(a: nat, p: nat, b: nat, q: nat, length: nat)
    requires p < length && q < length && Mul(a, length) + p == Mul(b, length) + q
    ensures a == b && p == q
  {
    hide Mul;
    Distribute(1, 0, length);
    if a < b {
      Monotone(a + 1, b, length);
      Distribute(a, 1, length);
    } else if b < a {
      Monotone(b + 1, a, length);
      Distribute(b, 1, length);
    }
  }

  /** The block being filled, as a place in its lane. */
  function Place(s: Shape, t: Step): nat
    requires t.slice < 4
  {
    Segments(t.slice, s.segmentLength) + t.index
  }

  function PrevPlace(s: Shape, t: Step): int
    requires t.slice < 4
  {
    if t.index == 0 && t.slice == 0 then s.laneLength - 1 else Place(s, t) - 1
  }

  lemma PlaceBounds(s: Shape, t: Step)
    requires ShapeOk(s) && StepOk(s, t)
    ensures Place(s, t) < 4 * s.segmentLength <= s.laneLength && 0 <= PrevPlace(s, t) < s.laneLength
  {
    hide Mul;
  }

  /** In the first pass the reference lies at least two places before the block. */
  lemma FirstPassReference(s: Shape, t: Step, rand: U64)
    requires ShapeOk(s) && StepOk(s, t) && t.pass == 0
    ensures RefIndex(s, t, rand) == RelativePosition(Place(s, t) - 1, rand) <= Place(s, t) - 2
  {
    hide Mul, Mod, Wrap32, Wrap64, RelativePosition;
    PlaceBounds(s, t);
    NoWrap(Place(s, t) - 1);
    var area := AreaSize(s, t);
    assert area == Place(s, t) - 1;
    PositionInArea(area, rand);
    var rel := RelativePosition(area, rand);
    NoWrap(rel);
    NoWrap(0 + rel);
    ModSmall(rel, s.laneLength);
  }

  /** In a later pass the reference lies behind the segment, or at least two places before the block. */
  lemma LaterPassReference(s: Shape, t: Step, rand: U64)
    requires ShapeOk(s) && StepOk(s, t) && t.pass != 0
    ensures Segments(t.slice + 1, s.segmentLength) <= RefIndex(s, t, rand) <= s.laneLength + Place(s, t) - 2 ||
            RefIndex(s, t, rand) <= Place(s, t) - 2
  {
    hide Mul, Mod, Wrap32, Wrap64, RelativePosition;
    PlaceBounds(s, t);
    NoWrap(s.laneLength - s.segmentLength + t.index - 1);
    var area := AreaSize(s, t);
    PositionInArea(area, rand);
    var rel, next := RelativePosition(area, rand), Segments(t.slice + 1, s.segmentLength);
    NoWrap(rel);
    NoWrap(next);
    ModSmall(next, s.laneLength);
    var start := StartPosition(s, t);
    WrapOnce(start + rel);
    ModSmall(Wrap32(start + rel), s.laneLength);
  }

  /** In the first slice of the first pass lane `a` is picked exactly by the words whose high half leaves
      the remainder `a`; later a step stays in its own lane. */
  lemma LanePicked(s: Shape, t: Step, rand: U64, a: nat)
    requires s.lanes >= 1 && a < s.lanes
    ensures if t.pass == 0 && t.slice == 0 then RefLane(s, t, rand) == a <==> (rand / TWO32) % s.lanes == a
            else RefLane(s, t, rand) == t.lane
  {
    DivideIsUsual(rand / TWO32, s.lanes);
  }

  /** In a later pass the references of a step reach from the start of the next segment, round the lane, to
      the block before the previous one: these are the ends, for the word 0 and for the largest low half. */
  lemma LaterPassEnds(s: Shape, t: Step)
    requires ShapeOk(s) && StepOk(s, t) && t.pass != 0 && s.laneLength <= 0x8000_0000
    ensures RefIndex(s, t, 0) == (if Place(s, t) >= 2 then Place(s, t) - 2 else s.laneLength + Place(s, t) - 2)
    ensures var next := Segments(t.slice + 1, s.segmentLength);
            RefIndex(s, t, TWO32 - 1) == if next == s.laneLength then 0 else next
  {
    hide Mul, Mod, Wrap32, Wrap64, RelativePosition;
    PlaceBounds(s, t);
    var next := Segments(t.slice + 1, s.segmentLength);
    NoWrap(s.laneLength - s.segmentLength + t.index - 1);
    var area := AreaSize(s, t);
    ZeroPosition(area, 0);
    LargestPosition(area);
    NoWrap(next);
    NoWrap(area - 1);
    NoWrap(0);
    ModSmall(next, s.laneLength);
    var start := StartPosition(s, t);
    NoWrap(start + (area - 1));
    NoWrap(start + 0);
    ModSmall(start + (area - 1), s.laneLength);
    ModSmall(start, s.laneLength);
  }

  lemma LargestPosition(area: U32)
    requires 1 <= area <= 0x8000_0000
    ensures RelativePosition(area, TWO32 - 1) == 0
  {
    PositionInArea(area, TWO32 - 1);
    TimesTop(TWO32 - 1);
    hide Mul;
    var square := Mul(TWO32 - 1, TWO32 - 1) / TWO32;
    assert square == TWO32 - 2;
    MulNext(area, TWO32 - 2);
    TimesTop(area);
    assert Mul(area, square) == area * TWO32 - 2 * area;
  }

  lemma WrapOnce(x: nat)
    requires x < 2 * TWO32
    ensures Wrap32(x) == if x < TWO32 then x else x - TWO32
  {
  }

  /** The reference differs from the block and from its predecessor, in every pass and lane. */
  lemma ReferenceIsOther(s: Shape, t: Step, rand: U64)
    requires ShapeOk(s) && StepOk(s, t)
    ensures RefIndex(s, t, rand) != Place(s, t) && RefIndex(s, t, rand) != PrevPlace(s, t)
  {
    hide Mul, RefIndex;
    PlaceBounds(s, t);
    if t.pass == 0 {
      FirstPassReference(s, t, rand);
    } else {
      LaterPassReference(s, t, rand);
    }
  }

  // ---------- Which blocks have been written ----------

  /** Block `p` of lane `a` has been filled in this pass when step `t` is about to be taken. */
  predicate Rewritten(s: Shape, t: Step, a: nat, p: nat)
    requires t.slice < 4
  {
    (t.pass == 0 ==> p >= 2) &&
    (p < Segments(t.slice, s.segmentLength) ||
     (a < t.lane && p < Segments(t.slice + 1, s.segmentLength)) ||
     (a == t.lane && p < Place(s, t)))
  }

  /** Block `p` of lane `a` has a value when step `t` is about to be taken. */
  predicate WrittenBefore(s: Shape, t: Step, a: nat, p: nat)
    requires t.slice < 4
  {
    p < 2 || (t.pass > 0 && p < 4 * s.segmentLength) || Rewritten(s, t, a, p)
  }

  /** The reference block of a step has been written: in the first pass unless another lane is asked for
      a block it has not reached, later unless the block is one of those behind the four segments. */
  lemma ReferenceWritten(s: Shape, t: Step, rand: U64)
    requires ShapeOk(s) && StepOk(s, t)
    ensures WrittenBefore(s, t, RefLane(s, t, rand), RefIndex(s, t, rand)) <==>
            if t.pass == 0 then !(t.slice == 0 && RefLane(s, t, rand) > t.lane && RefIndex(s, t, rand) >= 2)
            else RefIndex(s, t, rand) < 4 * s.segmentLength
  {
    hide Mul, Mod, RefIndex;
    IndexInBounds(s, t, rand);
    PlaceBounds(s, t);
    if t.pass == 0 { FirstPassReference(s, t, rand); }
  }

  /** The previous block has been written, except at the start of a lane in a later pass when the lane
      length is not a multiple of four: then the last block of the lane is never filled. */
  lemma PreviousWritten(s: Shape, t: Step)
    requires ShapeOk(s) && StepOk(s, t)
    ensures var p := PrevPlace(s, t);
            p >= 0 && (WrittenBefore(s, t, t.lane, p) <==>
                       !(t.pass > 0 && t.slice == 0 && t.index == 0 && s.laneLength != 4 * s.segmentLength))
  {
    hide Mul;
    PlaceBounds(s, t);
  }

  /** Both blocks that the step reads have been written. */
  ghost predicate ReadsWritten(s: Shape, t: Step, rand: U64)
    requires ShapeOk(s) && t.slice < 4
  {
    PrevPlace(s, t) >= 0 && WrittenBefore(s, t, t.lane, PrevPlace(s, t)) &&
    WrittenBefore(s, t, RefLane(s, t, rand), RefIndex(s, t, rand))
  }

  /** Every step of the pass reads written blocks only, whatever the words. */
  ghost predicate AlwaysWritten(s: Shape, pass: U32)
    requires ShapeOk(s)
  {
    forall t: Step, rand: U64 :: StepOk(s, t) && t.pass == pass ==> ReadsWritten(s, t, rand)
  }

  /** In the second block of a lane the word 0 picks the last block of the lane. */
  lemma ZeroPicksLast(s: Shape, pass: U32, lane: U32)
    requires ShapeOk(s) && pass > 0 && lane < s.lanes
    ensures var t := Step(pass, 0, lane, 1); StepOk(s, t) && RefLane(s, t, 0) == lane && RefIndex(s, t, 0) == s.laneLength - 1
  {
    hide Mul, Mod, Wrap32, Wrap64, RelativePosition;
    var t := Step(pass, 0, lane, 1);
    NoWrap(s.laneLength - s.segmentLength);
    var area := AreaSize(s, t);
    ZeroPosition(area, 0);
    NoWrap(s.segmentLength);
    NoWrap(area - 1);
    ModSmall(s.segmentLength, s.laneLength);
    NoWrap(s.laneLength - 1);
    ModSmall(s.laneLength - 1, s.laneLength);
  }

  /** A word whose low half is 0 picks the last place of the area. */
  lemma ZeroPosition(area: U32, rand: U64)
    requires area >= 1 && rand % TWO32 == 0
    ensures RelativePosition(area, rand) == area - 1
  {
    PositionInArea(area, rand);
    MulNext(area, 0);
  }

  /** A later pass reads written blocks only if and only if the lane length is a multiple of four. */
  lemma LaterPassWritten(s: Shape, pass: U32)
    requires ShapeOk(s) && pass > 0
    ensures AlwaysWritten(s, pass) <==> s.laneLength == 4 * s.segmentLength
  {
    hide Mul, RefIndex, RefLane, WrittenBefore;
    if s.laneLength == 4 * s.segmentLength {
      forall t: Step, rand: U64 | StepOk(s, t) && t.pass == pass ensures ReadsWritten(s, t, rand) {
        PreviousWritten(s, t);
        ReferenceWritten(s, t, rand);
        IndexInBounds(s, t, rand);
      }
    } else {
      var t := Step(pass, 0, 0, 1);
      ZeroPicksLast(s, pass, 0);
      ReferenceWritten(s, t, 0);
      assert !ReadsWritten(s, t, 0);
    }
  }

  /** The first pass reads written blocks only if and only if there is one lane, or a segment is too short
      for a reference to reach past the two given blocks. */
  lemma FirstPassWritten(s: Shape)
    requires ShapeOk(s)
    ensures AlwaysWritten(s, 0) <==> s.lanes == 1 || s.segmentLength <= 4
  {
    hide Mul, RefIndex, RefLane, WrittenBefore;
    if s.lanes == 1 || s.segmentLength <= 4 {
      forall t: Step, rand: U64 | StepOk(s, t) && t.pass == 0 ensures ReadsWritten(s, t, rand) {
        PreviousWritten(s, t);
        ReferenceWritten(s, t, rand);
        IndexInBounds(s, t, rand);
        FirstPassReference(s, t, rand);
        PlaceBounds(s, t);
      }
    } else {
      var t := Step(0, 0, 0, 4);
      FifthBlockAsksAhead(s);
      ReferenceWritten(s, t, TWO32);
      assert !ReadsWritten(s, t, TWO32);
    }
  }

  /** All passes read written blocks only, whatever the words, exactly for these lengths of a lane. */
  lemma FillReadsWritten(s: Shape, timeCost: U32)
    requires ShapeOk(s)
    ensures (forall pass: U32 :: pass < timeCost ==> AlwaysWritten(s, pass)) <==>
            (timeCost >= 1 ==> s.lanes == 1 || s.laneLength < 20) && (timeCost >= 2 ==> s.laneLength % 4 == 0)
  {
    hide Mul, AlwaysWritten;
    FirstPassWritten(s);
    if timeCost >= 2 { LaterPassWritten(s, 1); }
    forall pass: U32 | 0 < pass < timeCost ensures AlwaysWritten(s, pass) <==> s.laneLength % 4 == 0 {
      LaterPassWritten(s, pass);
    }
  }

  /** The fifth block of lane 0 can be sent to the third block of lane 1. */
  lemma FifthBlockAsksAhead(s: Shape)
    requires ShapeOk(s) && s.lanes >= 2 && s.segmentLength >= 5
    ensures var t := Step(0, 0, 0, 4); StepOk(s, t) && RefLane(s, t, TWO32) == 1 && RefIndex(s, t, TWO32) == 2
  {
    var t := Step(0, 0, 0, 4);
    FirstPassReference(s, t, TWO32);
    ZeroPosition(3, TWO32);
    ModSmall(1, s.lanes);
  }

  /** Both conditions can be read off the parameters, and both fail: a lane of nine blocks, and two lanes
      of twenty. */
  lemma NineBlocks()
    ensures var s, t := Shape(1, 9, 2), Step(1, 0, 0, 1);
            ShapeOk(s) && StepOk(s, t) && RefIndex(s, t, 0) == 8 && !WrittenBefore(s, t, 0, 8)
  {
    var s := Shape(1, 9, 2);
    assert Mul(1, 9) == 9;
    ZeroPicksLast(s, 1, 0);
  }

  lemma TwoLanes()
    ensures var s, t := Shape(2, 20, 5), Step(0, 0, 0, 4);
            ShapeOk(s) && StepOk(s, t) && RefLane(s, t, TWO32) == 1 && RefIndex(s, t, TWO32) == 2 && !WrittenBefore(s, t, 1, 2)
  {
    var s := Shape(2, 20, 5);
    FourTimes(20);
    FifthBlockAsksAhead(s);
  }

  /** No two steps of a pass fill the same block. */
  lemma OneStepPerPlace(s: Shape, t: Step, u: Step)
    requires StepOk(s, t) && StepOk(s, u) && t.pass == u.pass && t.lane == u.lane && Place(s, t) == Place(s, u)
    ensures t == u
  {
    OneNumber(t.slice, t.index, u.slice, u.index, s.segmentLength);
  }

  /** What was filled before an earlier step was filled before this one. */
  lemma RewrittenStays(s: Shape, t: Step, u: Step, a: nat, p: nat)
    requires ShapeOk(s) && StepOk(s, t) && StepOk(s, u) && t.pass == u.pass
    requires Rewritten(s, t, u.lane, Place(s, u)) && Rewritten(s, u, a, p)
    ensures Rewritten(s, t, a, p)
  {
    hide Mul;
  }

  lemma NotYetRewritten(s: Shape, t: Step)
    requires ShapeOk(s) && StepOk(s, t)
    ensures !Rewritten(s, t, t.lane, Place(s, t))
  {
    hide Mul;
  }

  // ---------- The fill ----------

  function At(s: Shape, a: nat, p: nat): nat {
    Mul(a, s.laneLength) + p
  }

  predicate MemoryOf<Block>(s: Shape, memory: seq<Block>) {
    |memory| == Mul(s.lanes, s.laneLength)
  }

  /** A block during a pass, given the memory at the start and at the end of the pass: what step `t` finds
      there. */
  function Found<Block>(s: Shape, before: seq<Block>, after: seq<Block>, t: Step, a: nat, p: nat): Block
    requires t.slice < 4 && a < s.lanes && p < s.laneLength && MemoryOf(s, before) && MemoryOf(s, after)
  {
    Inside(a, p, s.lanes, s.laneLength);
    if Rewritten(s, t, a, p) then after[At(s, a, p)] else before[At(s, a, p)]
  }

  datatype Mixing<!Block> = Mixing(mix: (Block, Block) -> Block, xor: (Block, Block) -> Block, word: Block -> U64)

  /** The recurrence of the fill: the block that step `t` leaves is mixed from the previous block and the
      block its word picks, as `t` finds them, and from the second pass on joined with its old value. */
  ghost predicate Mixed<Block>(s: Shape, before: seq<Block>, after: seq<Block>, t: Step, f: Mixing<Block>)
    requires ShapeOk(s) && StepOk(s, t) && MemoryOf(s, before) && MemoryOf(s, after)
  {
    Reachable(s, t);
    var prev := Found(s, before, after, t, t.lane, PrevPlace(s, t));
    IndexInBounds(s, t, f.word(prev));
    var mixed := f.mix(prev, Found(s, before, after, t, RefLane(s, t, f.word(prev)), RefIndex(s, t, f.word(prev))));
    var at := At(s, t.lane, Place(s, t));
    after[at] == if t.pass == 0 then mixed else f.xor(before[at], mixed)
  }

  /** The recurrence depends on the end memory only in the block itself and those filled before it. */
  lemma MixedFrame<Block>(s: Shape, before: seq<Block>, a1: seq<Block>, a2: seq<Block>, t: Step, f: Mixing<Block>)
    requires ShapeOk(s) && StepOk(s, t) && MemoryOf(s, before) && MemoryOf(s, a1) && MemoryOf(s, a2)
    requires At(s, t.lane, Place(s, t)) < |a1| && a1[At(s, t.lane, Place(s, t))] == a2[At(s, t.lane, Place(s, t))]
    requires forall a, p {:trigger Rewritten(s, t, a, p)} :: 0 <= a < s.lanes && 0 <= p < s.laneLength && Rewritten(s, t, a, p) ==>
               At(s, a, p) < |a1| && a1[At(s, a, p)] == a2[At(s, a, p)]
    ensures Mixed(s, before, a1, t, f) <==> Mixed(s, before, a2, t, f)
  {
    hide Mul, RefIndex, RefLane, Rewritten, PrevPlace, Place, At;
    Reachable(s, t);
    var prev := Found(s, before, a1, t, t.lane, PrevPlace(s, t));
    assert prev == Found(s, before, a2, t, t.lane, PrevPlace(s, t));
    IndexInBounds(s, t, f.word(prev));
  }

  /** What the step computes from the memory as it is. */
  function Filled<Block>(s: Shape, memory: seq<Block>, t: Step, f: Mixing<Block>): Block
    requires ShapeOk(s) && StepOk(s, t) && MemoryOf(s, memory)
  {
    Reachable(s, t);
    var prev := memory[At(s, t.lane, PrevPlace(s, t))];
    IndexInBounds(s, t, f.word(prev));
    var mixed := f.mix(prev, memory[IndexAlpha(s, t, f.word(prev))]);
    if t.pass == 0 then mixed else f.xor(memory[At(s, t.lane, Place(s, t))], mixed)
  }

  /** `memory` has got as far as step `t` of a pass that began with `before`. */
  ghost predicate Untouched<Block>(s: Shape, before: seq<Block>, memory: seq<Block>, t: Step)
    requires ShapeOk(s) && t.slice < 4 && MemoryOf(s, before) && MemoryOf(s, memory)
  {
    forall a, p {:trigger Rewritten(s, t, a, p)} :: 0 <= a < s.lanes && 0 <= p < s.laneLength && !Rewritten(s, t, a, p) ==>
      At(s, a, p) < |memory| && memory[At(s, a, p)] == before[At(s, a, p)]
  }

  lemma FillMixes<Block>(s: Shape, before: seq<Block>, memory: seq<Block>, t: Step, f: Mixing<Block>)
    requires ShapeOk(s) && StepOk(s, t) && MemoryOf(s, before) && MemoryOf(s, memory) && Untouched(s, before, memory, t)
    ensures At(s, t.lane, Place(s, t)) < |memory| &&
            Mixed(s, before, memory[At(s, t.lane, Place(s, t)) := Filled(s, memory, t, f)], t, f)
  {
    hide Mul, RefIndex, RefLane, Rewritten, PrevPlace, Place;
    Reachable(s, t);
    NotYetRewritten(s, t);
    var at := At(s, t.lane, Place(s, t));
    var after := memory[at := Filled(s, memory, t, f)];
    forall a, p | 0 <= a < s.lanes && 0 <= p < s.laneLength ensures Found(s, before, after, t, a, p) == Found(s, before, memory, t, a, p) {
      Inside(a, p, s.lanes, s.laneLength);
      if At(s, a, p) == at { OneNumber(a, p, t.lane, Place(s, t), s.laneLength); }
    }
    var prev := memory[At(s, t.lane, PrevPlace(s, t))];
    assert Found(s, before, memory, t, t.lane, PrevPlace(s, t)) == prev;
    IndexInBounds(s, t, f.word(prev));
    assert Found(s, before, memory, t, RefLane(s, t, f.word(prev)), RefIndex(s, t, f.word(prev))) == memory[IndexAlpha(s, t, f.word(prev))];
    assert memory[at] == before[at];
  }

  lemma FillKeepsMixed<Block>(s: Shape, before: seq<Block>, memory: seq<Block>, t: Step, u: Step, b: Block, f: Mixing<Block>)
    requires ShapeOk(s) && StepOk(s, t) && StepOk(s, u) && t.pass == u.pass && MemoryOf(s, before) && MemoryOf(s, memory)
    requires Rewritten(s, t, u.lane, Place(s, u)) && Mixed(s, before, memory, u, f)
    ensures At(s, t.lane, Place(s, t)) < |memory| && Mixed(s, before, memory[At(s, t.lane, Place(s, t)) := b], u, f)
  {
    hide Mul, RefIndex, RefLane, Rewritten, PrevPlace, Place, Mixed;
    Reachable(s, t);
    Reachable(s, u);
    NotYetRewritten(s, t);
    var at := At(s, t.lane, Place(s, t));
    var after := memory[at := b];
    forall a, p | 0 <= a < s.lanes && 0 <= p < s.laneLength && Rewritten(s, t, a, p)
      ensures At(s, a, p) < |memory| && At(s, a, p) != at
    {
      Inside(a, p, s.lanes, s.laneLength);
      if At(s, a, p) == at { OneNumber(a, p, t.lane, Place(s, t), s.laneLength); }
    }
    forall a, p | 0 <= a < s.lanes && 0 <= p < s.laneLength && Rewritten(s, u, a, p)
      ensures At(s, a, p) < |memory| && memory[At(s, a, p)] == after[At(s, a, p)]
    {
      RewrittenStays(s, t, u, a, p);
    }
    MixedFrame(s, before, memory, after, u, f);
  }

  /** Where the reference of a first-pass step was already there, given the word that picks it. */
  predicate Ready(s: Shape, t: Step, rand: U64)
    requires s.lanes >= 1 && s.laneLength >= 1 && t.slice < 4
  {
    t.slice > 0 || RefLane(s, t, rand) <= t.lane || RefIndex(s, t, rand) < 2
  }

  /** In this memory alone, the block of step `t` is mixed from its predecessor and from the block that the
      predecessor's word picks. */
  ghost predicate Settled<Block>(s: Shape, memory: seq<Block>, t: Step, f: Mixing<Block>)
    requires ShapeOk(s) && StepOk(s, t) && MemoryOf(s, memory)
  {
    Reachable(s, t);
    var prev := memory[At(s, t.lane, PrevPlace(s, t))];
    IndexInBounds(s, t, f.word(prev));
    Ready(s, t, f.word(prev)) ==> memory[At(s, t.lane, Place(s, t))] == f.mix(prev, memory[IndexAlpha(s, t, f.word(prev))])
  }

  ghost predicate SameStarts<Block>(s: Shape, before: seq<Block>, after: seq<Block>)
    requires MemoryOf(s, before) && MemoryOf(s, after)
  {
    forall a, p {:trigger At(s, a, p)} :: 0 <= a < s.lanes && 0 <= p < 2 && At(s, a, p) < |before| ==> after[At(s, a, p)] == before[At(s, a, p)]
  }

  /** In the first pass nothing is overwritten, so the recurrence speaks of the final memory alone. */
  lemma MixedIsSettled<Block>(s: Shape, before: seq<Block>, after: seq<Block>, t: Step, f: Mixing<Block>)
    requires ShapeOk(s) && StepOk(s, t) && t.pass == 0 && MemoryOf(s, before) && MemoryOf(s, after)
    requires Mixed(s, before, after, t, f) && SameStarts(s, before, after)
    ensures Settled(s, after, t, f)
  {
    hide Mul, RefIndex, RefLane, At;
    Reachable(s, t);
    PlaceBounds(s, t);
    PreviousWritten(s, t);
    var prev := Found(s, before, after, t, t.lane, PrevPlace(s, t));
    assert prev == after[At(s, t.lane, PrevPlace(s, t))];
    IndexInBounds(s, t, f.word(prev));
    ReferenceWritten(s, t, f.word(prev));
    if Ready(s, t, f.word(prev)) {
      IndexIsAt(s, t, f.word(prev));
      assert Found(s, before, after, t, RefLane(s, t, f.word(prev)), RefIndex(s, t, f.word(prev))) == after[IndexAlpha(s, t, f.word(prev))];
    }
  }

  lemma IndexIsAt(s: Shape, t: Step, rand: U64)
    requires ShapeOk(s) && StepOk(s, t)
    ensures IndexAlpha(s, t, rand) == At(s, RefLane(s, t, rand), RefIndex(s, t, rand))
  {
    IndexInBounds(s, t, rand);
  }

  ghost predicate StartsWith<Block>(s: Shape, memory: seq<Block>, a: nat, zeroth: Block, first: Block) {
    At(s, a, 0) < |memory| && At(s, a, 1) < |memory| && memory[At(s, a, 0)] == zeroth && memory[At(s, a, 1)] == first
  }

  /** The first step of a slice in a lane. */
  function Start(pass: U32, slice: U32): U32 {
    if pass == 0 && slice == 0 then 2 else 0
  }

  class Context<Block> {
    const shape: Shape
    const memory: array<Block>
    const f: Mixing<Block>
    ghost var written: set<(nat, nat)>

    constructor (parallelism: U32, memoryCost: U32, zero: Block, f: Mixing<Block>)
      requires 0 < parallelism < 0x2000_0000
      ensures Fits() && fresh(memory) && written == {}
      ensures shape == Layout(parallelism, memoryCost) && this.f == f
    {
      hide Mul, Div, Layout;
      LayoutOk(parallelism, memoryCost);
      var s := Layout(parallelism, memoryCost);
      shape, this.f := s, f;
      memory := new Block[Mul(s.lanes, s.laneLength)](_ => zero);
      written := {};
    }

    ghost predicate Fits()
      reads this
    {
      ShapeOk(shape) && memory.Length == Mul(shape.lanes, shape.laneLength)
    }

    /** `written` is exactly the set of blocks written before step `t`. */
    ghost predicate Marked(t: Step)
      requires t.slice < 4
      reads this
    {
      forall a, p :: 0 <= a < shape.lanes && 0 <= p < shape.laneLength ==> ((a, p) in written <==> WrittenBefore(shape, t, a, p))
    }

    /** A pass that began with memory `before` has got as far as step `t`: what it filled satisfies the
        recurrence, and the rest is as it was. */
    ghost predicate Progress(before: seq<Block>, t: Step)
      requires t.slice < 4
      reads this, memory
    {
      Fits() && MemoryOf(shape, before) && Untouched(shape, before, memory[..], t) &&
      forall u {:trigger Mixed(shape, before, memory[..], u, f)} ::
        StepOk(shape, u) && u.pass == t.pass && Rewritten(shape, t, u.lane, Place(shape, u)) ==> Mixed(shape, before, memory[..], u, f)
    }

    /** Steps before which the same blocks have been filled are equally far into the pass. */
    lemma SameProgress(before: seq<Block>, t: Step, u: Step)
      requires t.slice < 4 && u.slice < 4 && t.pass == u.pass && Progress(before, t)
      requires forall a: nat, p: nat :: a < shape.lanes ==> (Rewritten(shape, t, a, p) <==> Rewritten(shape, u, a, p))
      ensures Progress(before, u)
    {
      hide Mul, Rewritten, Mixed, Place, At;
      forall a, p | 0 <= a < shape.lanes && 0 <= p < shape.laneLength && !Rewritten(shape, u, a, p)
        ensures At(shape, a, p) < memory.Length && memory[..][At(shape, a, p)] == before[At(shape, a, p)]
      {
        assert !Rewritten(shape, t, a, p);
      }
    }

    /** The work of one step: every block it touches is on the memory. */
    method FillBlock(t: Step, ghost before: seq<Block>)
      requires Fits() && StepOk(shape, t) && Marked(t) && Progress(before, t)
      modifies memory, this`written
      ensures Marked(t.(index := t.index + 1)) && Progress(before, t.(index := t.index + 1))
    {
      hide Mul, IndexAlpha, WrittenBefore, Rewritten, PrevPlace, At, Place, Mixed;
      Reachable(shape, t);
      ghost var now := memory[..];
      var curr := At(shape, t.lane, Place(shape, t));
      var prev := memory[At(shape, t.lane, PrevPlace(shape, t))];
      IndexInBounds(shape, t, f.word(prev));
      var mixed := f.mix(prev, memory[IndexAlpha(shape, t, f.word(prev))]);
      assert (if t.pass != 0 then f.xor(memory[curr], mixed) else mixed) == Filled(shape, now, t, f);
      memory[curr] := if t.pass != 0 then f.xor(memory[curr], mixed) else mixed;
      written := written + {(t.lane, Place(shape, t))};
      hide Filled;
      assert memory[..] == now[curr := Filled(shape, now, t, f)];
      ghost var next := t.(index := t.index + 1);
      forall a, p | 0 <= a < shape.lanes && 0 <= p < shape.laneLength ensures (a, p) in written <==> WrittenBefore(shape, next, a, p) {
        NextIndex(shape, t, a, p);
      }
      FilledUntouched(shape, before, now, t, Filled(shape, now, t, f));
      forall u | StepOk(shape, u) && u.pass == t.pass && Rewritten(shape, next, u.lane, Place(shape, u))
        ensures Mixed(shape, before, memory[..], u, f)
      {
        NextIndex(shape, t, u.lane, Place(shape, u));
        if Rewritten(shape, t, u.lane, Place(shape, u)) {
          assert Mixed(shape, before, now, u, f);
          FillKeepsMixed(shape, before, now, t, u, Filled(shape, now, t, f), f);
        } else {
          OneStepPerPlace(shape, t, u);
          FillMixes(shape, before, now, t, f);
        }
      }
    }

    /** The first two blocks of every lane are given. */
    method FillFirstBlocks(first: (nat, nat) -> Block)
      requires Fits() && written == {}
      modifies memory, this`written
      ensures Marked(Step(0, 0, 0, 2))
      ensures forall a :: 0 <= a < shape.lanes ==> StartsWith(shape, memory[..], a, first(a, 0), first(a, 1))
    {
      hide Mul, At;
      var lane := 0;
      while lane < shape.lanes
        invariant 0 <= lane <= shape.lanes
        invariant forall a, p :: (a, p) in written <==> 0 <= a < lane && 0 <= p < 2
        invariant forall a :: 0 <= a < lane ==> StartsWith(shape, memory[..], a, first(a, 0), first(a, 1))
      {
        FirstPlaces(shape, lane);
        ghost var before := memory[..];
        memory[At(shape, lane, 0)] := first(lane, 0);
        memory[At(shape, lane, 1)] := first(lane, 1);
        written := written + {(lane, 0), (lane, 1)};
        forall a | 0 <= a <= lane ensures StartsWith(shape, memory[..], a, first(a, 0), first(a, 1)) {
          FirstPlaces(shape, a);
          if a < lane {
            assert StartsWith(shape, before, a, first(a, 0), first(a, 1));
            LanesApart(shape, a, 0, lane);
            LanesApart(shape, a, 1, lane);
          }
        }
        lane := lane + 1;
      }
      forall a, p | 0 <= a < shape.lanes && 0 <= p < shape.laneLength
        ensures (a, p) in written <==> WrittenBefore(shape, Step(0, 0, 0, 2), a, p)
      {
      }
    }

    /** One segment: blocks `Start` to the end of the slice, in order. */
    method FillSegment(pass: U32, lane: U32, slice: U32, ghost before: seq<Block>)
      requires Fits() && slice < 4 && lane < shape.lanes
      requires Marked(Step(pass, slice, lane, Start(pass, slice))) && Progress(before, Step(pass, slice, lane, Start(pass, slice)))
      modifies memory, this`written
      ensures Marked(Step(pass, slice, lane, shape.segmentLength)) && Progress(before, Step(pass, slice, lane, shape.segmentLength))
    {
      hide Mul, WrittenBefore, Mixed, Place, Untouched;
      var i := Start(pass, slice);
      while i < shape.segmentLength
        invariant Start(pass, slice) <= i <= shape.segmentLength
        invariant Marked(Step(pass, slice, lane, i)) && Progress(before, Step(pass, slice, lane, i))
      {
        FillBlock(Step(pass, slice, lane, i), before);
        i := i + 1;
      }
    }

    /** One slice of all lanes. */
    method FillSlice(pass: U32, slice: U32, ghost before: seq<Block>)
      requires Fits() && slice < 4
      requires Marked(Step(pass, slice, 0, Start(pass, slice))) && Progress(before, Step(pass, slice, 0, Start(pass, slice)))
      modifies memory, this`written
      ensures Marked(Step(pass, slice, shape.lanes, Start(pass, slice))) && Progress(before, Step(pass, slice, shape.lanes, Start(pass, slice)))
    {
      hide Mul, WrittenBefore, Rewritten, Mixed, Place;
      var lane := 0;
      while lane < shape.lanes
        invariant 0 <= lane <= shape.lanes
        invariant Marked(Step(pass, slice, lane, Start(pass, slice))) && Progress(before, Step(pass, slice, lane, Start(pass, slice)))
      {
        FillSegment(pass, lane, slice, before);
        forall a: nat, p: nat
          ensures WrittenBefore(shape, Step(pass, slice, lane, shape.segmentLength), a, p) <==> WrittenBefore(shape, Step(pass, slice, lane + 1, Start(pass, slice)), a, p)
          ensures Rewritten(shape, Step(pass, slice, lane, shape.segmentLength), a, p) <==> Rewritten(shape, Step(pass, slice, lane + 1, Start(pass, slice)), a, p)
        {
          NextLane(shape, pass, slice, lane, a, p);
        }
        SameProgress(before, Step(pass, slice, lane, shape.segmentLength), Step(pass, slice, lane + 1, Start(pass, slice)));
        lane := lane + 1;
      }
    }

    /** One pass: every block it fills satisfies the recurrence between the memory before and after. */
    method FillPass(pass: U32)
      requires Fits() && pass + 1 < TWO32 && Marked(Step(pass, 0, 0, Start(pass, 0)))
      modifies memory, this`written
      ensures Marked(Step(pass + 1, 0, 0, 0))
      ensures forall t :: StepOk(shape, t) && t.pass == pass ==> Mixed(shape, old(memory[..]), memory[..], t, f)
      ensures pass == 0 ==> SameStarts(shape, old(memory[..]), memory[..])
    {
      hide Mul, WrittenBefore, Rewritten, Mixed, Place;
      ghost var before := memory[..];
      NothingTouched(shape, before, pass);
      var slice := 0;
      while slice < 4
        invariant 0 <= slice <= 4
        invariant slice < 4 ==> Marked(Step(pass, slice, 0, Start(pass, slice))) && Progress(before, Step(pass, slice, 0, Start(pass, slice)))
        invariant slice == 4 ==> Marked(Step(pass, 3, shape.lanes, 0)) && Progress(before, Step(pass, 3, shape.lanes, 0))
      {
        FillSlice(pass, slice, before);
        forall a: nat, p: nat | slice < 3 && a < shape.lanes
          ensures WrittenBefore(shape, Step(pass, slice, shape.lanes, Start(pass, slice)), a, p) <==> WrittenBefore(shape, Step(pass, slice + 1, 0, 0), a, p)
          ensures Rewritten(shape, Step(pass, slice, shape.lanes, Start(pass, slice)), a, p) <==> Rewritten(shape, Step(pass, slice + 1, 0, 0), a, p)
        {
          NextSlice(shape, pass, slice, a, p);
        }
        if slice < 3 { SameProgress(before, Step(pass, slice, shape.lanes, Start(pass, slice)), Step(pass, slice + 1, 0, 0)); }
        slice := slice + 1;
      }
      forall a: nat, p: nat | a < shape.lanes
        ensures WrittenBefore(shape, Step(pass, 3, shape.lanes, 0), a, p) <==> WrittenBefore(shape, Step(pass + 1, 0, 0, 0), a, p)
      {
        NextPass(shape, pass, a, p);
      }
      forall t | StepOk(shape, t) && t.pass == pass ensures Mixed(shape, before, memory[..], t, f) {
        AllRewritten(shape, t);
      }
      if pass == 0 {
        StartsKept(shape, before, memory[..]);
      }
    }

    /** All passes.  `history` is the memory after each: from every pass to the next each block obeys the
        recurrence, and after the first pass already in that memory alone.  The blocks ever written are the
        first four segments of every lane, so the last block of a lane is among them exactly when the lane
        length is a multiple of four. */
    method FillMemoryBlocks(timeCost: U32) returns (ghost history: seq<seq<Block>>)
      requires Fits() && Marked(Step(0, 0, 0, 2))
      modifies memory, this`written
      ensures |history| == timeCost + 1 && history[0] == old(memory[..]) && history[timeCost] == memory[..]
      ensures forall k :: 0 <= k <= timeCost ==> MemoryOf(shape, history[k])
      ensures forall t {:trigger StepOk(shape, t)} :: StepOk(shape, t) && t.pass < timeCost ==> Mixed(shape, history[t.pass], history[t.pass + 1], t, f)
      ensures timeCost >= 1 ==> forall t :: StepOk(shape, t) && t.pass == 0 ==> Settled(shape, history[1], t, f)
      ensures timeCost >= 1 ==> forall a, p :: 0 <= a < shape.lanes && 0 <= p < shape.laneLength ==>
                ((a, p) in written <==> p < 4 * shape.segmentLength)
      ensures timeCost >= 1 ==> var last := shape.laneLength - 1; forall a :: 0 <= a < shape.lanes ==>
                ((a, last) in written <==> shape.laneLength == 4 * shape.segmentLength)
    {
      hide Mul, WrittenBefore, Rewritten, Settled, Mixed, Place, StepOk, SameStarts;
      var pass := 0;
      history := [memory[..]];
      while pass < timeCost
        invariant 0 <= pass <= timeCost && Marked(Step(pass, 0, 0, Start(pass, 0)))
        invariant |history| == pass + 1 && history[0] == old(memory[..]) && history[pass] == memory[..]
        invariant forall k :: 0 <= k <= pass ==> MemoryOf(shape, history[k])
        invariant forall t {:trigger StepOk(shape, t)} :: StepOk(shape, t) && t.pass < pass ==> Mixed(shape, history[t.pass], history[t.pass + 1], t, f)
        invariant pass >= 1 ==> SameStarts(shape, history[0], history[1])
      {
        FillPass(pass);
        history := history + [memory[..]];
        pass := pass + 1;
      }
      if timeCost >= 1 {
        forall a, p | 0 <= a < shape.lanes && 0 <= p < shape.laneLength ensures (a, p) in written <==> p < 4 * shape.segmentLength {
          AllSegments(shape, pass, a, p);
        }
        forall t | StepOk(shape, t) && t.pass == 0 ensures Settled(shape, history[1], t, f) {
          MixedIsSettled(shape, history[0], history[1], t, f);
        }
      }
    }
  }

  lemma FirstPlaces(s: Shape, lane: nat)
    requires ShapeOk(s) && lane < s.lanes
    ensures At(s, lane, 0) < Mul(s.lanes, s.laneLength) && At(s, lane, 1) < Mul(s.lanes, s.laneLength) && At(s, lane, 0) != At(s, lane, 1)
  {
    Inside(lane, 0, s.lanes, s.laneLength);
    Inside(lane, 1, s.lanes, s.laneLength);
  }

  lemma LanesApart(s: Shape, a: nat, i: nat, b: nat)
    requires ShapeOk(s) && a != b && i < 2
    ensures At(s, a, i) != At(s, b, 0) && At(s, a, i) != At(s, b, 1)
  {
    if At(s, a, i) == At(s, b, 0) { OneNumber(a, i, b, 0, s.laneLength); }
    if At(s, a, i) == At(s, b, 1) { OneNumber(a, i, b, 1, s.laneLength); }
  }

  lemma FilledUntouched<Block>(s: Shape, before: seq<Block>, memory: seq<Block>, t: Step, b: Block)
    requires ShapeOk(s) && StepOk(s, t) && MemoryOf(s, before) && MemoryOf(s, memory) && Untouched(s, before, memory, t)
    ensures At(s, t.lane, Place(s, t)) < |memory|
    ensures Untouched(s, before, memory[At(s, t.lane, Place(s, t)) := b], t.(index := t.index + 1))
  {
    hide Mul, Rewritten, Place, PrevPlace;
    Reachable(s, t);
    var next := t.(index := t.index + 1);
    forall a, p | 0 <= a < s.lanes && 0 <= p < s.laneLength && !Rewritten(s, next, a, p)
      ensures At(s, a, p) < |memory| && memory[At(s, t.lane, Place(s, t)) := b][At(s, a, p)] == before[At(s, a, p)]
    {
      NextIndex(s, t, a, p);
      Inside(a, p, s.lanes, s.laneLength);
      if At(s, a, p) == At(s, t.lane, Place(s, t)) { OneNumber(a, p, t.lane, Place(s, t), s.laneLength); }
    }
  }

  // How the sets of written and of rewritten blocks move on from step to step.

  lemma NextIndex(s: Shape, t: Step, a: nat, p: nat)
    requires ShapeOk(s) && StepOk(s, t)
    ensures WrittenBefore(s, t.(index := t.index + 1), a, p) <==> WrittenBefore(s, t, a, p) || (a == t.lane && p == Place(s, t))
    ensures Rewritten(s, t.(index := t.index + 1), a, p) <==> Rewritten(s, t, a, p) || (a == t.lane && p == Place(s, t))
  {
    hide Mul;
    PlaceBounds(s, t);
  }

  lemma NextLane(s: Shape, pass: U32, slice: U32, lane: U32, a: nat, p: nat)
    requires ShapeOk(s) && slice < 4 && lane < s.lanes
    ensures WrittenBefore(s, Step(pass, slice, lane, s.segmentLength), a, p) <==> WrittenBefore(s, Step(pass, slice, lane + 1, Start(pass, slice)), a, p)
    ensures Rewritten(s, Step(pass, slice, lane, s.segmentLength), a, p) <==> Rewritten(s, Step(pass, slice, lane + 1, Start(pass, slice)), a, p)
  {
    hide Mul;
  }

  lemma NextSlice(s: Shape, pass: U32, slice: U32, a: nat, p: nat)
    requires ShapeOk(s) && slice < 3 && a < s.lanes
    ensures WrittenBefore(s, Step(pass, slice, s.lanes, Start(pass, slice)), a, p) <==> WrittenBefore(s, Step(pass, slice + 1, 0, 0), a, p)
    ensures Rewritten(s, Step(pass, slice, s.lanes, Start(pass, slice)), a, p) <==> Rewritten(s, Step(pass, slice + 1, 0, 0), a, p)
  {
    hide Mul;
  }

  lemma NextPass(s: Shape, pass: U32, a: nat, p: nat)
    requires ShapeOk(s) && a < s.lanes && pass + 1 < TWO32
    ensures WrittenBefore(s, Step(pass, 3, s.lanes, 0), a, p) <==> WrittenBefore(s, Step(pass + 1, 0, 0, 0), a, p)
  {
    hide Mul;
  }

  lemma NothingTouched<Block>(s: Shape, memory: seq<Block>, pass: U32)
    requires ShapeOk(s) && MemoryOf(s, memory)
    ensures forall a: nat, p: nat :: !Rewritten(s, Step(pass, 0, 0, Start(pass, 0)), a, p)
    ensures Untouched(s, memory, memory, Step(pass, 0, 0, Start(pass, 0)))
  {
    hide Mul;
    forall a, p | 0 <= a < s.lanes && 0 <= p < s.laneLength ensures At(s, a, p) < |memory| {
      Inside(a, p, s.lanes, s.laneLength);
    }
  }

  /** At the end of a pass every block that one of its steps fills has been filled. */
  lemma AllRewritten(s: Shape, t: Step)
    requires ShapeOk(s) && StepOk(s, t)
    ensures Rewritten(s, Step(t.pass, 3, s.lanes, 0), t.lane, Place(s, t))
  {
    hide Mul;
    PlaceBounds(s, t);
  }

  /** The first pass leaves the two given blocks of each lane alone. */
  lemma StartsKept<Block>(s: Shape, before: seq<Block>, after: seq<Block>)
    requires ShapeOk(s) && MemoryOf(s, before) && MemoryOf(s, after) && Untouched(s, before, after, Step(0, 3, s.lanes, 0))
    ensures SameStarts(s, before, after)
  {
    hide Mul, At;
    forall a, p | 0 <= a < s.lanes && 0 <= p < 2 && At(s, a, p) < |before| ensures after[At(s, a, p)] == before[At(s, a, p)] {
      assert !Rewritten(s, Step(0, 3, s.lanes, 0), a, p);
    }
  }

  lemma AllSegments(s: Shape, pass: U32, a: nat, p: nat)
    requires ShapeOk(s) && pass > 0
    ensures WrittenBefore(s, Step(pass, 0, 0, 0), a, p) <==> p < 4 * s.segmentLength
  {
    hide Mul;
  }

  lemma Reachable(s: Shape, t: Step)
    requires ShapeOk(s) && StepOk(s, t)
    ensures 0 <= PrevPlace(s, t) < s.laneLength && Place(s, t) < s.laneLength
    ensures At(s, t.lane, Place(s, t)) < Mul(s.lanes, s.laneLength)
    ensures At(s, t.lane, PrevPlace(s, t)) < Mul(s.lanes, s.laneLength)
  {
    PlaceBounds(s, t);
    Inside(t.lane, Place(s, t), s.lanes, s.laneLength);
    Inside(t.lane, PrevPlace(s, t), s.lanes, s.laneLength);
  }
}
