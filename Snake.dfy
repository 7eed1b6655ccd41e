/**
 * Snake.java: the snake's body chain. The body is a list of points with the
 * head at index 0; `piecesToAdd` counts growth that has been requested but
 * not yet placed. Moving prepends new heads one whole step at a time and
 * either drops the tail or uses up one pending piece.
 *
 * The trigonometry of `move` (cos, sin, atan2, hypot of the accumulated
 * travel) only decides how many whole steps are taken and along which
 * vector; both are parameters here.
 */
module SnakeBody {
  import opened Util

  /** Radius of each body piece, in dp. */
  const BODY_PIECE_SIZE_DP: real := 15.0

  /** Distance moved by each discrete step, in dp. */
  const STEP_DISTANCE_DP: real := 2.5

  /** Number of segments after the head that the self-collision test skips. */
  const SELF_SKIP: nat := 20

  /** The snake's state as a value: its body points, head first, and the pieces still to add. */
  datatype Chain = Chain(body: seq<Point>, piecesToAdd: int) {
    /** getLength: the length including the pieces not yet placed. */
    function Length(): int {
      |body| + piecesToAdd
    }
  }

  // ----- Movement, as a specification on values -----

  /** One step of the loop in `move`: a new head one step vector ahead of the old head, then drop the tail or use a pending piece. */
  function Step(c: Chain, v: Point): (r: Chain)
    requires |c.body| > 0
    ensures |r.body| > 0 && r.Length() == c.Length()
    ensures r.body[0] == Offset(c.body[0], v)
    ensures c.piecesToAdd == 0 ==> r.piecesToAdd == 0 && r.body[1..] == c.body[..|c.body| - 1]
    ensures c.piecesToAdd != 0 ==> r.piecesToAdd == c.piecesToAdd - 1 && r.body[1..] == c.body
  {
    var grown := [Offset(c.body[0], v)] + c.body;
    if c.piecesToAdd == 0 then Chain(grown[..|grown| - 1], 0)
    else Chain(grown, c.piecesToAdd - 1)
  }

  /** `n` iterations of the step loop, all along the same step vector. */
  function Steps(n: nat, c: Chain, v: Point): (r: Chain)
    requires |c.body| > 0
    ensures |r.body| > 0 && r.Length() == c.Length()
  {
    if n == 0 then c else Step(Steps(n - 1, c, v), v)
  }

  /** The number of pieces that `n` steps place: all pending ones up to `n`; a negative count never reaches zero, so every step grows. */
  function Grown(n: nat, pending: int): (g: nat)
    ensures g <= n
  {
    if pending < 0 || n <= pending then n else pending
  }

  /** The head after `k` steps along `v` from `h`. */
  function Advanced(h: Point, v: Point, k: nat): Point {
    if k == 0 then h else Offset(Advanced(h, v, k - 1), v)
  }

  /** The heads placed by `n` steps from `h`, newest first. */
  function NewHeads(h: Point, v: Point, n: nat): (r: seq<Point>)
    ensures |r| == n
  {
    if n == 0 then [] else [Advanced(h, v, n)] + NewHeads(h, v, n - 1)
  }

  /** Iterated offsets are a scaled offset: the k-th head is k step vectors from the start. */
  lemma {:induction false} AdvancedIsScaled(h: Point, v: Point, k: nat)
    ensures Advanced(h, v, k) == Point(h.x + (k as real) * v.x, h.y + (k as real) * v.y)
  {
    if k > 0 {
      AdvancedIsScaled(h, v, k - 1);
      assert (k as real) * v.x == ((k - 1) as real) * v.x + v.x;
      assert (k as real) * v.y == ((k - 1) as real) * v.y + v.y;
    }
  }

  /**
   * The whole effect of `n` steps: the body grows by exactly the pieces
   * placed, the pending count drops by the same number, and the new body is
   * the `n` new heads followed by the old body, cut to its new size.
   */
  lemma {:induction false} StepsShape(n: nat, c: Chain, v: Point)
    requires |c.body| > 0
    ensures |Steps(n, c, v).body| == |c.body| + Grown(n, c.piecesToAdd)
    ensures Steps(n, c, v).piecesToAdd == c.piecesToAdd - Grown(n, c.piecesToAdd)
    ensures Steps(n, c, v).body == (NewHeads(c.body[0], v, n) + c.body)[..|c.body| + Grown(n, c.piecesToAdd)]
  {
    if n > 0 {
      var m := n - 1;
      var s := Steps(m, c, v);
      StepsShape(m, c, v);
      var all := NewHeads(c.body[0], v, m) + c.body;
      var len := |c.body| + Grown(m, c.piecesToAdd);
      assert s.body == all[..len];
      var head := Advanced(c.body[0], v, n);
      assert s.body[0] == Advanced(c.body[0], v, m) by {
        if m == 0 {
          assert s.body[0] == all[0] == c.body[0];
        } else {
          assert all[0] == NewHeads(c.body[0], v, m)[0];
        }
      }
      assert Step(s, v).body[0] == head;
      assert NewHeads(c.body[0], v, n) + c.body == [head] + all;
      if s.piecesToAdd == 0 {
        assert Grown(n, c.piecesToAdd) == Grown(m, c.piecesToAdd);
        assert Step(s, v).body == [head] + all[..len - 1];
        assert ([head] + all)[..len] == [head] + all[..len - 1];
      } else {
        assert Grown(n, c.piecesToAdd) == Grown(m, c.piecesToAdd) + 1;
        assert Step(s, v).body == [head] + all[..len];
        assert ([head] + all)[..len + 1] == [head] + all[..len];
      }
    }
  }

  /** With nothing pending, any number of steps keeps the body size and leaves nothing pending. */
  lemma {:induction false} NoGrowthConservation(n: nat, c: Chain, v: Point)
    requires |c.body| > 0 && c.piecesToAdd == 0
    ensures |Steps(n, c, v).body| == |c.body|
    ensures Steps(n, c, v).piecesToAdd == 0
  {
    StepsShape(n, c, v);
  }

  /** Growth is realised lazily: with `k` pieces pending, `n >= k` steps add exactly `k` segments and clear the count. */
  lemma {:induction false} GrowthRealized(n: nat, c: Chain, v: Point)
    requires |c.body| > 0 && 0 <= c.piecesToAdd <= n
    ensures |Steps(n, c, v).body| == |c.body| + c.piecesToAdd
    ensures Steps(n, c, v).piecesToAdd == 0
  {
    StepsShape(n, c, v);
  }

  /** Fewer steps than pending pieces place one piece per step and drop no tail. */
  lemma {:induction false} GrowthPerStep(n: nat, c: Chain, v: Point)
    requires |c.body| > 0 && n <= c.piecesToAdd
    ensures Steps(n, c, v).body == NewHeads(c.body[0], v, n) + c.body
    ensures Steps(n, c, v).piecesToAdd == c.piecesToAdd - n
  {
    StepsShape(n, c, v);
  }

  /**
   * The old body survives as a suffix of the new one, minus the tail pieces
   * the steps dropped, behind the `n` new heads (when the steps did not
   * consume the whole old body).
   */
  lemma {:induction false} OldBodySurvives(n: nat, c: Chain, v: Point)
    requires |c.body| > 0
    requires n <= |c.body| + Grown(n, c.piecesToAdd)
    ensures Steps(n, c, v).body
      == NewHeads(c.body[0], v, n) + c.body[..|c.body| + Grown(n, c.piecesToAdd) - n]
  {
    StepsShape(n, c, v);
    var heads := NewHeads(c.body[0], v, n);
    var keep := |c.body| + Grown(n, c.piecesToAdd) - n;
    assert (heads + c.body)[..n + keep] == heads + c.body[..keep];
  }

  // ----- Proximity queries (the two private anyWithinRange overloads) -----

  /** anyWithinRange(pts, point, range): some point of the list, scanned head first, is within range. */
  predicate AnyWithinRange(pts: seq<Point>, point: Point, range: real) {
    if pts == [] then false
    else WithinRange(pts[0], point, range) || AnyWithinRange(pts[1..], point, range)
  }

  /** anyWithinRange(pts, point, range, skip): the same scan after skipping the first `skip` points. */
  predicate AnyWithinRangeAfter(pts: seq<Point>, point: Point, range: real, skip: nat) {
    AnyWithinRange(pts[if skip <= |pts| then skip else |pts|..], point, range)
  }

  /** The scan finds a hit exactly when some index holds a point in range. */
  lemma {:induction false} AnyWithinRangeIff(pts: seq<Point>, point: Point, range: real)
    ensures AnyWithinRange(pts, point, range)
      <==> exists i :: 0 <= i < |pts| && WithinRange(pts[i], point, range)
  {
    if pts != [] {
      AnyWithinRangeIff(pts[1..], point, range);
      if WithinRange(pts[0], point, range) {
        assert 0 < |pts|;
      }
      if exists i :: 0 <= i < |pts| && WithinRange(pts[i], point, range) {
        var i :| 0 <= i < |pts| && WithinRange(pts[i], point, range);
        if i > 0 {
          assert pts[1..][i - 1] == pts[i];
        }
      }
      if exists j :: 0 <= j < |pts[1..]| && WithinRange(pts[1..][j], point, range) {
        var j :| 0 <= j < |pts[1..]| && WithinRange(pts[1..][j], point, range);
        assert pts[j + 1] == pts[1..][j];
      }
    }
  }

  /** Skipping: a hit exactly when some index at or beyond `skip` holds a point in range; none when the list has at most `skip` points. */
  lemma AnyWithinRangeAfterIff(pts: seq<Point>, point: Point, range: real, skip: nat)
    ensures AnyWithinRangeAfter(pts, point, range, skip)
      <==> exists i :: skip <= i < |pts| && WithinRange(pts[i], point, range)
    ensures |pts| <= skip ==> !AnyWithinRangeAfter(pts, point, range, skip)
  {
    var rest := pts[if skip <= |pts| then skip else |pts|..];
    AnyWithinRangeIff(rest, point, range);
    if exists i :: skip <= i < |pts| && WithinRange(pts[i], point, range) {
      var i :| skip <= i < |pts| && WithinRange(pts[i], point, range);
      assert rest[i - skip] == pts[i];
    }
    if exists j :: 0 <= j < |rest| && WithinRange(rest[j], point, range) {
      var j :| 0 <= j < |rest| && WithinRange(rest[j], point, range);
      assert rest[j] == pts[skip + j];
    }
  }

  /** Scanning a concatenation finds a hit exactly when one of the parts does. */
  lemma {:induction false} AnyWithinRangeAppend(a: seq<Point>, b: seq<Point>, point: Point, range: real)
    ensures AnyWithinRange(a + b, point, range)
      <==> AnyWithinRange(a, point, range) || AnyWithinRange(b, point, range)
  {
    if a != [] {
      assert (a + b)[0] == a[0];
      assert (a + b)[1..] == a[1..] + b;
      AnyWithinRangeAppend(a[1..], b, point, range);
    } else {
      assert a + b == b;
    }
  }

  /** A point at least |range| to the right of every listed point is out of range of all of them. */
  lemma {:induction false} FarRightIsClear(pts: seq<Point>, p: Point, range: real)
    requires forall i :: 0 <= i < |pts| ==> pts[i].x + Abs(range) <= p.x
    ensures !AnyWithinRange(pts, p, range)
  {
    if pts != [] {
      var dx := p.x - pts[0].x;
      assert Abs(range) <= dx;
      SquareMonotone(Abs(range), dx);
      assert range * range == Abs(range) * Abs(range);
      assert (pts[0].x - p.x) * (pts[0].x - p.x) == dx * dx;
      SquareNonNegative(pts[0].y - p.y);
      FarRightIsClear(pts[1..], p, range);
    }
  }

  /** However long the body and wide the range, some point is out of range of all of it. */
  lemma ClearPointExists(pts: seq<Point>, range: real)
    ensures exists p :: !AnyWithinRange(pts, p, range)
  {
    var p := Point(MaxX(pts) + Abs(range), 0.0);
    FarRightIsClear(pts, p, range);
  }

  function Abs(r: real): (a: real)
    ensures a >= 0.0 && a * a == r * r
  {
    if r < 0.0 then -r else r
  }

  /** An upper bound of the x coordinates of the listed points. */
  function MaxX(pts: seq<Point>): (m: real)
    ensures forall i :: 0 <= i < |pts| ==> pts[i].x <= m
  {
    if pts == [] then 0.0
    else
      var rest := MaxX(pts[1..]);
      if pts[0].x < rest then rest else pts[0].x
  }

  // ----- The Snake object -----

  class Snake {
    /** The points of the body in px; index 0 is the head. */
    var body: seq<Point>

    /** Body pieces still to be placed as the snake moves forward. */
    var piecesToAdd: int

    /** The size of 1 dp in px. */
    const dpToPxFactor: real

    /** The body is never empty: the head always exists. */
    ghost predicate Valid()
      reads this
    {
      |body| > 0
    }

    /** The object's state as a value, to be related to the movement specification. */
    function State(): Chain
      reads this
    {
      Chain(body, piecesToAdd)
    }

    /** getLength: the number of body points plus the pieces yet to be added. */
    function GetLength(): int
      reads this
    {
      State().Length()
    }

    /** A snake of the single point `initial`, with `startingLength` pieces to add as it moves. */
    constructor (initial: Point, dpToPxFactor: real, startingLength: int)
      ensures Valid()
      ensures body == [initial] && piecesToAdd == startingLength
      ensures this.dpToPxFactor == dpToPxFactor
      ensures GetLength() == 1 + startingLength
    {
      body := [initial];
      this.dpToPxFactor := dpToPxFactor;
      piecesToAdd := startingLength;
    }

    /**
     * move: take `n` whole steps along `stepVec`. The step vector stands for
     * the one `move` derives from the distance left to travel: length
     * STEP_DISTANCE_DP * dpToPxFactor, pointing along that distance. Each
     * step puts a new head at the old head plus `stepVec`, then removes the
     * tail if nothing is pending and otherwise uses up one pending piece.
     */
    method Move(n: nat, stepVec: Point)
      requires Valid()
      modifies this
      ensures Valid()
      ensures State() == Steps(n, old(State()), stepVec)
      ensures GetLength() == old(GetLength())
    {
      var i := 0;
      while i < n
        invariant 0 <= i <= n
        invariant |body| > 0
        invariant State() == Steps(i, old(State()), stepVec)
      {
        var newHead := Offset(body[0], stepVec);
        body := [newHead] + body;
        if piecesToAdd == 0 {
          body := body[..|body| - 1];
        } else {
          piecesToAdd := piecesToAdd - 1;
        }
        i := i + 1;
      }
    }

    /** increaseLength: more pieces to add; the body itself is untouched. */
    method IncreaseLength(amount: int)
      modifies this
      ensures body == old(body)
      ensures piecesToAdd == old(piecesToAdd) + amount
      ensures GetLength() == old(GetLength()) + amount
    {
      piecesToAdd := piecesToAdd + amount;
    }

    /** headIntersectsSelf: a segment beyond the first 20 lies within half a body piece of the head. */
    predicate HeadIntersectsSelf()
      requires Valid()
      reads this
    {
      AnyWithinRangeAfter(body, body[0], 0.5 * BODY_PIECE_SIZE_DP * dpToPxFactor, SELF_SKIP)
    }

    /** headIntersectsItem: the head is within a body piece plus `radius` of `location`. */
    predicate HeadIntersectsItem(location: Point, radius: real)
      requires Valid()
      reads this
    {
      WithinRange(body[0], location, BODY_PIECE_SIZE_DP * dpToPxFactor + radius)
    }

    /** headIntersectsAnyItem: the head is within a body piece plus `radius` of one of `locations`. */
    predicate HeadIntersectsAnyItem(locations: seq<Point>, radius: real)
      requires Valid()
      reads this
    {
      AnyWithinRange(locations, body[0], BODY_PIECE_SIZE_DP * dpToPxFactor + radius)
    }

    /** headIsOutOfBounds: the centre of the head has left the rectangle from (0, 0) to (width, height). */
    predicate HeadIsOutOfBounds(width: int, height: int)
      requires Valid()
      reads this
    {
      var head := body[0];
      head.x < 0.0 || head.y < 0.0 || head.x >= width as real || head.y >= height as real
    }

    /** bodyIntersectsItem: some segment, head included, is within a body piece plus `radius` of `location`. */
    predicate BodyIntersectsItem(location: Point, radius: real)
      requires Valid()
      reads this
    {
      AnyWithinRange(body, location, BODY_PIECE_SIZE_DP * dpToPxFactor + radius)
    }
  }

  // ----- Facts about the queries -----

  /** The self-collision test ignores the first 20 segments, so a body of at most 20 points never hits itself. */
  lemma ShortSnakeNeverHitsSelf(s: Snake)
    requires s.Valid() && |s.body| <= SELF_SKIP
    ensures !s.HeadIntersectsSelf()
  {
    AnyWithinRangeAfterIff(s.body, s.body[0], 0.5 * BODY_PIECE_SIZE_DP * s.dpToPxFactor, SELF_SKIP);
  }

  /** The self-collision test fires exactly when some segment at index 20 or beyond is within half a body piece of the head. */
  lemma HeadIntersectsSelfIff(s: Snake)
    requires s.Valid()
    ensures s.HeadIntersectsSelf()
      <==> exists i :: SELF_SKIP <= i < |s.body|
             && WithinRange(s.body[i], s.body[0], 0.5 * BODY_PIECE_SIZE_DP * s.dpToPxFactor)
  {
    AnyWithinRangeAfterIff(s.body, s.body[0], 0.5 * BODY_PIECE_SIZE_DP * s.dpToPxFactor, SELF_SKIP);
  }

  /** The head is element 0 of the body and both tests use the same range, so a head hit is a body hit. */
  lemma HeadHitIsBodyHit(s: Snake, location: Point, radius: real)
    requires s.Valid()
    ensures s.HeadIntersectsItem(location, radius) ==> s.BodyIntersectsItem(location, radius)
  {
  }

  /** The head hits the items exactly when one of them is within a body piece plus `radius` of the head. */
  lemma HeadIntersectsAnyItemIff(s: Snake, locations: seq<Point>, radius: real)
    requires s.Valid()
    ensures s.HeadIntersectsAnyItem(locations, radius)
      <==> exists i :: 0 <= i < |locations|
             && WithinRange(locations[i], s.body[0], BODY_PIECE_SIZE_DP * s.dpToPxFactor + radius)
  {
    AnyWithinRangeIff(locations, s.body[0], BODY_PIECE_SIZE_DP * s.dpToPxFactor + radius);
  }

  /** A body hit is a hit on some segment of the body. */
  lemma BodyIntersectsItemIff(s: Snake, location: Point, radius: real)
    requires s.Valid()
    ensures s.BodyIntersectsItem(location, radius)
      <==> exists i :: 0 <= i < |s.body|
             && WithinRange(s.body[i], location, BODY_PIECE_SIZE_DP * s.dpToPxFactor + radius)
  {
    AnyWithinRangeIff(s.body, location, BODY_PIECE_SIZE_DP * s.dpToPxFactor + radius);
  }

  /** The bounds test on the head's centre is half-open: x = 0 and x = width - 1 are inside, x = width is outside (likewise for y). */
  lemma BoundsAreHalfOpen(s: Snake, width: int, height: int)
    requires s.Valid()
    ensures s.HeadIsOutOfBounds(width, height)
      <==> !(0.0 <= s.body[0].x < width as real && 0.0 <= s.body[0].y < height as real)
    ensures s.body[0].x == width as real || s.body[0].y == height as real ==> s.HeadIsOutOfBounds(width, height)
    ensures 0.0 <= s.body[0].x <= (width - 1) as real && 0.0 <= s.body[0].y <= (height - 1) as real
            ==> !s.HeadIsOutOfBounds(width, height)
  {
  }
}
