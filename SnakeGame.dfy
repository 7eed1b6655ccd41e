/**
 * SnakeGame.java: the game's state machine. It owns the snake, the food,
 * the walls, the score and the speed, and has three transitions: startGame,
 * update (one frame) and touched (one tap).
 *
 * Randomness is an oracle: `random.nextFloat()` is any value in [0, 1), and
 * `randomPoint(size)` is any point that is not near the snake's body, the
 * only test its rejection loop makes; the sampling rectangle is not stated.
 */
module Game {
  import opened Util
  import opened SnakeBody
  import opened Wrappers

  /** Radius of each food item, in dp. */
  const FOOD_SIZE_DP: real := 15.0

  /** Radius of each wall item, in dp. */
  const WALL_SIZE_DP: real := 10.0

  /** Touch "radius", in dp. */
  const TOUCH_SIZE_DP: real := 5.0

  /** The difficulty knobs, which no transition changes. */
  datatype Settings = Settings(
    initialSpeed: real,
    speedIncreasePerFood: real,
    startingLength: int,
    lengthIncreasePerFood: int,
    wallPlacementProbability: real,
    dpToPxFactor: real)

  /** walls.removeIf(wall -> withinRange(wall, pt, dist)): the walls that are not within `dist` of `pt`, in their order. */
  function RemoveWithin(walls: seq<Point>, pt: Point, dist: real): (r: seq<Point>)
    ensures |r| <= |walls|
    ensures forall w :: w in r <==> w in walls && !WithinRange(w, pt, dist)
  {
    if walls == [] then []
    else if WithinRange(walls[0], pt, dist) then RemoveWithin(walls[1..], pt, dist)
    else [walls[0]] + RemoveWithin(walls[1..], pt, dist)
  }

  /** Filtering keeps the order: filtering a concatenation filters each part in place. */
  lemma {:induction false} RemoveWithinAppend(a: seq<Point>, b: seq<Point>, pt: Point, dist: real)
    ensures RemoveWithin(a + b, pt, dist) == RemoveWithin(a, pt, dist) + RemoveWithin(b, pt, dist)
  {
    if a == [] {
      assert a + b == b;
    } else {
      assert (a + b)[0] == a[0];
      assert (a + b)[1..] == a[1..] + b;
      RemoveWithinAppend(a[1..], b, pt, dist);
    }
  }

  /** Every wall outside the range is kept as often as it occurred, every wall inside is gone. */
  lemma {:induction false} RemoveWithinCounts(walls: seq<Point>, pt: Point, dist: real, w: Point)
    ensures multiset(RemoveWithin(walls, pt, dist))[w]
      == if WithinRange(w, pt, dist) then 0 else multiset(walls)[w]
  {
    if walls != [] {
      RemoveWithinCounts(walls[1..], pt, dist, w);
      assert walls == [walls[0]] + walls[1..];
    }
  }

  /** Touching where no wall is within range removes nothing. */
  lemma {:induction false} RemoveWithinNoneNear(walls: seq<Point>, pt: Point, dist: real)
    requires forall i :: 0 <= i < |walls| ==> !WithinRange(walls[i], pt, dist)
    ensures RemoveWithin(walls, pt, dist) == walls
  {
    if walls != [] {
      RemoveWithinNoneNear(walls[1..], pt, dist);
    }
  }

  class SnakeGame {
    /** The size of the playing area, in px. */
    var width: int
    var height: int

    /** The game is over before the first game and after the snake dies. */
    var gameOver: bool

    /** The snake; null until the first game starts. */
    var snake: Snake?

    /** Location of the current food, in px (meaningful once a game has started). */
    var food: Point

    /** Number of foods eaten. */
    var score: int

    var initialSpeed: real
    var speedIncreasePerFood: real

    /** Speed of the snake, in dp per frame. */
    var speed: real

    var startingLength: int
    var lengthIncreasePerFood: int

    /** Probability to place a new wall each frame. */
    var wallPlacementProbability: real

    /** Locations of the walls, in px. */
    var walls: seq<Point>

    /** The size of 1 dp in px. */
    var dpToPxFactor: real

    /** A running game has a snake, and a snake always has a head. */
    ghost predicate Valid()
      reads this, snake
    {
      && (!gameOver ==> snake != null)
      && (snake != null ==> snake.Valid())
    }

    function Knobs(): Settings
      reads this
    {
      Settings(initialSpeed, speedIncreasePerFood, startingLength, lengthIncreasePerFood,
               wallPlacementProbability, dpToPxFactor)
    }

    /** A fresh game object with the Java defaults for difficulty, before any game. */
    constructor ()
      ensures Valid() && gameOver && HasNotStarted()
      ensures score == 0 && walls == []
      ensures Knobs() == Settings(2.5, 0.0, 25, 8, 0.005, 1.0) && speed == 2.5
    {
      gameOver := true;
      snake := null;
      food := Point(0.0, 0.0);
      score := 0;
      initialSpeed := 2.5;
      speedIncreasePerFood := 0.0;
      speed := 2.5;
      startingLength := 25;
      lengthIncreasePerFood := 8;
      wallPlacementProbability := 0.005;
      walls := [];
      dpToPxFactor := 1.0;
    }

    /** hasNotStarted: no game has ever been started, which is exactly when there is no snake. */
    predicate HasNotStarted()
      reads this
    {
      snake == null
    }

    /** getCurrentLength: the snake's length including pieces yet to add; None where the Java dereferences a null snake. */
    function GetCurrentLength(): (r: Option<int>)
      requires Valid()
      reads this, snake
      ensures r.Some? <==> !HasNotStarted()
      ensures r.Some? ==> r.value == |snake.body| + snake.piecesToAdd
    {
      if snake == null then None else Some(snake.GetLength())
    }

    /** The failure test of update: the head hits the body, leaves the bounds or hits one of `ws`. */
    predicate Crashed(ws: seq<Point>)
      requires snake != null && snake.Valid()
      reads this, snake
    {
      || snake.HeadIntersectsSelf()
      || snake.HeadIsOutOfBounds(width, height)
      || snake.HeadIntersectsAnyItem(ws, WALL_SIZE_DP * dpToPxFactor)
    }

    /**
     * randomPoint(size): a point that is not within `2 * size` (plus a body
     * piece) of any segment of the snake.
     */
    method RandomPoint(size: real) returns (pt: Point)
      requires snake != null && snake.Valid()
      ensures !snake.BodyIntersectsItem(pt, 2.0 * size)
    {
      ClearPointExists(snake.body, BODY_PIECE_SIZE_DP * snake.dpToPxFactor + 2.0 * size);
      pt :| !snake.BodyIntersectsItem(pt, 2.0 * size);
    }

    /** moveFood: the food goes to a new random point clear of the snake. */
    method MoveFood()
      requires snake != null && snake.Valid()
      modifies this`food
      ensures !snake.BodyIntersectsItem(food, 2.0 * FOOD_SIZE_DP * dpToPxFactor)
    {
      food := RandomPoint(FOOD_SIZE_DP * dpToPxFactor);
    }

    /** addWall: one new wall, at a random point clear of the snake, is appended. */
    method AddWall()
      requires snake != null && snake.Valid()
      modifies this`walls
      ensures |walls| == |old(walls)| + 1 && walls[..|old(walls)|] == old(walls)
      ensures !snake.BodyIntersectsItem(walls[|old(walls)|], 2.0 * WALL_SIZE_DP * dpToPxFactor)
    {
      var w := RandomPoint(WALL_SIZE_DP * dpToPxFactor);
      walls := walls + [w];
      assert walls[..|old(walls)|] == old(walls);
    }

    /**
     * startGame: a new snake of one point at the centre, with the starting
     * length pending; speed and score reset, no walls, food placed, running.
     */
    method StartGame(width: int, height: int)
      requires Valid()
      modifies this
      ensures Valid() && !gameOver && !HasNotStarted()
      ensures this.width == width && this.height == height
      ensures fresh(snake) && snake.dpToPxFactor == dpToPxFactor
      ensures snake.body == [Point(width as real / 2.0, height as real / 2.0)]
      ensures snake.piecesToAdd == startingLength
      ensures GetCurrentLength() == Some(startingLength + 1)
      ensures score == 0 && speed == initialSpeed && walls == []
      ensures !snake.BodyIntersectsItem(food, 2.0 * FOOD_SIZE_DP * dpToPxFactor)
      ensures Knobs() == old(Knobs())
    {
      this.width := width;
      this.height := height;
      snake := new Snake(Point(width as real / 2.0, height as real / 2.0), dpToPxFactor, startingLength);
      speed := initialSpeed;
      score := 0;
      walls := [];
      MoveFood();
      gameOver := false;
    }

    /**
     * update: one frame. The snake takes `steps` whole steps along
     * `stepVec` (what `move` derives from the direction and the speed);
     * a crash ends the game; eating grows the snake, speeds it up, moves the
     * food and scores; sometimes a wall is added. Returns whether the game
     * goes on.
     */
    method Update(steps: nat, stepVec: Point) returns (r: bool)
      requires Valid()
      modifies this, snake
      ensures Valid() && snake == old(snake) && Knobs() == old(Knobs())
      ensures width == old(width) && height == old(height)
      ensures r <==> !gameOver
      // a finished game ignores the frame
      ensures old(gameOver) ==> !r && unchanged(this) && (snake != null ==> unchanged(snake))
      // the snake has moved
      ensures !old(gameOver) ==> snake.body == Steps(steps, old(snake.State()), stepVec).body
      // a crash ends the game and changes nothing else
      ensures !old(gameOver) ==> (!r <==> Crashed(old(walls)))
      ensures !old(gameOver) && !r ==>
        && snake.State() == Steps(steps, old(snake.State()), stepVec)
        && score == old(score) && speed == old(speed) && food == old(food) && walls == old(walls)
      // eating
      ensures r && snake.HeadIntersectsItem(old(food), FOOD_SIZE_DP * dpToPxFactor) ==>
        && score == old(score) + 1
        && speed == old(speed) + speedIncreasePerFood
        && snake.piecesToAdd == Steps(steps, old(snake.State()), stepVec).piecesToAdd + lengthIncreasePerFood
        && snake.GetLength() == old(snake.GetLength()) + lengthIncreasePerFood
        && !snake.BodyIntersectsItem(food, 2.0 * FOOD_SIZE_DP * dpToPxFactor)
      ensures r && !snake.HeadIntersectsItem(old(food), FOOD_SIZE_DP * dpToPxFactor) ==>
        && score == old(score) && speed == old(speed) && food == old(food)
        && snake.State() == Steps(steps, old(snake.State()), stepVec)
      // at most one new wall, clear of the snake
      ensures walls == old(walls)
        || (&& r && |walls| == |old(walls)| + 1 && walls[..|old(walls)|] == old(walls)
            && !snake.BodyIntersectsItem(walls[|old(walls)|], 2.0 * WALL_SIZE_DP * dpToPxFactor))
      ensures old(score) <= score <= old(score) + 1
      // a game that goes on leaves the head clear of every wall
      ensures r && dpToPxFactor >= 0.0 && snake.dpToPxFactor >= 0.0 ==> !snake.HeadIntersectsAnyItem(walls, WALL_SIZE_DP * dpToPxFactor)
    {
      if gameOver {
        return false;
      }

      snake.Move(steps, stepVec);

      if snake.HeadIntersectsSelf() || snake.HeadIsOutOfBounds(width, height)
         || snake.HeadIntersectsAnyItem(walls, WALL_SIZE_DP * dpToPxFactor) {
        gameOver := true;
        return false;
      }

      EatIfReached();
      MaybeAddWall();
      return true;
    }

    /** The food check of update: on reaching the food the snake grows, speeds up and scores, and the food moves. */
    method EatIfReached()
      requires snake != null && snake.Valid()
      modifies this, snake
      ensures snake == old(snake) && snake.Valid() && snake.body == old(snake.body)
      ensures Knobs() == old(Knobs()) && width == old(width) && height == old(height)
      ensures gameOver == old(gameOver) && walls == old(walls)
      ensures old(snake.HeadIntersectsItem(food, FOOD_SIZE_DP * dpToPxFactor)) ==>
        && score == old(score) + 1
        && speed == old(speed) + speedIncreasePerFood
        && snake.piecesToAdd == old(snake.piecesToAdd) + lengthIncreasePerFood
        && !snake.BodyIntersectsItem(food, 2.0 * FOOD_SIZE_DP * dpToPxFactor)
      ensures !old(snake.HeadIntersectsItem(food, FOOD_SIZE_DP * dpToPxFactor)) ==>
        score == old(score) && speed == old(speed) && food == old(food)
        && snake.piecesToAdd == old(snake.piecesToAdd)
    {
      if snake.HeadIntersectsItem(food, FOOD_SIZE_DP * dpToPxFactor) {
        snake.IncreaseLength(lengthIncreasePerFood);
        speed := speed + speedIncreasePerFood;
        MoveFood();
        score := score + 1;
      }
    }

    /** The wall check of update: when the roll falls below the placement probability, one wall is added. */
    method MaybeAddWall()
      requires snake != null && snake.Valid()
      modifies this`walls
      ensures walls == old(walls)
        || (&& |walls| == |old(walls)| + 1 && walls[..|old(walls)|] == old(walls)
            && !snake.BodyIntersectsItem(walls[|old(walls)|], 2.0 * WALL_SIZE_DP * dpToPxFactor))
      ensures wallPlacementProbability <= 0.0 ==> walls == old(walls)
      ensures wallPlacementProbability >= 1.0 ==> |walls| == |old(walls)| + 1
      ensures dpToPxFactor >= 0.0 && snake.dpToPxFactor >= 0.0 && !old(snake.HeadIntersectsAnyItem(walls, WALL_SIZE_DP * dpToPxFactor))
        ==> !snake.HeadIntersectsAnyItem(walls, WALL_SIZE_DP * dpToPxFactor)
    {
      var roll: real :| 0.0 <= roll < 1.0;
      if roll < wallPlacementProbability {
        AddWall();
        if dpToPxFactor >= 0.0 && snake.dpToPxFactor >= 0.0
           && !snake.HeadIntersectsAnyItem(old(walls), WALL_SIZE_DP * dpToPxFactor) {
          NewWallMissesHead(snake, old(walls), walls[|old(walls)|], dpToPxFactor);
          assert walls == old(walls) + [walls[|old(walls)|]];
        }
      }
    }

    /**
     * touched(pt): a tap on the snake ends the game; otherwise a tap near
     * the food moves it and every wall near the tap is removed. Returns
     * whether the game goes on.
     */
    method Touched(pt: Point) returns (r: bool)
      requires Valid()
      modifies this
      ensures Valid() && snake == old(snake) && Knobs() == old(Knobs())
      ensures width == old(width) && height == old(height)
      ensures score == old(score) && speed == old(speed)
      ensures r <==> !gameOver
      ensures old(gameOver) ==> !r && unchanged(this)
      ensures !old(gameOver) && snake.BodyIntersectsItem(pt, TOUCH_SIZE_DP) ==>
        !r && food == old(food) && walls == old(walls)
      ensures !old(gameOver) && !snake.BodyIntersectsItem(pt, TOUCH_SIZE_DP) ==>
        && r
        && walls == RemoveWithin(old(walls), pt, (WALL_SIZE_DP + TOUCH_SIZE_DP) * dpToPxFactor)
        && (if WithinRange(pt, old(food), (FOOD_SIZE_DP + TOUCH_SIZE_DP) * dpToPxFactor)
            then !snake.BodyIntersectsItem(food, 2.0 * FOOD_SIZE_DP * dpToPxFactor)
            else food == old(food))
    {
      if gameOver {
        return false;
      }

      if snake.BodyIntersectsItem(pt, TOUCH_SIZE_DP) {
        gameOver := true;
        return false;
      }

      if WithinRange(pt, food, (FOOD_SIZE_DP + TOUCH_SIZE_DP) * dpToPxFactor) {
        MoveFood();
      }

      var dist := (WALL_SIZE_DP + TOUCH_SIZE_DP) * dpToPxFactor;
      walls := RemoveWithin(walls, pt, dist);
      return true;
    }
  }

  /**
   * A wall placed clear of the body (beyond twice its radius) is out of the
   * head's crash range (its radius), when sizes are not negative. The snake
   * keeps the dp factor it was built with, which may differ from the game's.
   */
  lemma NewWallMissesHead(s: Snake, ws: seq<Point>, w: Point, factor: real)
    requires s.Valid() && factor >= 0.0 && s.dpToPxFactor >= 0.0
    requires !s.HeadIntersectsAnyItem(ws, WALL_SIZE_DP * factor)
    requires !s.BodyIntersectsItem(w, 2.0 * WALL_SIZE_DP * factor)
    ensures !s.HeadIntersectsAnyItem(ws + [w], WALL_SIZE_DP * factor)
  {
    var near := BODY_PIECE_SIZE_DP * s.dpToPxFactor + WALL_SIZE_DP * factor;
    var far := BODY_PIECE_SIZE_DP * s.dpToPxFactor + 2.0 * WALL_SIZE_DP * factor;
    AnyWithinRangeAppend(ws, [w], s.body[0], near);
    HeadHitIsBodyHit(s, w, 2.0 * WALL_SIZE_DP * factor);
    WithinRangeSymmetric(w, s.body[0], far);
    WithinRangeGrow(w, s.body[0], near, far);
    assert !WithinRange(w, s.body[0], near);
  }

  /** Terminal stability: once update has reported the end of the game, the next frame reports it too (Update states that it is a no-op). */
  method GameOverIsFinal(g: SnakeGame, steps1: nat, v1: Point, steps2: nat, v2: Point)
    returns (first: bool, second: bool)
    requires g.Valid()
    modifies g, g.snake
    ensures !first ==> !second && g.gameOver
  {
    first := g.Update(steps1, v1);
    second := first;
    if !first {
      second := g.Update(steps2, v2);
    }
  }
}
