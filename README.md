# Gravity Snake: a verified model of the game core

This Dafny project models the simulation core of the Android game Gravity
Snake (package `edu.moravian.csci299.gravitysnake`). It covers four parts.

- **The snake** (`Snake.java`, module `SnakeBody`, file `Snake.dfy`). The
  body is a list of points with the head at index 0. `piecesToAdd` counts
  growth that has been requested but not yet placed. `move` advances in
  whole steps: each step prepends a new head one step vector ahead and
  then either drops the tail or uses up one pending piece. The movement
  is specified on values: `Chain` holds the body and the pending count,
  `Step` is one loop iteration and `Steps` is `n` of them. The class
  `Snake` keeps `body`, `piecesToAdd` and `dpToPxFactor`, and its `Move`
  loop is proved to produce exactly `Steps`. The proximity queries are predicates over the body.
- **The game** (`SnakeGame.java`, module `Game`, file `SnakeGame.dfy`).
  The class `SnakeGame` holds `gameOver`, `score`, `speed`, `food`,
  `walls`, the snake and the difficulty settings. It has three
  transitions:
  - `StartGame` resets the game;
  - `Update` runs one frame: move, crash test, food, possibly a new wall;
  - `Touched` handles one tap: a hit on the body ends the game, a tap
    near the food moves it, and walls near the tap are removed.
- **The range test** (`Util.java`, module `Util`, file `Util.dfy`).
  `WithinRange` is a strict squared-distance comparison between points
  whose coordinates are reals.
- **The level table** (`GameModel.java`, module `Levels`, file
  `GameModel.dfy`). It holds the current level and an array of 5 high
  scores. Each level argument is bounds-checked first. The Java exception
  becomes the `Fail`/`Failure` value of an `Outcome`/`Result` (module
  `Wrappers`).

Randomness is modelled as an oracle. `random.nextFloat()` is any real in
`[0, 1)`. `randomPoint(size)` returns any point that is not within a body
piece plus `2 * size` of a body segment. That is the only test the
rejection loop at `SnakeGame.java:272` makes; the sampling rectangle is
not stated (see "## Left out"). The model proves that such a point always
exists.

Notes on what the Java code does:
- `touched` moves the food when the tap is near it, and then removes the
  walls near the tap in every case (`SnakeGame.java:244-250`).
- `randomPoint` is documented as returning a point that is not near the
  snake head (`SnakeGame.java:262-263`). The code keeps the point clear of
  every body segment, by a body piece plus `2 * size`
  (`SnakeGame.java:272`).
- The body hit test in `touched` passes `TOUCH_SIZE_DP` without scaling it
  by the dp factor (`SnakeGame.java:238`).
- `update` and `touched` before the first game simply return false,
  because `gameOver` starts true (`SnakeGame.java:37, 201, 235`).
- The game view calls `startGame` before `setDpToPxFactor`
  (`SnakeGameView.java:125-126`). The snake therefore keeps the factor it
  was built with, and the game's factor may differ from it later. The
  model keeps the two factors separate.

## Model

| member | source | states |
|---|---|---|
| `Util.WithinRange` | app/src/main/java/edu/moravian/csci299/gravitysnake/Util.java:19-23 | the squared distance between the two points is strictly below the squared range |
| `Util.Offset` | app/src/main/java/edu/moravian/csci299/gravitysnake/Snake.java:93-94 | the copied head moved by the step vector, coordinate by coordinate |
| `Util.WithinRangeSymmetric` | app/src/main/java/edu/moravian/csci299/gravitysnake/Util.java:19-23 | the range test gives the same answer with its two points swapped |
| `Util.WithinRangeSignOfRange` | app/src/main/java/edu/moravian/csci299/gravitysnake/Util.java:22 | only the magnitude of the range matters, because it is squared |
| `Util.WithinRangeZero` | app/src/main/java/edu/moravian/csci299/gravitysnake/Util.java:22 | nothing is within range 0 |
| `Util.WithinRangeSelf` | app/src/main/java/edu/moravian/csci299/gravitysnake/Util.java:22 | a point is within range of itself exactly when the range is non-zero |
| `Util.WithinRangeStrict` | app/src/main/java/edu/moravian/csci299/gravitysnake/Util.java:22 | the comparison is strict: a point exactly `range` away along an axis is not in range |
| `Util.WithinRangeMonotone` | app/src/main/java/edu/moravian/csci299/gravitysnake/Util.java:22 | if the test holds for `r1` and `r1*r1 <= r2*r2`, it holds for `r2` |
| `Util.WithinRangeGrow` | app/src/main/java/edu/moravian/csci299/gravitysnake/Util.java:22 | for non-negative ranges `r1 <= r2`, being in range of `r1` implies being in range of `r2` |
| `SnakeBody.Snake.constructor` | app/src/main/java/edu/moravian/csci299/gravitysnake/Snake.java:55-64 | the new body is exactly `[initial]`, `startingLength` pieces are pending, and `getLength() == 1 + startingLength` |
| `SnakeBody.Snake.GetLength` | app/src/main/java/edu/moravian/csci299/gravitysnake/Snake.java:64 | the number of body points plus the pieces still to add |
| `SnakeBody.Step` | app/src/main/java/edu/moravian/csci299/gravitysnake/Snake.java:93-102 | one step keeps the body non-empty and the total length unchanged; the new head is the old head plus the step vector; behind it is the old body, minus its tail when nothing was pending |
| `SnakeBody.Steps` | app/src/main/java/edu/moravian/csci299/gravitysnake/Snake.java:88-103 | any number of steps keeps the body non-empty and `getLength()` unchanged |
| `SnakeBody.StepsShape` | app/src/main/java/edu/moravian/csci299/gravitysnake/Snake.java:88-103 | after `n` steps the body has grown by exactly the pieces placed (`min(n, pending)`, or `n` when the count is negative), the count has dropped by the same amount, and the body is the `n` new heads followed by the old body, cut to the new size |
| `SnakeBody.NoGrowthConservation` | app/src/main/java/edu/moravian/csci299/gravitysnake/Snake.java:98-99 | with nothing pending, any number of steps keeps the body size and leaves nothing pending |
| `SnakeBody.GrowthRealized` | app/src/main/java/edu/moravian/csci299/gravitysnake/Snake.java:98-102 | with `k >= 0` pieces pending, `n >= k` steps add exactly `k` segments and leave nothing pending |
| `SnakeBody.GrowthPerStep` | app/src/main/java/edu/moravian/csci299/gravitysnake/Snake.java:95-102 | growth is lazy, one piece per step: while pieces remain pending, the whole old body is kept behind the new heads |
| `SnakeBody.OldBodySurvives` | app/src/main/java/edu/moravian/csci299/gravitysnake/Snake.java:93-102 | the old body, minus the tail pieces dropped, is a suffix of the new body, behind the `n` new heads |
| `SnakeBody.AdvancedIsScaled` | app/src/main/java/edu/moravian/csci299/gravitysnake/Snake.java:93-95 | the head placed by the `k`-th step lies `k` step vectors from the starting head |
| `SnakeBody.Snake.Move` | app/src/main/java/edu/moravian/csci299/gravitysnake/Snake.java:76-103 | the loop leaves the snake in exactly the state that `n` steps produce; the body stays non-empty and `getLength()` is unchanged |
| `SnakeBody.Snake.IncreaseLength` | app/src/main/java/edu/moravian/csci299/gravitysnake/Snake.java:117 | the pending count and `getLength()` rise by exactly `amount`; the body is untouched |
| `SnakeBody.AnyWithinRange` | app/src/main/java/edu/moravian/csci299/gravitysnake/Snake.java:183-188 | some point of the list, scanned from the front, is within range of the point; false for an empty list |
| `SnakeBody.AnyWithinRangeAfter` | app/src/main/java/edu/moravian/csci299/gravitysnake/Snake.java:195-200 | the same scan over the list with its first `skip` points dropped; false when `skip` reaches past the end |
| `SnakeBody.AnyWithinRangeIff` | app/src/main/java/edu/moravian/csci299/gravitysnake/Snake.java:183-188 | the scan reports a hit exactly when some element of the list is within range of the point |
| `SnakeBody.AnyWithinRangeAfterIff` | app/src/main/java/edu/moravian/csci299/gravitysnake/Snake.java:195-200 | after skipping `skip` elements, a hit exactly when some element at index `skip` or beyond is in range; never a hit when the list has at most `skip` elements |
| `SnakeBody.AnyWithinRangeAppend` | app/src/main/java/edu/moravian/csci299/gravitysnake/Snake.java:183-188 | scanning a concatenation finds a hit exactly when one of the two parts does |
| `SnakeBody.Snake.HeadIntersectsSelf` | app/src/main/java/edu/moravian/csci299/gravitysnake/Snake.java:127-130 | some body point after the first 20 lies within half a body piece of the head |
| `SnakeBody.Snake.HeadIntersectsItem` | app/src/main/java/edu/moravian/csci299/gravitysnake/Snake.java:138-140 | the head is within a body piece plus `radius` of the location |
| `SnakeBody.Snake.HeadIntersectsAnyItem` | app/src/main/java/edu/moravian/csci299/gravitysnake/Snake.java:148-150 | the head is within a body piece plus `radius` of some location in the list |
| `SnakeBody.Snake.HeadIsOutOfBounds` | app/src/main/java/edu/moravian/csci299/gravitysnake/Snake.java:160-162 | the centre of the head has `x < 0`, `y < 0`, `x >= width` or `y >= height` |
| `SnakeBody.Snake.BodyIntersectsItem` | app/src/main/java/edu/moravian/csci299/gravitysnake/Snake.java:175-177 | some body point, head included, is within a body piece plus `radius` of the location |
| `SnakeBody.ShortSnakeNeverHitsSelf` | app/src/main/java/edu/moravian/csci299/gravitysnake/Snake.java:127-130 | the first 20 segments are ignored, so a body of at most 20 points never hits itself |
| `SnakeBody.HeadIntersectsSelfIff` | app/src/main/java/edu/moravian/csci299/gravitysnake/Snake.java:127-130 | self-collision holds exactly when some segment at index 20 or beyond is within half a body piece of the head |
| `SnakeBody.HeadHitIsBodyHit` | app/src/main/java/edu/moravian/csci299/gravitysnake/Snake.java:138-177 | the head is element 0 and both tests use the same range, so `headIntersectsItem` implies `bodyIntersectsItem` |
| `SnakeBody.HeadIntersectsAnyItemIff` | app/src/main/java/edu/moravian/csci299/gravitysnake/Snake.java:148-150 | the head hits a list of items exactly when one of them is within a body piece plus `radius` of the head |
| `SnakeBody.BodyIntersectsItemIff` | app/src/main/java/edu/moravian/csci299/gravitysnake/Snake.java:175-177 | a body hit is exactly a hit on some segment, the head included |
| `SnakeBody.BoundsAreHalfOpen` | app/src/main/java/edu/moravian/csci299/gravitysnake/Snake.java:160-162 | out of bounds exactly when the head's centre is outside `[0,width) x [0,height)`; `x = width` is out, while `x = 0` and `x = width - 1` are in |
| `SnakeBody.ClearPointExists` | app/src/main/java/edu/moravian/csci299/gravitysnake/SnakeGame.java:266-274 | for any body and any range there is a point out of range of every segment, so the oracle's choice always exists |
| `Game.RemoveWithin` | app/src/main/java/edu/moravian/csci299/gravitysnake/SnakeGame.java:249-250 | `removeIf` keeps exactly the walls that are not within `dist` of the tap, and never adds any |
| `Game.RemoveWithinAppend` | app/src/main/java/edu/moravian/csci299/gravitysnake/SnakeGame.java:250 | filtering keeps the original order: filtering `a + b` gives the filtered `a` followed by the filtered `b` |
| `Game.RemoveWithinCounts` | app/src/main/java/edu/moravian/csci299/gravitysnake/SnakeGame.java:250 | a wall out of range is kept as many times as it occurred, and a wall in range is removed entirely |
| `Game.RemoveWithinNoneNear` | app/src/main/java/edu/moravian/csci299/gravitysnake/SnakeGame.java:250 | a tap with no wall in range leaves the wall list unchanged |
| `Game.SnakeGame.constructor` | app/src/main/java/edu/moravian/csci299/gravitysnake/SnakeGame.java:36-76 | before any game, `gameOver` is true, there is no snake (`hasNotStarted`), the score is 0 and there are no walls; the difficulty defaults are those of the Java code |
| `Game.SnakeGame.GetCurrentLength` | app/src/main/java/edu/moravian/csci299/gravitysnake/SnakeGame.java:143 | the snake's length including pending pieces, available exactly when a game has started |
| `Game.SnakeGame.HasNotStarted` | app/src/main/java/edu/moravian/csci299/gravitysnake/SnakeGame.java:81 | no game has been started, which is exactly when there is no snake yet |
| `Game.SnakeGame.Crashed` | app/src/main/java/edu/moravian/csci299/gravitysnake/SnakeGame.java:207-208 | the head hits the body, the head leaves the bounds, or the head is within a body piece plus a wall radius of some wall |
| `Game.SnakeGame.RandomPoint` | app/src/main/java/edu/moravian/csci299/gravitysnake/SnakeGame.java:266-274 | the point returned is not within a body piece plus `2 * size` of any body segment |
| `Game.SnakeGame.MoveFood` | app/src/main/java/edu/moravian/csci299/gravitysnake/SnakeGame.java:256 | the new food lies clear of the snake's body; nothing else changes |
| `Game.SnakeGame.AddWall` | app/src/main/java/edu/moravian/csci299/gravitysnake/SnakeGame.java:259 | exactly one wall is appended, clear of the snake's body; the old walls stay in place |
| `Game.SnakeGame.StartGame` | app/src/main/java/edu/moravian/csci299/gravitysnake/SnakeGame.java:102-111 | a fresh snake with the one point at the centre, built with the game's dp factor; `score == 0`, `speed == initialSpeed`, no walls, food clear of the body, `gameOver == false`, `getCurrentLength() == startingLength + 1`; the settings are unchanged |
| `Game.SnakeGame.Update` | app/src/main/java/edu/moravian/csci299/gravitysnake/SnakeGame.java:200-225 | a finished game ignores the frame. Otherwise the snake moves, and the result is false exactly when the moved head hits the body, leaves the bounds or hits a wall; a crash leaves score, speed, food and walls unchanged. Eating raises the score by 1, the speed by `speedIncreasePerFood` and the length by `lengthIncreasePerFood`, and moves the food clear of the body. The result is true iff `gameOver` is false; the score rises by 0 or 1; at most one wall is appended, clear of the body; when both dp factors are non-negative, a game that goes on leaves the head clear of every wall |
| `Game.SnakeGame.EatIfReached` | app/src/main/java/edu/moravian/csci299/gravitysnake/SnakeGame.java:214-219 | if the head reaches the food, the score rises by 1, the speed and the pending pieces rise by their increments, and the food moves clear of the body; otherwise nothing changes |
| `Game.SnakeGame.MaybeAddWall` | app/src/main/java/edu/moravian/csci299/gravitysnake/SnakeGame.java:222 | either the walls are unchanged, or one wall clear of the body is appended; with probability at most 0 no wall is added, with probability at least 1 one always is; when both dp factors are non-negative, a head clear of the walls stays clear |
| `Game.NewWallMissesHead` | app/src/main/java/edu/moravian/csci299/gravitysnake/SnakeGame.java:207-222 | a wall placed clear of the body cannot be within wall range of the head, when the dp factors are non-negative |
| `Game.SnakeGame.Touched` | app/src/main/java/edu/moravian/csci299/gravitysnake/SnakeGame.java:234-253 | a finished game ignores the tap. A tap on the body ends the game with food and walls unchanged. Otherwise the result is true, the walls left are exactly the old walls outside `(WALL+TOUCH)*factor` of the tap in their order, the food moves clear of the body when the tap is near it, and the score and speed are unchanged |
| `Game.GameOverIsFinal` | app/src/main/java/edu/moravian/csci299/gravitysnake/SnakeGame.java:200-201 | once `update` has returned false, the next `update` returns false too and the game stays over |
| `Levels.GameModel.constructor` | app/src/main/java/edu/moravian/csci299/gravitysnake/GameModel.java:11-14 | the score table has exactly `NUM_LEVELS == 5` slots, all 0, and level 0 is selected |
| `Levels.GameModel.GetCurrentLevel` | app/src/main/java/edu/moravian/csci299/gravitysnake/GameModel.java:20-23 | the selected level |
| `Levels.GameModel.CheckIfIndexIsInBounds` | app/src/main/java/edu/moravian/csci299/gravitysnake/GameModel.java:62-66 | passes exactly for `0 <= level < 5`; otherwise fails with that level |
| `Levels.GameModel.SetCurrentLevel` | app/src/main/java/edu/moravian/csci299/gravitysnake/GameModel.java:29-33 | fails exactly for an out-of-range level and then leaves `currentLevel` unchanged; otherwise `getCurrentLevel() == value` |
| `Levels.GameModel.GetHighScore` | app/src/main/java/edu/moravian/csci299/gravitysnake/GameModel.java:40-44 | fails exactly for an out-of-range level; otherwise returns that level's slot |
| `Levels.GameModel.SetHighScore` | app/src/main/java/edu/moravian/csci299/gravitysnake/GameModel.java:51-55 | fails exactly for an out-of-range level and then leaves every slot unchanged; otherwise `getHighScore(level) == value` and every other level's score is unchanged |

## Left out

- The trigonometry in `Snake.move` is not modelled: the accumulation of `distXToTravel`/`distYToTravel`, `hypot`, `atan2`, `cos` and `sin`. The step count and the step vector are parameters instead. Nothing is stated about the residual travel. Lines 106-107 recompute both residual components with `Math.cos`, which looks like a defect.
- `Game.SnakeGame.Update`: takes the step count and step vector as parameters, so it does not state that the snake travels `speed * dpToPxFactor` in the current direction.
- `Game.SnakeGame.RandomPoint`: does not state that the point lies in the sampling rectangle `[size, width - size) x [size, height - size)`. With that constraint a valid point need not exist, and the Java loop then runs forever.
- `Game.SnakeGame.MaybeAddWall`: the roll is any value in `[0, 1)`. Only the edge cases (probability at most 0 or at least 1) are stated; the probability of placing a wall in between is not modelled.
- Floating point is not modelled. `float` and `double` coordinates, ranges and speeds are exact reals, and the `(float)` casts of the step vector are not represented.
- Java's 32-bit `int` wrap-around is not modelled for `piecesToAdd`, `score`, the settings or the stored high scores. These are unbounded integers.
- The movement direction (`setMovementDirection`/`getMovementDirection`) is not modelled, because it only feeds the trigonometry above.
- Plain getters and setters of the settings (`setInitialSpeed`, `setStartingLength`, `setDpToPxFactor`, ...) are left out. So are `getScore`, `isGameOver` and the read-only list views (`getBody`, `getSnakeBodyLocations`, `getWallLocations`, `getFoodLocation`). The model's fields are readable directly.
- Before the first game the Java `food` is null. The model holds an arbitrary point there, which nothing reads until a game has started.
- `SnakeGameView.java` (drawing, sensor-to-angle conversion, driving `update` from `onDraw`, finishing the activity) is not part of this model.
- `StartActivity.java` (high-score persistence, audio, widgets) is not part of this model.
- `GameActivity.java` (sensors, fullscreen, timeouts) is not part of this model.
