/**
 * GameModel.java: the selected level and a high score per level, kept in a
 * fixed array of NUM_LEVELS slots. Every accessor that takes a level checks
 * it first and throws IndexOutOfBoundsException when it is out of range;
 * here the exception is the Fail/Failure value of the result.
 */
module Levels {
  import opened Wrappers

  /** The IndexOutOfBoundsException thrown for a level outside [0, NUM_LEVELS). */
  datatype LevelError = IndexOutOfBounds(level: int)

  class GameModel {
    const NUM_LEVELS: int := 5

    /** The selected level. */
    var currentLevel: int

    /** The high score of each level. */
    const scores: array<int>

    /** The score table always has exactly NUM_LEVELS slots. */
    ghost predicate Valid()
      reads this
    {
      scores.Length == NUM_LEVELS
    }

    /** Level 0 selected, every high score 0. */
    constructor ()
      ensures Valid() && fresh(scores)
      ensures currentLevel == 0
      ensures forall i :: 0 <= i < scores.Length ==> scores[i] == 0
    {
      currentLevel := 0;
      scores := new int[5](_ => 0);
    }

    /** getCurrentLevel */
    function GetCurrentLevel(): int
      reads this
    {
      currentLevel
    }

    /** checkIfIndexIsInBounds: passes exactly for 0 <= level < NUM_LEVELS, otherwise reports that level. */
    function CheckIfIndexIsInBounds(level: int): (r: Outcome<LevelError>)
      ensures r.Pass? <==> 0 <= level < NUM_LEVELS
      ensures r.Fail? ==> r.error == IndexOutOfBounds(level)
    {
      if level >= NUM_LEVELS || level < 0 then Fail(IndexOutOfBounds(level)) else Pass
    }

    /** setCurrentLevel: a valid level becomes the current one; an invalid one fails before anything changes. */
    method SetCurrentLevel(value: int) returns (r: Outcome<LevelError>)
      modifies this
      ensures r == CheckIfIndexIsInBounds(value)
      ensures r.Pass? ==> GetCurrentLevel() == value
      ensures r.Fail? ==> currentLevel == old(currentLevel)
    {
      r := CheckIfIndexIsInBounds(value);
      if r.Fail? {
        return;
      }
      currentLevel := value;
    }

    /** getHighScore: the slot of a valid level; an invalid level fails. */
    function GetHighScore(level: int): (r: Result<int, LevelError>)
      requires Valid()
      reads this, scores
      ensures r.Success? <==> CheckIfIndexIsInBounds(level).Pass?
      ensures r.Failure? ==> r.error == IndexOutOfBounds(level)
      ensures r.Success? ==> r.value == scores[level]
    {
      match CheckIfIndexIsInBounds(level)
      case Fail(e) => Failure(e)
      case Pass => Success(scores[level])
    }

    /** setHighScore: a valid level's slot takes the value and no other slot changes; an invalid level fails and changes nothing. */
    method SetHighScore(level: int, value: int) returns (r: Outcome<LevelError>)
      requires Valid()
      modifies scores
      ensures Valid()
      ensures r == CheckIfIndexIsInBounds(level)
      ensures r.Pass? ==> GetHighScore(level) == Success(value)
      ensures forall l :: l != level ==> GetHighScore(l) == old(GetHighScore(l))
      ensures r.Fail? ==> scores[..] == old(scores[..])
    {
      r := CheckIfIndexIsInBounds(level);
      if r.Fail? {
        return;
      }
      scores[level] := value;
    }
  }
}
