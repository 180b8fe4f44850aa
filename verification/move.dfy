/** Relative moves the agent returns and absolute directions the snake faces. */
module Moves {

  /** A move as seen from the snake's own facing. */
  datatype Move = Left | Straight | Right

  /** The compass direction the snake is facing. */
  datatype Direction = North | South | East | West
}
