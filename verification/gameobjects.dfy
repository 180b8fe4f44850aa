/** The kinds of object a board cell can hold. */
module GameObjects {

  datatype GameObject = Empty | Food | Wall | SnakeHead | SnakeBody
}
