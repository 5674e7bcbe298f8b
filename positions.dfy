/**
 * Card positions. The source uses cocos2d::Vec2 (two floats compared with Vec2::equals);
 * here a position is a pair of integers compared exactly.
 */
module Positions {
  datatype Pos = Pos(x: int, y: int)

  /** Vec2::ZERO, also the default value of a Vec2. */
  const Zero: Pos := Pos(0, 0)

  /** Vec2 addition. */
  function Add(a: Pos, b: Pos): Pos {
    Pos(a.x + b.x, a.y + b.y)
  }
}
