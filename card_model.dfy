/**
 * One card's runtime data (Classes/models/CardModel.h). The C++ getters are the fields
 * themselves; the only writers are Init and the three setters, and each setter's frame is
 * the one field it writes.
 */
module CardModels {
  import opened GameConsts
  import opened Positions

  /** The value of every field of a CardModel at one moment. */
  datatype CardRecord = CardRecord(
    id: int,
    face: CardFaceType,
    suit: CardSuitType,
    position: Pos,
    origin: Pos,
    state: CardState,
    zIndex: int)

  class CardModel {
    var id: int
    var face: CardFaceType
    var suit: CardSuitType
    var position: Pos
    /** _originPosition: where the level placed the card; it classifies reserve against board. */
    var origin: Pos
    var state: CardState
    var zIndex: int

    function Value(): CardRecord
      reads this
    {
      CardRecord(id, face, suit, position, origin, state, zIndex)
    }

    /** The default constructor; the two positions take Vec2's default, the origin point. */
    constructor ()
      ensures Value() == CardRecord(-1, FaceNone, SuitNone, Zero, Zero, FaceDown, 0)
    {
      id := -1;
      face := FaceNone;
      suit := SuitNone;
      position := Zero;
      origin := Zero;
      state := FaceDown;
      zIndex := 0;
    }

    /** Sets identity, face, suit, both positions and the state; the z-index keeps its value. */
    method Init(id: int, face: CardFaceType, suit: CardSuitType, pos: Pos)
      modifies this
      ensures Value() == CardRecord(id, face, suit, pos, pos, FaceDown, old(zIndex))
    {
      this.id := id;
      this.face := face;
      this.suit := suit;
      this.position := pos;
      this.origin := pos;
      this.state := FaceDown;
    }

    method SetPosition(pos: Pos)
      modifies `position
      ensures position == pos
    {
      position := pos;
    }

    method SetState(state: CardState)
      modifies `state
      ensures this.state == state
    {
      this.state := state;
    }

    method SetZIndex(z: int)
      modifies `zIndex
      ensures zIndex == z
    {
      zIndex := z;
    }
  }
}
