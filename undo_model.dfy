/** The undo snapshot (Classes/models/UndoModel.h). */
module UndoModels {
  import opened GameConsts
  import opened Positions

  /**
   * What one accepted action changed, taken before the change: the moved card's id, position,
   * state and z-index, and the id of the card that was the top card. The five-argument C++
   * constructor is the datatype constructor.
   */
  datatype UndoCommand = UndoCommand(
    cardId: int,
    fromPos: Pos,
    prevTopCardId: int,
    prevState: CardState,
    prevZIndex: int)

  /** The default-constructed command; popping an empty history yields it as a sentinel. */
  const DefaultCommand: UndoCommand := UndoCommand(-1, Zero, -1, FaceDown, 0)
}
