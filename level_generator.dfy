/**
 * Building the card pool from a level configuration
 * (Classes/services/GameModelFromLevelGenerator.cpp, Classes/configs/models/LevelConfig.h).
 * Reading the configuration from a file is not part of this model: it starts from the two lists.
 */
module LevelGenerator {
  import opened Wrappers
  import opened GameConsts
  import opened Positions
  import opened CardModels
  import opened GameModels
  import opened UndoModels

  datatype CardConfigData = CardConfigData(face: CardFaceType, suit: CardSuitType, position: Pos)

  datatype LevelConfig = LevelConfig(playFieldCards: seq<CardConfigData>, stackCards: seq<CardConfigData>)

  /** The record of a freshly generated card: both positions from the entry, z-index 0. */
  function NewCard(id: int, data: CardConfigData, state: CardState): CardRecord {
    CardRecord(id, data.face, data.suit, data.position, data.position, state, 0)
  }

  /** The pool the generator builds: board cards face up, then reserve cards face down, numbered in order. */
  function GeneratedCards(config: LevelConfig): (r: seq<CardRecord>)
    ensures |r| == |config.playFieldCards| + |config.stackCards|
    ensures forall i :: 0 <= i < |r| ==> r[i].id == i
  {
    seq(|config.playFieldCards| + |config.stackCards|, i => GeneratedCard(config, i))
  }

  /** The card with id i of the generated pool. */
  function GeneratedCard(config: LevelConfig, i: int): CardRecord {
    var n := |config.playFieldCards|;
    if 0 <= i < n then NewCard(i, config.playFieldCards[i], FaceUp)
    else if n <= i < n + |config.stackCards| then NewCard(i, config.stackCards[i - n], FaceDown)
    else NewCard(i, CardConfigData(FaceNone, SuitNone, Zero), FaceDown)
  }

  /** The body of both loops: a new card, initialised from the entry, then given its state. */
  method MakeCard(id: int, data: CardConfigData, state: CardState) returns (cardModel: CardModel)
    ensures fresh(cardModel)
    ensures cardModel.Value() == NewCard(id, data, state)
  {
    cardModel := new CardModel();
    cardModel.Init(id, data.face, data.suit, data.position);
    cardModel.SetState(state);
  }

  /** Two loops, one per list, sharing one id counter; every card is a new object. */
  method GenerateGameModel(config: LevelConfig) returns (gameModel: GameModel)
    ensures fresh(gameModel)
    ensures Distinct(gameModel.allCards)
    ensures forall i :: 0 <= i < |gameModel.allCards| ==> fresh(gameModel.allCards[i])
    ensures Snapshot(gameModel.allCards) == GeneratedCards(config)
  {
    ghost var expected := GeneratedCards(config);
    gameModel := new GameModel();
    var globalIdCounter := 0;
    var board, stack := config.playFieldCards, config.stackCards;

    for k := 0 to |board|
      invariant globalIdCounter == k == |gameModel.allCards|
      invariant fresh(gameModel)
      invariant Distinct(gameModel.allCards)
      invariant forall i :: 0 <= i < k ==> fresh(gameModel.allCards[i])
      invariant forall i :: 0 <= i < k ==> gameModel.allCards[i].Value() == expected[i]
    {
      var cardModel := MakeCard(globalIdCounter, board[k], FaceUp);
      globalIdCounter := globalIdCounter + 1;
      gameModel.AddCard(cardModel);
    }

    for k := 0 to |stack|
      invariant globalIdCounter == |board| + k == |gameModel.allCards|
      invariant fresh(gameModel)
      invariant Distinct(gameModel.allCards)
      invariant forall i :: 0 <= i < |board| + k ==> fresh(gameModel.allCards[i])
      invariant forall i :: 0 <= i < |board| + k ==> gameModel.allCards[i].Value() == expected[i]
    {
      var cardModel := MakeCard(globalIdCounter, stack[k], FaceDown);
      globalIdCounter := globalIdCounter + 1;
      gameModel.AddCard(cardModel);
    }
  }

  /**
   * The pool holds one card per entry, in list order; each card carries its entry's face, suit
   * and position (as position and as origin), z-index 0; board cards are face up, reserve
   * cards face down.
   */
  lemma GeneratedFromEntries(config: LevelConfig)
    ensures var cards, board, stack := GeneratedCards(config), config.playFieldCards, config.stackCards;
      && |cards| == |board| + |stack|
      && (forall i :: 0 <= i < |board| ==>
        && cards[i].face == board[i].face && cards[i].suit == board[i].suit
        && cards[i].position == board[i].position && cards[i].origin == board[i].position
        && cards[i].state == FaceUp)
      && (forall j :: 0 <= j < |stack| ==>
        && cards[|board| + j].face == stack[j].face && cards[|board| + j].suit == stack[j].suit
        && cards[|board| + j].position == stack[j].position && cards[|board| + j].origin == stack[j].position
        && cards[|board| + j].state == FaceDown)
      && (forall i :: 0 <= i < |cards| ==> cards[i].zIndex == 0)
  {
  }

  /** Ids are the positions in the pool, so no two cards share one. */
  lemma GeneratedIdsUnique(config: LevelConfig)
    ensures UniqueIds(GeneratedCards(config))
  {
  }

  /** An id resolves exactly when it is one of 0..n-1, and then to the card at that index. */
  lemma GeneratedLookup(config: LevelConfig, id: int)
    ensures IndexOf(GeneratedCards(config), id) ==
      if 0 <= id < |GeneratedCards(config)| then Some(id) else None
  {
    var cards := GeneratedCards(config);
    if 0 <= id < |cards| {
      GeneratedIdsUnique(config);
      IndexOfUnique(cards, id);
    }
  }

  /** The ids of the default command (what popping an empty history yields) resolve to no card. */
  lemma DefaultCommandResolvesNothing(config: LevelConfig)
    ensures IndexOf(GeneratedCards(config), DefaultCommand.cardId).None?
    ensures IndexOf(GeneratedCards(config), DefaultCommand.prevTopCardId).None?
  {
    GeneratedLookup(config, -1);
  }
}
