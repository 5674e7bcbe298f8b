/**
 * The controllers (Classes/controllers/GameController.cpp, StackController.cpp,
 * PlayFieldController.cpp) as one class over the shared card pool and undo manager.
 *
 * StackController's state (the reserve top and the two pile positions) are fields of the
 * class; PlayFieldController has no state of its own. Each click handler and the undo button
 * are proved to have, on the abstract Table, exactly the effect of the functions in Rules.
 */
module Controllers {
  import opened Wrappers
  import opened GameConsts
  import opened Positions
  import opened CardModels
  import opened GameModels
  import opened UndoModels
  import opened UndoManagers
  import opened LogicService
  import opened LevelGenerator
  import opened Rules
  import opened Decimal

  const LevelPathPrefix := "levels/level_"
  const LevelPathSuffix := ".json"

  /** Where the level with the given id is loaded from, as the format string %s%d%s builds it; the id can be read back. */
  function LevelPath(levelId: int): (r: string)
    ensures LevelIdOfPath(r) == Some(levelId)
  {
    var digits := IntToString(levelId);
    var path := LevelPathPrefix + digits + LevelPathSuffix;
    var n, m := |LevelPathPrefix|, |LevelPathSuffix|;
    assert path[..n] == LevelPathPrefix;
    assert path[|path| - m..] == LevelPathSuffix;
    assert path[n..|path| - m] == digits;
    IntToStringRoundTrip(levelId);
    path
  }

  /** Reads the level id back out of a level path. */
  function LevelIdOfPath(path: string): Option<int> {
    var n, m := |LevelPathPrefix|, |LevelPathSuffix|;
    if n + m <= |path| && path[..n] == LevelPathPrefix && path[|path| - m..] == LevelPathSuffix then
      ParseInt(path[n..|path| - m])
    else
      None
  }

  /** Different levels are loaded from different files. */
  lemma LevelPathInjective(a: int, b: int)
    requires LevelPath(a) == LevelPath(b)
    ensures a == b
  {
  }

  /** The two piles sit at y 290, the stock 250 left of the screen centre, the active pile 150 right of it. */
  const PileY := 290
  const StockOffsetFromCentre := -250
  const ActiveOffsetFromCentre := 150

  class GameController {
    const model: GameModel
    const undoManager: UndoManager
    /** StackController::_topStackCard */
    var topCard: CardModel?
    /** Where topCard sits in the pool. */
    ghost var topIndex: Option<nat>
    const stockPos: Pos
    const activePos: Pos

    ghost predicate Valid()
      reads this, model
    {
      Distinct(model.allCards)
      && (topCard == null <==> topIndex.None?)
      && (topIndex.Some? ==> topIndex.value < |model.allCards| && model.allCards[topIndex.value] == topCard)
    }

    /** What the controllers hold, as a value. */
    ghost function Abs(): Table
      reads this, model, model.allCards, undoManager
    {
      Table(Snapshot(model.allCards), topIndex, undoManager.history)
    }

    /** Between two clicks the class is valid and its abstract table well formed. */
    ghost predicate Ready()
      reads this, model, model.allCards, undoManager
    {
      Valid() && WellFormed(Abs())
    }

    /** The main controller's construction and StackController::init, with the screen centre passed in. */
    constructor (model: GameModel, undoManager: UndoManager, centreX: int)
      requires Distinct(model.allCards)
      ensures this.model == model && this.undoManager == undoManager && topCard == null
      ensures stockPos == Pos(centreX + StockOffsetFromCentre, PileY)
      ensures activePos == Pos(centreX + ActiveOffsetFromCentre, PileY)
      ensures Valid() && Abs() == Table(Snapshot(model.allCards), None, undoManager.history)
    {
      this.model := model;
      this.undoManager := undoManager;
      topCard := null;
      topIndex := None;
      stockPos := Pos(centreX + StockOffsetFromCentre, PileY);
      activePos := Pos(centreX + ActiveOffsetFromCentre, PileY);
    }

    /** StackController::setTopCard */
    method SetTopCard(card: CardModel?, ghost k: Option<nat>)
      requires Valid()
      requires card == null <==> k.None?
      requires k.Some? ==> k.value < |model.allCards| && model.allCards[k.value] == card
      modifies `topCard, `topIndex
      ensures Valid() && topCard == card
      ensures Abs() == old(Abs()).(top := k)
    {
      topCard := card;
      topIndex := k;
    }

    /** GameModel::getCardById, with the index of the card it finds. */
    method FindCard(id: int) returns (card: CardModel?, ghost k: Option<nat>)
      ensures card == null <==> IndexOf(Abs().cards, id).None?
      ensures card != null ==> card == model.allCards[IndexOf(Abs().cards, id).value]
      ensures k == IndexOf(Abs().cards, id)
      ensures card == null <==> k.None?
      ensures k.Some? ==> k.value < |model.allCards| && model.allCards[k.value] == card
    {
      card := model.GetCardById(id);
      k := IndexOf(Snapshot(model.allCards), id);
    }

    /** GameLogicService::applyMove on the card at index k: only that entry changes. */
    method MoveCardAt(card: CardModel, ghost k: nat, targetPos: Pos, newZIndex: int)
      requires Valid() && k < |model.allCards| && model.allCards[k] == card
      modifies card
      ensures Valid()
      ensures Abs() == old(Abs()).(cards := old(Abs()).cards[k := old(Abs()).cards[k].(position := targetPos, zIndex := newZIndex)])
    {
      ApplyMove(card, targetPos, newZIndex);
      assert Snapshot(model.allCards) == old(Snapshot(model.allCards))[k := card.Value()];
    }

    /** GameLogicService::applyStateChange on the card at index k: only that entry changes. */
    method SetCardStateAt(card: CardModel, ghost k: nat, newState: CardState)
      requires Valid() && k < |model.allCards| && model.allCards[k] == card
      modifies card
      ensures Valid()
      ensures Abs() == old(Abs()).(cards := old(Abs()).cards[k := old(Abs()).cards[k].(state := newState)])
    {
      ApplyStateChange(card, newState);
      assert Snapshot(model.allCards) == old(Snapshot(model.allCards))[k := card.Value()];
    }

    /** UndoManager::pushCommand */
    method RecordCommand(cmd: UndoCommand)
      requires Valid()
      modifies undoManager
      ensures Valid()
      ensures Abs() == old(Abs()).(history := old(Abs()).history + [cmd])
    {
      undoManager.PushCommand(cmd);
    }

    /** UndoManager::popCommand */
    method TakeLastCommand() returns (cmd: UndoCommand)
      requires Valid()
      modifies undoManager
      ensures Valid()
      ensures cmd == Pop(old(Abs()).history).0
      ensures Abs() == old(Abs()).(history := Pop(old(Abs()).history).1)
    {
      cmd := undoManager.PopCommand();
    }

    /** performMoveCard: the card goes to the target one above the top (or at 100 without one) and becomes the top. */
    method PerformMoveCard(card: CardModel, targetPos: Pos, ghost k: nat)
      requires Valid() && k < |model.allCards| && model.allCards[k] == card
      modifies `topCard, `topIndex, card
      ensures Valid()
      ensures Abs() == PerformMove(old(Abs()), k, targetPos)
    {
      var top := topCard;
      var newZ := if top != null then top.zIndex + 1 else 100;
      assert newZ == NewZIndex(Abs());
      MoveCardAt(card, k, targetPos, newZ);
      SetTopCard(card, Some(k));
    }

    /** The accepted branch of StackController::handleCardClick. */
    method DrawFound(card: CardModel, ghost k: nat)
      requires Ready() && k < |model.allCards| && model.allCards[k] == card && IsReserve(Abs().cards[k])
      modifies `topCard, `topIndex, undoManager, card
      ensures Valid()
      ensures Abs() == DrawAt(old(Abs()), k, activePos)
    {
      var cmd := UndoCommand(card.id, card.position, topCard.id, card.state, card.zIndex);
      RecordCommand(cmd);
      SetCardStateAt(card, k, FaceUp);
      PerformMoveCard(card, activePos, k);
    }

    /** StackController::handleCardClick */
    method HandleStackClick(cardId: int) returns (handled: bool)
      requires Ready()
      modifies `topCard, `topIndex, undoManager, model.allCards
      ensures Ready()
      ensures (handled, Abs()) == Draw(old(Abs()), cardId, activePos)
    {
      ghost var before := Abs();
      var card, k := FindCard(cardId);
      if card == null {
        assert Draw(before, cardId, activePos) == (false, before);
        return false;
      }
      var isStockCard := card.origin == Zero;
      var isFaceDown := card.state == FaceDown;
      assert card.Value() == before.cards[k.value];
      if isStockCard && isFaceDown {
        assert Draw(before, cardId, activePos) == (true, DrawAt(before, k.value, activePos));
        DrawFound(card, k.value);
        return true;
      }
      assert Draw(before, cardId, activePos) == (false, before);
      return false;
    }

    /** The accepted branch of PlayFieldController::handleCardClick. */
    method MatchFound(card: CardModel, top: CardModel, ghost k: nat)
      requires Ready() && k < |model.allCards| && model.allCards[k] == card && top == topCard
      modifies `topCard, `topIndex, undoManager, card
      ensures Valid()
      ensures old(Abs()).top.Some? && Abs() == MatchAt(old(Abs()), k)
    {
      var cmd := UndoCommand(card.id, card.position, top.id, card.state, card.zIndex);
      RecordCommand(cmd);
      var targetPos := top.position;
      PerformMoveCard(card, targetPos, k);
    }

    /** PlayFieldController::handleCardClick */
    method HandlePlayFieldClick(cardId: int) returns (handled: bool)
      requires Ready()
      modifies `topCard, `topIndex, undoManager, model.allCards
      ensures Ready()
      ensures (handled, Abs()) == Match(old(Abs()), cardId)
    {
      ghost var before := Abs();
      var card, k := FindCard(cardId);
      if card == null {
        assert Match(before, cardId) == (false, before);
        return false;
      }
      var top := topCard;
      if top == null {
        assert Match(before, cardId) == (false, before);
        return false;
      }
      assert card.Value() == before.cards[k.value] && top.Value() == before.cards[before.top.value];
      if CanMatch(top, card) {
        assert Match(before, cardId) == (true, MatchAt(before, k.value));
        MatchFound(card, top, k.value);
        return true;
      }
      assert Match(before, cardId) == (false, before);
      return false;
    }

    /** Both GameLogicService writes of onUndoClicked on the card at index k: position, z-index and state. */
    method RestoreCardAt(card: CardModel, ghost k: nat, cmd: UndoCommand)
      requires Valid() && k < |model.allCards| && model.allCards[k] == card
      modifies card
      ensures Valid()
      ensures Abs() == old(Abs()).(cards := old(Abs()).cards[k := old(Abs()).cards[k].(
        position := cmd.fromPos, zIndex := cmd.prevZIndex, state := cmd.prevState)])
    {
      ApplyMove(card, cmd.fromPos, cmd.prevZIndex);
      ApplyStateChange(card, cmd.prevState);
      assert Snapshot(model.allCards) == old(Snapshot(model.allCards))[k := card.Value()];
    }

    /** The restoring half of GameController::onUndoClicked, once the command is popped. */
    method RevertCommand(cmd: UndoCommand)
      requires Valid()
      modifies `topCard, `topIndex, model.allCards
      ensures Valid()
      ensures Abs() == Revert(old(Abs()), cmd)
    {
      var currentCard, k := FindCard(cmd.cardId);
      var prevTopCard, p := FindCard(cmd.prevTopCardId);
      if currentCard != null && prevTopCard != null {
        RestoreCardAt(currentCard, k.value, cmd);
        SetTopCard(prevTopCard, p);
      }
    }

    /** GameController::onUndoClicked */
    method OnUndoClicked()
      requires Ready()
      modifies `topCard, `topIndex, undoManager, model.allCards
      ensures Ready()
      ensures Abs() == Undo(old(Abs()))
    {
      ghost var before := Abs();
      var canUndo := undoManager.CanUndo();
      if !canUndo {
        return;
      }
      var cmd := TakeLastCommand();
      ghost var popped := Abs();
      RevertCommand(cmd);
      assert Abs() == Revert(popped, cmd) == Undo(before);
    }

    /** The filter loop of StackController::initView: the reserve cards, in pool order. */
    method ReserveCards(ghost cards: seq<CardRecord>) returns (stackCards: seq<CardModel>)
      requires Valid() && cards == Abs().cards
      ensures var ids := ReserveIndices(cards);
        && |stackCards| == |ids|
        && (forall j :: 0 <= j < |ids| ==> ids[j] < |model.allCards| && stackCards[j] == model.allCards[ids[j]])
        && Distinct(stackCards)
    {
      stackCards := [];
      for i := 0 to |model.allCards|
        invariant |stackCards| == |ReserveIndicesUpTo(cards, i)|
        invariant forall j :: 0 <= j < |stackCards| ==>
          ReserveIndicesUpTo(cards, i)[j] < i && stackCards[j] == model.allCards[ReserveIndicesUpTo(cards, i)[j]]
        invariant Distinct(stackCards)
      {
        var card := model.allCards[i];
        assert card.Value() == cards[i];
        if card.origin == Zero {
          stackCards := stackCards + [card];
        }
      }
    }

    /**
     * One step of the layout loop of StackController::initView: the last reserve card goes face up
     * to the active pile and becomes the top, any other one face down to the stock at its offset.
     */
    method PlaceReserveCard(card: CardModel, ghost k: nat, isLastOne: bool, offsetIndex: nat, ghost rank: nat, ghost count: nat)
      requires Valid() && k < |model.allCards| && model.allCards[k] == card
      requires isLastOne <==> rank == count - 1
      requires !isLastOne ==> offsetIndex == rank
      modifies `topCard, `topIndex, card
      ensures Valid()
      ensures Abs().history == old(Abs()).history
      ensures Abs().top == if isLastOne then Some(k) else old(Abs()).top
      ensures Abs().cards == old(Abs()).cards[k := LayoutCard(old(Abs()).cards[k], rank, count, stockPos, activePos)]
    {
      ghost var before := Abs();
      if isLastOne {
        MoveCardAt(card, k, activePos, ActiveZIndex);
        SetCardStateAt(card, k, FaceUp);
        assert Abs().cards == before.cards[k := before.cards[k].(position := activePos, zIndex := ActiveZIndex, state := FaceUp)];
        SetTopCard(card, Some(k));
      } else {
        var offsetX := offsetIndex * StockOffsetX;
        var finalPos := Add(stockPos, Pos(offsetX, 0));
        MoveCardAt(card, k, finalPos, offsetIndex);
        SetCardStateAt(card, k, FaceDown);
      }
    }

    /**
     * The layout loop of StackController::initView over the filtered list: afterwards every
     * reserve card is laid out and, when there is one, the last one is the top.
     */
    method LayOutReserveCards(stackCards: seq<CardModel>, ghost cards: seq<CardRecord>)
      requires Valid() && cards == Abs().cards
      requires var ids := ReserveIndices(cards);
        && |stackCards| == |ids|
        && (forall j :: 0 <= j < |ids| ==> ids[j] < |model.allCards| && stackCards[j] == model.allCards[ids[j]])
        && Distinct(stackCards)
      modifies `topCard, `topIndex, model.allCards
      ensures Valid() && model.allCards == old(model.allCards)
      ensures Abs().cards == LayoutUpTo(cards, |stackCards|, stockPos, activePos)
      ensures Abs().history == old(Abs()).history
      ensures Abs().top == if stackCards == [] then old(Abs()).top else Some(ReserveIndices(cards)[|stackCards| - 1])
    {
      ghost var before := Abs();
      ghost var ids := ReserveIndices(cards);
      LayoutUpToStart(cards, stockPos, activePos);
      var offsetIndex := 0;
      for j := 0 to |stackCards|
        invariant Valid()
        invariant j < |stackCards| ==> offsetIndex == j
        invariant Abs().cards == LayoutUpTo(cards, j, stockPos, activePos)
        invariant Abs().history == before.history
        invariant Abs().top == if 0 < j == |ids| then Some(ids[j - 1]) else before.top
      {
        var card := stackCards[j];
        var isLastOne := card == stackCards[|stackCards| - 1];
        ghost var k := ids[j];
        assert isLastOne <==> j == |ids| - 1;
        LayoutUpToStep(cards, j, stockPos, activePos);
        PlaceReserveCard(card, k, isLastOne, offsetIndex, j, |ids|);
        if !isLastOne {
          offsetIndex := offsetIndex + 1;
        }
      }
    }

    /** StackController::initView on the data: the filter loop, then the layout loop. */
    method InitStackView()
      requires Valid()
      modifies `topCard, `topIndex, model.allCards
      ensures Valid() && model.allCards == old(model.allCards)
      ensures Abs() == ReserveLayout(old(Abs()), stockPos, activePos)
    {
      ghost var before := Abs();
      var stackCards := ReserveCards(before.cards);
      LayOutReserveCards(stackCards, before.cards);
      LayoutUpToEnd(before, stockPos, activePos);
    }

    /** PlayFieldController::initView on the data: every board card moves up by 250. */
    method InitPlayFieldView()
      requires Valid()
      modifies model.allCards
      ensures Valid() && model.allCards == old(model.allCards)
      ensures Abs() == PlayFieldLayout(old(Abs()))
    {
      ghost var before := Abs();
      ShiftedUpToEnds(before);
      for i := 0 to |model.allCards|
        invariant Valid()
        invariant Abs().cards == ShiftedUpTo(before.cards, i)
        invariant Abs().top == before.top && Abs().history == before.history
      {
        var card := model.allCards[i];
        ghost var prev := Abs().cards;
        ShiftedUpToStep(before.cards, i);
        assert card.Value() == before.cards[i] == prev[i];
        if card.origin != Zero {
          var oldPos := card.position;
          var newPos := Pos(oldPos.x, oldPos.y + PlayFieldOffsetY);
          assert ShiftedUp(prev[i]) == prev[i].(position := newPos, zIndex := card.zIndex);
          MoveCardAt(card, i, newPos, card.zIndex);
          assert Abs().cards == prev[i := ShiftedUp(prev[i])];
        } else {
          assert prev == prev[i := ShiftedUp(prev[i])];
        }
      }
    }
  }

  /**
   * GameController::_initWithLevel: load, refuse an empty level, generate the pool, then lay out
   * the reserve and the board. The loader is a parameter (it reads a file).
   */
  method InitWithLevel(levelId: int, load: string -> LevelConfig, centreX: int) returns (game: GameController?)
    ensures var config := load(LevelPath(levelId));
      game == null <==> config.playFieldCards == [] && config.stackCards == []
    ensures game != null ==>
      && fresh(game) && fresh(game.model) && fresh(game.undoManager)
      && game.Ready() && Inv(game.Abs())
      && game.stockPos == Pos(centreX + StockOffsetFromCentre, PileY)
      && game.activePos == Pos(centreX + ActiveOffsetFromCentre, PileY)
      && game.Abs() == InitialTable(load(LevelPath(levelId)), game.stockPos, game.activePos)
  {
    var path := LevelPath(levelId);
    var config := load(path);
    if |config.playFieldCards| == 0 && |config.stackCards| == 0 {
      return null;
    }
    var gameModel := GenerateGameModel(config);
    var undoManager := new UndoManager();
    game := new GameController(gameModel, undoManager, centreX);
    ghost var generated := Table(GeneratedCards(config), None, []);
    assert game.Abs() == generated;
    game.InitStackView();
    ghost var stacked := ReserveLayout(generated, game.stockPos, game.activePos);
    assert game.Abs() == stacked;
    game.InitPlayFieldView();
    assert game.Abs() == PlayFieldLayout(stacked) == InitialTable(config, game.stockPos, game.activePos);
    InitialTableInv(config, game.stockPos, game.activePos);
  }
}
