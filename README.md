# CardGameDemo rule engine in Dafny

This project models the data layer of CardGameDemo, a cocos2d-x solitaire-style card game.
A level is loaded as two lists of card entries. The board ("play field") cards are laid out
on the table. The reserve ("stack") cards form a face-down stock, and the last of them lies
face up on the active pile as the reserve top. The player can do three things:

- click a face-down reserve card to draw it onto the active pile;
- click a board card whose face is one away from the top's face (Ace and King wrap) to move
  it onto the top;
- press undo to revert the last accepted action.

The model follows the program's layers, one module each:

- `GameConsts`: the suit, face and state enums with their integer values.
- `CardModels`: the mutable card object, as a class.
- `GameModels`: the card pool, searched linearly by id.
- `UndoModels`: the undo snapshot.
- `UndoManagers`: the command stack, as a class over a sequence whose last element is the
  top of the stack.
- `LogicService`: the match rule and the two field writers.
- `LevelGenerator`: building the pool from a level configuration.
- `Rules`: the state of a round as a value (`Table`: card values, reserve top, history). It
  holds the functions that say what a draw, a match, the undo button and the two initial
  layouts do, with the lemmas about them.
- `Controllers`: the controllers as one class over the shared pool and undo manager. Each
  method is proved to change the abstract `Table` exactly as the matching `Rules` function
  says, and `InitWithLevel` is the level start.
- `CardViews`: the asset file names and the refresh of a card node.
- `Decimal`, `Positions`, `Wrappers`: decimal text for integers, integer positions, and
  `Option`.

The central results are these:

- Every accepted draw or match followed by one undo gives back exactly the table before it:
  every card field, the top and the history.
- A run of accepted clicks followed by as many undos restores the starting table. From a
  level start (an empty history), further undos change nothing.
- The invariant of a round holds at level start and is kept by every action: the top is a
  card of the pool, and unique ids.
- When there is no top there is no reserve card, which is why a draw never dereferences a
  null top.
- The match rule is adjacency on the circle Ace, Two, ..., King, Ace.
- The number and suit file names can be read back to the face, colour, size and suit they
  were built from.

The reserve is identified the way the code does it: a card belongs to the reserve when its
origin is the point (0,0) (Classes/controllers/StackController.cpp:83,
Classes/controllers/PlayFieldController.cpp:32). Which list the card came from does not
matter. The two coincide only when the loader puts every reserve entry at the origin and no
board entry there.

Screen coordinates are floats in the program and integers here. The screen centre is passed
in as `centreX`. Reading the level file is a function parameter `load` of `InitWithLevel`.

A card without a face (value -1) matches an Ace (`LogicService.NoFaceMatchesOnlyAce`). Such a
card is reachable: the loader gives the face NONE to every entry whose file has no `CardFace`
key (Classes/configs/models/LevelConfig.h:10, Classes/configs/loaders/LevelConfigLoader.cpp:147-151),
and the level is still accepted. The model keeps that case, since an entry's face may be NONE.

## Model

| member | source | states |
|---|---|---|
| GameConsts.SuitValue | Classes/configs/GameConsts.h:5-13 | suit values lie in -1..3 (CST_NUM_CARD_SUIT_TYPES is 4) and -1 is exactly the NONE sentinel |
| GameConsts.SuitOfValue | Classes/configs/GameConsts.h:5-13 | an integer names a suit exactly when it is in -1..3, and then that suit has that value |
| GameConsts.SuitValueRoundTrip | Classes/configs/GameConsts.h:7-11 | every suit is recovered from its integer value, so the five values are distinct |
| GameConsts.FaceValue | Classes/configs/GameConsts.h:17-34 | face values lie in -1..12 (CFT_NUM_CARD_FACE_TYPES is 13) and -1 is exactly the NONE sentinel |
| GameConsts.FaceOfValue | Classes/configs/GameConsts.h:17-34 | an integer names a face exactly when it is in -1..12, and then that face has that value |
| GameConsts.FaceValueRoundTrip | Classes/configs/GameConsts.h:19-32 | every face is recovered from its integer value |
| GameConsts.FaceValueInjective | Classes/configs/GameConsts.h:19-32 | two faces with the same integer value are the same face |
| GameConsts.StateValue | Classes/configs/GameConsts.h:37-41 | the three states have the implicit values 0..2 |
| GameConsts.StateOfValue | Classes/configs/GameConsts.h:37-41 | an integer names a state exactly when it is in 0..2, and then that state has that value |
| GameConsts.StateValueRoundTrip | Classes/configs/GameConsts.h:37-41 | every state is recovered from its value, so the three cases are distinct |
| CardModels.CardModel.constructor | Classes/models/CardModel.h:10-17 | a new card has id -1, face and suit NONE, both positions the origin point, state FACE_DOWN and z-index 0 |
| CardModels.CardModel.Init | Classes/models/CardModel.h:19-26 | id, face and suit are set, position and origin both equal the given point, the state is FACE_DOWN, and the z-index keeps its old value |
| CardModels.CardModel.SetPosition | Classes/models/CardModel.h:36 | writes the position and may change no other field |
| CardModels.CardModel.SetState | Classes/models/CardModel.h:37 | writes the state and may change no other field |
| CardModels.CardModel.SetZIndex | Classes/models/CardModel.h:38 | writes the z-index and may change no other field |
| GameModels.IndexOf | Classes/models/GameModel.h:17-22 | finds an index exactly when some card has the id; the card there has the id, and no earlier card has it |
| GameModels.IndexOfUnique | Classes/models/GameModel.h:17-22 | with unique ids, looking up a card's id finds that very card |
| GameModels.GameModel.constructor | Classes/models/GameModel.h:12 | a new pool is empty |
| GameModels.GameModel.GetCardById | Classes/models/GameModel.h:17-22 | returns null exactly when no card has the id; otherwise it returns the first card object with it |
| GameModels.GameModel.AddCard | Classes/models/GameModel.h:26-28 | the card is appended at the end and earlier entries keep their order |
| GameModels.GameModel.Clear | Classes/models/GameModel.h:32-34 | the pool is empty afterwards |
| UndoManagers.Pop | Classes/managers/UndoManager.cpp:19-28 | on an empty history, yields the default command (ids -1, origin point, FACE_DOWN, z 0) and leaves the history empty; otherwise yields the last pushed command and leaves the history it was pushed onto |
| UndoManagers.PushesThenPops | Classes/managers/UndoManager.cpp:11-28 | pushing commands and then popping as many times returns them in reverse order and leaves the starting history |
| UndoManagers.PopTimesSplit | Classes/managers/UndoManager.cpp:19-28 | popping a+b times is popping a times and then b times |
| UndoManagers.PopEmpty | Classes/managers/UndoManager.cpp:20-24 | one pop on an empty history yields the sentinel command and nothing else |
| UndoManagers.ExtraPopYieldsSentinel | Classes/managers/UndoManager.cpp:11-28 | after all pushed commands are popped in reverse order, one more pop yields the sentinel and the history stays empty |
| UndoManagers.UndoManager.constructor | Classes/managers/UndoManager.cpp:3-5 | a new manager has an empty history |
| UndoManagers.UndoManager.PushCommand | Classes/managers/UndoManager.cpp:11-13 | the history grows by exactly the pushed command, on top |
| UndoManagers.UndoManager.CanUndo | Classes/managers/UndoManager.cpp:15-17 | true exactly when the history is non-empty |
| UndoManagers.UndoManager.PopCommand | Classes/managers/UndoManager.cpp:19-28 | returns and removes what Pop says: the last pushed command, or the sentinel with no change on an empty history |
| LogicService.CanMatch | Classes/services/GameLogicService.cpp:6-29 | false when either card is null; for two cards, true exactly when the faces differ by one or are Ace and King, which on two real faces is exactly being neighbours on the circle Ace, Two, ..., King, Ace (the missing face is covered by NoFaceMatchesOnlyAce) |
| LogicService.FacesMatchIsCircularAdjacency | Classes/services/GameLogicService.cpp:15-28 | on real faces, the match rule holds exactly when one face follows the other on the circle Ace, Two, ..., King, Ace |
| LogicService.SuccessorOnCircle | Classes/services/GameLogicService.cpp:20-25 | the successor modulo 13 is the next value, with King (12) followed by Ace (0) |
| LogicService.FacesMatchSymmetric | Classes/services/GameLogicService.cpp:15-25 | the match rule is symmetric |
| LogicService.FacesMatch | Classes/services/GameLogicService.cpp:10-28 | the face rule of canMatch: a face never matches itself (its meaning on real faces is FacesMatchIsCircularAdjacency) |
| LogicService.NoFaceMatchesOnlyAce | Classes/services/GameLogicService.cpp:10-18 | as written, the NONE face (-1) matches an Ace and nothing else |
| LogicService.ApplyMove | Classes/services/GameLogicService.cpp:31-36 | a non-null card gets the position and z-index and keeps every other field; a null card is left alone |
| LogicService.ApplyStateChange | Classes/services/GameLogicService.cpp:38-42 | a non-null card gets the state and keeps every other field, so a repeated call changes nothing more; a null card is left alone |
| LevelGenerator.MakeCard | Classes/services/GameModelFromLevelGenerator.cpp:11-25 | a new card object carrying the entry's face, suit and position (also as origin), the given id and state, and z-index 0 |
| LevelGenerator.GeneratedCards | Classes/services/GameModelFromLevelGenerator.cpp:3-49 | the reference pool: one card per entry, and the card at index i has id i |
| LevelGenerator.GenerateGameModel | Classes/services/GameModelFromLevelGenerator.cpp:3-49 | a new pool of distinct new card objects whose values are exactly the reference pool GeneratedCards |
| LevelGenerator.GeneratedFromEntries | Classes/services/GameModelFromLevelGenerator.cpp:10-46 | the pool has one card per entry, board entries first; each card carries its entry's face, suit, position and origin; z-index is 0; board cards are face up and reserve cards face down |
| LevelGenerator.GeneratedIdsUnique | Classes/services/GameModelFromLevelGenerator.cpp:7-35 | no two generated cards share an id |
| LevelGenerator.GeneratedLookup | Classes/services/GameModelFromLevelGenerator.cpp:7-35 | an id resolves exactly when it is in 0..n-1, and then to the card at that index |
| LevelGenerator.DefaultCommandResolvesNothing | Classes/models/UndoModel.h:19-20 | the ids of the default command (-1) resolve to no generated card |
| Decimal.NatToString | Classes/views/CardView.cpp:224 | decimal text of a natural number: digits only, at least one, and a leading '0' only for zero |
| Decimal.NatToStringRoundTrip | Classes/views/CardView.cpp:224 | the digits read back give the number |
| Decimal.NatToStringInjective | Classes/views/CardView.cpp:224 | different numbers have different texts |
| Decimal.IntToString | Classes/controllers/GameController.cpp:99 | the %d text of an integer is non-empty and starts with '-' exactly for a negative number |
| Decimal.IntToStringRoundTrip | Classes/controllers/GameController.cpp:99 | parsing the text of an integer gives the integer back |
| Rules.PerformMove | Classes/controllers/GameController.cpp:174-192 | only the moved card changes: it gets the target and the z-index one above the top (100 without a top) and becomes the top; the history is untouched |
| Rules.NewZIndex | Classes/controllers/GameController.cpp:183 | the moved card's z-index lies above the top's; without a top it is 100, the z-index of the active pile |
| Rules.Draw | Classes/controllers/StackController.cpp:140-171 | a refused draw changes nothing; an accepted one adds exactly one command on top of the old history; the table stays well formed and no card's id, face, suit or origin changes |
| Rules.Match | Classes/controllers/PlayFieldController.cpp:55-76 | a refused match changes nothing; an accepted one adds exactly one command on top of the old history; the table stays well formed and no card's id, face, suit or origin changes |
| Rules.Undo | Classes/controllers/GameController.cpp:242-263 | with an empty history nothing changes; otherwise the history loses exactly its last command |
| Rules.Revert | Classes/controllers/GameController.cpp:250-263 | the history is never touched; when either id of the command names no card nothing changes; otherwise the named card gets the recorded position, z-index and state back (keeping its id, face, suit and origin), the card named as previous top becomes the top, and no other card changes |
| Rules.UndoKeepsShape | Classes/controllers/GameController.cpp:247-263 | undo changes no card's id, face, suit or origin; the top it sets is a card of the pool, or the top is unchanged; a table whose missing top means no reserve card keeps that property |
| Rules.UndoPreservesInv | Classes/controllers/GameController.cpp:242-263 | undo keeps the round invariant |
| Rules.SameIdentityKeepsUniqueIds | Classes/models/CardModel.h:28-38 | since no operation writes an id, unique ids stay unique |
| Rules.DrawPreservesInv | Classes/controllers/StackController.cpp:140-171 | a draw keeps the round invariant |
| Rules.MatchPreservesInv | Classes/controllers/PlayFieldController.cpp:55-76 | a match keeps the round invariant |
| Rules.DrawAcceptedIff | Classes/controllers/StackController.cpp:141-154 | a draw is accepted exactly when some card has the id, its origin is (0,0) and it is face down |
| Rules.DrawEffect | Classes/controllers/StackController.cpp:156-168 | an accepted draw records the card's id, position, FACE_DOWN, z-index and the top's id; the card ends face up at activePos one above the old top and becomes the top; no other card changes |
| Rules.MatchAcceptedIff | Classes/controllers/PlayFieldController.cpp:56-64 | a match is accepted exactly when there is a top and some card with the id matches the top's face |
| Rules.MatchEffect | Classes/controllers/PlayFieldController.cpp:64-72 | an accepted match pushes exactly one command, holding the card's id, position, state and z-index before the move and the top's id; it puts the card on the top's position one above it and makes it the top; no card's state changes and no other card changes |
| Rules.DrawThenUndo | Classes/controllers/GameController.cpp:242-263 | undo right after an accepted draw gives back exactly the table before it |
| Rules.MatchThenUndo | Classes/controllers/GameController.cpp:242-263 | undo right after an accepted match gives back exactly the table before it |
| Rules.Step | Classes/controllers/StackController.cpp:117-119 | one click on a reserve or board card keeps the table well formed |
| Rules.Run | Classes/controllers/PlayFieldController.cpp:45-47 | a sequence of clicks keeps the table well formed |
| Rules.StepPreservesInv | Classes/controllers/PlayFieldController.cpp:55-76 | any click keeps the round invariant |
| Rules.StepThenUndo | Classes/controllers/GameController.cpp:242-263 | undo right after any accepted click gives back the table before it |
| Rules.UndoTimesSplit | Classes/controllers/GameController.cpp:242-263 | pressing undo a+b times is pressing it a times and then b times |
| Rules.RunHistory | Classes/controllers/StackController.cpp:158-159 | each accepted click adds exactly one command, and the earlier history stays below it |
| Rules.RunThenUndoAll | Classes/controllers/GameController.cpp:242-263 | as many undos as accepted clicks give back the starting table |
| Rules.UndoTimesOnEmptyHistory | Classes/controllers/GameController.cpp:244 | undo on an empty history changes nothing, however often it is pressed |
| Rules.UndoBeyondHistory | Classes/controllers/GameController.cpp:244-247 | from a level start, pressing undo more often than there were accepted clicks still gives back the starting table |
| Rules.ReserveIndicesFacts | Classes/controllers/StackController.cpp:81-86 | the filtered list holds exactly the cards with origin (0,0), in pool order, each at the place given by the number of reserve cards before it |
| Rules.RankIncreases | Classes/controllers/StackController.cpp:81-86 | a reserve card has fewer reserve cards before it than any later card |
| Rules.LayoutUpToStart | Classes/controllers/StackController.cpp:88-91 | before the layout loop no card has changed |
| Rules.LayoutUpToStep | Classes/controllers/StackController.cpp:91-111 | the j-th card of the filtered list has rank j, is still untouched, and laying it out changes that one pool entry |
| Rules.LayoutUpToEnd | Classes/controllers/StackController.cpp:88-123 | after the whole filtered list the pool is the one ReserveLayout describes |
| Rules.NoReserveNoLayout | Classes/controllers/StackController.cpp:88-91 | with no card at the origin the layout changes nothing |
| Rules.ReserveLayoutTop | Classes/controllers/StackController.cpp:94-100 | after the layout there is a top exactly when there is a reserve card; it is the last reserve card in pool order, at activePos with z-index 100, the only face-up reserve card; ids, faces, suits, origins and history are kept |
| Rules.StockCard | Classes/controllers/StackController.cpp:101-111 | the k-th other reserve card (k below the count less one) goes face down to stockPos + (70k, 0) with z-index k |
| Rules.ReserveLayoutStock | Classes/controllers/StackController.cpp:101-111 | every other reserve card lies face down at stockPos's y, 70 times its z-index right of stockPos, with z-index below the count less one |
| Rules.ReserveLayoutStockOrdered | Classes/controllers/StackController.cpp:103-110 | on the stock a later card lies above and to the right of an earlier one |
| Rules.ReserveLayout | Classes/controllers/StackController.cpp:81-111 | the reference for the data effect of initView: no card's id, face, suit or origin changes, the history is kept, and board cards are left alone (its top and stock are stated by the lemmas below) |
| Rules.PlayFieldLayout | Classes/controllers/PlayFieldController.cpp:28-40 | every card whose origin is not (0,0) moves 250 up, keeping x and z-index; other cards, the top and the history are kept |
| Rules.ShiftedUpToStep | Classes/controllers/PlayFieldController.cpp:30-40 | visiting card i of the board loop changes that one entry |
| Rules.ShiftedUpToEnds | Classes/controllers/PlayFieldController.cpp:30-51 | before the board loop nothing has changed; after it the pool is the one PlayFieldLayout describes |
| Rules.PlayFieldLayoutInv | Classes/controllers/PlayFieldController.cpp:23-52 | the board layout keeps the invariant and every card's identity |
| Rules.ReserveLayoutInv | Classes/controllers/StackController.cpp:77-124 | the reserve layout establishes the invariant on any pool with unique ids |
| Rules.InitialTable | Classes/controllers/GameController.cpp:110-140 | the table a level starts from has an empty history, one card per entry with id equal to its index, and each card keeps its entry's face, suit and origin |
| Rules.InitialTableInv | Classes/controllers/GameController.cpp:110-140 | a level starts in the invariant |
| Rules.BothLayoutsOnBoard | Classes/controllers/PlayFieldController.cpp:30-40 | after both layouts a board card is only moved up by 250 |
| Rules.InitialBoardCards | Classes/services/GameModelFromLevelGenerator.cpp:25-43 | every board card starts at its entry's position moved 250 up, face up if it came from the board list and face down otherwise |
| Controllers.LevelPath | Classes/controllers/GameController.cpp:99 | the path "levels/level_" + id + ".json" gives the level id back |
| Controllers.LevelPathInjective | Classes/controllers/GameController.cpp:99 | different levels are loaded from different paths |
| Controllers.GameController.constructor | Classes/controllers/StackController.cpp:49-62 | the controllers share the given pool and undo manager; there is no top; the stock is at (centre - 250, 290) and the active pile at (centre + 150, 290); the abstract table is the pool with the manager's history |
| Controllers.GameController.SetTopCard | Classes/controllers/StackController.cpp:180-182 | only the top changes |
| Controllers.GameController.FindCard | Classes/models/GameModel.h:17-22 | null exactly when no card has the id, otherwise the card at the first index with it |
| Controllers.GameController.MoveCardAt | Classes/services/GameLogicService.cpp:31-36 | only that card's position and z-index change |
| Controllers.GameController.SetCardStateAt | Classes/services/GameLogicService.cpp:38-42 | only that card's state changes |
| Controllers.GameController.RecordCommand | Classes/managers/UndoManager.cpp:11-13 | only the history changes, by the pushed command |
| Controllers.GameController.TakeLastCommand | Classes/managers/UndoManager.cpp:19-28 | returns and removes what Pop says; the cards and the top are untouched |
| Controllers.GameController.PerformMoveCard | Classes/controllers/GameController.cpp:174-192 | the abstract table becomes PerformMove of the old one |
| Controllers.GameController.DrawFound | Classes/controllers/StackController.cpp:154-168 | the accepted branch of a draw: the table becomes the recorded, flipped and moved one |
| Controllers.GameController.HandleStackClick | Classes/controllers/StackController.cpp:140-171 | the result and the new table are exactly Draw of the old table; the class stays ready for the next click |
| Controllers.GameController.MatchFound | Classes/controllers/PlayFieldController.cpp:64-72 | the accepted branch of a match: the table becomes the recorded one with the card moved onto the top |
| Controllers.GameController.HandlePlayFieldClick | Classes/controllers/PlayFieldController.cpp:55-76 | the result and the new table are exactly Match of the old table; the class stays ready |
| Controllers.GameController.RestoreCardAt | Classes/controllers/GameController.cpp:257-260 | only that card's position, z-index and state change, to the command's values |
| Controllers.GameController.RevertCommand | Classes/controllers/GameController.cpp:250-263 | the table becomes Revert of the old one: restored only when both ids resolve |
| Controllers.GameController.OnUndoClicked | Classes/controllers/GameController.cpp:242-263 | the new table is exactly Undo of the old one; the class stays ready |
| Controllers.GameController.ReserveCards | Classes/controllers/StackController.cpp:81-86 | the filtered list holds the distinct pool objects at the reserve indices, in pool order |
| Controllers.GameController.PlaceReserveCard | Classes/controllers/StackController.cpp:93-111 | the card is laid out by its rank (the last one on the active pile, made the top; the others on the stock); nothing else changes |
| Controllers.GameController.LayOutReserveCards | Classes/controllers/StackController.cpp:88-111 | the layout loop lays out every card of the filtered list and leaves the last one as the top |
| Controllers.GameController.InitStackView | Classes/controllers/StackController.cpp:77-124 | the new table is exactly ReserveLayout of the old one |
| Controllers.GameController.InitPlayFieldView | Classes/controllers/PlayFieldController.cpp:23-52 | the new table is exactly PlayFieldLayout of the old one |
| Controllers.InitWithLevel | Classes/controllers/GameController.cpp:96-155 | no game exactly when both lists of the loaded level are empty; otherwise a new game, ready and in the invariant, whose table is the generated pool laid out by both controllers |
| CardViews.SuitFilename | Classes/views/CardView.cpp:191-199 | the empty name exactly for a value that is not a real suit |
| CardViews.SuitFilenameRoundTrip | Classes/views/CardView.cpp:191-199 | every real suit has its own file, from which it is read back |
| CardViews.FaceLabel | Classes/views/CardView.cpp:218-225 | the label is non-empty; apart from A, J, Q and K it is the decimal of the face value plus one (NONE gives "0", Ten gives "10"), written as canonical digits with no leading zero |
| CardViews.FaceLabelRoundTrip | Classes/views/CardView.cpp:218-225 | every face, NONE included, is recovered from its label |
| CardViews.IsRed | Classes/views/CardView.cpp:214 | red exactly for the suit values 1 and 2, Diamonds and Hearts |
| CardViews.ColourName | Classes/views/CardView.cpp:213-216 | one of the words red and black, red exactly for a red suit, black for the missing suit |
| CardViews.NumberFilename | Classes/views/CardView.cpp:212-229 | from a number file name one reads back its size, its colour (red exactly for Diamonds and Hearts) and its face |
| CardViews.NumberFilenameDeterminesFace | Classes/views/CardView.cpp:212-229 | two cards share a number file only when they share face, size and colour |
| CardViews.Refreshed | Classes/views/CardView.cpp:161-184 | after a refresh the node is at the card's position and z-index; it is visible exactly when the card is not REMOVED; every existing number and suit sprite is visible, and the background white, exactly when the card is FACE_UP; no sprite appears or disappears |
| CardViews.RefreshIdempotent | Classes/views/CardView.cpp:161-184 | a second refresh with an unchanged card changes nothing |
| CardViews.RefreshReadsDisplayedFields | Classes/views/CardView.cpp:164-183 | only the card's position, z-index and state reach the node |
| CardViews.CardView.constructor | Classes/views/CardView.cpp:49-144 | a new node shows the refresh of its card, over sprites created visible and white |
| CardViews.CardView.UpdateView | Classes/views/CardView.cpp:161-184 | nothing happens without a model; otherwise the node becomes the reference refresh of the card's current value |

## Left out

- Reading and parsing the level file (LevelConfigLoader, RapidJSON) is not modelled: `InitWithLevel` takes the loader as a function from path to configuration.
- Views, scenes and animation are not modelled: GameView, LevelSelectView, sprite creation, the touch hit-test, the MoveTo/ScaleTo sequences and the walk over view children in performMoveCard and onUndoClicked. The click callbacks are the handler methods themselves.
- Reference counting, `startGame`, scene switching and CCLOG are lifecycle and logging with no data effect.
- The enums are closed: CardSuitType and CardFaceType hold only their named values here. In C++ they are enum classes over int, and the loader casts any JSON integer into them (Classes/configs/loaders/LevelConfigLoader.cpp:149 and :155). So the model does not capture a face of 13 matching a King in canMatch (|13 - 12| = 1), its label and file name "14", or a suit of 4 getting an empty suit file name and the black colour.
- Integers are unbounded. The model does not capture 32-bit wrap-around of `int`: the z-index `top + 1` in performMoveCard (GameController.cpp:183), the id counter, and the `%d` level id in the path.
- Float coordinates are integers, and Vec2::equals is exact equality. The stock's 70.0f offset becomes the integer 70.
- Controllers.GameController.constructor: the screen centre comes in as a parameter instead of from the director's visible size.
- The three controllers are one class. StackController's top card and pile positions are its fields. The null guards on the always-present stack controller, main controller, undo manager and game model (for example GameController.cpp:175 and the `!_undoManager` half of 244) are left out.
- Controllers.GameController.HandleStackClick: requires `Ready()`, which includes that a missing top means no reserve card. The source dereferences the top without a check at StackController.cpp:158. Every reachable table meets this (Rules.InitialTableInv and the preservation lemmas), so the crash never happens in the model.
- Controllers.InitWithLevel: on an empty configuration it returns null. The C++ controller instead stays alive without a model. No state is built in either case.
- A view only knows whether each sprite loaded (constructor parameters). The only sprite colour modelled is the background tint (white or grey); the colours of the number and suit sprites are not modelled.
- Controllers.InitWithLevel: always applies both layouts. The source calls the two initView functions only when GameView::create returns a view (GameController.cpp:132-141). When it fails, the cards keep their generated positions and there is no top; the model does not capture that path.
- Undo plays its animation only in the restoring branch. The data effect (Rules.Undo, Rules.Revert) is modelled, including a popped command whose ids do not resolve.
