/**
 * The state of a round as a value, and what each player action does to it.
 *
 * A Table is what the controllers hold between two clicks: the values of the cards of the pool
 * (in pool order), which of them is the reserve top (StackController's _topStackCard, as an
 * index into the pool), and the undo history. Draw, Match and Undo are the data-layer effect
 * of StackController::handleCardClick, PlayFieldController::handleCardClick and
 * GameController::onUndoClicked; the class in game_controller.dfy is proved to implement them.
 */
module Rules {
  import opened Wrappers
  import opened GameConsts
  import opened Positions
  import opened CardModels
  import opened GameModels
  import opened UndoModels
  import opened UndoManagers
  import opened LogicService
  import opened LevelGenerator

  datatype Table = Table(cards: seq<CardRecord>, top: Option<nat>, history: seq<UndoCommand>)

  /** Reserve cards are the ones whose origin is the origin point (the loader puts an entry there when its file gives no position). */
  predicate IsReserve(c: CardRecord) {
    c.origin == Zero
  }

  predicate TopInRange(t: Table) {
    t.top.Some? ==> t.top.value < |t.cards|
  }

  /** Without a reserve top there is no reserve card, so a draw never meets a null top. */
  predicate TopSafe(t: Table) {
    t.top.None? ==> forall i :: 0 <= i < |t.cards| ==> !IsReserve(t.cards[i])
  }

  predicate WellFormed(t: Table) {
    TopInRange(t) && TopSafe(t)
  }

  /** The invariant of a round: well formed, and no id is shared. */
  predicate Inv(t: Table) {
    WellFormed(t) && UniqueIds(t.cards)
  }

  /** Nothing but position, z-index and state ever changes on a card. */
  predicate SameIdentity(a: seq<CardRecord>, b: seq<CardRecord>) {
    |a| == |b|
    && forall i :: 0 <= i < |a| ==>
      a[i].id == b[i].id && a[i].face == b[i].face && a[i].suit == b[i].suit && a[i].origin == b[i].origin
  }

  /** The z-index a card moved onto the top gets: one above the top, or 100 without a top. */
  function NewZIndex(t: Table): (r: int)
    requires TopInRange(t)
    ensures t.top.Some? ==> t.cards[t.top.value].zIndex < r
    ensures t.top.None? ==> r == ActiveZIndex
  {
    if t.top.Some? then t.cards[t.top.value].zIndex + 1 else 100
  }

  /** performMoveCard: the card goes to the target above the top and becomes the top. */
  function PerformMove(t: Table, k: nat, target: Pos): (r: Table)
    requires k < |t.cards| && TopInRange(t)
    ensures r.top == Some(k) && r.history == t.history && |r.cards| == |t.cards|
    ensures r.cards[k] == t.cards[k].(position := target, zIndex := NewZIndex(t))
    ensures forall i :: 0 <= i < |t.cards| && i != k ==> r.cards[i] == t.cards[i]
  {
    Table(t.cards[k := t.cards[k].(position := target, zIndex := NewZIndex(t))], Some(k), t.history)
  }

  /** The command recorded before a card moves: its id, position, state, z-index and the current top's id. */
  function CommandFor(c: CardRecord, topId: int): UndoCommand {
    UndoCommand(c.id, c.position, topId, c.state, c.zIndex)
  }

  /** What an accepted draw of the card at index k does: record, turn face up, move onto the top at activePos. */
  function DrawAt(t: Table, k: nat, activePos: Pos): Table
    requires WellFormed(t) && k < |t.cards| && IsReserve(t.cards[k])
  {
    var c := t.cards[k];
    var cmd := CommandFor(c, t.cards[t.top.value].id);
    PerformMove(t.(cards := t.cards[k := c.(state := FaceUp)], history := t.history + [cmd]), k, activePos)
  }

  /**
   * StackController::handleCardClick: a face-down reserve card is recorded, turned face up and
   * moved onto the reserve top at activePos. Anything else is refused and changes nothing.
   */
  function Draw(t: Table, id: int, activePos: Pos): (r: (bool, Table))
    requires WellFormed(t)
    ensures !r.0 ==> r.1 == t
    ensures r.0 ==> |r.1.history| == |t.history| + 1 && r.1.history[..|t.history|] == t.history
    ensures WellFormed(r.1) && SameIdentity(t.cards, r.1.cards)
  {
    match IndexOf(t.cards, id)
    case None => (false, t)
    case Some(k) =>
      if IsReserve(t.cards[k]) && t.cards[k].state == FaceDown then (true, DrawAt(t, k, activePos))
      else (false, t)
  }

  /** What an accepted match of the card at index k does: record, move onto the top's position. */
  function MatchAt(t: Table, k: nat): Table
    requires TopInRange(t) && t.top.Some? && k < |t.cards|
  {
    var top := t.cards[t.top.value];
    PerformMove(t.(history := t.history + [CommandFor(t.cards[k], top.id)]), k, top.position)
  }

  /**
   * PlayFieldController::handleCardClick: with a reserve top whose face matches the clicked
   * card's, the card is recorded and moved onto the top's position, its state kept.
   */
  function Match(t: Table, id: int): (r: (bool, Table))
    requires WellFormed(t)
    ensures !r.0 ==> r.1 == t
    ensures r.0 ==> |r.1.history| == |t.history| + 1 && r.1.history[..|t.history|] == t.history
    ensures WellFormed(r.1) && SameIdentity(t.cards, r.1.cards)
  {
    match IndexOf(t.cards, id)
    case None => (false, t)
    case Some(k) =>
      if t.top.Some? && FacesMatch(t.cards[t.top.value].face, t.cards[k].face) then (true, MatchAt(t, k))
      else (false, t)
  }

  /**
   * GameController::onUndoClicked: with a non-empty history the last command is popped; the
   * card it names gets its position, z-index and state back and the card it names as previous
   * top becomes the top again, but only when both ids resolve.
   */
  function Undo(t: Table): (r: Table)
    ensures t.history == [] ==> r == t
    ensures t.history != [] ==> r.history + [Last(t.history)] == t.history
  {
    if t.history == [] then t
    else Revert(t.(history := Pop(t.history).1), Pop(t.history).0)
  }

  /**
   * The restoring half of the undo button, on the table the command has already been popped from.
   * Nothing changes when either id of the command names no card; otherwise the named card
   * gets the recorded position, z-index and state back, the previous top is the top again,
   * and no other card changes.
   */
  function Revert(t: Table, cmd: UndoCommand): (r: Table)
    ensures r.history == t.history
    ensures IndexOf(t.cards, cmd.cardId).None? || IndexOf(t.cards, cmd.prevTopCardId).None? ==> r == t
    ensures IndexOf(t.cards, cmd.cardId).Some? && IndexOf(t.cards, cmd.prevTopCardId).Some? ==>
      var k := IndexOf(t.cards, cmd.cardId).value;
      && r.top == IndexOf(t.cards, cmd.prevTopCardId)
      && |r.cards| == |t.cards|
      && r.cards == t.cards[k := r.cards[k]]
      && r.cards[k].position == cmd.fromPos
      && r.cards[k].zIndex == cmd.prevZIndex
      && r.cards[k].state == cmd.prevState
      && r.cards[k].id == t.cards[k].id && r.cards[k].face == t.cards[k].face
      && r.cards[k].suit == t.cards[k].suit && r.cards[k].origin == t.cards[k].origin
  {
    var current, prevTop := IndexOf(t.cards, cmd.cardId), IndexOf(t.cards, cmd.prevTopCardId);
    if current.Some? && prevTop.Some? then
      var k := current.value;
      var restored := t.cards[k].(position := cmd.fromPos, zIndex := cmd.prevZIndex, state := cmd.prevState);
      Table(t.cards[k := restored], prevTop, t.history)
    else
      t
  }

  function Last<T>(s: seq<T>): T
    requires s != []
  {
    s[|s| - 1]
  }

  /** Ids never change, so uniqueness of ids is kept by every operation. */
  lemma SameIdentityKeepsUniqueIds(a: seq<CardRecord>, b: seq<CardRecord>)
    requires SameIdentity(a, b) && UniqueIds(a)
    ensures UniqueIds(b)
  {
  }

  lemma DrawPreservesInv(t: Table, id: int, activePos: Pos)
    requires Inv(t)
    ensures Inv(Draw(t, id, activePos).1)
  {
    SameIdentityKeepsUniqueIds(t.cards, Draw(t, id, activePos).1.cards);
  }

  lemma MatchPreservesInv(t: Table, id: int)
    requires Inv(t)
    ensures Inv(Match(t, id).1)
  {
    SameIdentityKeepsUniqueIds(t.cards, Match(t, id).1.cards);
  }

  /**
   * Undo never changes which card sits where in the pool, only positions, z-indices, states and
   * the top; the top it sets is a card of the pool, and a safe table stays safe.
   */
  lemma UndoKeepsShape(t: Table)
    ensures SameIdentity(t.cards, Undo(t).cards)
    ensures TopSafe(t) ==> TopSafe(Undo(t))
    ensures TopInRange(Undo(t)) || Undo(t).top == t.top
  {
    if t.history != [] {
      var u := t.(history := Pop(t.history).1);
      var cmd := Pop(t.history).0;
      assert Undo(t) == Revert(u, cmd);
      var current, prevTop := IndexOf(u.cards, cmd.cardId), IndexOf(u.cards, cmd.prevTopCardId);
      if current.Some? && prevTop.Some? {
        var k := current.value;
        assert Undo(t).cards == t.cards[k := Undo(t).cards[k]];
      }
    }
  }

  /** Undo keeps the invariant, whatever its history holds. */
  lemma UndoPreservesInv(t: Table)
    requires Inv(t)
    ensures Inv(Undo(t))
  {
    UndoKeepsShape(t);
    SameIdentityKeepsUniqueIds(t.cards, Undo(t).cards);
  }

  /** A draw is accepted exactly when some card has the id and is a face-down reserve card. */
  lemma DrawAcceptedIff(t: Table, id: int, activePos: Pos)
    requires Inv(t)
    ensures Draw(t, id, activePos).0 <==>
      exists i :: 0 <= i < |t.cards| && t.cards[i].id == id && IsReserve(t.cards[i]) && t.cards[i].state == FaceDown
  {
    if i :| 0 <= i < |t.cards| && t.cards[i].id == id && IsReserve(t.cards[i]) && t.cards[i].state == FaceDown {
      IndexOfUnique(t.cards, i);
    }
  }

  /** An accepted draw leaves the card face up on top at activePos, one above the old top; no other card changes. */
  lemma DrawEffect(t: Table, id: int, activePos: Pos)
    requires WellFormed(t) && Draw(t, id, activePos).0
    ensures var r, k := Draw(t, id, activePos).1, IndexOf(t.cards, id).value;
      && r.top == Some(k)
      && t.top.Some? && r.cards[k].zIndex == t.cards[t.top.value].zIndex + 1
      && r.cards[k].position == activePos && r.cards[k].state == FaceUp
      && (forall i :: 0 <= i < |t.cards| && i != k ==> r.cards[i] == t.cards[i])
      && Last(r.history) == UndoCommand(id, t.cards[k].position, t.cards[t.top.value].id, FaceDown, t.cards[k].zIndex)
  {
  }

  /** A match is accepted exactly when there is a top and some card with the id matches its face. */
  lemma MatchAcceptedIff(t: Table, id: int)
    requires Inv(t)
    ensures Match(t, id).0 <==>
      t.top.Some? &&
      exists i :: 0 <= i < |t.cards| && t.cards[i].id == id && FacesMatch(t.cards[t.top.value].face, t.cards[i].face)
  {
    if t.top.Some? {
      if i :| 0 <= i < |t.cards| && t.cards[i].id == id && FacesMatch(t.cards[t.top.value].face, t.cards[i].face) {
        IndexOfUnique(t.cards, i);
      }
    }
  }

  /**
   * An accepted match puts the card on the old top's position, one above it, and makes it the
   * top; no card's state changes, and no other card changes at all. The one command it pushes
   * holds the card's id, position, state and z-index before the move and the top's id.
   */
  lemma MatchEffect(t: Table, id: int)
    requires WellFormed(t) && Match(t, id).0
    ensures var r, k := Match(t, id).1, IndexOf(t.cards, id).value;
      && t.top.Some? && r.top == Some(k)
      && r.cards[k].position == t.cards[t.top.value].position
      && r.cards[k].zIndex == t.cards[t.top.value].zIndex + 1
      && (forall i :: 0 <= i < |t.cards| ==> r.cards[i].state == t.cards[i].state)
      && (forall i :: 0 <= i < |t.cards| && i != k ==> r.cards[i] == t.cards[i])
      && |r.history| == |t.history| + 1
      && Last(r.history) == UndoCommand(id, t.cards[k].position, t.cards[t.top.value].id, t.cards[k].state, t.cards[k].zIndex)
  {
  }

  /** Undoing an accepted draw gives back exactly the table before it. */
  lemma DrawThenUndo(t: Table, id: int, activePos: Pos)
    requires Inv(t) && Draw(t, id, activePos).0
    ensures Undo(Draw(t, id, activePos).1) == t
  {
    var r := Draw(t, id, activePos).1;
    var k := IndexOf(t.cards, id).value;
    var p := t.top.value;
    SameIdentityKeepsUniqueIds(t.cards, r.cards);
    IndexOfUnique(r.cards, k);
    IndexOfUnique(r.cards, p);
    assert Pop(r.history).1 == t.history;
    assert r.cards[k := t.cards[k]] == t.cards;
  }

  /** Undoing an accepted match gives back exactly the table before it. */
  lemma MatchThenUndo(t: Table, id: int)
    requires Inv(t) && Match(t, id).0
    ensures Undo(Match(t, id).1) == t
  {
    var r := Match(t, id).1;
    var k := IndexOf(t.cards, id).value;
    var p := t.top.value;
    SameIdentityKeepsUniqueIds(t.cards, r.cards);
    IndexOfUnique(r.cards, k);
    IndexOfUnique(r.cards, p);
    assert Pop(r.history).1 == t.history;
    assert r.cards[k := t.cards[k]] == t.cards;
  }

  // ----- sequences of clicks and the undo button -----

  datatype Action = DrawCard(id: int) | MatchCard(id: int)

  /** One click: on a reserve card view (a draw) or on a board card view (a match). */
  function Step(t: Table, a: Action, activePos: Pos): (r: (bool, Table))
    requires WellFormed(t)
    ensures WellFormed(r.1)
  {
    match a
    case DrawCard(id) => Draw(t, id, activePos)
    case MatchCard(id) => Match(t, id)
  }

  function Run(t: Table, acts: seq<Action>, activePos: Pos): (r: Table)
    requires WellFormed(t)
    ensures WellFormed(r)
    decreases |acts|
  {
    if acts == [] then t else Run(Step(t, acts[0], activePos).1, acts[1..], activePos)
  }

  /** Every click of the sequence is accepted, each on the table the previous ones left. */
  predicate AllAccepted(t: Table, acts: seq<Action>, activePos: Pos)
    requires WellFormed(t)
    decreases |acts|
  {
    acts == []
    || (Step(t, acts[0], activePos).0 && AllAccepted(Step(t, acts[0], activePos).1, acts[1..], activePos))
  }

  /** Pressing the undo button n times. */
  function UndoTimes(t: Table, n: nat): Table
    decreases n
  {
    if n == 0 then t else UndoTimes(Undo(t), n - 1)
  }

  lemma StepPreservesInv(t: Table, a: Action, activePos: Pos)
    requires Inv(t)
    ensures Inv(Step(t, a, activePos).1)
  {
    match a
    case DrawCard(id) => DrawPreservesInv(t, id, activePos);
    case MatchCard(id) => MatchPreservesInv(t, id);
  }

  lemma StepThenUndo(t: Table, a: Action, activePos: Pos)
    requires Inv(t) && Step(t, a, activePos).0
    ensures Undo(Step(t, a, activePos).1) == t
  {
    match a
    case DrawCard(id) => DrawThenUndo(t, id, activePos);
    case MatchCard(id) => MatchThenUndo(t, id);
  }

  lemma {:induction false} UndoTimesSplit(t: Table, a: nat, b: nat)
    ensures UndoTimes(t, a + b) == UndoTimes(UndoTimes(t, a), b)
    decreases a
  {
    if a > 0 {
      var u := Undo(t);
      assert UndoTimes(t, a + b) == UndoTimes(u, (a - 1) + b);
      assert UndoTimes(t, a) == UndoTimes(u, a - 1);
      UndoTimesSplit(u, a - 1, b);
    }
  }

  /** Each accepted click adds one command; the earlier ones stay below it. */
  lemma {:induction false} RunHistory(t: Table, acts: seq<Action>, activePos: Pos)
    requires WellFormed(t) && AllAccepted(t, acts, activePos)
    ensures |Run(t, acts, activePos).history| == |t.history| + |acts|
    ensures Run(t, acts, activePos).history[..|t.history|] == t.history
    decreases |acts|
  {
    if acts != [] {
      var t1 := Step(t, acts[0], activePos).1;
      RunHistory(t1, acts[1..], activePos);
      var h := Run(t, acts, activePos).history;
      assert h[..|t.history|] == h[..|t1.history|][..|t.history|];
    }
  }

  /** Undoing as many times as there were accepted clicks gives back the starting table. */
  lemma {:induction false} RunThenUndoAll(t: Table, acts: seq<Action>, activePos: Pos)
    requires Inv(t) && AllAccepted(t, acts, activePos)
    ensures UndoTimes(Run(t, acts, activePos), |acts|) == t
    decreases |acts|
  {
    if acts != [] {
      var t1, rest := Step(t, acts[0], activePos).1, acts[1..];
      var n := |rest|;
      assert n + 1 == |acts|;
      var r := Run(t1, rest, activePos);
      assert Run(t, acts, activePos) == r;
      StepPreservesInv(t, acts[0], activePos);
      RunThenUndoAll(t1, rest, activePos);
      assert UndoTimes(r, n) == t1;
      UndoTimesSplit(r, n, 1);
      assert UndoTimes(t1, 1) == UndoTimes(Undo(t1), 0);
      StepThenUndo(t, acts[0], activePos);
    }
  }

  /** Undo on an empty history changes nothing, however often it is pressed. */
  lemma {:induction false} UndoTimesOnEmptyHistory(t: Table, n: nat)
    requires t.history == []
    ensures UndoTimes(t, n) == t
    decreases n
  {
    if n > 0 {
      UndoTimesOnEmptyHistory(Undo(t), n - 1);
    }
  }

  /** From a table without history, extra presses beyond the accepted clicks change nothing more. */
  lemma UndoBeyondHistory(t: Table, acts: seq<Action>, activePos: Pos, extra: nat)
    requires Inv(t) && t.history == [] && AllAccepted(t, acts, activePos)
    ensures UndoTimes(Run(t, acts, activePos), |acts| + extra) == t
  {
    UndoTimesSplit(Run(t, acts, activePos), |acts|, extra);
    RunThenUndoAll(t, acts, activePos);
    UndoTimesOnEmptyHistory(t, extra);
  }

  // ----- the initial layout -----

  /** Indices below n of the reserve cards, in pool order: the list StackController::initView filters. */
  function ReserveIndicesUpTo(cards: seq<CardRecord>, n: nat): seq<nat>
    requires n <= |cards|
    decreases n
  {
    if n == 0 then []
    else ReserveIndicesUpTo(cards, n - 1) + (if IsReserve(cards[n - 1]) then [n - 1] else [])
  }

  function ReserveIndices(cards: seq<CardRecord>): seq<nat> {
    ReserveIndicesUpTo(cards, |cards|)
  }

  /** How many reserve cards come before index i. */
  function ReserveRank(cards: seq<CardRecord>, i: nat): nat
    requires i <= |cards|
  {
    |ReserveIndicesUpTo(cards, i)|
  }

  /** The filtered list holds exactly the reserve cards, each at the position given by its rank. */
  lemma {:induction false} ReserveIndicesFacts(cards: seq<CardRecord>, n: nat)
    requires n <= |cards|
    ensures var r := ReserveIndicesUpTo(cards, n);
      forall j :: 0 <= j < |r| ==> r[j] < n && IsReserve(cards[r[j]]) && ReserveRank(cards, r[j]) == j
    ensures var r := ReserveIndicesUpTo(cards, n);
      forall m :: 0 <= m < n && IsReserve(cards[m]) ==> ReserveRank(cards, m) < |r| && r[ReserveRank(cards, m)] == m
    decreases n
  {
    if n > 0 {
      ReserveIndicesFacts(cards, n - 1);
    }
  }

  /** A reserve card has a smaller rank than every later card. */
  lemma {:induction false} RankIncreases(cards: seq<CardRecord>, i: nat, j: nat)
    requires i < j <= |cards| && IsReserve(cards[i])
    ensures ReserveRank(cards, i) < ReserveRank(cards, j)
    decreases j
  {
    if j > i + 1 {
      RankIncreases(cards, i, j - 1);
    }
  }

  const StockOffsetX := 70
  const ActiveZIndex := 100

  /** Where initView puts the reserve card of the given rank out of count: the last one face up on the active pile, the others fanned out face down on the stock. */
  function LayoutCard(c: CardRecord, rank: nat, count: nat, stockPos: Pos, activePos: Pos): CardRecord {
    if rank == count - 1 then c.(position := activePos, zIndex := ActiveZIndex, state := FaceUp)
    else c.(position := Add(stockPos, Pos(rank * StockOffsetX, 0)), zIndex := rank, state := FaceDown)
  }

  function LaidOutCard(cards: seq<CardRecord>, i: int, stockPos: Pos, activePos: Pos): CardRecord
    requires 0 <= i < |cards|
  {
    if IsReserve(cards[i]) then
      LayoutCard(cards[i], ReserveRank(cards, i), |ReserveIndices(cards)|, stockPos, activePos)
    else cards[i]
  }

  /** StackController::initView on the data: the reserve layout, and the last reserve card as top. */
  function ReserveLayout(t: Table, stockPos: Pos, activePos: Pos): (r: Table)
    ensures SameIdentity(t.cards, r.cards) && r.history == t.history
    ensures forall i :: 0 <= i < |t.cards| && !IsReserve(t.cards[i]) ==> r.cards[i] == t.cards[i]
  {
    var ids := ReserveIndices(t.cards);
    Table(
      seq(|t.cards|, i requires 0 <= i < |t.cards| => LaidOutCard(t.cards, i, stockPos, activePos)),
      if ids == [] then t.top else Some(ids[|ids| - 1]),
      t.history)
  }

  /** The pool after the first j reserve cards of the filtered list have been laid out. */
  function LayoutUpTo(cards: seq<CardRecord>, j: nat, stockPos: Pos, activePos: Pos): (r: seq<CardRecord>)
    ensures |r| == |cards|
  {
    seq(|cards|, i requires 0 <= i < |cards| =>
      if IsReserve(cards[i]) && ReserveRank(cards, i) < j then LaidOutCard(cards, i, stockPos, activePos) else cards[i])
  }

  lemma LayoutUpToStart(cards: seq<CardRecord>, stockPos: Pos, activePos: Pos)
    ensures LayoutUpTo(cards, 0, stockPos, activePos) == cards
  {
  }

  /** Laying out the j-th card of the filtered list changes that one card of the pool. */
  lemma LayoutUpToStep(cards: seq<CardRecord>, j: nat, stockPos: Pos, activePos: Pos)
    requires j < |ReserveIndices(cards)|
    ensures var k := ReserveIndices(cards)[j];
      k < |cards| && ReserveRank(cards, k) == j && IsReserve(cards[k])
      && LayoutUpTo(cards, j, stockPos, activePos)[k] == cards[k]
      && LaidOutCard(cards, k, stockPos, activePos) == LayoutCard(cards[k], j, |ReserveIndices(cards)|, stockPos, activePos)
      && LayoutUpTo(cards, j + 1, stockPos, activePos)
        == LayoutUpTo(cards, j, stockPos, activePos)[k := LaidOutCard(cards, k, stockPos, activePos)]
  {
    ReserveIndicesFacts(cards, |cards|);
    var k := ReserveIndices(cards)[j];
    var a, b := LayoutUpTo(cards, j + 1, stockPos, activePos), LayoutUpTo(cards, j, stockPos, activePos);
    forall i | 0 <= i < |cards| && i != k
      ensures a[i] == b[i]
    {
    }
  }

  /** Once every card of the filtered list is laid out, the pool is the one of ReserveLayout. */
  lemma LayoutUpToEnd(t: Table, stockPos: Pos, activePos: Pos)
    ensures LayoutUpTo(t.cards, |ReserveIndices(t.cards)|, stockPos, activePos) == ReserveLayout(t, stockPos, activePos).cards
  {
    ReserveIndicesFacts(t.cards, |t.cards|);
  }

  /** Without reserve cards the layout changes nothing. */
  lemma NoReserveNoLayout(t: Table, stockPos: Pos, activePos: Pos)
    requires ReserveIndices(t.cards) == []
    ensures ReserveLayout(t, stockPos, activePos) == t
    ensures forall i :: 0 <= i < |t.cards| ==> !IsReserve(t.cards[i])
  {
    ReserveIndicesFacts(t.cards, |t.cards|);
    assert ReserveLayout(t, stockPos, activePos).cards == t.cards;
  }

  /**
   * After the layout there is a top exactly when there is a reserve card; the top is the last
   * reserve card in pool order, face up on the active pile at z-index 100, and it is the only
   * face-up reserve card.
   */
  lemma ReserveLayoutTop(t: Table, stockPos: Pos, activePos: Pos)
    requires TopInRange(t)
    ensures var r := ReserveLayout(t, stockPos, activePos);
      WellFormed(r) && SameIdentity(t.cards, r.cards) && r.history == t.history
    ensures (exists i :: 0 <= i < |t.cards| && IsReserve(t.cards[i])) <==> ReserveIndices(t.cards) != []
    ensures ReserveIndices(t.cards) == [] ==> ReserveLayout(t, stockPos, activePos) == t
    ensures var r := ReserveLayout(t, stockPos, activePos);
      ReserveIndices(t.cards) != [] ==>
        && r.top.Some?
        && IsReserve(r.cards[r.top.value])
        && r.cards[r.top.value].position == activePos
        && r.cards[r.top.value].zIndex == ActiveZIndex
        && (forall j :: r.top.value < j < |t.cards| ==> !IsReserve(t.cards[j]))
        && (forall i :: 0 <= i < |t.cards| && IsReserve(t.cards[i]) ==> (r.cards[i].state == FaceUp <==> r.top == Some(i)))
  {
    var ids := ReserveIndices(t.cards);
    var r := ReserveLayout(t, stockPos, activePos);
    ReserveIndicesFacts(t.cards, |t.cards|);
    if ids == [] {
      NoReserveNoLayout(t, stockPos, activePos);
    } else {
      var last := ids[|ids| - 1];
      forall j | last < j < |t.cards| ensures !IsReserve(t.cards[j]) {
        if IsReserve(t.cards[j]) {
          RankIncreases(t.cards, last, j);
        }
      }
      forall i | 0 <= i < |t.cards| && IsReserve(t.cards[i])
        ensures r.cards[i].state == FaceUp <==> r.top == Some(i)
      {
        if ReserveRank(t.cards, i) == |ids| - 1 {
          assert i == last;
        }
      }
    }
  }

  /** A reserve card other than the new top is laid out by its rank on the stock. */
  lemma StockCard(t: Table, stockPos: Pos, activePos: Pos, i: nat)
    requires i < |t.cards| && IsReserve(t.cards[i]) && ReserveLayout(t, stockPos, activePos).top != Some(i)
    ensures var rank := ReserveRank(t.cards, i);
      && rank < |ReserveIndices(t.cards)| - 1
      && ReserveLayout(t, stockPos, activePos).cards[i]
        == t.cards[i].(position := Add(stockPos, Pos(rank * StockOffsetX, 0)), zIndex := rank, state := FaceDown)
  {
    var ids := ReserveIndices(t.cards);
    ReserveIndicesFacts(t.cards, |t.cards|);
    assert ReserveRank(t.cards, i) < |ids| && ids[ReserveRank(t.cards, i)] == i;
  }

  /**
   * The other reserve cards lie face down on the stock at y of stockPos, the one of z-index k at
   * 70 times k to the right of stockPos, k being below the number of reserve cards less one.
   */
  lemma ReserveLayoutStock(t: Table, stockPos: Pos, activePos: Pos)
    ensures var r := ReserveLayout(t, stockPos, activePos);
      forall i :: 0 <= i < |t.cards| && IsReserve(t.cards[i]) && r.top != Some(i) ==>
        && r.cards[i].state == FaceDown
        && r.cards[i].position.y == stockPos.y
        && r.cards[i].position.x == stockPos.x + StockOffsetX * r.cards[i].zIndex
        && 0 <= r.cards[i].zIndex < |ReserveIndices(t.cards)| - 1
  {
    var r := ReserveLayout(t, stockPos, activePos);
    forall i | 0 <= i < |t.cards| && IsReserve(t.cards[i]) && r.top != Some(i)
      ensures r.cards[i].state == FaceDown && r.cards[i].position.y == stockPos.y
      ensures r.cards[i].position.x == stockPos.x + StockOffsetX * r.cards[i].zIndex
      ensures 0 <= r.cards[i].zIndex < |ReserveIndices(t.cards)| - 1
    {
      StockCard(t, stockPos, activePos, i);
    }
  }

  /** On the stock, z-indexes follow pool order, so a card later in the pool lies on top and further right. */
  lemma ReserveLayoutStockOrdered(t: Table, stockPos: Pos, activePos: Pos)
    ensures var r := ReserveLayout(t, stockPos, activePos);
      forall i, j ::
        (0 <= i < j < |t.cards| && IsReserve(t.cards[i]) && IsReserve(t.cards[j])
          && r.top != Some(i) && r.top != Some(j)) ==>
        r.cards[i].zIndex < r.cards[j].zIndex && r.cards[i].position.x < r.cards[j].position.x
  {
    var r := ReserveLayout(t, stockPos, activePos);
    forall i: nat, j: nat | i < j < |t.cards| && IsReserve(t.cards[i]) && IsReserve(t.cards[j])
        && r.top != Some(i) && r.top != Some(j)
      ensures r.cards[i].zIndex < r.cards[j].zIndex && r.cards[i].position.x < r.cards[j].position.x
    {
      StockCard(t, stockPos, activePos, i);
      StockCard(t, stockPos, activePos, j);
      RankIncreases(t.cards, i, j);
    }
  }

  const PlayFieldOffsetY := 250

  function ShiftedUp(c: CardRecord): CardRecord {
    if IsReserve(c) then c else c.(position := Pos(c.position.x, c.position.y + PlayFieldOffsetY))
  }

  /** PlayFieldController::initView on the data: every board card moves up by 250; nothing else changes. */
  function PlayFieldLayout(t: Table): (r: Table)
    ensures |r.cards| == |t.cards| && r.top == t.top && r.history == t.history
    ensures forall i :: 0 <= i < |t.cards| ==> r.cards[i] == ShiftedUp(t.cards[i])
  {
    t.(cards := seq(|t.cards|, i requires 0 <= i < |t.cards| => ShiftedUp(t.cards[i])))
  }

  /** The pool after the first i cards have been visited by the board layout loop. */
  function ShiftedUpTo(cards: seq<CardRecord>, i: nat): (r: seq<CardRecord>)
    ensures |r| == |cards|
  {
    seq(|cards|, m requires 0 <= m < |cards| => if m < i then ShiftedUp(cards[m]) else cards[m])
  }

  lemma ShiftedUpToStep(cards: seq<CardRecord>, i: nat)
    requires i < |cards|
    ensures ShiftedUpTo(cards, i)[i] == cards[i]
    ensures ShiftedUpTo(cards, i + 1) == ShiftedUpTo(cards, i)[i := ShiftedUp(cards[i])]
  {
  }

  lemma ShiftedUpToEnds(t: Table)
    ensures ShiftedUpTo(t.cards, 0) == t.cards
    ensures t.(cards := ShiftedUpTo(t.cards, |t.cards|)) == PlayFieldLayout(t)
  {
  }

  lemma PlayFieldLayoutInv(t: Table)
    requires Inv(t)
    ensures Inv(PlayFieldLayout(t)) && SameIdentity(t.cards, PlayFieldLayout(t).cards)
  {
    SameIdentityKeepsUniqueIds(t.cards, PlayFieldLayout(t).cards);
  }

  /** The table a level starts from: the generated pool laid out by both controllers, with no history. */
  function InitialTable(config: LevelConfig, stockPos: Pos, activePos: Pos): (r: Table)
    ensures r.history == []
    ensures |r.cards| == |config.playFieldCards| + |config.stackCards|
    ensures SameIdentity(GeneratedCards(config), r.cards)
    ensures forall i :: 0 <= i < |r.cards| ==> r.cards[i].id == i
  {
    PlayFieldLayout(ReserveLayout(Table(GeneratedCards(config), None, []), stockPos, activePos))
  }

  /** The layout establishes the invariant on a pool with unique ids, whatever the top was. */
  lemma ReserveLayoutInv(t: Table, stockPos: Pos, activePos: Pos)
    requires TopInRange(t) && UniqueIds(t.cards)
    ensures Inv(ReserveLayout(t, stockPos, activePos))
  {
    ReserveLayoutTop(t, stockPos, activePos);
    SameIdentityKeepsUniqueIds(t.cards, ReserveLayout(t, stockPos, activePos).cards);
  }

  /** A level starts in the invariant. */
  lemma InitialTableInv(config: LevelConfig, stockPos: Pos, activePos: Pos)
    ensures Inv(InitialTable(config, stockPos, activePos))
  {
    var t0 := Table(GeneratedCards(config), None, []);
    GeneratedIdsUnique(config);
    ReserveLayoutInv(t0, stockPos, activePos);
    PlayFieldLayoutInv(ReserveLayout(t0, stockPos, activePos));
  }

  /** Both layouts together move a board card up by 250 and change nothing else on it. */
  lemma BothLayoutsOnBoard(t: Table, stockPos: Pos, activePos: Pos, i: nat)
    requires i < |t.cards| && !IsReserve(t.cards[i])
    ensures var r := PlayFieldLayout(ReserveLayout(t, stockPos, activePos));
      i < |r.cards| && !IsReserve(r.cards[i]) && r.cards[i] == ShiftedUp(t.cards[i])
  {
  }

  /** Every board card starts where its entry puts it, moved 250 up, face up if it came from the board list. */
  lemma InitialBoardCards(config: LevelConfig, stockPos: Pos, activePos: Pos)
    ensures var t, n := InitialTable(config, stockPos, activePos), |config.playFieldCards|;
      forall i :: 0 <= i < |t.cards| && !IsReserve(t.cards[i]) ==>
        var e := if i < n then config.playFieldCards[i] else config.stackCards[i - n];
        && t.cards[i].state == (if i < n then FaceUp else FaceDown)
        && t.cards[i].position == Pos(e.position.x, e.position.y + PlayFieldOffsetY)
  {
    var g := GeneratedCards(config);
    var t := InitialTable(config, stockPos, activePos);
    forall i | 0 <= i < |t.cards| && !IsReserve(t.cards[i])
      ensures t.cards[i] == ShiftedUp(GeneratedCard(config, i))
    {
      assert g[i].origin == t.cards[i].origin;
      BothLayoutsOnBoard(Table(g, None, []), stockPos, activePos, i);
    }
  }
}
