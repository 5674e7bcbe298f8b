/**
 * The card pool of one level (Classes/models/GameModel.h): a sequence of card objects,
 * searched linearly by id.
 */
module GameModels {
  import opened Wrappers
  import opened CardModels

  /** The values of the cards, in pool order. */
  function Snapshot(cs: seq<CardModel>): (r: seq<CardRecord>)
    reads cs
    ensures |r| == |cs|
    ensures forall i :: 0 <= i < |cs| ==> r[i] == cs[i].Value()
  {
    seq(|cs|, i requires 0 <= i < |cs| reads cs => cs[i].Value())
  }

  /** No card object occurs twice in the pool. */
  predicate Distinct(cs: seq<CardModel>) {
    forall i, j :: 0 <= i < j < |cs| ==> cs[i] != cs[j]
  }

  predicate UniqueIds(cards: seq<CardRecord>) {
    forall i, j :: 0 <= i < j < |cards| ==> cards[i].id != cards[j].id
  }

  /** Index of the first card with the given id, if there is one. */
  function IndexOf(cards: seq<CardRecord>, id: int): (r: Option<nat>)
    ensures r.Some? <==> exists i :: 0 <= i < |cards| && cards[i].id == id
    ensures r.Some? ==> r.value < |cards| && cards[r.value].id == id
    ensures r.Some? ==> forall j :: 0 <= j < r.value ==> cards[j].id != id
  {
    if cards == [] then None
    else if cards[0].id == id then Some(0)
    else
      match IndexOf(cards[1..], id)
      case None =>
        assert forall i :: 1 <= i < |cards| ==> cards[i] == cards[1..][i - 1];
        None
      case Some(k) => Some(k + 1)
  }

  /** With unique ids, looking up a card's id finds that very card. */
  lemma IndexOfUnique(cards: seq<CardRecord>, i: nat)
    requires UniqueIds(cards) && i < |cards|
    ensures IndexOf(cards, cards[i].id) == Some(i)
  {
  }

  class GameModel {
    var allCards: seq<CardModel>

    constructor ()
      ensures allCards == []
    {
      allCards := [];
    }

    /** The first card with the given id, or null when no card has it. */
    method GetCardById(id: int) returns (card: CardModel?)
      ensures card == null <==> IndexOf(Snapshot(allCards), id).None?
      ensures card != null ==> card == allCards[IndexOf(Snapshot(allCards), id).value]
    {
      var i := 0;
      while i < |allCards|
        invariant 0 <= i <= |allCards|
        invariant forall j :: 0 <= j < i ==> allCards[j].id != id
      {
        if allCards[i].id == id {
          return allCards[i];
        }
        i := i + 1;
      }
      return null;
    }

    method AddCard(card: CardModel)
      modifies this
      ensures allCards == old(allCards) + [card]
    {
      allCards := allCards + [card];
    }

    method Clear()
      modifies this
      ensures allCards == []
    {
      allCards := [];
    }
  }
}
