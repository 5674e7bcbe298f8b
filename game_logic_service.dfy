/**
 * The rule and the primitive writers (Classes/services/GameLogicService.cpp).
 */
module LogicService {
  import opened GameConsts
  import opened Positions
  import opened CardModels

  function AbsInt(x: int): nat {
    if x < 0 then -x else x
  }

  /** canMatch on the two faces: they differ by one, or one is Ace and the other King. */
  predicate FacesMatch(a: CardFaceType, b: CardFaceType): (r: bool)
    ensures r ==> a != b
  {
    var fa, fb := FaceValue(a), FaceValue(b);
    AbsInt(fa - fb) == 1
    || (fa == FaceValue(Ace) && fb == FaceValue(King))
    || (fa == FaceValue(King) && fb == FaceValue(Ace))
  }

  /** canMatch: false for a missing card; on two real faces, exactly circular adjacency. */
  function CanMatch(handCard: CardModel?, fieldCard: CardModel?): (r: bool)
    reads handCard, fieldCard
    ensures r ==> handCard != null && fieldCard != null
    ensures handCard != null && fieldCard != null ==> (r <==> FacesMatch(handCard.face, fieldCard.face))
    ensures handCard != null && fieldCard != null && handCard.face != FaceNone && fieldCard.face != FaceNone ==>
      (r <==> CircularNeighbours(handCard.face, fieldCard.face))
  {
    if handCard == null || fieldCard == null then false
    else if handCard.face != FaceNone && fieldCard.face != FaceNone then
      FacesMatchIsCircularAdjacency(handCard.face, fieldCard.face);
      FacesMatch(handCard.face, fieldCard.face)
    else
      FacesMatch(handCard.face, fieldCard.face)
  }

  /** Reference definition: the two real faces are neighbours on the circle Ace, Two, ..., King, Ace. */
  predicate CircularNeighbours(a: CardFaceType, b: CardFaceType) {
    (FaceValue(a) + 1) % NumCardFaceTypes == FaceValue(b)
    || (FaceValue(b) + 1) % NumCardFaceTypes == FaceValue(a)
  }

  lemma FacesMatchIsCircularAdjacency(a: CardFaceType, b: CardFaceType)
    requires a != FaceNone && b != FaceNone
    ensures FacesMatch(a, b) <==> CircularNeighbours(a, b)
  {
    assert FaceValue(Ace) == 0 && FaceValue(King) == NumCardFaceTypes - 1;
    ValuesAdjacentOnCircle(FaceValue(a), FaceValue(b));
  }

  /** The same statement on the two face values. */
  lemma ValuesAdjacentOnCircle(fa: int, fb: int)
    requires 0 <= fa < NumCardFaceTypes && 0 <= fb < NumCardFaceTypes
    ensures AbsInt(fa - fb) == 1 || (fa == 0 && fb == NumCardFaceTypes - 1) || (fa == NumCardFaceTypes - 1 && fb == 0)
      <==> (fa + 1) % NumCardFaceTypes == fb || (fb + 1) % NumCardFaceTypes == fa
  {
    SuccessorOnCircle(fa);
    SuccessorOnCircle(fb);
  }

  lemma SuccessorOnCircle(v: int)
    requires 0 <= v < NumCardFaceTypes
    ensures (v + 1) % NumCardFaceTypes == if v == NumCardFaceTypes - 1 then 0 else v + 1
  {
  }

  lemma FacesMatchSymmetric(a: CardFaceType, b: CardFaceType)
    ensures FacesMatch(a, b) == FacesMatch(b, a)
  {
  }

  /** As written, a card without a face (value -1) matches an Ace and nothing else. */
  lemma NoFaceMatchesOnlyAce(b: CardFaceType)
    ensures FacesMatch(FaceNone, b) <==> b == Ace
  {
    if FaceValue(b) == 0 {
      FaceValueInjective(b, Ace);
    }
  }

  /** Writes position and z-index, nothing else; a null card is left alone. */
  method ApplyMove(card: CardModel?, targetPos: Pos, newZIndex: int)
    modifies card
    ensures card != null ==> card.Value() == old(card.Value()).(position := targetPos, zIndex := newZIndex)
  {
    if card != null {
      card.SetPosition(targetPos);
      card.SetZIndex(newZIndex);
    }
  }

  /** Writes the state, nothing else; so a second call with the same state changes nothing more. */
  method ApplyStateChange(card: CardModel?, newState: CardState)
    modifies card
    ensures card != null ==> card.Value() == old(card.Value()).(state := newState)
  {
    if card != null {
      card.SetState(newState);
    }
  }
}
